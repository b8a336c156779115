/**
 * Length-prefixed datagrams over a byte stream: writeDatagram, readDatagram and the two relay
 * loops of bridgeUDP.
 */
module Datagrams {
  import opened Bytes
  import opened ByteStreams

  const MAX_DATAGRAM: nat := 65535

  type Datagram = d: Bytes | |d| <= MAX_DATAGRAM

  function Frame(d: Datagram): Bytes {
    PutUint16(|d|) + d
  }

  function Frames(ds: seq<Datagram>): Bytes {
    if ds == [] then [] else Frame(ds[0]) + Frames(ds[1..])
  }

  datatype ParsedFrame =
    | Got(datagram: Datagram, rest: Bytes)
    | TooLong
    | Short

  /** One datagram off the front of a stream, by a reader whose buffer has `capacity` bytes. */
  function ParseFrame(s: Bytes, capacity: nat): (p: ParsedFrame)
    ensures p.Got? ==> |p.rest| < |s| && |p.datagram| <= capacity
  {
    if |s| < 2 then Short else
    var n := Uint16(s[..2]);
    if n > capacity then TooLong
    else if |s| < 2 + n then Short
    else Got(s[2..2 + n], s[2 + n..])
  }

  /** Every datagram that a read loop takes off a stream before its first error. */
  function DecodeAll(s: Bytes, capacity: nat): seq<Datagram>
    decreases |s|
  {
    match ParseFrame(s, capacity)
    case Got(d, rest) => [d] + DecodeAll(rest, capacity)
    case _ => []
  }

  /** The number of datagrams that lie entirely within the first `cut` bytes of Frames(ds). */
  function WholeFrames(ds: seq<Datagram>, cut: nat): (k: nat)
    ensures k <= |ds|
  {
    if ds == [] || cut < |Frame(ds[0])| then 0
    else 1 + WholeFrames(ds[1..], cut - |Frame(ds[0])|)
  }

  /** Parsing undoes framing and nothing else parses: frames are uniquely decodable. */
  lemma ParseFrameExact(s: Bytes, d: Datagram, rest: Bytes)
    ensures ParseFrame(s, MAX_DATAGRAM) == Got(d, rest) <==> s == Frame(d) + rest
  {
    if s == Frame(d) + rest {
      ParseOfFrame(d, rest);
    }
    if ParseFrame(s, MAX_DATAGRAM) == Got(d, rest) {
      FrameOfParse(s);
    }
  }

  /** A frame is the length in two bytes, the most significant first, and then the datagram. */
  lemma FrameLayout(d: Datagram)
    ensures |d| < Pow256(2) && Frame(d) == BigEndian(|d|, 2) + d
    ensures Pow256(2) == MAX_DATAGRAM + 1
  {
    Uint16IsBigEndian(|d|);
  }

  lemma ParseOfFrame(d: Datagram, rest: Bytes)
    ensures ParseFrame(Frame(d) + rest, MAX_DATAGRAM) == Got(d, rest)
  {
    var s := Frame(d) + rest;
    var n := |d|;
    assert s[..2] == PutUint16(n);
    Uint16Inverse(n, s[..2]);
    assert s[2..2 + n] == d;
    assert s[2 + n..] == rest;
  }

  lemma FrameOfParse(s: Bytes)
    requires ParseFrame(s, MAX_DATAGRAM).Got?
    ensures s == var p := ParseFrame(s, MAX_DATAGRAM); Frame(p.datagram) + p.rest
  {
    var n := Uint16(s[..2]);
    Uint16Inverse(n, s[..2]);
    assert s == (s[..2] + s[2..2 + n]) + s[2 + n..];
  }

  /** No read of a frame that has been cut short returns a datagram. */
  lemma TornFrame(d: Datagram, torn: Bytes)
    requires torn <= Frame(d) && torn != Frame(d)
    ensures ParseFrame(torn, MAX_DATAGRAM) == Short
  {
    if |torn| >= 2 {
      assert torn[..2] == Frame(d)[..2] == PutUint16(|d|);
      Uint16Inverse(|d|, torn[..2]);
    }
  }

  /** A cut inside the first frame leaves nothing to decode; a later one leaves the first datagram. */
  lemma CutFirst(d: Datagram, rest: Bytes, cut: nat)
    requires cut <= |Frame(d)| + |rest|
    ensures DecodeAll((Frame(d) + rest)[..cut], MAX_DATAGRAM) ==
            if cut < |Frame(d)| then [] else [d] + DecodeAll(rest[..cut - |Frame(d)|], MAX_DATAGRAM)
  {
    if cut < |Frame(d)| {
      assert (Frame(d) + rest)[..cut] == Frame(d)[..cut];
      TornFrame(d, Frame(d)[..cut]);
    } else {
      TakeConcat(Frame(d), rest, cut);
      DecodeFirst(d, rest[..cut - |Frame(d)|]);
    }
  }

  /**
   * Whatever the point at which the stream is cut, the datagrams decoded are exactly those
   * whose frames are whole.
   */
  lemma {:induction false} CutDecodes(ds: seq<Datagram>, cut: nat)
    requires cut <= |Frames(ds)|
    ensures DecodeAll(Frames(ds)[..cut], MAX_DATAGRAM) == ds[..WholeFrames(ds, cut)]
  {
    if ds != [] {
      var first, others := ds[0], ds[1..];
      CutFirst(first, Frames(others), cut);
      if cut >= |Frame(first)| {
        CutDecodes(others, cut - |Frame(first)|);
        TakeFirst(ds, WholeFrames(others, cut - |Frame(first)|));
      }
    }
  }

  /** WholeFrames is the largest number of datagrams whose frames fit into the cut. */
  lemma {:induction false} WholeFramesMaximal(ds: seq<Datagram>, cut: nat, k: nat)
    requires k <= |ds|
    ensures |Frames(ds[..k])| <= cut <==> k <= WholeFrames(ds, cut)
    decreases |ds|
  {
    if k > 0 {
      assert ds[..k][0] == ds[0] && ds[..k][1..] == ds[1..][..k - 1];
      if |Frame(ds[0])| <= cut {
        WholeFramesMaximal(ds[1..], cut - |Frame(ds[0])|, k - 1);
      }
    }
  }

  lemma {:induction false} FramesAppend(a: seq<Datagram>, b: seq<Datagram>)
    ensures Frames(a + b) == Frames(a) + Frames(b)
  {
    if a == [] {
      assert a + b == b;
    } else {
      assert (a + b)[1..] == a[1..] + b;
      FramesAppend(a[1..], b);
      Assoc(Frame(a[0]), Frames(a[1..]), Frames(b));
    }
  }

  lemma FramesSnoc(ds: seq<Datagram>, d: Datagram)
    ensures Frames(ds + [d]) == Frames(ds) + Frame(d)
  {
    FramesAppend(ds, [d]);
    assert Frames([d]) == Frame(d);
  }

  /** A stream that carries the frames of `ds` and nothing else decodes to `ds`. */
  lemma DecodeFrames(ds: seq<Datagram>)
    ensures DecodeAll(Frames(ds), MAX_DATAGRAM) == ds
  {
    CutDecodes(ds, |Frames(ds)|);
    WholeFramesMaximal(ds, |Frames(ds)|, |ds|);
    assert ds[..|ds|] == ds;
    assert Frames(ds)[..|Frames(ds)|] == Frames(ds);
  }

  lemma DecodeFirst(d: Datagram, rest: Bytes)
    ensures DecodeAll(Frame(d) + rest, MAX_DATAGRAM) == [d] + DecodeAll(rest, MAX_DATAGRAM)
  {
    ParseOfFrame(d, rest);
  }

  lemma {:induction false} DecodeAfterFrames(ds: seq<Datagram>, rest: Bytes)
    ensures DecodeAll(Frames(ds) + rest, MAX_DATAGRAM) == ds + DecodeAll(rest, MAX_DATAGRAM)
  {
    if ds == [] {
      assert Frames(ds) + rest == rest;
    } else {
      var first, others := ds[0], ds[1..];
      Assoc(Frame(first), Frames(others), rest);
      DecodeFirst(first, Frames(others) + rest);
      DecodeAfterFrames(others, rest);
      Assoc([first], others, DecodeAll(rest, MAX_DATAGRAM));
      assert ds == [first] + others;
    }
  }

  datatype DatagramError = TooLarge | Stream(error: IOError)

  datatype DatagramStatus = Done | Broken(error: DatagramError)

  /** Frames buf[..n] in scratch and writes it as one stream write. */
  method WriteDatagram(w: Writer, scratch: array<Byte>, buf: array<Byte>, n: nat)
    returns (status: DatagramStatus, ghost cut: nat)
    requires n <= buf.Length && scratch != buf
    requires n <= MAX_DATAGRAM ==> n + 2 <= scratch.Length
    modifies w, scratch
    ensures n > 65535 <==> status == Broken(TooLarge)
    ensures n > 65535 ==> w.wire == old(w.wire) && w.attempts == old(w.attempts) && w.failures == old(w.failures)
    ensures n <= 65535 ==>
              && cut <= n + 2 && w.wire == old(w.wire) + Frame(buf[..n])[..cut]
              && w.attempts == old(w.attempts) + [Frame(buf[..n])]
              && w.failures == old(w.failures) + if status.Done? then 0 else 1
    ensures status.Done? ==> w.wire == old(w.wire) + Frame(buf[..n])
  {
    if n > MAX_DATAGRAM {
      return Broken(TooLarge), 0;
    }
    scratch[0], scratch[1] := n / 256, n % 256;
    forall i | 0 <= i < n {
      scratch[2 + i] := buf[i];
    }
    assert scratch[..2 + n] == scratch[..2] + scratch[2..2 + n];
    assert scratch[..2 + n] == Frame(buf[..n]);
    var written, io := w.Write(scratch[..2 + n]);
    assert Frame(buf[..n])[..2 + n] == Frame(buf[..n]);
    status, cut := match io case Ok => Done case Failed(e) => Broken(Stream(e)), written;
  }

  /** Reads one datagram into buf. */
  method ReadDatagram(r: Reader, buf: array<Byte>) returns (n: nat, status: DatagramStatus)
    modifies r, buf
    ensures n <= buf.Length
    ensures match ParseFrame(old(r.Pending()), buf.Length)
            case Got(d, rest) => status == Done && buf[..n] == d && r.Pending() == rest
            case TooLong => status == Broken(TooLarge) && n == 0 && r.Pending() == old(r.Pending())[2..]
            case Short => status.Broken? && status.error.Stream? && n == 0 && r.Pending() == []
  {
    ghost var s := r.Pending();
    var header := new Byte[2];
    var got, io := ReadFull(r, header, 2);
    if io.Failed? {
      return 0, Broken(Stream(io.error));
    }
    assert header[..2] == s[..2];
    var length := header[0] as int * 256 + header[1] as int;
    assert s[..2] == [header[0], header[1]];
    if length > buf.Length {
      return 0, Broken(TooLarge);
    }
    if length == 0 {
      assert s[2..2] == [];
      return 0, Done;
    }
    got, io := ReadFull(r, buf, length);
    if io.Failed? {
      return 0, Broken(Stream(io.error));
    }
    assert s[2..2 + length] == buf[..length] && s[2 + length..] == r.Pending();
    n, status := length, Done;
  }

  /** A connected UDP socket: the datagrams it will receive and those it has sent. */
  class PacketSocket {
    var inbox: seq<Datagram>
    var outbox: seq<Datagram>
    // How many writes have failed.
    ghost var refusals: nat

    constructor (inbox: seq<Datagram>)
      ensures this.inbox == inbox && outbox == [] && refusals == 0
    {
      this.inbox := inbox;
      this.outbox := [];
      refusals := 0;
    }

    method Read(buf: array<Byte>) returns (n: nat, status: Status)
      requires buf.Length == MAX_DATAGRAM
      modifies this`inbox, buf
      ensures n <= buf.Length
      ensures status.Ok? <==> old(inbox) != []
      ensures status.Ok? ==> buf[..n] == old(inbox)[0] && inbox == old(inbox)[1..]
      ensures status.Failed? ==> inbox == []
    {
      if inbox == [] {
        return 0, Failed(Timeout);
      }
      n := |inbox[0]|;
      forall i | 0 <= i < n {
        buf[i] := inbox[0][i];
      }
      inbox, status := inbox[1..], Ok;
    }

    method Write(d: Datagram) returns (status: Status)
      modifies this`outbox, this`refusals
      ensures outbox == if status.Ok? then old(outbox) + [d] else old(outbox)
      ensures refusals == old(refusals) + if status.Ok? then 0 else 1
    {
      var refused: bool := *;
      if refused {
        refusals := refusals + 1;
        return Failed(Timeout);
      }
      outbox := outbox + [d];
      status := Ok;
    }
  }

  /**
   * The socket-to-stream half of bridgeUDP: the datagrams of `done` are written whole, then at
   * most a part (`tail`) of the next, after which nothing more goes on the stream.  Nothing but a
   * failing write ends it before the socket has no more to give.
   */
  method RelayToStream(uc: PacketSocket, w: Writer) returns (ghost done: seq<Datagram>, ghost tail: Bytes)
    modifies uc`inbox, w
    ensures w.wire == old(w.wire) + Frames(done) + tail
    ensures Relayed(old(uc.inbox), done, tail, uc.inbox)
    ensures w.failures <= old(w.failures) + 1
    ensures w.failures == old(w.failures) ==> done == old(uc.inbox) && uc.inbox == [] && tail == []
    ensures w.failures > old(w.failures) ==> |done| < |old(uc.inbox)|
  {
    var buf := new Byte[MAX_DATAGRAM];
    var scratch := new Byte[MAX_DATAGRAM + 2];
    done, tail := [], [];
    while true
      invariant old(uc.inbox) == done + uc.inbox && tail == []
      invariant w.wire == old(w.wire) + Frames(done) && w.failures == old(w.failures)
      decreases |uc.inbox|
    {
      ghost var rest := uc.inbox;
      var n, io := uc.Read(buf);
      if io.Failed? {
        return;
      }
      ghost var d: Datagram := buf[..n];
      assert rest == [d] + uc.inbox;
      Assoc(done, [d], uc.inbox);
      FramesSnoc(done, d);
      Assoc(old(w.wire), Frames(done), Frame(d));
      var status;
      ghost var cut;
      status, cut := WriteDatagram(w, scratch, buf, n);
      if status.Broken? {
        tail := Frame(d)[..cut];
        assert old(uc.inbox)[|done|] == d;
        return;
      }
      done := done + [d];
    }
  }

  /** `inbox` is `done`, then either nothing or a datagram starting with `tail` that is lost. */
  ghost predicate Relayed(inbox: seq<Datagram>, done: seq<Datagram>, tail: Bytes, left: seq<Datagram>) {
    || (inbox == done && left == [] && tail == [])
    || (|done| < |inbox|
        && inbox == done + [inbox[|done|]] + left
        && tail <= Frame(inbox[|done|]))
  }

  lemma PrefixWithin(a: Bytes, b: Bytes, c: Bytes, tail: Bytes)
    requires tail <= b
    ensures a + tail <= a + (b + c)
  {
  }

  lemma RelayedIsPrefix(inbox: seq<Datagram>, done: seq<Datagram>, tail: Bytes, left: seq<Datagram>)
    requires Relayed(inbox, done, tail, left)
    ensures Frames(done) + tail <= Frames(inbox)
  {
    if inbox != done {
      var d := inbox[|done|];
      Assoc(done, [d], left);
      FramesAppend(done, [d] + left);
      assert ([d] + left)[1..] == left;
      PrefixWithin(Frames(done), Frame(d), Frames(left), tail);
    }
  }

  /**
   * One direction of bridgeUDP from end to end: whatever part `seen` of the relayed bytes
   * reaches the far end, what is decoded there is a prefix of what the socket received, and it
   * is at least `done` once all of them arrive.
   */
  lemma RelayDelivers(inbox: seq<Datagram>, done: seq<Datagram>, tail: Bytes, left: seq<Datagram>, seen: Bytes)
    requires Relayed(inbox, done, tail, left) && seen <= Frames(done) + tail
    ensures DecodeAll(seen, MAX_DATAGRAM) == inbox[..WholeFrames(inbox, |seen|)]
    ensures seen == Frames(done) + tail ==> done <= DecodeAll(seen, MAX_DATAGRAM)
  {
    RelayedIsPrefix(inbox, done, tail, left);
    assert seen == Frames(inbox)[..|seen|];
    CutDecodes(inbox, |seen|);
    assert inbox[..|done|] == done;
    WholeFramesMaximal(inbox, |seen|, |done|);
  }

  /**
   * The stream-to-socket half of bridgeUDP.  `refused` says that the socket, and not the
   * stream, ended the loop.
   */
  method RelayFromStream(r: Reader, uc: PacketSocket) returns (refused: bool, ghost done: seq<Datagram>)
    modifies r, uc`outbox, uc`refusals
    ensures uc.outbox == old(uc.outbox) + done
    ensures uc.refusals == old(uc.refusals) + if refused then 1 else 0
    ensures done <= DecodeAll(old(r.Pending()), MAX_DATAGRAM)
    ensures !refused ==> done == DecodeAll(old(r.Pending()), MAX_DATAGRAM)
  {
    var buf := new Byte[MAX_DATAGRAM];
    refused, done := false, [];
    ghost var all, todo := DecodeAll(r.Pending(), MAX_DATAGRAM), DecodeAll(r.Pending(), MAX_DATAGRAM);
    while true
      invariant all == done + todo && todo == DecodeAll(r.Pending(), MAX_DATAGRAM)
      invariant uc.outbox == old(uc.outbox) + done && !refused && uc.refusals == old(uc.refusals)
      decreases |r.Pending()|
    {
      var n, status := ReadDatagram(r, buf);
      if status.Broken? {
        assert todo == [];
        return;
      }
      ghost var d: Datagram := buf[..n];
      assert todo == [d] + DecodeAll(r.Pending(), MAX_DATAGRAM);
      Assoc(done, [d], DecodeAll(r.Pending(), MAX_DATAGRAM));
      var io := uc.Write(buf[..n]);
      if io.Failed? {
        refused := true;
        return;
      }
      todo := DecodeAll(r.Pending(), MAX_DATAGRAM);
      Assoc(old(uc.outbox), done, [d]);
      done := done + [d];
    }
  }
}
