/** A byte stream carried in the binary messages of a WebSocket (section 5.6 of RFC 6455). */
module WebSocket {
  import opened Bytes
  import opened ByteStreams

  /** A message as it arrives: in pieces, and whole unless the connection broke inside it. */
  datatype Message = Message(binary: bool, chunks: seq<Bytes>, whole: bool, eager: bool)

  predicate OnlyLastTorn(ms: seq<Message>) {
    forall i :: 0 <= i < |ms| - 1 ==> ms[i].whole
  }

  /** The bytes that the binary messages carry. */
  function Payload(ms: seq<Message>): Bytes {
    if ms == [] then []
    else (if ms[0].binary then Flatten(ms[0].chunks) else []) + Payload(ms[1..])
  }

  /** How much there is to read, empty pieces and messages included. */
  function Weight(ms: seq<Message>): nat {
    if ms == [] then 0 else 2 + |ms[0].chunks| + |Flatten(ms[0].chunks)| + Weight(ms[1..])
  }

  /** The reading and writing of messages by the WebSocket library. */
  class Socket {
    var incoming: seq<Message>
    const fault: IOError     // what NextReader reports when no message is left
    var outgoing: seq<Bytes> // the binary messages sent
    // The binary messages that were to be sent, and how many of the attempts have failed.
    ghost var attempts: seq<Bytes>
    ghost var failures: nat

    constructor (incoming: seq<Message>, fault: IOError)
      ensures this.incoming == incoming && this.fault == fault && outgoing == attempts == [] && failures == 0
    {
      this.incoming, this.fault, outgoing := incoming, fault, [];
      attempts, failures := [], 0;
    }

    /** A reader for the next message: it ends with EOF, or with the fault if the message is torn. */
    method NextReader() returns (binary: bool, r: Reader?, status: Status)
      modifies this`incoming
      ensures old(incoming) == [] ==> r == null && status == Failed(fault) && incoming == []
      ensures old(incoming) != [] ==>
                var m := old(incoming)[0];
                && status.Ok? && incoming == old(incoming)[1..] && binary == m.binary
                && r != null && fresh(r) && r.chunks == m.chunks
                && r.fault == if m.whole then EOF else fault
    {
      if incoming == [] {
        return false, null, Failed(fault);
      }
      var m := incoming[0];
      incoming := incoming[1..];
      r := new Reader(m.chunks, if m.whole then EOF else fault, m.eager);
      binary, status := m.binary, Ok;
    }

    method WriteMessage(p: Bytes) returns (status: Status)
      modifies this`outgoing, this`attempts, this`failures
      ensures old(outgoing) <= outgoing <= old(outgoing) + [p]
      ensures status.Ok? ==> outgoing == old(outgoing) + [p]
      ensures attempts == old(attempts) + [p]
      ensures failures == old(failures) + if status.Ok? then 0 else 1
    {
      var sent: bool := *;
      if sent {
        outgoing := outgoing + [p];
      }
      var reported: bool := *;
      status := if sent && !reported then Ok else Failed(Timeout);
      attempts := attempts + [p];
      failures := failures + if status.Ok? then 0 else 1;
    }
  }

  class WsNetConn {
    const ws: Socket
    var reader: Reader?

    constructor (ws: Socket)
      requires OnlyLastTorn(ws.incoming) && ws.fault != EOF
      ensures this.ws == ws && reader == null && Valid() && Pending() == Payload(ws.incoming)
    {
      this.ws, reader := ws, null;
    }

    ghost predicate Valid()
      reads this, ws, reader
    {
      && ws.fault != EOF && OnlyLastTorn(ws.incoming)
      && (reader != null ==> reader.fault == EOF || (reader.fault == ws.fault && ws.incoming == []))
    }

    /** The bytes still to be read, over all the messages to come. */
    ghost function Pending(): Bytes
      reads this, ws, reader
    {
      (if reader == null then [] else reader.Pending()) + Payload(ws.incoming)
    }

    ghost function Measure(): nat
      reads this, ws, reader
    {
      (if reader == null then 0 else 1 + reader.Measure()) + Weight(ws.incoming)
    }

    /**
     * A transparent Read: message boundaries, empty messages and text messages do not show, and
     * the end of a message is never reported as the end of the stream.
     */
    method Read(p: array<Byte>, lo: nat, hi: nat) returns (n: nat, status: Status)
      requires Valid() && lo <= hi <= p.Length
      modifies this, ws`incoming, reader, p
      ensures Valid() && (reader == old(reader) || reader == null || fresh(reader))
      ensures n <= hi - lo && old(Pending()) == p[lo..lo + n] + Pending()
      ensures forall i :: 0 <= i < p.Length && !(lo <= i < lo + n) ==> p[i] == old(p[i])
      ensures status.Failed? ==> status.error == ws.fault && status.error != EOF && Pending() == []
      ensures status.Ok? && lo < hi ==> Measure() < old(Measure())
    {
      while true
        invariant Valid() && (reader == old(reader) || reader == null || fresh(reader))
        invariant Measure() <= old(Measure())
        invariant Pending() == old(Pending()) && p[..] == old(p[..])
        decreases Measure()
      {
        if reader != null {
          var exhausted;
          n, status, exhausted := ReadCurrent(p, lo, hi);
          if exhausted && n == 0 {
            continue;
          }
          return;
        }
        status := Advance();
        if status.Failed? {
          return 0, status;
        }
      }
    }

    /** Reads from the current message; its EOF is noted and not reported. */
    method ReadCurrent(p: array<Byte>, lo: nat, hi: nat) returns (n: nat, status: Status, exhausted: bool)
      requires Valid() && lo <= hi <= p.Length && reader != null
      modifies this`reader, reader, p
      ensures Valid() && reader == if exhausted then null else old(reader)
      ensures n <= hi - lo && old(Pending()) == p[lo..lo + n] + Pending()
      ensures forall i :: 0 <= i < p.Length && !(lo <= i < lo + n) ==> p[i] == old(p[i])
      ensures status.Failed? ==> status.error == ws.fault && !exhausted && Pending() == []
      ensures n == 0 ==> Pending() == old(Pending()) && p[..] == old(p[..])
      ensures exhausted || (status.Ok? && lo < hi) ==> Measure() < old(Measure())
    {
      n, status := reader.Read(p, lo, hi);
      exhausted := status == Failed(EOF);
      Assoc(p[lo..lo + n], reader.Pending(), Payload(ws.incoming));
      if exhausted {
        reader, status := null, Ok;
      }
    }

    /** Goes on to the next message, if it is binary; text messages are skipped. */
    method Advance() returns (status: Status)
      requires Valid() && reader == null
      modifies this`reader, ws`incoming
      ensures Valid() && (reader == null || fresh(reader)) && Pending() == old(Pending())
      ensures status.Ok? ==> Measure() < old(Measure())
      ensures status.Failed? ==> status.error == ws.fault && Pending() == []
    {
      ghost var ms := ws.incoming;
      var binary, r, io := ws.NextReader();
      if io.Failed? {
        return io;
      }
      assert Weight(ms) == 2 + |ms[0].chunks| + |Flatten(ms[0].chunks)| + Weight(ms[1..]);
      assert Payload(ms) == (if ms[0].binary then Flatten(ms[0].chunks) else []) + Payload(ms[1..]);
      if binary {
        reader := r;
      }
      status := Ok;
    }

    method Write(p: Bytes) returns (n: nat, status: Status)
      modifies ws`outgoing, ws`attempts, ws`failures
      ensures ws.attempts == old(ws.attempts) + [p]
      ensures ws.failures == old(ws.failures) + if status.Ok? then 0 else 1
      ensures old(ws.outgoing) <= ws.outgoing <= old(ws.outgoing) + [p]
      ensures status.Ok? ==> n == |p| && ws.outgoing == old(ws.outgoing) + [p]
      ensures status.Failed? ==> n == 0
    {
      status := ws.WriteMessage(p);
      n := if status.Ok? then |p| else 0;
    }
  }

  /**
   * What a connection may deliver of the messages sent: each binary message in order and, if it is
   * whole, entire, with text messages of whatever origin in between, up to some point.
   */
  predicate Delivers(ms: seq<Message>, sent: seq<Bytes>) {
    if ms == [] then true
    else if !ms[0].binary then Delivers(ms[1..], sent)
    else
      && sent != []
      && (if ms[0].whole then Flatten(ms[0].chunks) == sent[0] && Delivers(ms[1..], sent[1..])
          else Flatten(ms[0].chunks) <= sent[0] && ms[1..] == [])
  }

  /** The number of binary messages delivered whole. */
  function WholeMessages(ms: seq<Message>): nat {
    if ms == [] then 0 else (if ms[0].binary && ms[0].whole then 1 else 0) + WholeMessages(ms[1..])
  }

  /**
   * The carrier is transparent: what Read returns, taken together, is a prefix of what was
   * written, and at least all of the messages that arrived whole.
   */
  lemma {:induction false} PayloadIsPrefix(ms: seq<Message>, sent: seq<Bytes>)
    requires Delivers(ms, sent)
    ensures WholeMessages(ms) <= |sent|
    ensures Flatten(sent[..WholeMessages(ms)]) <= Payload(ms) <= Flatten(sent)
  {
    if ms == [] {
      assert sent[..0] == [];
    } else if !ms[0].binary {
      PayloadIsPrefix(ms[1..], sent);
      assert Payload(ms) == Payload(ms[1..]);
    } else if ms[0].whole {
      PayloadIsPrefix(ms[1..], sent[1..]);
      var k := WholeMessages(ms[1..]);
      assert sent[..1 + k][1..] == sent[1..][..k];
      Cons(sent[0], Flatten(sent[1..][..k]), Payload(ms[1..]), Flatten(sent[1..]));
    } else {
      assert Payload(ms) == Flatten(ms[0].chunks) + [];
      assert sent[..0] == [];
    }
  }

  /** When no message is torn, what Read returns is exactly the messages that arrived. */
  lemma {:induction false} PayloadIsWhole(ms: seq<Message>, sent: seq<Bytes>)
    requires Delivers(ms, sent) && forall m :: m in ms ==> m.whole
    ensures WholeMessages(ms) <= |sent| && Payload(ms) == Flatten(sent[..WholeMessages(ms)])
  {
    if ms != [] {
      assert ms[0] in ms;
      if ms[0].binary {
        PayloadIsWhole(ms[1..], sent[1..]);
        TakeFirst(sent, WholeMessages(ms[1..]));
        assert sent[..WholeMessages(ms)][1..] == sent[1..][..WholeMessages(ms[1..])];
      } else {
        PayloadIsWhole(ms[1..], sent);
      }
    }
  }

  lemma Cons(a: Bytes, b: Bytes, c: Bytes, d: Bytes)
    requires b <= c <= d
    ensures a + b <= a + c <= a + d
  {
  }
}
