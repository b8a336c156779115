/**
 * The mutual handshake.  HMAC (section 2 of RFC 2104) is an arbitrary function of the token and
 * the input; what is modelled is what goes into it, what goes on the wire, and when.
 */
module Handshake {
  import opened Basics
  import opened Bytes
  import opened ByteStreams
  import opened ReplayWindow

  const TS_LEN: nat := 8
  const NONCE_LEN: nat := 32
  const MAC_LEN: nat := 32
  const CLIENT_HELLO_LEN: nat := TS_LEN + NONCE_LEN + MAC_LEN
  const SERVER_HELLO_LEN: nat := NONCE_LEN + MAC_LEN

  type Stamp = b: Bytes | |b| == 8 witness [0, 0, 0, 0, 0, 0, 0, 0]
  type Nonce = b: Bytes | |b| == 32 witness seq(32, _ => 0)
  type Tag = b: Bytes | |b| == 32 witness seq(32, _ => 0)

  type Hmac = (Bytes, Bytes) -> Tag

  function LabelClient(): (b: Bytes)
    ensures |b| == 22
  {
    Ascii("cando1/client-hello/v1")
  }

  function LabelServer(): (b: Bytes)
    ensures |b| == 22
  {
    Ascii("cando1/server-hello/v1")
  }

  function ClientInput(ts: Bytes, nonce: Bytes): Bytes {
    LabelClient() + ts + nonce
  }

  function ServerInput(clientNonce: Bytes, serverNonce: Bytes): Bytes {
    LabelServer() + clientNonce + serverNonce
  }

  /** mac(): the parts are written to the hash one after the other. */
  method Mac(hmac: Hmac, token: Bytes, parts: seq<Bytes>) returns (tag: Tag)
    ensures tag == hmac(token, Flatten(parts))
  {
    var input: Bytes := [];
    var i := 0;
    while i < |parts|
      invariant i <= |parts|
      invariant Flatten(parts) == input + Flatten(parts[i..])
    {
      assert parts[i..][1..] == parts[i + 1..];
      Assoc(input, parts[i], Flatten(parts[i + 1..]));
      input := input + parts[i];
      i := i + 1;
    }
    assert parts[i..] == [] && input == input + [];
    tag := hmac(token, input);
  }

  lemma FlattenThree(a: Bytes, b: Bytes, c: Bytes)
    ensures Flatten([a, b, c]) == a + b + c
  {
    assert [a, b, c][1..] == [b, c] && [b, c][1..] == [c];
    assert Flatten([c]) == c;
  }

  // ---------- The MAC inputs are unambiguous ----------

  lemma ClientInputInjective(ts: Stamp, nonce: Nonce, ts': Stamp, nonce': Nonce)
    ensures ClientInput(ts, nonce) == ClientInput(ts', nonce') <==> ts == ts' && nonce == nonce'
  {
    assert ClientInput(ts, nonce)[22..30] == ts && ClientInput(ts, nonce)[30..] == nonce;
    assert ClientInput(ts', nonce')[22..30] == ts' && ClientInput(ts', nonce')[30..] == nonce';
  }

  lemma ServerInputInjective(c: Nonce, s: Nonce, c': Nonce, s': Nonce)
    ensures ServerInput(c, s) == ServerInput(c', s') <==> c == c' && s == s'
  {
    assert ServerInput(c, s)[22..54] == c && ServerInput(c, s)[54..] == s;
    assert ServerInput(c', s')[22..54] == c' && ServerInput(c', s')[54..] == s';
  }

  /** A tag made for one side's hello is never a tag for the other's, whatever the fields. */
  lemma InputsDisjoint(a: Bytes, b: Bytes, c: Bytes, d: Bytes)
    ensures ClientInput(a, b) != ServerInput(c, d)
  {
    assert ClientInput(a, b)[7] == LabelClient()[7] == 'c' as int;
    assert ServerInput(c, d)[7] == LabelServer()[7] == 's' as int;
  }

  // ---------- Hellos ----------

  /** The 8 bytes that carry uint64(Unix()). */
  function StampOf(unix: int): Stamp
    requires 0 <= unix < TWO_63
  {
    Pow256Values();
    BigEndian(unix, 8)
  }

  /** int64 of the big-endian timestamp. */
  function TimeOf(ts: Stamp): (t: int)
    ensures -TWO_63 <= t < TWO_63
  {
    WrapInt64(Value(ts))
  }

  lemma TimeOfStamp(unix: int)
    requires 0 <= unix < TWO_63
    ensures TimeOf(StampOf(unix)) == unix
  {
    Pow256Values();
    ValueOfBigEndian(unix, 8);
  }

  function ClientHello(hmac: Hmac, token: Bytes, ts: Stamp, nonce: Nonce): (h: Bytes)
    ensures |h| == CLIENT_HELLO_LEN
  {
    ts + nonce + hmac(token, ClientInput(ts, nonce))
  }

  function ServerHello(hmac: Hmac, token: Bytes, clientNonce: Nonce, serverNonce: Nonce): (h: Bytes)
    ensures |h| == SERVER_HELLO_LEN
  {
    serverNonce + hmac(token, ServerInput(clientNonce, serverNonce))
  }

  /**
   * The two hellos byte by byte: 8 bytes of Unix time, the most significant first, 32 of nonce and 32
   * of tag over label, time and nonce; then 32 of nonce and 32 of tag over label and both nonces.
   */
  lemma HelloLayout(hmac: Hmac, token: Bytes, unix: int, nonce: Nonce, serverNonce: Nonce)
    requires 0 <= unix < TWO_63
    ensures var hello := ClientHello(hmac, token, StampOf(unix), nonce);
            && |hello| == 72 && Value(hello[..8]) == unix && hello[8..40] == nonce
            && hello[40..] == hmac(token, Ascii("cando1/client-hello/v1") + hello[..8] + nonce)
    ensures var reply := ServerHello(hmac, token, nonce, serverNonce);
            && |reply| == 64 && reply[..32] == serverNonce
            && reply[32..] == hmac(token, Ascii("cando1/server-hello/v1") + nonce + serverNonce)
  {
    Pow256Values();
    ValueOfBigEndian(unix, 8);
    var hello := ClientHello(hmac, token, StampOf(unix), nonce);
    assert hello[..8] == StampOf(unix) && hello[8..40] == nonce && hello[40..] == hmac(token, ClientInput(StampOf(unix), nonce));
    var reply := ServerHello(hmac, token, nonce, serverNonce);
    assert reply[..32] == serverNonce && reply[32..] == hmac(token, ServerInput(nonce, serverNonce));
  }

  /** What the server makes of 72 bytes that may be anything. */
  function AttemptOf(hmac: Hmac, token: Bytes, hello: Bytes, clock: int, now: int, locked: int): Attempt
    requires |hello| == CLIENT_HELLO_LEN
  {
    var ts, nonce, tag := hello[..8], hello[8..40], hello[40..];
    Attempt(TimeOf(ts), nonce, tag == hmac(token, ClientInput(ts, nonce)), clock, now, locked)
  }

  datatype HandshakeError = ReadFailed(error: IOError) | Skewed | BadMac | Replayed | NoRandomness | WriteFailed

  datatype HandshakeStatus = Done | Refused(error: HandshakeError)

  /** The error, if any, that the three checks give, in their order. */
  function Verdict(a: Attempt, seen: Seen): HandshakeStatus {
    if !InWindow(Unix(a.clock), a.ts) then Refused(Skewed)
    else if !a.authentic then Refused(BadMac)
    else if a.nonce in seen then Refused(Replayed)
    else Done
  }

  /** Which error comes when: the window first, then the tag, then the map. */
  lemma VerdictExactly(a: Attempt, seen: Seen)
    requires 0 <= Unix(a.clock) <= MAX_UNIX && 0 <= a.ts < TWO_63
    ensures Verdict(a, seen) == Refused(Skewed) <==> !(-45 <= Unix(a.clock) - a.ts <= 45)
    ensures Verdict(a, seen) == Refused(BadMac) <==> -45 <= Unix(a.clock) - a.ts <= 45 && !a.authentic
    ensures Verdict(a, seen) == Refused(Replayed) <==>
            -45 <= Unix(a.clock) - a.ts <= 45 && a.authentic && a.nonce in seen
    ensures Verdict(a, seen) == Done <==> -45 <= Unix(a.clock) - a.ts <= 45 && a.authentic && a.nonce !in seen
  {
    InWindowExact(Unix(a.clock), a.ts);
  }

  /** Nothing has been written, nor tried, since the writer was in this state. */
  ghost predicate Silent(w: Writer, wire: Bytes, attempts: seq<Bytes>, failures: nat)
    reads w
  {
    w.wire == wire && w.attempts == attempts && w.failures == failures
  }

  class ServerAuthenticator {
    const hmac: Hmac
    const token: Bytes
    var seen: Seen

    constructor (hmac: Hmac, token: Bytes)
      ensures this.hmac == hmac && this.token == token && seen == map[]
    {
      this.hmac := hmac;
      this.token := token;
      seen := map[];
    }

    /** remember: the sweep visits the map in whatever order. */
    method Remember(nonce: Bytes, now: int) returns (isNew: bool)
      modifies this
      ensures isNew <==> nonce !in old(seen)
      ensures seen == Remembered(old(seen), nonce, now)
    {
      if nonce in seen {
        return false;
      }
      var unvisited := seen.Keys;
      while unvisited != {}
        invariant unvisited <= seen.Keys <= old(seen).Keys
        invariant forall k :: k in seen ==> seen[k] == old(seen)[k]
        invariant forall k :: k in old(seen) && k !in unvisited ==> (k in seen <==> !(now > old(seen)[k]))
      {
        var k :| k in unvisited;
        unvisited := unvisited - {k};
        if now > seen[k] {
          seen := seen - {k};
        }
      }
      seen := seen[nonce := now + REPLAY_TTL];
      isNew := true;
    }

    /** The checks that the server's side makes of the 72 bytes, before it writes anything. */
    method Admit(hello: Bytes, clock: int, now: int) returns (status: HandshakeStatus)
      requires |hello| == CLIENT_HELLO_LEN
      modifies this
      ensures status == Verdict(AttemptOf(hmac, token, hello, clock, now, now), old(seen))
      ensures seen == Observe(old(seen), AttemptOf(hmac, token, hello, clock, now, now))
    {
      var ts: Stamp, nonce: Nonce, gotMac: Tag := hello[..8], hello[8..40], hello[40..];
      var skew := WrapInt64(Unix(clock) - TimeOf(ts));
      if skew < 0 {
        skew := WrapInt64(-skew);
      }
      if skew > CLOCK_SKEW / SECOND {
        return Refused(Skewed);
      }
      var wantMac := Mac(hmac, token, [LabelClient(), ts, nonce]);
      FlattenThree(LabelClient(), ts, nonce);
      if gotMac != wantMac {
        return Refused(BadMac);
      }
      var isNew := Remember(nonce, now);
      status := if isNew then Done else Refused(Replayed);
    }

    /**
     * The server's side.  `clock` and `now` are its two readings of the clock, `random` the bytes
     * it draws, if it can.  It takes exactly 72 bytes off the stream, its map moves as one step of
     * a run of attempts, and it writes nothing at all unless the hello has passed every check.
     */
    method Handshake(r: Reader, w: Writer, clock: int, now: int, random: Option<Nonce>)
      returns (status: HandshakeStatus)
      modifies this, r, w
      ensures |old(r.Pending())| < 72 ==>
                && status.Refused? && status.error.ReadFailed?
                && r.Pending() == [] && seen == old(seen) && Silent(w, old(w.wire), old(w.attempts), old(w.failures))
      ensures |old(r.Pending())| >= 72 ==>
                var hello := old(r.Pending())[..72];
                var a := AttemptOf(hmac, token, hello, clock, now, now);
                && r.Pending() == old(r.Pending())[72..]
                && seen == Observe(old(seen), a)
                && (Verdict(a, old(seen)).Refused? ==>
                      status == Verdict(a, old(seen)) && Silent(w, old(w.wire), old(w.attempts), old(w.failures)))
                && (Verdict(a, old(seen)).Done? && random.None? ==>
                      status == Refused(NoRandomness) && Silent(w, old(w.wire), old(w.attempts), old(w.failures)))
                && (Verdict(a, old(seen)).Done? && random.Some? ==>
                      var reply := ServerHello(hmac, token, a.nonce, random.value);
                      && w.attempts == old(w.attempts) + [reply]
                      && w.failures == old(w.failures) + (if status.Done? then 0 else 1)
                      && old(w.wire) <= w.wire <= old(w.wire) + reply
                      && (if status.Done? then w.wire == old(w.wire) + reply else status == Refused(WriteFailed)))
    {
      ghost var stream := r.Pending();
      var hello := new Byte[CLIENT_HELLO_LEN];
      var got, io := ReadFull(r, hello, CLIENT_HELLO_LEN);
      if io.Failed? {
        return Refused(ReadFailed(io.error));
      }
      assert hello[..CLIENT_HELLO_LEN] == hello[..] == stream[..CLIENT_HELLO_LEN];
      assert stream[CLIENT_HELLO_LEN..] == r.Pending();
      status := Admit(hello[..], clock, now);
      if status.Refused? {
        return;
      }
      if random.None? {
        return Refused(NoRandomness);
      }
      var nonce: Nonce := hello[..][8..40];
      var tag := Mac(hmac, token, [LabelServer(), nonce, random.value]);
      FlattenThree(LabelServer(), nonce, random.value);
      var written, sent := w.Write(random.value + tag);
      status := if sent.Failed? then Refused(WriteFailed) else Done;
    }
  }

  /** The server's hello, as the client who sent `nonce` checks it. */
  predicate Verifies(hmac: Hmac, token: Bytes, nonce: Nonce, reply: Bytes)
    requires |reply| == SERVER_HELLO_LEN
  {
    reply[32..] == hmac(token, ServerInput(nonce, reply[..32]))
  }

  /**
   * The client's side.  It speaks first: it reads nothing unless its whole hello has gone out.  Then
   * it takes exactly 64 bytes, and completes if and only if their tag verifies for its nonce.
   */
  method ClientHandshake(r: Reader, w: Writer, hmac: Hmac, token: Bytes, clock: int, random: Option<Nonce>)
    returns (status: HandshakeStatus)
    requires 0 <= Unix(clock) < TWO_63
    modifies r, w
    ensures random.None? ==>
              && status == Refused(NoRandomness) && r.Pending() == old(r.Pending())
              && Silent(w, old(w.wire), old(w.attempts), old(w.failures))
    ensures random.Some? ==>
              var hello := ClientHello(hmac, token, StampOf(Unix(clock)), random.value);
              && w.attempts == old(w.attempts) + [hello]
              && old(w.wire) <= w.wire <= old(w.wire) + hello
              && if w.failures > old(w.failures)
                 then w.failures == old(w.failures) + 1 && status == Refused(WriteFailed) && r.Pending() == old(r.Pending())
                 else
                   && w.failures == old(w.failures) && w.wire == old(w.wire) + hello
                   && if |old(r.Pending())| < 64
                      then status.Refused? && status.error.ReadFailed? && r.Pending() == []
                      else r.Pending() == old(r.Pending())[64..]
                           && status == if Verifies(hmac, token, random.value, old(r.Pending())[..64])
                                        then Done else Refused(BadMac)
  {
    var ts := StampOf(Unix(clock));
    if random.None? {
      return Refused(NoRandomness);
    }
    var nonce := random.value;
    var tag := Mac(hmac, token, [LabelClient(), ts, nonce]);
    FlattenThree(LabelClient(), ts, nonce);
    var written, sent := w.Write(ts + nonce + tag);
    if sent.Failed? {
      return Refused(WriteFailed);
    }

    ghost var stream := r.Pending();
    var reply := new Byte[SERVER_HELLO_LEN];
    var got, io := ReadFull(r, reply, SERVER_HELLO_LEN);
    if io.Failed? {
      return Refused(ReadFailed(io.error));
    }
    assert reply[..SERVER_HELLO_LEN] == reply[..] == stream[..SERVER_HELLO_LEN];
    assert stream[SERVER_HELLO_LEN..] == r.Pending();
    var serverNonce: Nonce, gotMac: Tag := reply[..32], reply[32..];
    assert reply[..][..32] == serverNonce && reply[..][32..] == gotMac;
    var wantMac := Mac(hmac, token, [LabelServer(), nonce, serverNonce]);
    FlattenThree(LabelServer(), nonce, serverNonce);
    status := if gotMac != wantMac then Refused(BadMac) else Done;
  }

  /**
   * Honest peers accept each other: with the same token, clocks no more than 45 whole seconds
   * apart and a nonce the server has not seen, the client's hello passes every check of the server
   * and the server's answer passes the client's.
   */
  lemma HonestPeersAccept(hmac: Hmac, token: Bytes, client: int, server: int, now: int, locked: int,
                          nonce: Nonce, serverNonce: Nonce, seen: Seen)
    requires 0 <= Unix(client) < TWO_63 && 0 <= Unix(server) <= MAX_UNIX
    requires -45 <= Unix(server) - Unix(client) <= 45 && nonce !in seen
    ensures var hello := ClientHello(hmac, token, StampOf(Unix(client)), nonce);
            var a := AttemptOf(hmac, token, hello, server, now, locked);
            && a.nonce == nonce && a.ts == Unix(client)
            && Verdict(a, seen).Done? && Admissible(a)
    ensures Verifies(hmac, token, nonce, ServerHello(hmac, token, nonce, serverNonce))
  {
    var ts := StampOf(Unix(client));
    var hello := ClientHello(hmac, token, ts, nonce);
    assert hello[..8] == ts && hello[8..40] == nonce && hello[40..] == hmac(token, ClientInput(ts, nonce));
    TimeOfStamp(Unix(client));
    InWindowExact(Unix(server), Unix(client));
    var reply := ServerHello(hmac, token, nonce, serverNonce);
    assert reply[..32] == serverNonce && reply[32..] == hmac(token, ServerInput(nonce, serverNonce));
  }

  /**
   * The hello of whoever holds a token is admitted exactly when its tag is the one this server's
   * token gives, the clocks are within 45 whole seconds, and the nonce is not in the map.
   */
  lemma HelloAdmittedExactly(hmac: Hmac, token: Bytes, other: Bytes, client: int, server: int, now: int,
                             nonce: Nonce, seen: Seen)
    requires 0 <= Unix(client) < TWO_63 && 0 <= Unix(server) <= MAX_UNIX
    ensures var ts := StampOf(Unix(client));
            Verdict(AttemptOf(hmac, token, ClientHello(hmac, other, ts, nonce), server, now, now), seen).Done?
            <==> && -45 <= Unix(server) - Unix(client) <= 45
                 && hmac(token, ClientInput(ts, nonce)) == hmac(other, ClientInput(ts, nonce))
                 && nonce !in seen
  {
    var ts := StampOf(Unix(client));
    var hello := ClientHello(hmac, other, ts, nonce);
    assert hello[..8] == ts && hello[8..40] == nonce && hello[40..] == hmac(other, ClientInput(ts, nonce));
    TimeOfStamp(Unix(client));
    InWindowExact(Unix(server), Unix(client));
  }

  /**
   * The server's side of an honest exchange, in whatever pieces the client's hello arrives: it
   * completes unless its one write fails.
   */
  method HonestServer(server: ServerAuthenticator, r: Reader, w: Writer, ghost client: int, clock: int, now: int,
                      ghost nonce: Nonce, serverNonce: Nonce)
    returns (status: HandshakeStatus)
    requires 0 <= Unix(client) < TWO_63 && 0 <= Unix(clock) <= MAX_UNIX
    requires -45 <= Unix(clock) - Unix(client) <= 45 && nonce !in server.seen
    requires r.Pending() == ClientHello(server.hmac, server.token, StampOf(Unix(client)), nonce)
    modifies server, r, w
    ensures w.failures == old(w.failures) ==>
              && status.Done?
              && w.wire == old(w.wire) + ServerHello(server.hmac, server.token, nonce, serverNonce)
    ensures w.failures > old(w.failures) ==> status == Refused(WriteFailed)
    ensures w.failures >= old(w.failures) && nonce in server.seen
  {
    HonestPeersAccept(server.hmac, server.token, client, clock, now, now, nonce, serverNonce, server.seen);
    ghost var hello := r.Pending();
    assert hello[..72] == hello;
    status := server.Handshake(r, w, clock, now, Some(serverNonce));
  }

  /** The client's side, likewise: it completes when the server's answer arrives. */
  method HonestClient(r: Reader, w: Writer, hmac: Hmac, token: Bytes, clock: int, nonce: Nonce, ghost serverNonce: Nonce)
    returns (status: HandshakeStatus)
    requires 0 <= Unix(clock) < TWO_63
    modifies r, w
    ensures w.failures == old(w.failures) && old(r.Pending()) == ServerHello(hmac, token, nonce, serverNonce) ==>
              status.Done? && w.wire == old(w.wire) + ClientHello(hmac, token, StampOf(Unix(clock)), nonce)
    ensures w.failures > old(w.failures) ==> status == Refused(WriteFailed)
    ensures w.failures >= old(w.failures)
  {
    ghost var reply := ServerHello(hmac, token, nonce, serverNonce);
    assert reply[..64] == reply && reply[..32] == serverNonce
        && reply[32..] == hmac(token, ServerInput(nonce, serverNonce));
    status := ClientHandshake(r, w, hmac, token, clock, Some(nonce));
  }

  /**
   * Both sides over a faithful carrier that may cut the bytes anywhere: honest peers complete on both
   * sides, and each has written its hello, unless a write fails.
   */
  method HonestExchange(server: ServerAuthenticator, fromServer: Writer, fromClient: Writer, cut: Carrier,
                        fault: IOError, eager: bool, client: int, clock: int, now: int,
                        nonce: Nonce, serverNonce: Nonce)
    returns (atServer: HandshakeStatus, atClient: HandshakeStatus)
    requires Faithful(cut) && nonce !in server.seen
    requires fromServer != fromClient && fromServer.wire == fromClient.wire == []
    requires 0 <= Unix(client) < TWO_63 && 0 <= Unix(clock) <= MAX_UNIX
    requires -45 <= Unix(clock) - Unix(client) <= 45
    modifies server, fromServer, fromClient
    ensures fromServer.failures == old(fromServer.failures) ==> atServer.Done?
    ensures fromServer.failures == old(fromServer.failures) && fromClient.failures == old(fromClient.failures) ==>
              && atClient.Done?
              && fromClient.wire == ClientHello(server.hmac, server.token, StampOf(Unix(client)), nonce)
              && fromServer.wire == ServerHello(server.hmac, server.token, nonce, serverNonce)
    ensures nonce in server.seen
  {
    var hello := ClientHello(server.hmac, server.token, StampOf(Unix(client)), nonce);
    var toServer := new Reader(cut(hello), fault, eager);
    ghost var reply := ServerHello(server.hmac, server.token, nonce, serverNonce);
    assert [] + reply == reply && [] + hello == hello;
    atServer := HonestServer(server, toServer, fromServer, client, clock, now, nonce, serverNonce);
    var toClient := new Reader(cut(fromServer.wire), fault, eager);
    atClient := HonestClient(toClient, fromClient, server.hmac, server.token, client, nonce, serverNonce);
  }
}
