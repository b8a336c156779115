/** The header that opens every multiplexed stream. */
module StreamHeaders {
  import opened Bytes
  import opened ByteStreams

  const MAX_HEADER_LEN: nat := 512

  type Payload = p: Bytes | |p| <= MAX_HEADER_LEN

  function Header(kind: Byte, payload: Payload): (h: Bytes)
    ensures |h| == 3 + |payload|
  {
    [kind] + PutUint16(|payload|) + payload
  }

  datatype ParsedHeader =
    | Got(kind: Byte, payload: Payload, rest: Bytes)
    | TooLong
    | Short

  function ParseHeader(s: Bytes): ParsedHeader {
    if |s| < 3 then Short else
    var n := Uint16(s[1..3]);
    if n > MAX_HEADER_LEN then TooLong
    else if |s| < 3 + n then Short
    else Got(s[0], s[3..3 + n], s[3 + n..])
  }

  /** A stream parses as a header exactly when it starts with the encoding of that header. */
  lemma ParseHeaderExact(s: Bytes, kind: Byte, payload: Payload, rest: Bytes)
    ensures ParseHeader(s) == Got(kind, payload, rest) <==> s == Header(kind, payload) + rest
  {
    if s == Header(kind, payload) + rest {
      ParseOfHeader(kind, payload, rest);
    }
    if ParseHeader(s) == Got(kind, payload, rest) {
      HeaderOfParse(s);
    }
  }

  /** A header is the kind, the length in two bytes, the most significant first, and the payload. */
  lemma HeaderLayout(kind: Byte, payload: Payload)
    ensures |payload| < Pow256(2) && Header(kind, payload) == [kind] + BigEndian(|payload|, 2) + payload
  {
    Uint16IsBigEndian(|payload|);
  }

  lemma ParseOfHeader(kind: Byte, payload: Payload, rest: Bytes)
    ensures ParseHeader(Header(kind, payload) + rest) == Got(kind, payload, rest)
  {
    var s := Header(kind, payload) + rest;
    var n := |payload|;
    assert s[1..3] == PutUint16(n);
    Uint16Inverse(n, s[1..3]);
    assert s[3..3 + n] == payload;
    assert s[3 + n..] == rest;
  }

  lemma HeaderOfParse(s: Bytes)
    requires ParseHeader(s).Got?
    ensures s == var p := ParseHeader(s); Header(p.kind, p.payload) + p.rest
  {
    var n := Uint16(s[1..3]);
    Uint16Inverse(n, s[1..3]);
    assert s == ([s[0]] + s[1..3] + s[3..3 + n]) + s[3 + n..];
  }

  /** No header that has been cut short is read as one. */
  lemma TornHeader(kind: Byte, payload: Payload, torn: Bytes)
    requires torn <= Header(kind, payload) && torn != Header(kind, payload)
    ensures ParseHeader(torn) == Short
  {
    if |torn| >= 3 {
      assert torn[1..3] == Header(kind, payload)[1..3] == PutUint16(|payload|);
      Uint16Inverse(|payload|, torn[1..3]);
    }
  }

  lemma ParseParts(head: Bytes, body: Bytes, rest: Bytes)
    requires |head| == 3 && |body| == Uint16(head[1..3]) <= MAX_HEADER_LEN
    ensures ParseHeader(head + (body + rest)) == Got(head[0], body, rest)
  {
    var s := head + (body + rest);
    assert s[1..3] == head[1..3];
    assert s[3..3 + |body|] == body && s[3 + |body|..] == rest;
  }

  datatype HeaderStatus = Done | TooLarge | Stream(error: IOError)

  method WriteStreamHeader(w: Writer, kind: Byte, payload: Bytes) returns (status: HeaderStatus)
    modifies w
    ensures status == TooLarge <==> |payload| > 512
    ensures |payload| > 512 ==> w.wire == old(w.wire) && w.attempts == old(w.attempts) && w.failures == old(w.failures)
    ensures |payload| <= 512 ==>
              && old(w.wire) <= w.wire <= old(w.wire) + Header(kind, payload)
              && w.attempts == old(w.attempts) + [Header(kind, payload)]
              && w.failures == old(w.failures) + if status.Done? then 0 else 1
    ensures status.Done? ==> w.wire == old(w.wire) + Header(kind, payload)
  {
    if |payload| > MAX_HEADER_LEN {
      return TooLarge;
    }
    var buf: Bytes := [kind];
    buf := buf + [|payload| / 256, |payload| % 256];
    buf := buf + payload;
    assert buf == Header(kind, payload);
    var n, io := w.Write(buf);
    status := match io case Ok => Done case Failed(e) => Stream(e);
  }

  /** Reads a header and leaves whatever follows it on the stream untouched. */
  method ReadStreamHeader(r: Reader) returns (kind: Byte, payload: Bytes, status: HeaderStatus)
    modifies r
    ensures match ParseHeader(old(r.Pending()))
            case Got(k, p, rest) => status == Done && kind == k && payload == p && r.Pending() == rest
            case TooLong => status == TooLarge && payload == [] && r.Pending() == old(r.Pending())[3..]
            case Short => status.Stream? && payload == [] && r.Pending() == []
  {
    ghost var s := r.Pending();
    var head := new Byte[3];
    var got, io := ReadFull(r, head, 3);
    if io.Failed? {
      return 0, [], Stream(io.error);
    }
    ghost var rest := r.Pending();
    var h := head[..];
    assert h == head[..3] && s[1..3] == h[1..3] == [head[1], head[2]];
    var n := head[1] as int * 256 + head[2] as int;
    if n > MAX_HEADER_LEN {
      return 0, [], TooLarge;
    }
    if n == 0 {
      assert rest == [] + rest;
      ParseParts(h, [], rest);
      return h[0], [], Done;
    }
    var body := new Byte[n];
    got, io := ReadFull(r, body, n);
    if io.Failed? {
      return 0, [], Stream(io.error);
    }
    assert body[..n] == body[..];
    ParseParts(h, body[..], r.Pending());
    return h[0], body[..], Done;
  }
}
