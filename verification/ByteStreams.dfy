/**
 * The io.Reader and io.Writer ends of a byte stream, and io.ReadFull.  A reader holds the
 * pieces in which its bytes will arrive; a writer may fail after any part of a write.
 */
module ByteStreams {
  import opened Bytes

  datatype IOError = EOF | UnexpectedEOF | Timeout | Closed

  datatype Status = Ok | Failed(error: IOError)

  class Reader {
    // The pieces still to arrive, one per Read; an empty piece is a Read of (0, nil).
    var chunks: seq<Bytes>
    // What Read reports once the pieces are used up.
    const fault: IOError
    // Whether the fault is already reported together with the last bytes.
    const eager: bool

    constructor (chunks: seq<Bytes>, fault: IOError, eager: bool)
      ensures this.chunks == chunks && this.fault == fault && this.eager == eager
    {
      this.chunks := chunks;
      this.fault := fault;
      this.eager := eager;
    }

    /** The bytes still to be read, however they are cut into pieces. */
    ghost function Pending(): Bytes
      reads this
    {
      Flatten(chunks)
    }

    ghost function Measure(): nat
      reads this
    {
      |chunks| + |Pending()|
    }

    /** Reads into buf[lo..hi]. */
    method Read(buf: array<Byte>, lo: nat, hi: nat) returns (n: nat, status: Status)
      requires lo <= hi <= buf.Length
      modifies this, buf
      ensures n <= hi - lo && old(Pending()) == buf[lo..lo + n] + Pending()
      ensures forall i :: 0 <= i < buf.Length && !(lo <= i < lo + n) ==> buf[i] == old(buf[i])
      ensures status.Failed? ==> status.error == fault && Pending() == []
      ensures status.Ok? && lo < hi ==> Measure() < old(Measure())
    {
      if chunks == [] {
        return 0, Failed(fault);
      }
      var piece := chunks[0];
      n := if |piece| <= hi - lo then |piece| else hi - lo;
      forall i | 0 <= i < n {
        buf[lo + i] := piece[i];
      }
      assert buf[lo..lo + n] == piece[..n];
      FlattenRemaining(chunks, n);
      chunks := Remaining(chunks, n);
      status := if eager && chunks == [] then Failed(fault) else Ok;
    }
  }

  /** The pieces in which a carrier delivers bytes. */
  type Carrier = Bytes -> seq<Bytes>

  ghost predicate Faithful(cut: Carrier) {
    forall b :: Flatten(cut(b)) == b
  }

  class Writer {
    // Everything that has gone out on the wire.
    var wire: Bytes
    // What each Write was given, and how many of them have failed.
    ghost var attempts: seq<Bytes>
    ghost var failures: nat

    constructor ()
      ensures wire == [] && attempts == [] && failures == 0
    {
      wire, attempts, failures := [], [], 0;
    }

    /** Writes p, or any part of it followed by an error. */
    method Write(p: Bytes) returns (n: nat, status: Status)
      modifies this
      ensures n <= |p| && wire == old(wire) + p[..n]
      ensures status.Ok? ==> n == |p|
      ensures attempts == old(attempts) + [p]
      ensures failures == old(failures) + if status.Failed? then 1 else 0
    {
      var cut: nat :| cut <= |p|;
      var reported: bool := *;
      n := cut;
      wire := wire + p[..n];
      status := if n == |p| && !reported then Ok else Failed(Timeout);
      attempts := attempts + [p];
      failures := failures + if status.Failed? then 1 else 0;
    }
  }

  /** The error io.ReadFull gives for `got` bytes out of `n` on a stream that ends with `fault`. */
  function FullStatus(got: nat, n: nat, fault: IOError): Status {
    if got >= n then Ok
    else if got > 0 && fault == EOF then Failed(UnexpectedEOF)
    else Failed(fault)
  }

  /** One Read behind the `got` bytes that are already there. */
  method ReadMore(r: Reader, buf: array<Byte>, got: nat, n: nat) returns (more: nat, status: Status)
    requires got < n <= buf.Length
    modifies r, buf
    ensures got + more <= n && old(buf[..got] + r.Pending()) == buf[..got + more] + r.Pending()
    ensures forall i :: got + more <= i < buf.Length ==> buf[i] == old(buf[i])
    ensures status.Failed? ==> status.error == r.fault && r.Pending() == []
    ensures status.Ok? ==> r.Measure() < old(r.Measure())
  {
    ghost var before := buf[..got];
    more, status := r.Read(buf, got, n);
    assert buf[..got] == before;
    assert buf[..got + more] == before + buf[got..got + more];
    Assoc(before, buf[got..got + more], r.Pending());
  }

  /**
   * io.ReadFull into buf[..n].  What it does depends only on the bytes of the stream, not on
   * the pieces in which they arrive.
   */
  method ReadFull(r: Reader, buf: array<Byte>, n: nat) returns (got: nat, status: Status)
    requires n <= buf.Length
    modifies r, buf
    ensures got <= n && old(r.Pending()) == buf[..got] + r.Pending()
    ensures got < n ==> r.Pending() == []
    ensures forall i :: got <= i < buf.Length ==> buf[i] == old(buf[i])
    ensures status == FullStatus(got, n, r.fault)
    ensures status.Ok? <==> got == n
    ensures got == 0 < n ==> status == Failed(r.fault)
    ensures 0 < got < n ==> status == Failed(if r.fault == EOF then UnexpectedEOF else r.fault)
  {
    got, status := 0, Ok;
    while got < n && status.Ok?
      invariant got <= n && old(r.Pending()) == buf[..got] + r.Pending()
      invariant forall i :: got <= i < buf.Length ==> buf[i] == old(buf[i])
      invariant status.Failed? ==> status.error == r.fault && r.Pending() == []
      decreases status.Ok?, r.Measure()
    {
      var more;
      more, status := ReadMore(r, buf, got, n);
      got := got + more;
    }
    status := if got >= n then Ok
              else if got > 0 && status.error == EOF then Failed(UnexpectedEOF)
              else status;
  }
}
