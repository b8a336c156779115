/** Bytes, big-endian integers and the 64-bit wrap-around of Go's int64. */
module Bytes {

  type Byte = x: int | 0 <= x < 256
  type Bytes = seq<Byte>

  const TWO_63: int := 0x8000_0000_0000_0000
  const TWO_64: int := 0x1_0000_0000_0000_0000

  function Pow256(width: nat): (p: nat)
    ensures p > 0
  {
    if width == 0 then 1 else 256 * Pow256(width - 1)
  }

  /** The `width` bytes of `n`, most significant first. */
  function BigEndian(n: nat, width: nat): (b: Bytes)
    requires n < Pow256(width)
    ensures |b| == width
  {
    if width == 0 then [] else BigEndian(n / 256, width - 1) + [n % 256]
  }

  /** The number that a big-endian byte string denotes. */
  function Value(b: Bytes): (n: nat)
    ensures n < Pow256(|b|)
  {
    if b == [] then 0 else Value(b[..|b| - 1]) * 256 + b[|b| - 1]
  }

  lemma {:induction false} ValueOfBigEndian(n: nat, width: nat)
    requires n < Pow256(width)
    ensures Value(BigEndian(n, width)) == n
  {
    if width > 0 {
      ValueOfBigEndian(n / 256, width - 1);
      assert BigEndian(n, width)[..width - 1] == BigEndian(n / 256, width - 1);
    }
  }

  /** The first byte is the most significant: it weighs 256 to the number of bytes behind it. */
  lemma {:induction false} MostSignificantFirst(first: Byte, rest: Bytes)
    ensures Value([first] + rest) == first * Pow256(|rest|) + Value(rest)
  {
    if rest == [] {
      assert [first] + rest == [first] && [first][..0] == [];
    } else {
      var init, last := rest[..|rest| - 1], rest[|rest| - 1];
      assert ([first] + rest)[..|rest|] == [first] + init;
      MostSignificantFirst(first, init);
      assert first * Pow256(|rest|) == 256 * (first * Pow256(|init|));
    }
  }

  lemma Pow256Values()
    ensures Pow256(8) == TWO_64
  {
    assert Pow256(4) == 256 * 256 * 256 * 256;
    assert Pow256(6) == 256 * 256 * Pow256(4);
  }

  function PutUint16(n: int): (b: Bytes)
    requires 0 <= n < 65536
    ensures |b| == 2
  {
    [n / 256, n % 256]
  }

  function Uint16(b: Bytes): (n: int)
    requires |b| == 2
    ensures 0 <= n < 65536
  {
    b[0] as int * 256 + b[1] as int
  }

  lemma Uint16Inverse(n: int, b: Bytes)
    requires 0 <= n < 65536 && |b| == 2
    ensures Uint16(b) == n <==> b == PutUint16(n)
  {
    if Uint16(b) == n {
      assert b == [b[0], b[1]];
      assert n / 256 == b[0] && n % 256 == b[1];
    }
  }

  /** The two-byte prefix is big-endian as well. */
  lemma Uint16IsBigEndian(n: int)
    requires 0 <= n < 65536
    ensures n < Pow256(2) && PutUint16(n) == BigEndian(n, 2)
  {
    assert Pow256(2) == 65536 && n / 256 < Pow256(1);
    assert BigEndian(n, 2) == BigEndian(n / 256, 1) + [n % 256];
    assert BigEndian(n / 256, 1) == BigEndian(n / 256 / 256, 0) + [n / 256 % 256];
  }

  /** Conversion of a mathematical integer to int64, as Go's arithmetic wraps. */
  function WrapInt64(x: int): (y: int)
    ensures -TWO_63 <= y < TWO_63
    ensures -TWO_63 <= x < TWO_63 ==> y == x
  {
    (x + TWO_63) % TWO_64 - TWO_63
  }

  /** The result is the one int64 that differs from x by a multiple of 2^64. */
  lemma WrapInt64Exactly(x: int, y: int)
    requires -TWO_63 <= y < TWO_63
    ensures WrapInt64(x) == y <==> (x - y) % TWO_64 == 0
  {
    var q, r := (x + TWO_63) / TWO_64, (x + TWO_63) % TWO_64;
    assert x - WrapInt64(x) == q * TWO_64;
    if (x - y) % TWO_64 == 0 {
      var k := (x - y) / TWO_64;
      assert x + TWO_63 == k * TWO_64 + (y + TWO_63);
    }
  }

  /** The bytes of an ASCII text. */
  function Ascii(s: string): (b: Bytes)
    ensures |b| == |s|
    ensures forall i :: 0 <= i < |s| && s[i] < 256 as char ==> b[i] == s[i] as int
  {
    seq(|s|, i requires 0 <= i < |s| => if s[i] < 256 as char then s[i] as int else 0)
  }

  /** The concatenation of a sequence of byte strings. */
  function Flatten(chunks: seq<Bytes>): Bytes {
    if chunks == [] then [] else chunks[0] + Flatten(chunks[1..])
  }

  /** What is left of the chunks when `n` bytes of the first have been taken. */
  function Remaining(chunks: seq<Bytes>, n: nat): seq<Bytes>
    requires chunks != [] && n <= |chunks[0]|
  {
    if n < |chunks[0]| then [chunks[0][n..]] + chunks[1..] else chunks[1..]
  }

  lemma FlattenRemaining(chunks: seq<Bytes>, n: nat)
    requires chunks != [] && n <= |chunks[0]|
    ensures Flatten(chunks) == chunks[0][..n] + Flatten(Remaining(chunks, n))
  {
    var first, others := chunks[0], chunks[1..];
    if n < |first| {
      assert Remaining(chunks, n)[1..] == others;
      assert first == first[..n] + first[n..];
      Assoc(first[..n], first[n..], Flatten(others));
    } else {
      assert first[..n] == first;
    }
  }

  lemma Assoc<T>(a: seq<T>, b: seq<T>, c: seq<T>)
    ensures (a + b) + c == a + (b + c)
  {
  }

  lemma TakeFirst<T>(s: seq<T>, k: nat)
    requires k < |s|
    ensures s[..1 + k] == [s[0]] + s[1..][..k]
  {
  }

  lemma TakeConcat<T>(a: seq<T>, b: seq<T>, k: nat)
    requires |a| <= k <= |a| + |b|
    ensures (a + b)[..k] == a + b[..k - |a|]
  {
  }
}
