/**
 * The obfuscation layer: each direction of a raw connection is XORed with the keystream of a
 * stream cipher (as in section 2.4 of RFC 8439), which here is an arbitrary function of key, nonce
 * and position.
 */
module Obfs {
  import opened Basics
  import opened Bytes
  import opened ByteStreams

  const OBFS_NONCE_LEN: nat := 24
  const POOL_BUFFER_LEN: nat := 32 * 1024

  type Keystream = (Bytes, Bytes, nat) -> Byte

  type Hash = Bytes -> Bytes

  // ---------- XOR ----------

  /** Bitwise exclusive or of the n low bits. */
  function XorBits(a: nat, b: nat, n: nat): (x: nat)
    ensures x < Pow2(n)
  {
    if n == 0 then 0 else (if a % 2 == b % 2 then 0 else 1) + 2 * XorBits(a / 2, b / 2, n - 1)
  }

  function Xor(a: Byte, b: Byte): Byte {
    assert Pow2(4) == 16 && Pow2(6) == 64 && Pow2(8) == 256;
    XorBits(a, b, 8)
  }

  lemma {:induction false} XorBitsTwice(a: nat, b: nat, n: nat)
    requires a < Pow2(n)
    ensures XorBits(XorBits(a, b, n), b, n) == a
  {
    if n > 0 {
      XorBitsTwice(a / 2, b / 2, n - 1);
      var x := XorBits(a, b, n);
      assert x / 2 == XorBits(a / 2, b / 2, n - 1) && x % 2 == if a % 2 == b % 2 then 0 else 1;
    }
  }

  lemma XorTwice(a: Byte, b: Byte)
    ensures Xor(Xor(a, b), b) == a
  {
    assert Pow2(4) == 16 && Pow2(6) == 64 && Pow2(8) == 256;
    XorBitsTwice(a, b, 8);
  }

  /** Bit i of x, the lowest being bit 0. */
  predicate Bit(x: nat, i: nat) {
    if i == 0 then x % 2 == 1 else Bit(x / 2, i - 1)
  }

  lemma {:induction false} XorBitsExactly(a: nat, b: nat, n: nat, i: nat)
    requires i < n
    ensures Bit(XorBits(a, b, n), i) <==> Bit(a, i) != Bit(b, i)
  {
    var x := XorBits(a, b, n);
    assert x / 2 == XorBits(a / 2, b / 2, n - 1) && x % 2 == if a % 2 == b % 2 then 0 else 1;
    if i > 0 {
      XorBitsExactly(a / 2, b / 2, n - 1, i - 1);
    }
  }

  /** Exclusive or, bit by bit. */
  lemma XorExactly(a: Byte, b: Byte, i: nat)
    requires i < 8
    ensures Bit(Xor(a, b), i) <==> Bit(a, i) != Bit(b, i)
  {
    XorBitsExactly(a, b, 8, i);
  }

  /** Numbers with the same bits are the same. */
  lemma {:induction false} SameBits(x: nat, y: nat, n: nat)
    requires x < Pow2(n) && y < Pow2(n) && forall i :: 0 <= i < n ==> Bit(x, i) == Bit(y, i)
    ensures x == y
  {
    if n > 0 {
      assert Bit(x, 0) == Bit(y, 0);
      forall i | 0 <= i < n - 1
        ensures Bit(x / 2, i) == Bit(y / 2, i)
      {
        assert Bit(x, i + 1) == Bit(y, i + 1);
      }
      SameBits(x / 2, y / 2, n - 1);
    }
  }

  lemma Pow2Of8()
    ensures Pow2(8) == 256
  {
    assert Pow2(4) == 16 && Pow2(6) == 64;
  }

  lemma {:induction false} NoBits(i: nat)
    ensures !Bit(0, i)
  {
    if i > 0 {
      NoBits(i - 1);
    }
  }

  /** The key byte alone decides what becomes of a byte: zero becomes the key byte itself. */
  lemma XorZero(b: Byte)
    ensures Xor(0, b) == b
  {
    Pow2Of8();
    forall i | 0 <= i < 8
      ensures Bit(Xor(0, b), i) == Bit(b, i)
    {
      XorExactly(0, b, i);
      NoBits(i);
    }
    SameBits(Xor(0, b), b, 8);
  }

  /** Two different key bytes encrypt the same byte differently. */
  lemma XorDiffers(a: Byte, b: Byte, b': Byte)
    ensures Xor(a, b) == Xor(a, b') <==> b == b'
  {
    if Xor(a, b) == Xor(a, b') {
      Pow2Of8();
      forall i | 0 <= i < 8
        ensures Bit(b, i) == Bit(b', i)
      {
        XorExactly(a, b, i);
        XorExactly(a, b', i);
      }
      SameBits(b, b', 8);
    }
  }

  // ---------- The cipher ----------

  /** Plaintext to ciphertext, or back, from a position of the keystream on. */
  function Crypt(ks: Keystream, key: Bytes, nonce: Bytes, pos: nat, p: Bytes): (q: Bytes)
    ensures |q| == |p|
  {
    seq(|p|, i requires 0 <= i < |p| => Xor(p[i], ks(key, nonce, pos + i)))
  }

  lemma CryptTwice(ks: Keystream, key: Bytes, nonce: Bytes, pos: nat, p: Bytes)
    ensures Crypt(ks, key, nonce, pos, Crypt(ks, key, nonce, pos, p)) == p
  {
    var q := Crypt(ks, key, nonce, pos, p);
    forall i | 0 <= i < |p|
      ensures Crypt(ks, key, nonce, pos, q)[i] == p[i]
    {
      XorTwice(p[i], ks(key, nonce, pos + i));
    }
  }

  lemma CryptConcat(ks: Keystream, key: Bytes, nonce: Bytes, pos: nat, a: Bytes, b: Bytes)
    ensures Crypt(ks, key, nonce, pos, a + b)
         == Crypt(ks, key, nonce, pos, a) + Crypt(ks, key, nonce, pos + |a|, b)
  {
  }

  /** What is decrypted from a prefix of the ciphertext is a prefix of the plaintext. */
  lemma CryptPrefix(ks: Keystream, key: Bytes, nonce: Bytes, p: Bytes, q: Bytes)
    ensures Crypt(ks, key, nonce, 0, q) <= Crypt(ks, key, nonce, 0, p) <==> q <= p
  {
    if q <= p {
      assert p == q + p[|q|..];
      CryptConcat(ks, key, nonce, 0, q, p[|q|..]);
    }
    if Crypt(ks, key, nonce, 0, q) <= Crypt(ks, key, nonce, 0, p) {
      forall i | 0 <= i < |q|
        ensures q[i] == p[i]
      {
        assert Crypt(ks, key, nonce, 0, q)[i] == Crypt(ks, key, nonce, 0, p)[i];
        XorTwice(q[i], ks(key, nonce, i));
        XorTwice(p[i], ks(key, nonce, i));
      }
    }
  }

  /** Zero plaintext comes out as the keystream of this key and nonce, from this position on. */
  lemma CryptShowsKeystream(ks: Keystream, key: Bytes, nonce: Bytes, pos: nat, p: Bytes, i: nat)
    requires i < |p| && p[i] == 0
    ensures Crypt(ks, key, nonce, pos, p)[i] == ks(key, nonce, pos + i)
  {
    XorZero(ks(key, nonce, pos + i));
  }

  /**
   * Encryption depends on the keystream, byte by byte: under two keystreams a plaintext has the same
   * ciphertext at exactly the places at which they agree.
   */
  lemma CryptSeparates(ks: Keystream, key: Bytes, nonce: Bytes, pos: nat,
                       ks': Keystream, key': Bytes, nonce': Bytes, pos': nat, p: Bytes, i: nat)
    requires i < |p|
    ensures Crypt(ks, key, nonce, pos, p)[i] == Crypt(ks', key', nonce', pos', p)[i]
            <==> ks(key, nonce, pos + i) == ks'(key', nonce', pos' + i)
  {
    XorDiffers(p[i], ks(key, nonce, pos + i), ks'(key', nonce', pos' + i));
  }

  class Cipher {
    const ks: Keystream
    const key: Bytes
    const nonce: Bytes
    var pos: nat

    constructor (ks: Keystream, key: Bytes, nonce: Bytes)
      ensures this.ks == ks && this.key == key && this.nonce == nonce && pos == 0
    {
      this.ks := ks;
      this.key := key;
      this.nonce := nonce;
      pos := 0;
    }

    ghost function Next(p: Bytes): Bytes
      reads this
    {
      Crypt(ks, key, nonce, pos, p)
    }

    /** XORKeyStream(dst[lo..lo + |src|], src); src may be the contents of that very part. */
    method XorKeyStream(dst: array<Byte>, lo: nat, src: Bytes)
      requires lo + |src| <= dst.Length
      modifies this`pos, dst
      ensures dst[lo..lo + |src|] == old(Next(src)) && pos == old(pos) + |src|
      ensures forall i :: 0 <= i < dst.Length && !(lo <= i < lo + |src|) ==> dst[i] == old(dst[i])
    {
      var i := 0;
      while i < |src|
        invariant i <= |src| && pos == old(pos) + i
        invariant forall j :: 0 <= j < i ==> dst[lo + j] == Xor(src[j], ks(key, nonce, old(pos) + j))
        invariant forall j :: 0 <= j < dst.Length && !(lo <= j < lo + i) ==> dst[j] == old(dst[j])
      {
        dst[lo + i] := Xor(src[i], ks(key, nonce, pos));
        pos := pos + 1;
        i := i + 1;
      }
    }
  }

  // ---------- Keys ----------

  function KeyInput(token: Bytes, direction: string): Bytes {
    (Ascii("cando1-obfs") + [0]) + (Ascii(direction) + ([0] + token))
  }

  function DeriveKey(hash: Hash, token: Bytes, direction: string): Bytes {
    hash(KeyInput(token, direction))
  }

  /** The two directions never hash the same input, so a nonce is not used twice under one key. */
  lemma DirectionsHashApart(token: Bytes, other: Bytes)
    ensures KeyInput(token, "c2s") != KeyInput(other, "s2c")
  {
    assert KeyInput(token, "c2s")[12] == Ascii("c2s")[0] == 'c' as int;
    assert KeyInput(other, "s2c")[12] == Ascii("s2c")[0] == 's' as int;
  }

  /** The key material names the direction and the token, and nothing else gives the same. */
  lemma KeyInputExactly(token: Bytes, s2c: bool, other: Bytes, s2c': bool)
    ensures KeyInput(token, if s2c then "s2c" else "c2s") == KeyInput(other, if s2c' then "s2c" else "c2s")
            <==> token == other && s2c == s2c'
  {
    var d, d' := if s2c then "s2c" else "c2s", if s2c' then "s2c" else "c2s";
    assert KeyInput(token, d)[16..] == token && KeyInput(other, d')[16..] == other;
    assert KeyInput(token, d)[12] == Ascii(d)[0] == d[0] as int;
    assert KeyInput(other, d')[12] == Ascii(d')[0] == d'[0] as int;
  }

  function WriteKey(hash: Hash, token: Bytes, isClient: bool): Bytes {
    DeriveKey(hash, token, if isClient then "c2s" else "s2c")
  }

  function ReadKey(hash: Hash, token: Bytes, isClient: bool): Bytes {
    DeriveKey(hash, token, if isClient then "s2c" else "c2s")
  }

  /**
   * Each end writes under the key the other reads under, and under a hash that keeps different inputs
   * apart it never writes under the key it reads under, nor under a key of another token.
   */
  lemma KeysExactly(hash: Hash, token: Bytes, other: Bytes, isClient: bool)
    requires forall a, b :: hash(a) == hash(b) ==> a == b
    ensures WriteKey(hash, token, isClient) == ReadKey(hash, other, !isClient) <==> token == other
    ensures WriteKey(hash, token, isClient) != ReadKey(hash, other, isClient)
    ensures WriteKey(hash, token, isClient) == WriteKey(hash, other, isClient) <==> token == other
    ensures WriteKey(hash, token, true) == hash((Ascii("cando1-obfs") + [0]) + (Ascii("c2s") + ([0] + token)))
  {
    KeyInputExactly(token, !isClient, other, !isClient);
    KeyInputExactly(token, !isClient, other, isClient);
  }

  // ---------- obfsConn ----------

  /** A chunk is encrypted where the whole would have been, also when only a part goes out. */
  lemma ChunkInPlace(ks: Keystream, key: Bytes, nonce: Bytes, pos: nat, p: Bytes, before: Bytes,
                     total: nat, size: nat, written: nat)
    requires total + size <= |p| && written <= size
    ensures var all := Crypt(ks, key, nonce, pos, p);
            (before + all[..total]) + Crypt(ks, key, nonce, pos + total, p[total..total + size])[..written]
            == before + all[..total + written]
  {
    var all := Crypt(ks, key, nonce, pos, p);
    var next := Crypt(ks, key, nonce, pos + total, p[total..total + size]);
    assert all[..total] + next[..written] == all[..total + written];
    Assoc(before, all[..total], next[..written]);
  }

  /** The keystream position of the reader keeps up with the bytes it has read. */
  lemma Decrypted(ks: Keystream, key: Bytes, nonce: Bytes, received: Bytes, raw: Bytes, rest: Bytes)
    ensures var pos := |received|;
            var plain := Crypt(ks, key, nonce, pos, raw);
            && Crypt(ks, key, nonce, pos, raw + rest) == plain + Crypt(ks, key, nonce, pos + |raw|, rest)
            && Crypt(ks, key, nonce, 0, received) + (raw + rest) == Crypt(ks, key, nonce, 0, received + plain) + rest
  {
    var pos := |received|;
    var plain := Crypt(ks, key, nonce, pos, raw);
    CryptConcat(ks, key, nonce, pos, raw, rest);
    CryptTwice(ks, key, nonce, pos, raw);
    CryptConcat(ks, key, nonce, 0, received, plain);
    Assoc(Crypt(ks, key, nonce, 0, received), raw, rest);
  }

  lemma PrefixesOf(a: Bytes, b: Bytes, i: nat, j: nat)
    requires i <= j <= |b|
    ensures a + b[..i] <= a + b[..j] <= a + b && (j == |b| ==> b[..j] == b)
  {
  }

  /** The body of Read: read into the caller's buffer and decrypt there. */
  method ReadAndDecrypt(r: Reader, rc: Cipher, p: array<Byte>, lo: nat, hi: nat)
    returns (n: nat, status: Status, ghost raw: Bytes)
    requires lo <= hi <= p.Length
    modifies r, rc, p
    ensures n == |raw| <= hi - lo && old(r.Pending()) == raw + r.Pending()
    ensures p[lo..lo + n] == old(Crypt(rc.ks, rc.key, rc.nonce, rc.pos, raw)) && rc.pos == old(rc.pos) + n
    ensures forall i :: 0 <= i < p.Length && !(lo <= i < lo + n) ==> p[i] == old(p[i])
    ensures status.Failed? ==> status.error == r.fault && r.Pending() == []
    ensures status.Ok? && lo < hi ==> r.Measure() < old(r.Measure())
  {
    n, status := r.Read(p, lo, hi);
    raw := p[lo..lo + n];
    if n > 0 {
      rc.XorKeyStream(p, lo, p[lo..lo + n]);
    }
  }

  class ObfsConn {
    const r: Reader
    const w: Writer
    const rc: Cipher
    const wc: Cipher

    // The plaintext read, and all that arrives on the raw connection from the start.
    ghost var received: Bytes
    ghost const incoming: Bytes
    // The plaintext written, up to and including the first Write that fails, and what of it has
    // gone out behind what was on the wire before.
    ghost var sent: Bytes
    ghost var out: Bytes
    ghost const head: Bytes
    ghost var broken: bool

    ghost predicate Valid()
      reads this, r, w, rc, wc
    {
      && rc != wc
      && incoming == Crypt(rc.ks, rc.key, rc.nonce, 0, received) + r.Pending()
      && rc.pos == |received|
      && out <= Crypt(wc.ks, wc.key, wc.nonce, 0, sent)
      && head + out <= w.wire
      && (!broken ==>
            wc.pos == |sent| && out == Crypt(wc.ks, wc.key, wc.nonce, 0, sent) && w.wire == head + out)
    }

    /** newObfsConn, over the two ends of the raw connection. */
    constructor (r: Reader, w: Writer, ks: Keystream, hash: Hash, token: Bytes, nonce: Bytes, isClient: bool)
      ensures Valid() && this.r == r && this.w == w && fresh(rc) && fresh(wc)
      ensures received == sent == out == [] && !broken && incoming == r.Pending() && head == w.wire
      ensures rc.ks == ks == wc.ks && rc.nonce == nonce == wc.nonce
      ensures rc.key == ReadKey(hash, token, isClient) && wc.key == WriteKey(hash, token, isClient)
    {
      this.r := r;
      this.w := w;
      var keyC2S, keyS2C := DeriveKey(hash, token, "c2s"), DeriveKey(hash, token, "s2c");
      var readKey, writeKey;
      if isClient {
        writeKey, readKey := keyC2S, keyS2C;
      } else {
        readKey, writeKey := keyC2S, keyS2C;
      }
      rc := new Cipher(ks, readKey, nonce);
      wc := new Cipher(ks, writeKey, nonce);
      received, sent, out, broken := [], [], [], false;
      incoming, head := r.Pending(), w.wire;
    }

    /** The plaintext still to be read. */
    ghost function Pending(): Bytes
      reads this, r, rc
    {
      rc.Next(r.Pending())
    }

    /** A transparent Read: it has the contract of the raw connection's, in plaintext. */
    method Read(p: array<Byte>, lo: nat, hi: nat) returns (n: nat, status: Status)
      requires Valid() && lo <= hi <= p.Length
      modifies this`received, r, rc, p
      ensures Valid()
      ensures n <= hi - lo && old(Pending()) == p[lo..lo + n] + Pending()
      ensures received == old(received) + p[lo..lo + n]
      ensures forall i :: 0 <= i < p.Length && !(lo <= i < lo + n) ==> p[i] == old(p[i])
      ensures status.Failed? ==> status.error == r.fault && Pending() == []
      ensures status.Ok? && lo < hi ==> r.Measure() < old(r.Measure())
    {
      ghost var raw;
      n, status, raw := ReadAndDecrypt(r, rc, p, lo, hi);
      Decrypted(rc.ks, rc.key, rc.nonce, received, raw, r.Pending());
      received := received + p[lo..lo + n];
    }

    /** Write, in chunks of one pooled buffer; `total` counts the bytes of the chunks written. */
    method Write(p: Bytes) returns (total: nat, status: Status)
      requires Valid()
      modifies this`sent, this`out, this`broken, w, wc
      ensures Valid()
      ensures total <= |p|
      ensures status.Ok? ==> total == |p| && w.wire == old(w.wire) + old(wc.Next(p))
      ensures old(w.wire) + old(wc.Next(p))[..total] <= w.wire <= old(w.wire) + old(wc.Next(p))
      ensures broken == (old(broken) || status.Failed?)
      ensures w.failures == old(w.failures) + if status.Failed? then 1 else 0
      ensures status.Ok? ==> w.attempts == old(w.attempts) + Chunks(old(wc.Next(p)))
      ensures sent == if old(broken) then old(sent) else old(sent) + p
    {
      ghost var all, before := wc.Next(p), w.wire;
      ghost var cut;
      total, status, cut := WriteChunks(w, wc, p);
      PrefixesOf(before, all, total, cut);
      if !broken {
        CryptConcat(wc.ks, wc.key, wc.nonce, 0, sent, p);
        Assoc(head, out, all[..cut]);
        out, sent, broken := out + all[..cut], sent + p, status.Failed?;
      }
    }
  }

  /** The pieces in which a ciphertext is written: all of 32 KiB but the last. */
  function Chunks(b: Bytes): seq<Bytes> {
    if b == [] then []
    else if |b| <= 32768 then [b]
    else [b[..32768]] + Chunks(b[32768..])
  }

  lemma NextChunk(ks: Keystream, key: Bytes, nonce: Bytes, pos: nat, p: Bytes, total: nat, size: nat, before: seq<Bytes>)
    requires total < |p| && size == if |p| - total > POOL_BUFFER_LEN then POOL_BUFFER_LEN else |p| - total
    ensures var all := Crypt(ks, key, nonce, pos, p);
            before + Chunks(all[total..])
            == (before + [Crypt(ks, key, nonce, pos + total, p[total..total + size])]) + Chunks(all[total + size..])
  {
    var all := Crypt(ks, key, nonce, pos, p);
    var next := Crypt(ks, key, nonce, pos + total, p[total..total + size]);
    var rest := all[total..];
    assert rest[..size] == next && rest[size..] == all[total + size..];
    if |rest| <= 32768 {
      assert rest == next && all[total + size..] == [];
    } else {
      assert rest[..32768] == next && rest[32768..] == all[total + size..];
    }
    assert Chunks(rest) == [next] + Chunks(all[total + size..]);
    Assoc(before, [next], Chunks(all[total + size..]));
  }

  /** One chunk: encrypt it into the pooled buffer and write it. */
  method WriteChunk(w: Writer, wc: Cipher, buf: array<Byte>, chunk: Bytes) returns (written: nat, status: Status)
    requires |chunk| <= buf.Length
    modifies w, wc, buf
    ensures written <= |chunk| && w.wire == old(w.wire) + old(wc.Next(chunk))[..written]
    ensures wc.pos == old(wc.pos) + |chunk| && (status.Ok? ==> written == |chunk|)
    ensures w.attempts == old(w.attempts) + [old(wc.Next(chunk))]
    ensures w.failures == old(w.failures) + if status.Failed? then 1 else 0
  {
    wc.XorKeyStream(buf, 0, chunk);
    assert buf[..|chunk|] == buf[0..0 + |chunk|];
    written, status := w.Write(buf[..|chunk|]);
  }

  /** The loop of Write. */
  method WriteChunks(w: Writer, wc: Cipher, p: Bytes) returns (total: nat, status: Status, ghost cut: nat)
    modifies w, wc
    ensures total <= cut <= |p| && w.wire == old(w.wire) + old(wc.Next(p))[..cut]
    ensures status.Ok? ==> total == |p| && wc.pos == old(wc.pos) + |p|
    ensures w.failures == old(w.failures) + if status.Failed? then 1 else 0
    ensures w.attempts <= old(w.attempts) + Chunks(old(wc.Next(p)))
    ensures status.Ok? ==> w.attempts == old(w.attempts) + Chunks(old(wc.Next(p)))
  {
    ghost var tried := w.attempts;
    ghost var pos, all, before := wc.pos, wc.Next(p), w.wire;
    total, status, cut := 0, Ok, 0;
    if |p| == 0 {
      assert tried + [] == tried;
      return;
    }
    assert all[0..] == all;
    var buf := new Byte[POOL_BUFFER_LEN];
    while total < |p|
      invariant total == cut <= |p| && wc.pos == pos + total && status.Ok?
      invariant w.wire == before + all[..total] && w.failures == old(w.failures)
      invariant w.attempts + Chunks(all[total..]) == tried + Chunks(all)
    {
      var size := if |p| - total > buf.Length then buf.Length else |p| - total;
      NextChunk(wc.ks, wc.key, wc.nonce, pos, p, total, size, w.attempts);
      var written;
      written, status := WriteChunk(w, wc, buf, p[total..total + size]);
      ChunkInPlace(wc.ks, wc.key, wc.nonce, pos, p, before, total, size, written);
      cut := total + written;
      if status.Failed? {
        return;
      }
      total := total + size;
    }
    assert w.attempts + [] == w.attempts;
  }

  /** The one end's write cipher and the other's read cipher produce the same keystream. */
  ghost predicate Paired(a: ObfsConn, b: ObfsConn) {
    a.wc.ks == b.rc.ks && a.wc.key == b.rc.key && a.wc.nonce == b.rc.nonce
  }

  /** The two ends that share token and nonce are paired in both directions. */
  lemma PairedEnds(a: ObfsConn, b: ObfsConn, hash: Hash, token: Bytes)
    requires a.rc.ks == a.wc.ks == b.rc.ks == b.wc.ks && a.rc.nonce == a.wc.nonce == b.rc.nonce == b.wc.nonce
    requires a.rc.key == ReadKey(hash, token, true) && a.wc.key == WriteKey(hash, token, true)
    requires b.rc.key == ReadKey(hash, token, false) && b.wc.key == WriteKey(hash, token, false)
    ensures Paired(a, b) && Paired(b, a)
  {
  }

  /**
   * The carrier is transparent: whatever Writes and Reads the two ends have made, and however the
   * bytes were cut on the way, the plaintext read at b is a prefix of the plaintext written at a up
   * to its first failed Write, and all of it once everything has been read.
   */
  lemma Transparent(a: ObfsConn, b: ObfsConn)
    requires a.Valid() && b.Valid() && Paired(a, b) && b.incoming <= a.out
    ensures b.received <= a.sent
    ensures !a.broken && b.incoming == a.out && b.r.Pending() == [] ==> b.received == a.sent
  {
    CryptPrefix(a.wc.ks, a.wc.key, a.wc.nonce, a.sent, b.received);
  }

  type Nonce = b: Bytes | |b| == 24 witness seq(24, _ => 0)

  datatype ObfsStatus = Ready | NoRandomness | Broken(error: IOError)

  /** obfsClient: 24 random bytes, if it can draw them, go out first; nothing is read. */
  method ObfsClient(r: Reader, w: Writer, ks: Keystream, hash: Hash, token: Bytes, random: Option<Nonce>)
    returns (c: ObfsConn?, status: ObfsStatus)
    modifies w
    ensures c != null <==> status.Ready?
    ensures random.None? <==> status.NoRandomness?
    ensures random.None? ==> w.wire == old(w.wire) && w.failures == old(w.failures)
    ensures random.Some? ==>
              && old(w.wire) <= w.wire <= old(w.wire) + random.value
              && w.attempts == old(w.attempts) + [random.value]
              && w.failures == old(w.failures) + if status.Ready? then 0 else 1
    ensures c != null ==>
              var nonce := random.value;
              && fresh(c) && c.Valid() && c.r == r && c.w == w && c.incoming == r.Pending() && c.received == c.sent == []
              && c.head == w.wire == old(w.wire) + nonce && !c.broken
              && c.rc.ks == ks == c.wc.ks && c.rc.nonce == nonce == c.wc.nonce
              && c.rc.key == ReadKey(hash, token, true) && c.wc.key == WriteKey(hash, token, true)
  {
    if random.None? {
      return null, NoRandomness;
    }
    var nonce := random.value;
    var n, io := w.Write(nonce);
    if io.Failed? {
      return null, Broken(io.error);
    }
    assert nonce[..n] == nonce;
    c := new ObfsConn(r, w, ks, hash, token, nonce, true);
    status := Ready;
  }

  /** obfsServer: takes exactly the 24 bytes of the nonce off the stream and writes nothing. */
  method ObfsServer(r: Reader, w: Writer, ks: Keystream, hash: Hash, token: Bytes)
    returns (c: ObfsConn?, status: Status)
    modifies r
    ensures c != null <==> status.Ok? && |old(r.Pending())| >= OBFS_NONCE_LEN
    ensures status.Ok? <==> |old(r.Pending())| >= 24
    ensures status.Failed? ==> r.Pending() == []
    ensures c != null ==>
              var nonce := old(r.Pending())[..OBFS_NONCE_LEN];
              && fresh(c) && c.Valid() && c.r == r && c.w == w && c.received == c.sent == []
              && c.incoming == r.Pending() == old(r.Pending())[OBFS_NONCE_LEN..]
              && c.head == w.wire && !c.broken
              && c.rc.ks == ks == c.wc.ks && c.rc.nonce == nonce == c.wc.nonce
              && c.rc.key == ReadKey(hash, token, false) && c.wc.key == WriteKey(hash, token, false)
  {
    ghost var stream := r.Pending();
    var nonce := new Byte[OBFS_NONCE_LEN];
    var got;
    got, status := ReadFull(r, nonce, OBFS_NONCE_LEN);
    if status.Failed? {
      return null, status;
    }
    assert nonce[..OBFS_NONCE_LEN] == nonce[..] == stream[..OBFS_NONCE_LEN];
    assert r.Pending() == stream[OBFS_NONCE_LEN..];
    c := new ObfsConn(r, w, ks, hash, token, nonce[..], false);
  }

  /**
   * obfsClient and obfsServer over a carrier that delivers what the client writes and then `later`, in
   * whatever pieces: unless the one write fails, both come up, paired in both directions, and the
   * server's end starts at the first byte behind the nonce.
   */
  method Connect(ks: Keystream, hash: Hash, token: Bytes, random: Option<Nonce>, toClient: Reader,
                 fromClient: Writer, fromServer: Writer,
                 later: Bytes, cut: Carrier, fault: IOError, eager: bool)
    returns (client: ObfsConn?, server: ObfsConn?)
    requires Faithful(cut)
    requires fromClient.wire == [] && fromClient != fromServer
    modifies fromClient
    ensures client == null <==> random.None? || fromClient.failures > old(fromClient.failures)
    ensures client != null ==>
              && client.Valid() && server != null && server.Valid()
              && Paired(client, server) && Paired(server, client)
              && client.incoming == toClient.Pending() && server.incoming == later
              && client.out == server.out == []
  {
    var status;
    client, status := ObfsClient(toClient, fromClient, ks, hash, token, random);
    if client == null {
      return null, null;
    }
    var toServer := new Reader(cut(fromClient.wire + later), fault, eager);
    assert (fromClient.wire + later)[..OBFS_NONCE_LEN] == random.value;
    assert (fromClient.wire + later)[OBFS_NONCE_LEN..] == later;
    var read;
    server, read := ObfsServer(toServer, fromServer, ks, hash, token);
    PairedEnds(client, server, hash, token);
  }
}
