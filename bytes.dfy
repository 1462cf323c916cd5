/** Byte buffers: XOR folding, little-endian fields and the effect of a
    sequential `fread` on a destination buffer. */
module Bytes {

  type Byte = bv8

  /** 2^32: the modulus of every `uint32_t` quantity of the codec. */
  const U32: int := 0x1_0000_0000

  function Zeros(n: nat): (r: seq<Byte>)
    ensures |r| == n
    ensures forall i :: 0 <= i < n ==> r[i] == 0
  {
    seq(n, _ => 0)
  }

  /** `memset(buf, b, n)` on a fresh buffer. */
  function Fill(n: nat, b: Byte): (r: seq<Byte>)
    ensures |r| == n
    ensures forall i :: 0 <= i < n ==> r[i] == b
  {
    seq(n, _ => b)
  }

  /** `xor_bit(a, b, Result, |a|)`: byte-wise exclusive or. */
  function Xor(a: seq<Byte>, b: seq<Byte>): (r: seq<Byte>)
    requires |a| == |b|
    ensures |r| == |a|
  {
    seq(|a|, i requires 0 <= i < |a| => a[i] ^ b[i])
  }

  /** `xor_bit` as its loop runs: byte `i` of the result is byte `i` of
      `a` XOR byte `i` of `b`, both as they were before the loop. */
  method XorBit(a: seq<Byte>, b: seq<Byte>) returns (r: seq<Byte>)
    requires |a| == |b|
    ensures r == Xor(a, b)
  {
    r := b;
    var i := 0;
    while i < |a|
      invariant 0 <= i <= |a| && |r| == |a|
      invariant forall k :: 0 <= k < i ==> r[k] == a[k] ^ b[k]
      invariant forall k :: i <= k < |a| ==> r[k] == b[k]
    {
      r := r[i := a[i] ^ b[i]];
      i := i + 1;
    }
  }

  /** Folding the same buffer in twice cancels it. */
  lemma XorCancel(a: seq<Byte>, b: seq<Byte>)
    requires |a| == |b|
    ensures Xor(Xor(a, b), b) == a
  {
    var r := Xor(Xor(a, b), b);
    forall i | 0 <= i < |a| ensures r[i] == a[i] {
      assert r[i] == (a[i] ^ b[i]) ^ b[i];
    }
  }

  /** `n` bytes starting at `p`, where bytes past the end of `s` read as
      zero. */
  function Window(s: seq<Byte>, p: nat, n: nat): (r: seq<Byte>)
    ensures |r| == n
    ensures p + n <= |s| ==> r == s[p..p + n]
  {
    seq(n, k requires 0 <= k < n => if p + k < |s| then s[p + k] else 0)
  }

  /** The last 8 bytes of `s`; a buffer shorter than 8 bytes is preceded by
      zero bytes. */
  function LastWord(s: seq<Byte>): (r: seq<Byte>)
    ensures |r| == 8
    ensures |s| >= 8 ==> r == s[|s| - 8..]
  {
    if |s| >= 8 then s[|s| - 8..] else Zeros(8 - |s|) + s
  }

  /** A `uint16_t` stored little-endian. */
  function Le16(x: bv16): (r: seq<Byte>)
    ensures |r| == 2
  {
    [(x & 0xFF) as Byte, (x >> 8) as Byte]
  }

  function GetLe16(s: seq<Byte>, off: nat): bv16
    requires off + 2 <= |s|
  {
    s[off] as bv16 | (s[off + 1] as bv16 << 8)
  }

  /** A `uint32_t` stored little-endian. */
  function Le32(x: bv32): (r: seq<Byte>)
    ensures |r| == 4
  {
    [(x & 0xFF) as Byte, ((x >> 8) & 0xFF) as Byte, ((x >> 16) & 0xFF) as Byte, (x >> 24) as Byte]
  }

  function GetLe32(s: seq<Byte>, off: nat): bv32
    requires off + 4 <= |s|
  {
    s[off] as bv32 | (s[off + 1] as bv32 << 8) | (s[off + 2] as bv32 << 16) | (s[off + 3] as bv32 << 24)
  }

  /** The `uint32_t` a wider unsigned value is assigned to: its low 32
      bits, built bit by bit from the top down. */
  function U32Of(v: nat): (r: bv32)
    decreases v
  {
    if v == 0 then 0
    else if v % 2 == 1 then (U32Of(v / 2) << 1) | 1
    else U32Of(v / 2) << 1
  }

  /** Below 2^32 the assignment keeps the value. */
  lemma {:induction false} U32OfValue(v: nat)
    requires v < U32
    ensures U32Of(v) as nat == v
  {
    if v > 0 {
      U32OfValue(v / 2);
      if v % 2 == 1 {
        DoublePlusOne(U32Of(v / 2), v / 2);
      } else {
        Double(U32Of(v / 2), v / 2);
      }
    }
  }

  lemma Double(y: bv32, v: nat)
    requires y as nat == v < 0x8000_0000
    ensures (y << 1) as nat == 2 * v
  {
  }

  lemma DoublePlusOne(y: bv32, v: nat)
    requires y as nat == v < 0x8000_0000
    ensures ((y << 1) | 1) as nat == 2 * v + 1
  {
  }

  /** A count assigned to a `uint32_t` and stored little-endian. */
  function LeU32(v: nat): (r: seq<Byte>)
    ensures |r| == 4
  {
    Le32(U32Of(v))
  }

  /** Decoding the bytes of an encoded field gives the field back. */
  lemma Le16RoundTrip(x: bv16, s: seq<Byte>, off: nat)
    requires off + 2 <= |s| && s[off] == Le16(x)[0] && s[off + 1] == Le16(x)[1]
    ensures GetLe16(s, off) == x
  {
  }

  lemma Le32RoundTrip(x: bv32, s: seq<Byte>, off: nat)
    requires off + 4 <= |s|
    requires s[off] == Le32(x)[0] && s[off + 1] == Le32(x)[1]
    requires s[off + 2] == Le32(x)[2] && s[off + 3] == Le32(x)[3]
    ensures GetLe32(s, off) == x
  {
  }

  /** A count stored with `LeU32` below 2^32 reads back as itself. */
  lemma LeU32RoundTrip(v: nat, s: seq<Byte>, off: nat)
    requires v < U32 && off + 4 <= |s| && s[off..off + 4] == LeU32(v)
    ensures GetLe32(s, off) as nat == v
  {
    assert s[off] == LeU32(v)[0] && s[off + 1] == LeU32(v)[1];
    assert s[off + 2] == LeU32(v)[2] && s[off + 3] == LeU32(v)[3];
    Le32RoundTrip(U32Of(v), s, off);
    U32OfValue(v);
  }

  /** The byte image of a little-endian field determines the field. */
  lemma Le16Decodes(s: seq<Byte>, off: nat)
    requires off + 2 <= |s|
    ensures Le16(GetLe16(s, off)) == s[off..off + 2]
  {
  }

  lemma Le32Decodes(s: seq<Byte>, off: nat)
    requires off + 4 <= |s|
    ensures Le32(GetLe32(s, off)) == s[off..off + 4]
  {
  }

  /** A field inside a common prefix reads the same from both buffers. */
  lemma GetLe32Prefix(s1: seq<Byte>, s2: seq<Byte>, u: nat, off: nat)
    requires off + 4 <= u <= |s1| && u <= |s2| && s1[..u] == s2[..u]
    ensures GetLe32(s1, off) == GetLe32(s2, off)
  {
    forall k | off <= k < off + 4 ensures s1[k] == s2[k] {
      assert s1[k] == s1[..u][k];
    }
  }

  /** `s` with the bytes from `off` on overwritten by `d`: what an
      in-place transform or a `memcpy` of `d` to `off` leaves. */
  function Splice(s: seq<Byte>, off: nat, d: seq<Byte>): (r: seq<Byte>)
    requires off + |d| <= |s|
    ensures |r| == |s|
  {
    s[..off] + d + s[off + |d|..]
  }

  lemma SpliceFront(s: seq<Byte>, d: seq<Byte>)
    requires |d| <= |s|
    ensures Splice(s, 0, d) == d + s[|d|..]
  {
    assert s[..0] + d == d;
  }

  lemma SpliceAt(s: seq<Byte>, off: nat, d: seq<Byte>, p: nat)
    requires off + |d| <= |s| && p < |s|
    ensures Splice(s, off, d)[p] == if off <= p < off + |d| then d[p - off] else s[p]
  {
  }

  /** The overwritten range holds `d`. */
  lemma SpliceInside(s: seq<Byte>, off: nat, d: seq<Byte>)
    requires off + |d| <= |s|
    ensures Splice(s, off, d)[off..off + |d|] == d
  {
  }

  /** A range that misses the overwritten one is unchanged. */
  lemma SpliceOutside(s: seq<Byte>, off: nat, d: seq<Byte>, lo: nat, hi: nat)
    requires off + |d| <= |s| && lo <= hi <= |s|
    requires hi <= off || off + |d| <= lo
    ensures Splice(s, off, d)[lo..hi] == s[lo..hi]
  {
    forall p | lo <= p < hi ensures Splice(s, off, d)[p] == s[p] {
      SpliceAt(s, off, d, p);
    }
  }

  /** Writing right after a written prefix extends the prefix. */
  lemma SpliceExtend(s: seq<Byte>, p: seq<Byte>, d: seq<Byte>)
    requires |p| + |d| <= |s|
    ensures Splice(Splice(s, 0, p), |p|, d) == Splice(s, 0, p + d)
  {
    forall k | 0 <= k < |s|
      ensures Splice(Splice(s, 0, p), |p|, d)[k] == Splice(s, 0, p + d)[k]
    {
      SpliceAt(Splice(s, 0, p), |p|, d, k);
      SpliceAt(s, 0, p, k);
      SpliceAt(s, 0, p + d, k);
    }
  }

  /** Overwriting the tail of a written prefix replaces that tail. */
  lemma SpliceTail(s: seq<Byte>, p: seq<Byte>, d1: seq<Byte>, d2: seq<Byte>)
    requires |p| + |d1| <= |s| && |d1| == |d2|
    ensures Splice(Splice(s, 0, p + d1), |p|, d2) == Splice(s, 0, p + d2)
  {
    forall k | 0 <= k < |s|
      ensures Splice(Splice(s, 0, p + d1), |p|, d2)[k] == Splice(s, 0, p + d2)[k]
    {
      SpliceAt(Splice(s, 0, p + d1), |p|, d2, k);
      SpliceAt(s, 0, p + d1, k);
      SpliceAt(s, 0, p + d2, k);
    }
  }

  /** Writing just before a written range extends the range down. */
  lemma SplicePrepend(s: seq<Byte>, off: nat, e: seq<Byte>, d: seq<Byte>)
    requires off + |e| + |d| <= |s|
    ensures Splice(Splice(s, off + |e|, d), off, e) == Splice(s, off, e + d)
  {
    var mid := off + |e|;
    var inner := Splice(s, mid, d);
    forall k | 0 <= k < |s|
      ensures Splice(inner, off, e)[k] == Splice(s, off, e + d)[k]
    {
      SpliceAt(inner, off, e, k);
      SpliceAt(s, mid, d, k);
      SpliceAt(s, off, e + d, k);
    }
  }

  /** A range inside a written prefix holds the prefix's bytes. */
  lemma SplicePrefixPart(s: seq<Byte>, q: seq<Byte>, lo: nat, hi: nat)
    requires |q| <= |s| && lo <= hi <= |q|
    ensures Splice(s, 0, q)[lo..hi] == q[lo..hi]
  {
    assert Splice(s, 0, q)[..|q|] == q;
  }

  lemma ConcatAssoc<T>(a: seq<T>, b: seq<T>, c: seq<T>)
    ensures (a + b) + c == a + (b + c)
  {
  }

  /** The parts of a sequence with one element appended. */
  lemma Snoc<T>(s: seq<T>, x: T)
    ensures (s + [x])[..|s|] == s && (s + [x])[|s|] == x
  {
  }

  /** Adjacent slices join. */
  lemma SliceJoin<T>(s: seq<T>, i: nat, j: nat, k: nat)
    requires i <= j <= k <= |s|
    ensures s[i..j] + s[j..k] == s[i..k]
  {
  }

  function Min(a: int, b: int): int { if a <= b then a else b }

  /** `std::string::resize(n)`: keep the first `n` bytes, pad with zeros. */
  function Resize(s: seq<Byte>, n: nat): (r: seq<Byte>)
    ensures |r| == n
    ensures |s| >= n ==> r == s[..n]
  {
    if |s| >= n then s[..n] else s + Zeros(n - |s|)
  }

  /** `fread(dst, 1, |dst|, f)` with the file positioned at `pos`: the bytes
      the file still holds overwrite the head of `dst`, the rest of `dst`
      keeps its old contents. */
  function ReadInto(dst: seq<Byte>, input: seq<Byte>, pos: nat): (r: seq<Byte>)
    requires pos <= |input|
    ensures |r| == |dst|
    ensures pos + |dst| <= |input| ==> r == input[pos..pos + |dst|]
  {
    var avail := input[pos..Min(pos + |dst|, |input|)];
    avail + dst[|avail|..]
  }

  /** The file position after that `fread`. */
  function Advance(input: seq<Byte>, pos: nat, n: nat): (p: nat)
    requires pos <= |input|
    ensures pos <= p <= |input|
    ensures pos + n <= |input| ==> p == pos + n
  {
    Min(pos + n, |input|)
  }

  /** `v` lies at offset `k` of `buf`, byte by byte. */
  predicate FieldAt(buf: seq<Byte>, k: nat, v: seq<Byte>)
    decreases |v|
  {
    if v == [] then k <= |buf| else k < |buf| && buf[k] == v[0] && FieldAt(buf, k + 1, v[1..])
  }

  lemma {:induction false} FieldAtMeans(buf: seq<Byte>, k: nat, v: seq<Byte>)
    ensures FieldAt(buf, k, v) <==> k + |v| <= |buf| && buf[k..k + |v|] == v
    decreases |v|
  {
    if v != [] {
      FieldAtMeans(buf, k + 1, v[1..]);
      if k + |v| <= |buf| {
        assert buf[k..k + |v|] == [buf[k]] + buf[k + 1..k + 1 + |v[1..]|];
        assert v == [v[0]] + v[1..];
      }
    }
  }
}
