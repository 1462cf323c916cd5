/** The per-block pass over Content: a running `uint32_t` offset walks the
    descriptors, ENCRYPTED blocks are decrypted in place, SIGNED blocks are
    checked against their stored tags. */
module ContentPass {
  import opened Bytes
  import opened Format
  import opened Tdes
  import opened Signatures

  /** The exact sum of the sizes of blocks 0 .. n-1. */
  function SizeSum(t: seq<Byte>, n: nat): nat
    requires IsTable(t) && n <= 256
  {
    if n == 0 then 0 else SizeSum(t, n - 1) + BlockSize(t, n - 1)
  }

  /** The value of the running `uint32_t offset` when block `n` is reached:
      the sum of the sizes before it, modulo 2^32. */
  function Offset(t: seq<Byte>, n: nat): (o: nat)
    requires IsTable(t) && n <= 256
    ensures o < U32 && o <= SizeSum(t, n)
    ensures SizeSum(t, n) < U32 ==> o == SizeSum(t, n)
  {
    SizeSum(t, n) % U32
  }

  /** Adding block `n`'s size to the 32-bit offset (wrapping) gives the
      offset of block `n + 1`. */
  lemma OffsetStep(t: seq<Byte>, n: nat)
    requires IsTable(t) && n < 256
    ensures Offset(t, n + 1) == (Offset(t, n) + BlockSize(t, n)) % U32
  {
    var a, b := SizeSum(t, n), BlockSize(t, n);
    assert a == (a / U32) * U32 + Offset(t, n);
    ModAddMultiple(Offset(t, n) + b, a / U32);
  }

  lemma ModAddMultiple(x: nat, q: nat)
    ensures (q * U32 + x) % U32 == x % U32
  {
  }

  lemma {:induction false} SizeSumMonotone(t: seq<Byte>, i: nat, n: nat)
    requires IsTable(t) && i <= n <= 256
    ensures SizeSum(t, i) <= SizeSum(t, n)
  {
    if i < n {
      SizeSumMonotone(t, i, n - 1);
    }
  }

  /** The descriptors' sizes fit in Content. */
  predicate BlocksFit(t: seq<Byte>, content: seq<Byte>)
    requires IsTable(t)
  {
    SizeSum(t, BlockCount(t)) <= |content|
  }

  /** Block `i` lies inside Content when the blocks fit. */
  lemma BlockInBounds(t: seq<Byte>, content: seq<Byte>, i: nat)
    requires IsTable(t) && i < BlockCount(t) && BlocksFit(t, content)
    ensures Offset(t, i) + BlockSize(t, i) <= |content|
  {
    SizeSumMonotone(t, i + 1, BlockCount(t));
  }

  /** Content after `DecryptContent` has handled blocks 0 .. n-1. */
  function DecryptBlocks(c: Cipher, ks: KeyStore, kc: seq<Byte>, keycount: int, t: seq<Byte>,
                         content: seq<Byte>, n: nat): (r: seq<Byte>)
    requires IsTable(t) && n <= BlockCount(t) && BlocksFit(t, content)
    ensures |r| == |content|
  {
    if n == 0 then content
    else
      var prev := DecryptBlocks(c, ks, kc, keycount, t, content, n - 1);
      var off, size := Offset(t, n - 1), BlockSize(t, n - 1);
      BlockInBounds(t, content, n - 1);
      if IsEncrypted(t, n - 1) then Splice(prev, off, Dec(c, kc, keycount, ks.ContentIV, prev[off..off + size]))
      else prev
  }

  /** Position `p` lies inside one of the ENCRYPTED blocks among 0 .. n-1. */
  predicate InEncryptedBlock(t: seq<Byte>, n: nat, p: nat)
    requires IsTable(t) && n <= 256
  {
    n > 0 && (InEncryptedBlock(t, n - 1, p)
              || (IsEncrypted(t, n - 1) && Offset(t, n - 1) <= p < Offset(t, n - 1) + BlockSize(t, n - 1)))
  }

  /** `DecryptContent` changes no byte outside the ENCRYPTED blocks. */
  lemma {:induction false} DecryptBlocksFrame(c: Cipher, ks: KeyStore, kc: seq<Byte>, keycount: int,
                                              t: seq<Byte>, content: seq<Byte>, n: nat, p: nat)
    requires IsTable(t) && n <= BlockCount(t) && BlocksFit(t, content)
    requires p < |content| && !InEncryptedBlock(t, n, p)
    ensures DecryptBlocks(c, ks, kc, keycount, t, content, n)[p] == content[p]
  {
    if n > 0 {
      DecryptBlocksFrame(c, ks, kc, keycount, t, content, n - 1, p);
      var prev := DecryptBlocks(c, ks, kc, keycount, t, content, n - 1);
      var off, size := Offset(t, n - 1), BlockSize(t, n - 1);
      BlockInBounds(t, content, n - 1);
      if IsEncrypted(t, n - 1) {
        var d := Dec(c, kc, keycount, ks.ContentIV, prev[off..off + size]);
        assert p < off || off + size <= p;
        SpliceAt(prev, off, d, p);
      }
    }
  }

  /** While the running offset has not wrapped, block `i` starts at the sum
      of the sizes before it and, once handled, holds the decryption of its
      original bytes when ENCRYPTED and its original bytes otherwise; later
      blocks leave it alone. */
  lemma {:induction false} DecryptBlocksSegment(c: Cipher, ks: KeyStore, kc: seq<Byte>, keycount: int,
                                                t: seq<Byte>, content: seq<Byte>, n: nat, i: nat)
    requires IsTable(t) && i < n <= BlockCount(t) && BlocksFit(t, content)
    requires SizeSum(t, n) < U32
    ensures SizeSum(t, i) <= SizeSum(t, i + 1) <= |content|
    ensures Offset(t, i) == SizeSum(t, i)
    ensures var r := DecryptBlocks(c, ks, kc, keycount, t, content, n);
            var lo, hi := SizeSum(t, i), SizeSum(t, i + 1);
            r[lo..hi] == (if IsEncrypted(t, i) then Dec(c, kc, keycount, ks.ContentIV, content[lo..hi])
                          else content[lo..hi])
  {
    SizeSumMonotone(t, i + 1, n);
    SizeSumMonotone(t, n, BlockCount(t));
    BlockHandled(c, ks, kc, keycount, t, content, i);
    LaterBlocksKeep(c, ks, kc, keycount, t, content, i + 1, n, SizeSum(t, i), SizeSum(t, i + 1));
  }

  /** With no wrap, handling blocks m .. n-1 leaves the bytes before block
      m's offset alone. */
  lemma {:induction false} LaterBlocksKeep(c: Cipher, ks: KeyStore, kc: seq<Byte>, keycount: int,
                                           t: seq<Byte>, content: seq<Byte>, m: nat, n: nat, lo: nat, hi: nat)
    requires IsTable(t) && m <= n <= BlockCount(t) && BlocksFit(t, content)
    requires SizeSum(t, n) < U32 && lo <= hi <= SizeSum(t, m)
    ensures hi <= |content|
    ensures DecryptBlocks(c, ks, kc, keycount, t, content, n)[lo..hi]
              == DecryptBlocks(c, ks, kc, keycount, t, content, m)[lo..hi]
  {
    SizeSumMonotone(t, m, BlockCount(t));
    if m < n {
      SizeSumMonotone(t, n - 1, n);
      SizeSumMonotone(t, m, n - 1);
      LaterBlocksKeep(c, ks, kc, keycount, t, content, m, n - 1, lo, hi);
      LaterBlockKeeps(c, ks, kc, keycount, t, content, n, lo, hi);
    }
  }

  /** Handling block `i` (offset not wrapped) turns its bytes, untouched by
      blocks 0 .. i-1, into their decryption when ENCRYPTED. */
  lemma BlockHandled(c: Cipher, ks: KeyStore, kc: seq<Byte>, keycount: int,
                     t: seq<Byte>, content: seq<Byte>, i: nat)
    requires IsTable(t) && i < BlockCount(t) && BlocksFit(t, content)
    requires SizeSum(t, i + 1) < U32
    ensures SizeSum(t, i + 1) <= |content| && Offset(t, i) == SizeSum(t, i)
    ensures var r := DecryptBlocks(c, ks, kc, keycount, t, content, i + 1);
            var lo, hi := SizeSum(t, i), SizeSum(t, i + 1);
            r[lo..hi] == (if IsEncrypted(t, i) then Dec(c, kc, keycount, ks.ContentIV, content[lo..hi])
                          else content[lo..hi])
  {
    SizeSumMonotone(t, i + 1, BlockCount(t));
    var lo, hi := SizeSum(t, i), SizeSum(t, i + 1);
    var prev := DecryptBlocks(c, ks, kc, keycount, t, content, i);
    forall p | lo <= p < hi ensures prev[p] == content[p] {
      NotInEarlierBlocks(t, i, p);
      DecryptBlocksFrame(c, ks, kc, keycount, t, content, i, p);
    }
    assert prev[lo..hi] == content[lo..hi];
    if IsEncrypted(t, i) {
      SpliceInside(prev, lo, Dec(c, kc, keycount, ks.ContentIV, prev[lo..hi]));
    }
  }

  /** With no wrap, handling block `n - 1` leaves the bytes before its
      offset alone. */
  lemma LaterBlockKeeps(c: Cipher, ks: KeyStore, kc: seq<Byte>, keycount: int,
                        t: seq<Byte>, content: seq<Byte>, n: nat, lo: nat, hi: nat)
    requires IsTable(t) && 0 < n <= BlockCount(t) && BlocksFit(t, content)
    requires SizeSum(t, n) < U32 && lo <= hi <= SizeSum(t, n - 1)
    ensures hi <= |content|
    ensures DecryptBlocks(c, ks, kc, keycount, t, content, n)[lo..hi]
              == DecryptBlocks(c, ks, kc, keycount, t, content, n - 1)[lo..hi]
  {
    SizeSumMonotone(t, n - 1, BlockCount(t));
    SizeSumMonotone(t, n, BlockCount(t));
    var prev := DecryptBlocks(c, ks, kc, keycount, t, content, n - 1);
    var off, size := Offset(t, n - 1), BlockSize(t, n - 1);
    BlockInBounds(t, content, n - 1);
    if IsEncrypted(t, n - 1) {
      SpliceOutside(prev, off, Dec(c, kc, keycount, ks.ContentIV, prev[off..off + size]), lo, hi);
    }
  }

  /** With no wrap, positions at or past the end of block `i - 1` lie in
      none of blocks 0 .. i-1. */
  lemma {:induction false} NotInEarlierBlocks(t: seq<Byte>, i: nat, p: nat)
    requires IsTable(t) && i <= 256 && SizeSum(t, i) < U32 && SizeSum(t, i) <= p
    ensures !InEncryptedBlock(t, i, p)
  {
    if i > 0 {
      NotInEarlierBlocks(t, i - 1, p);
    }
  }

  /** The tag `VerifyContentSignature` recomputes for block `i`. */
  function BlockTag(c: Cipher, ks: KeyStore, t: seq<Byte>, content: seq<Byte>, i: nat): (r: seq<Byte>)
    requires IsTable(t) && i < 256
    ensures |r| == 8
  {
    if IsEncrypted(t, i) then EncryptedBlockTag(c, ks, content, Offset(t, i), BlockSize(t, i))
    else SignedBlockTag(c, ks, content, Offset(t, i), BlockSize(t, i))
  }

  /** Block `i` passes the check: unsigned, or its stored tag matches. */
  predicate BlockVerifies(c: Cipher, ks: KeyStore, t: seq<Byte>, content: seq<Byte>, i: nat)
    requires IsTable(t) && i < 256
  {
    IsSigned(t, i) ==> StoredSignature(t, i) == BlockTag(c, ks, t, content, i)
  }

  /** Blocks 0 .. n-1 all pass, checked in index order. */
  predicate BlocksVerify(c: Cipher, ks: KeyStore, t: seq<Byte>, content: seq<Byte>, n: nat)
    requires IsTable(t) && n <= 256
  {
    n == 0 || (BlocksVerify(c, ks, t, content, n - 1) && BlockVerifies(c, ks, t, content, n - 1))
  }

  /** Every SIGNED block among the first BlockCount carries the tag its
      content yields. */
  predicate ContentSignaturesValid(c: Cipher, ks: KeyStore, t: seq<Byte>, content: seq<Byte>)
    requires IsTable(t)
  {
    BlocksVerify(c, ks, t, content, BlockCount(t))
  }

  /** The in-order check passes exactly when no block among the first `n`
      fails. */
  lemma {:induction false} BlocksVerifyMeans(c: Cipher, ks: KeyStore, t: seq<Byte>, content: seq<Byte>, n: nat)
    requires IsTable(t) && n <= 256
    ensures BlocksVerify(c, ks, t, content, n) <==> forall i :: 0 <= i < n ==> BlockVerifies(c, ks, t, content, i)
  {
    if n > 0 {
      BlocksVerifyMeans(c, ks, t, content, n - 1);
      if BlocksVerify(c, ks, t, content, n) {
        forall i | 0 <= i < n
          ensures BlockVerifies(c, ks, t, content, i)
        {
          if i == n - 1 {
          }
        }
      }
    }
  }
}
