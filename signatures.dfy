/** The signature chain: header signature, key-encryption-key derivation,
    key wrap and unwrap, bit-table signature, root signature and the
    per-block tags, each a fixed composition of XOR folds and cipher calls. */
module Signatures {
  import opened Bytes
  import opened Format
  import opened Tdes

  /** `MG_SIG_MASTER_AND_HASH_KEY`: the two signature keys side by side, a
      2-key buffer. */
  function SigMasterAndHashKey(ks: KeyStore): (r: seq<Byte>)
    ensures |r| == 16 && r[..8] == ks.SignatureMasterKey && r[8..] == ks.SignatureHashKey
  {
    ks.SignatureMasterKey + ks.SignatureHashKey
  }

  /** The nested CBC-MAC: the last block of the 1-key CBC encryption under
      the signature master key, decrypted under the hash key, re-encrypted
      under the master key. */
  function NestedMac(c: Cipher, ks: KeyStore, data: seq<Byte>): (r: seq<Byte>)
    ensures |r| == 8
  {
    var enc := Enc(c, ks.SignatureMasterKey, 1, IV_NULL, data);
    var unsigned := Dec(c, ks.SignatureHashKey, 1, IV_NULL, LastWord(enc));
    Enc(c, ks.SignatureMasterKey, 1, IV_NULL, unsigned)
  }

  /** `GetHeaderSignature` over the header's byte image. */
  function GetHeaderSignature(c: Cipher, ks: KeyStore, header: seq<Byte>): (r: seq<Byte>)
    requires |header| == HS
    ensures |r| == 8
  {
    NestedMac(c, ks, header)
  }

  /** Undoing the final re-encryption and then the unsigning step of the
      header signature yields the CBC-MAC of the header. */
  lemma HeaderSignatureOpens(c: Cipher, ks: KeyStore, header: seq<Byte>)
    requires |header| == HS
    ensures var cbc := Enc(c, ks.SignatureMasterKey, 1, IV_NULL, header);
            Dec(c, ks.SignatureMasterKey, 1, IV_NULL, GetHeaderSignature(c, ks, header))
              == Dec(c, ks.SignatureHashKey, 1, IV_NULL, cbc[HS - 8..])
  {
    var cbc := Enc(c, ks.SignatureMasterKey, 1, IV_NULL, header);
    DecEnc(c, ks.SignatureMasterKey, 1, IV_NULL, Dec(c, ks.SignatureHashKey, 1, IV_NULL, LastWord(cbc)));
  }

  /** `HeaderData`: the first 8 header bytes folded with the next 8. */
  function HeaderData(header: seq<Byte>): (r: seq<Byte>)
    requires |header| >= 16
    ensures |r| == 8
  {
    Xor(header[..8], header[8..16])
  }

  /** `DeriveKeyEncryptionKey`: two 2-key encryptions of the IV-masked
      header fold, one under the Kbit master key, one under the Kc master
      key. */
  function DeriveKeyEncryptionKey(c: Cipher, ks: KeyStore, header: seq<Byte>): (kek: seq<Byte>)
    requires |header| >= 16
    ensures |kek| == 16
  {
    var hd := HeaderData(header);
    Enc(c, ks.KbitMasterKey, 2, IV_NULL, Xor(ks.KbitIV, hd))
      + Enc(c, ks.KcMasterKey, 2, IV_NULL, Xor(ks.KcIV, hd))
  }

  /** The KEK depends on the header through its first 16 bytes only. */
  lemma {:induction false} KekDependsOnFirst16(c: Cipher, ks: KeyStore, h1: seq<Byte>, h2: seq<Byte>)
    requires |h1| >= 16 && |h2| >= 16 && h1[..16] == h2[..16]
    ensures DeriveKeyEncryptionKey(c, ks, h1) == DeriveKeyEncryptionKey(c, ks, h2)
  {
    assert h1[..8] == h1[..16][..8] == h2[..16][..8] == h2[..8];
    assert h1[8..16] == h1[..16][8..] == h2[..16][8..] == h2[8..16];
  }

  /** Each KEK half opens, under its master key, to the key-specific IV
      folded with the header fold. */
  lemma KekHalvesOpen(c: Cipher, ks: KeyStore, header: seq<Byte>)
    requires |header| >= 16
    ensures var kek := DeriveKeyEncryptionKey(c, ks, header);
            && Dec(c, ks.KbitMasterKey, 2, IV_NULL, kek[..8]) == Xor(Xor(ks.KbitIV, header[..8]), header[8..16])
            && Dec(c, ks.KcMasterKey, 2, IV_NULL, kek[8..]) == Xor(Xor(ks.KcIV, header[..8]), header[8..16])
  {
    var hd := HeaderData(header);
    var a := Enc(c, ks.KbitMasterKey, 2, IV_NULL, Xor(ks.KbitIV, hd));
    var b := Enc(c, ks.KcMasterKey, 2, IV_NULL, Xor(ks.KcIV, hd));
    assert (a + b)[..8] == a && (a + b)[8..] == b;
    DecEnc(c, ks.KbitMasterKey, 2, IV_NULL, Xor(ks.KbitIV, hd));
    DecEnc(c, ks.KcMasterKey, 2, IV_NULL, Xor(ks.KcIV, hd));
    assert Xor(ks.KbitIV, hd) == Xor(Xor(ks.KbitIV, header[..8]), header[8..16]);
    assert Xor(ks.KcIV, hd) == Xor(Xor(ks.KcIV, header[..8]), header[8..16]);
  }

  /** `EncryptKeys` on one 16-byte key: each 8-byte half separately
      encrypted under the KEK (2-key, zero IV). */
  function WrapKey(c: Cipher, kek: seq<Byte>, key: seq<Byte>): (r: seq<Byte>)
    requires |key| == 16
    ensures |r| == 16
  {
    Enc(c, kek, 2, IV_NULL, key[..8]) + Enc(c, kek, 2, IV_NULL, key[8..16])
  }

  /** `DecryptKeys` on one 16-byte key. */
  function UnwrapKey(c: Cipher, kek: seq<Byte>, key: seq<Byte>): (r: seq<Byte>)
    requires |key| == 16
    ensures |r| == 16
  {
    Dec(c, kek, 2, IV_NULL, key[..8]) + Dec(c, kek, 2, IV_NULL, key[8..16])
  }

  lemma {:induction false} UnwrapWrapKey(c: Cipher, kek: seq<Byte>, key: seq<Byte>)
    requires |key| == 16
    ensures UnwrapKey(c, kek, WrapKey(c, kek, key)) == key
  {
    var a := Enc(c, kek, 2, IV_NULL, key[..8]);
    var b := Enc(c, kek, 2, IV_NULL, key[8..16]);
    assert (a + b)[..8] == a && (a + b)[8..16] == b;
    DecEnc(c, kek, 2, IV_NULL, key[..8]);
    DecEnc(c, kek, 2, IV_NULL, key[8..16]);
    assert key[..8] + key[8..16] == key;
  }

  /** Each half of a wrapped or unwrapped key depends only on the same half
      of the input: the two halves are not chained. */
  lemma {:induction false} KeyHalvesIndependent(c: Cipher, kek: seq<Byte>, k1: seq<Byte>, k2: seq<Byte>)
    requires |k1| == 16 && |k2| == 16
    ensures k1[..8] == k2[..8] ==> WrapKey(c, kek, k1)[..8] == WrapKey(c, kek, k2)[..8]
    ensures k1[8..] == k2[8..] ==> WrapKey(c, kek, k1)[8..] == WrapKey(c, kek, k2)[8..]
    ensures k1[..8] == k2[..8] ==> UnwrapKey(c, kek, k1)[..8] == UnwrapKey(c, kek, k2)[..8]
    ensures k1[8..] == k2[8..] ==> UnwrapKey(c, kek, k1)[8..] == UnwrapKey(c, kek, k2)[8..]
  {
    var w1a, w1b := Enc(c, kek, 2, IV_NULL, k1[..8]), Enc(c, kek, 2, IV_NULL, k1[8..16]);
    var w2a, w2b := Enc(c, kek, 2, IV_NULL, k2[..8]), Enc(c, kek, 2, IV_NULL, k2[8..16]);
    assert (w1a + w1b)[..8] == w1a && (w1a + w1b)[8..] == w1b;
    assert (w2a + w2b)[..8] == w2a && (w2a + w2b)[8..] == w2b;
    var u1a, u1b := Dec(c, kek, 2, IV_NULL, k1[..8]), Dec(c, kek, 2, IV_NULL, k1[8..16]);
    var u2a, u2b := Dec(c, kek, 2, IV_NULL, k2[..8]), Dec(c, kek, 2, IV_NULL, k2[8..16]);
    assert (u1a + u1b)[..8] == u1a && (u1a + u1b)[8..] == u1b;
    assert (u2a + u2b)[..8] == u2a && (u2a + u2b)[8..] == u2b;
    assert k1[8..] == k1[8..16] && k2[8..] == k2[8..16];
  }

  /** The key-derived seed of the bit-table accumulator: Kbit[0:8], folded
      with Kbit[8:16] only when the halves differ, folded with Kc[0:8],
      folded with Kc[8:16] only when the halves of Kc differ. */
  function KeySeed(kbit: seq<Byte>, kc: seq<Byte>): (r: seq<Byte>)
    requires |kbit| == 16 && |kc| == 16
    ensures |r| == 8
  {
    var h0 := kbit[..8];
    var h1 := if kbit[..8] != kbit[8..16] then Xor(kbit[8..16], h0) else h0;
    var h2 := Xor(kc[..8], h1);
    if kc[..8] != kc[8..16] then Xor(kc[8..16], h2) else h2
  }

  /** The `i`-th 8-byte word of a buffer. */
  function Word(t: seq<Byte>, i: nat): (r: seq<Byte>)
    requires 8 * i + 8 <= |t|
    ensures |r| == 8
  {
    t[8 * i..8 * i + 8]
  }

  /** The accumulator after folding in the first `n` words of `t`, in
      order. */
  function FoldWords(acc: seq<Byte>, t: seq<Byte>, n: nat): (r: seq<Byte>)
    requires |acc| == 8 && 8 * n <= |t|
    ensures |r| == 8
  {
    if n == 0 then acc else Xor(Word(t, n - 1), FoldWords(acc, t, n - 1))
  }

  /** Only the first `n` words take part in the fold. */
  lemma {:induction false} FoldWordsPrefix(acc: seq<Byte>, t1: seq<Byte>, t2: seq<Byte>, n: nat)
    requires |acc| == 8 && 8 * n <= |t1| && 8 * n <= |t2| && t1[..8 * n] == t2[..8 * n]
    ensures FoldWords(acc, t1, n) == FoldWords(acc, t2, n)
  {
    if n > 0 {
      assert t1[..8 * (n - 1)] == t1[..8 * n][..8 * (n - 1)];
      assert t2[..8 * (n - 1)] == t2[..8 * n][..8 * (n - 1)];
      FoldWordsPrefix(acc, t1, t2, n - 1);
      assert Word(t1, n - 1) == t1[..8 * n][8 * (n - 1)..];
      assert Word(t2, n - 1) == t2[..8 * n][8 * (n - 1)..];
    }
  }

  /** The pre-encryption accumulator of `GetBitTableSignature`. */
  function BitTableAccumulator(kbit: seq<Byte>, kc: seq<Byte>, t: seq<Byte>): (r: seq<Byte>)
    requires |kbit| == 16 && |kc| == 16 && IsTable(t)
    ensures |r| == 8
  {
    FoldWords(KeySeed(kbit, kc), t, BlockCount(t) * 2 + 1)
  }

  /** `GetBitTableSignature`: the accumulator encrypted under the two
      signature keys (2-key, zero IV). */
  function GetBitTableSignature(c: Cipher, ks: KeyStore, kbit: seq<Byte>, kc: seq<Byte>,
                                t: seq<Byte>): (r: seq<Byte>)
    requires |kbit| == 16 && |kc| == 16 && IsTable(t)
    ensures |r| == 8
  {
    Enc(c, SigMasterAndHashKey(ks), 2, IV_NULL, BitTableAccumulator(kbit, kc, t))
  }

  /** The tag opens, under the signature keys, to the accumulator. */
  lemma BitTableSignatureOpens(c: Cipher, ks: KeyStore, kbit: seq<Byte>, kc: seq<Byte>, t: seq<Byte>)
    requires |kbit| == 16 && |kc| == 16 && IsTable(t)
    ensures Dec(c, SigMasterAndHashKey(ks), 2, IV_NULL, GetBitTableSignature(c, ks, kbit, kc, t))
              == BitTableAccumulator(kbit, kc, t)
  {
    DecEnc(c, SigMasterAndHashKey(ks), 2, IV_NULL, BitTableAccumulator(kbit, kc, t));
  }

  /** The bit-table signature covers the serialised part of the table only:
      tables agreeing on their first `(BlockCount * 2 + 1) * 8` bytes get
      the same signature. */
  lemma BitTableSignaturePrefix(c: Cipher, ks: KeyStore, kbit: seq<Byte>, kc: seq<Byte>,
                                t1: seq<Byte>, t2: seq<Byte>)
    requires |kbit| == 16 && |kc| == 16 && IsTable(t1) && IsTable(t2)
    requires t1[..TableBytesUsed(t1)] == t2[..TableBytesUsed(t1)]
    ensures GetBitTableSignature(c, ks, kbit, kc, t1) == GetBitTableSignature(c, ks, kbit, kc, t2)
  {
    assert t1[4] == t1[..TableBytesUsed(t1)][4] == t2[4];
    FoldWordsPrefix(KeySeed(kbit, kc), t1, t2, BlockCount(t1) * 2 + 1);
  }

  /** The number of SIGNED descriptors among the first `n`. */
  function CountSigned(t: seq<Byte>, n: nat): (k: nat)
    requires IsTable(t) && n <= 256
    ensures k <= n
  {
    if n == 0 then 0 else CountSigned(t, n - 1) + (if IsSigned(t, n - 1) then 1 else 0)
  }

  /** The stored tags of the SIGNED descriptors among the first `n`, in
      index order. */
  function SignedTags(t: seq<Byte>, n: nat): (r: seq<Byte>)
    requires IsTable(t) && n <= 256
    ensures |r| == 8 * CountSigned(t, n)
  {
    if n == 0 then []
    else SignedTags(t, n - 1) + (if IsSigned(t, n - 1) then StoredSignature(t, n - 1) else [])
  }

  /** The buffer `GetRootSignature` MACs. */
  function RootSignatureInput(hs: seq<Byte>, bts: seq<Byte>, t: seq<Byte>): (r: seq<Byte>)
    requires |hs| == 8 && |bts| == 8 && IsTable(t)
    ensures |r| == 16 + 8 * CountSigned(t, BlockCount(t))
    ensures r[..8] == hs && r[8..16] == bts
  {
    hs + bts + SignedTags(t, BlockCount(t))
  }

  /** `GetRootSignature`: the last block of the 1-key CBC encryption of the
      input under the root master key, decrypted (2-key) under the root hash
      key. */
  function GetRootSignature(c: Cipher, ks: KeyStore, hs: seq<Byte>, bts: seq<Byte>,
                            t: seq<Byte>): (r: seq<Byte>)
    requires |hs| == 8 && |bts| == 8 && IsTable(t)
    ensures |r| == 8
  {
    var sigs := Enc(c, ks.RootSignatureMasterKey, 1, IV_NULL, RootSignatureInput(hs, bts, t));
    Dec(c, ks.RootSignatureHashKey, 2, IV_NULL, sigs[|sigs| - 8..])
  }

  /** Descriptors that agree on their flags, and on their stored tag where
      they are SIGNED, give the same tag list: an unsigned descriptor's tag
      never takes part. */
  lemma {:induction false} SignedTagsIgnoreUnsigned(t1: seq<Byte>, t2: seq<Byte>, n: nat)
    requires IsTable(t1) && IsTable(t2) && n <= 256
    requires forall i :: 0 <= i < n ==> BlockFlags(t1, i) == BlockFlags(t2, i)
    requires forall i :: 0 <= i < n && IsSigned(t1, i) ==> StoredSignature(t1, i) == StoredSignature(t2, i)
    ensures SignedTags(t1, n) == SignedTags(t2, n)
  {
    if n > 0 {
      SignedTagsIgnoreUnsigned(t1, t2, n - 1);
    }
  }

  /** Descriptor `i` lives at bytes 8 + 16 i .. 24 + 16 i: two tables that
      agree on a prefix covering it agree on its size, its flags and its
      tag. */
  lemma DescriptorAgrees(t1: seq<Byte>, t2: seq<Byte>, i: nat, u: nat)
    requires IsTable(t1) && IsTable(t2) && i < 256 && 24 + 16 * i <= u <= CAP
    requires t1[..u] == t2[..u]
    ensures BlockFlags(t1, i) == BlockFlags(t2, i) && StoredSignature(t1, i) == StoredSignature(t2, i)
    ensures BlockSize(t1, i) == BlockSize(t2, i)
  {
    GetLe32Prefix(t1, t2, u, 8 + 16 * i);
    GetLe32Prefix(t1, t2, u, 12 + 16 * i);
    assert StoredSignature(t1, i) == t1[..u][16 + 16 * i..24 + 16 * i];
    assert StoredSignature(t2, i) == t2[..u][16 + 16 * i..24 + 16 * i];
  }

  /** Tables that agree on their serialised part give the same root
      signature. */
  lemma RootSignaturePrefix(c: Cipher, ks: KeyStore, hs: seq<Byte>, bts: seq<Byte>,
                            t1: seq<Byte>, t2: seq<Byte>)
    requires |hs| == 8 && |bts| == 8 && IsTable(t1) && IsTable(t2)
    requires t1[..TableBytesUsed(t1)] == t2[..TableBytesUsed(t1)]
    ensures GetRootSignature(c, ks, hs, bts, t1) == GetRootSignature(c, ks, hs, bts, t2)
  {
    var u := TableBytesUsed(t1);
    assert t1[4] == t1[..u][4] == t2[4];
    forall i | 0 <= i < BlockCount(t1)
      ensures BlockFlags(t1, i) == BlockFlags(t2, i) && StoredSignature(t1, i) == StoredSignature(t2, i)
    {
      DescriptorAgrees(t1, t2, i, u);
    }
    SignedTagsIgnoreUnsigned(t1, t2, BlockCount(t1));
  }

  /** The fold of the words of a block at content offset `off`, as the
      signing loops compute it: word `j` is the 8 content bytes at
      `off + 8 j`, the last one possibly reaching past the block. */
  function FoldBlockWords(content: seq<Byte>, off: nat, k: nat): (r: seq<Byte>)
    ensures |r| == 8
  {
    if k == 0 then Zeros(8) else Xor(Window(content, off + 8 * (k - 1), 8), FoldBlockWords(content, off, k - 1))
  }

  /** The tag of an ENCRYPTED+SIGNED block of `size` bytes at `off`: the
      fold of its plaintext words, encrypted under the signature keys. */
  function EncryptedBlockTag(c: Cipher, ks: KeyStore, content: seq<Byte>, off: nat, size: nat): (r: seq<Byte>)
    ensures |r| == 8
  {
    Enc(c, SigMasterAndHashKey(ks), 2, IV_NULL, FoldBlockWords(content, off, (size + 7) / 8))
  }

  /** The tag of a SIGNED-only block: the header's nested CBC-MAC over the
      block's bytes. */
  function SignedBlockTag(c: Cipher, ks: KeyStore, content: seq<Byte>, off: nat, size: nat): (r: seq<Byte>)
    ensures |r| == 8
  {
    NestedMac(c, ks, Window(content, off, size))
  }

  /** The signed-only tag of a block holding exactly a header image is that
      header's signature. */
  lemma SignedBlockTagIsHeaderMac(c: Cipher, ks: KeyStore, content: seq<Byte>, off: nat)
    requires off + HS <= |content|
    ensures SignedBlockTag(c, ks, content, off, HS) == GetHeaderSignature(c, ks, content[off..off + HS])
  {
  }

  /** Only the bytes of the words read take part in a block fold. */
  lemma {:induction false} FoldBlockWordsFrame(c1: seq<Byte>, c2: seq<Byte>, off: nat, k: nat)
    requires off + 8 * k <= |c1| && off + 8 * k <= |c2|
    requires c1[off..off + 8 * k] == c2[off..off + 8 * k]
    ensures FoldBlockWords(c1, off, k) == FoldBlockWords(c2, off, k)
  {
    if k > 0 {
      var mid := off + 8 * (k - 1);
      SlicesAgree(c1, c2, off, mid, mid + 8);
      FoldBlockWordsFrame(c1, c2, off, k - 1);
    }
  }

  /** Two buffers agreeing on `lo .. hi` agree on both parts of it. */
  lemma SlicesAgree(c1: seq<Byte>, c2: seq<Byte>, lo: nat, mid: nat, hi: nat)
    requires lo <= mid <= hi <= |c1| && hi <= |c2| && c1[lo..hi] == c2[lo..hi]
    ensures c1[lo..mid] == c2[lo..mid] && c1[mid..hi] == c2[mid..hi]
  {
    assert c1[lo..mid] == c1[lo..hi][..mid - lo];
    assert c2[lo..mid] == c2[lo..hi][..mid - lo];
    assert c1[mid..hi] == c1[lo..hi][mid - lo..];
    assert c2[mid..hi] == c2[lo..hi][mid - lo..];
  }
}
