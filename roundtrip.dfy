/** Saving then loading: the container `SaveKelf` writes is accepted by
    `LoadKelf` up to the content check, and the image `LoadContent` builds
    survives the trip unchanged. */
module RoundTrip {
  import opened Bytes
  import opened Format
  import opened Tdes
  import opened Signatures
  import opened ContentPass
  import opened Pipeline

  /** Where each field of a written container lies. */
  lemma Layout<T>(a: seq<T>, b: seq<T>, c: seq<T>, d: seq<T>, e: seq<T>, f: seq<T>, g: seq<T>, h: seq<T>)
    ensures var o := a + b + c + d + e + f + g + h;
            var i1 := |a|;
            var i2 := i1 + |b|;
            var i3 := i2 + |c|;
            var i4 := i3 + |d|;
            var i5 := i4 + |e|;
            var i6 := i5 + |f|;
            var i7 := i6 + |g|;
            && o[..i1] == a && o[i1..i2] == b && o[i2..i3] == c && o[i3..i4] == d
            && o[i4..i5] == e && o[i5..i6] == f && o[i6..i7] == g && o[i7..] == h
  {
  }

  /** Reading a field back from where it lies. */
  lemma ReadField(out: seq<Byte>, k: nat, v: seq<Byte>, dst: seq<Byte>)
    requires FieldAt(out, k, v) && |dst| == |v|
    ensures k <= |out| && ReadInto(dst, out, At(out, k)) == v
  {
    FieldAtMeans(out, k, v);
  }

  /** A state `SaveKelf` writes in a form `LoadKelf` reads back: 16-byte
      keys, a table whose HeaderSize field counts exactly the header, its
      signature, the keys, the serialised table and the two trailing
      signatures, and blocks that exactly fill Content. */
  predicate Saveable(s: KelfState)
  {
    && |s.Kbit| == 16 && |s.Kc| == 16 && IsTable(s.Table)
    && TableHeaderSize(s.Table) as int == HS + 40 + TableBytesUsed(s.Table) + 16
    && SizeSum(s.Table, BlockCount(s.Table)) == |s.Content|
  }

  /** Tables agreeing on the serialised part of the first agree on every
      descriptor it counts, and so on the block sizes. */
  lemma {:induction false} SizeSumAgrees(t1: seq<Byte>, t2: seq<Byte>, n: nat)
    requires IsTable(t1) && IsTable(t2) && n <= BlockCount(t1)
    requires t1[..TableBytesUsed(t1)] == t2[..TableBytesUsed(t1)]
    ensures SizeSum(t1, n) == SizeSum(t2, n)
  {
    if n > 0 {
      SizeSumAgrees(t1, t2, n - 1);
      DescriptorAgrees(t1, t2, n - 1, TableBytesUsed(t1));
    }
  }

  /** The serialised part of a table laid over another table's tail. */
  lemma OverlaidTable(t: seq<Byte>, base: seq<Byte>)
    requires IsTable(t) && IsTable(base)
    ensures var n := TableBytesUsed(t);
            var t2 := t[..n] + base[n..];
            && IsTable(t2) && t2[..n] == t[..n] && BlockCount(t2) == BlockCount(t)
            && TableBytesUsed(t2) == n
            && SizeSum(t2, BlockCount(t2)) == SizeSum(t, BlockCount(t))
  {
    var n := TableBytesUsed(t);
    var t2 := t[..n] + base[n..];
    assert t2[..n] == t[..n];
    assert t2[4] == t[..n][4] == t[4];
    SizeSumAgrees(t, t2, BlockCount(t));
  }

  /** What `LoadKelf` rebuilds in an object holding `s1` from what
      `SaveKelf` wrote for `s`: the keys as they were, the serialised table
      over the object's own table tail, the blocks appended to the object's
      Content and decrypted, and the content check's verdict. */
  function Reloaded(c: Cipher, ks: KeyStore, s: KelfState, s1: KelfState): (r: Loaded)
    requires Saveable(s) && IsTable(s1.Table)
    ensures IsTable(r.state.Table) && r.state.Kbit == s.Kbit && r.state.Kc == s.Kc
    ensures r.status in {Success, Failure(InvalidContentSignature)}
  {
    var n := TableBytesUsed(s.Table);
    var t := s.Table[..n] + s1.Table[n..];
    OverlaidTable(s.Table, s1.Table);
    var plain := DecryptBlocks(c, ks, s.Kc, 2, t, s1.Content + s.Content, BlockCount(t));
    Loaded(if ContentSignaturesValid(c, ks, t, plain) then Success else Failure(InvalidContentSignature),
           KelfState(s.Kbit, s.Kc, t, plain))
  }

  /** The signature stage over a written container: both trailing
      signatures match, and the blocks read are exactly the written
      Content. */
  lemma SignedContentReloads(c: Cipher, ks: KeyStore, out: seq<Byte>, header: seq<Byte>, hsig: seq<Byte>,
                             k: nat, s: KelfState, bts: seq<Byte>, body: seq<Byte>)
    requires |header| == HS && |hsig| == 8 && |s.Kbit| == 16 && |s.Kc| == 16 && IsTable(s.Table)
    requires ContentKeyCount(ParseHeader(header)) == 2
    requires SizeSum(s.Table, BlockCount(s.Table)) == |body|
    requires bts == GetBitTableSignature(c, ks, s.Kbit, s.Kc, s.Table)
    requires FieldAt(out, k, bts) && FieldAt(out, k + 8, GetRootSignature(c, ks, hsig, bts, s.Table))
    requires FieldAt(out, k + 16, body) && |out| == k + 16 + |body|
    ensures BlocksFit(s.Table, s.Content + body)
    ensures var plain := DecryptBlocks(c, ks, s.Kc, 2, s.Table, s.Content + body, BlockCount(s.Table));
            LoadSignedContent(c, ks, out, header, hsig, k, s)
              == Loaded(if ContentSignaturesValid(c, ks, s.Table, plain) then Success else Failure(InvalidContentSignature),
                        s.(Content := plain))
  {
    ReadField(out, k, bts, Zeros(8));
    ReadField(out, k + 8, GetRootSignature(c, ks, hsig, bts, s.Table), Zeros(8));
    BodyReads(out, k + 16, s.Table, body);
    SignaturesPass(c, ks, out, header, hsig, k, s, body);
  }

  /** The blocks read from where the body lies are the body. */
  lemma BodyReads(out: seq<Byte>, p: nat, t: seq<Byte>, body: seq<Byte>)
    requires IsTable(t) && SizeSum(t, BlockCount(t)) == |body|
    requires FieldAt(out, p, body) && |out| == p + |body|
    ensures p <= |out| && ReadBlocks(out, At(out, p), t, BlockCount(t)).data == body
  {
    FieldAtMeans(out, p, body);
    assert At(out, p) == p;
    BlocksRead(out, p, t, BlockCount(t), body);
  }

  /** Blocks lying at `p` read back as they were written. */
  lemma BlocksRead(out: seq<Byte>, p: nat, t: seq<Byte>, n: nat, body: seq<Byte>)
    requires IsTable(t) && n <= 256 && SizeSum(t, n) == |body|
    requires p + |body| <= |out| && out[p..p + |body|] == body
    ensures ReadBlocks(out, p, t, n).data == body
  {
    ReadBlocksExact(out, p, t, n);
  }

  /** The signature stage once both signatures read back as computed: the
      outcome is the content check's over the decrypted blocks. */
  lemma SignaturesPass(c: Cipher, ks: KeyStore, out: seq<Byte>, header: seq<Byte>, hsig: seq<Byte>,
                       k: nat, s: KelfState, body: seq<Byte>)
    requires |header| == HS && |hsig| == 8 && |s.Kbit| == 16 && |s.Kc| == 16 && IsTable(s.Table)
    requires ContentKeyCount(ParseHeader(header)) == 2 && k + 16 <= |out|
    requires ReadInto(Zeros(8), out, At(out, k)) == GetBitTableSignature(c, ks, s.Kbit, s.Kc, s.Table)
    requires ReadInto(Zeros(8), out, At(out, k + 8))
               == GetRootSignature(c, ks, hsig, GetBitTableSignature(c, ks, s.Kbit, s.Kc, s.Table), s.Table)
    requires ReadBlocks(out, At(out, k + 16), s.Table, BlockCount(s.Table)).data == body
    ensures BlocksFit(s.Table, s.Content + body)
    ensures var plain := DecryptBlocks(c, ks, s.Kc, 2, s.Table, s.Content + body, BlockCount(s.Table));
            LoadSignedContent(c, ks, out, header, hsig, k, s)
              == Loaded(if ContentSignaturesValid(c, ks, s.Table, plain) then Success else Failure(InvalidContentSignature),
                        s.(Content := plain))
  {
    ReadBlocksLength(out, At(out, k + 16), s.Table, BlockCount(s.Table));
  }

  /** The size guard over a written container passes with the serialised
      length of the table. */
  lemma TableSizeReloads(header: seq<Byte>, out: seq<Byte>, n: nat)
    requires |header| == HS && n <= CAP && |out| >= HS + 40
    requires ParseHeader(header).HeaderSize as int == HS + 40 + n + 16
    ensures BitTableSize(ParseHeader(header).HeaderSize, At(out, HS + 40)) == n
  {
    BitTableSizeGuard(ParseHeader(header).HeaderSize, HS + 40);
  }

  /** Reading the encrypted serialised part over a table and decrypting it
      under the same key restores it. */
  lemma TableBytesReload(c: Cipher, ks: KeyStore, out: seq<Byte>, kbit: seq<Byte>, base: seq<Byte>, t: seq<Byte>, n: nat)
    requires n <= |t| && n <= |base|
    requires FieldAt(out, HS + 40, Enc(c, kbit, 2, ks.ContentTableIV, t[..n]))
    ensures Dec(c, kbit, 2, ks.ContentTableIV, ReadInto(base[..n], out, At(out, HS + 40))) + base[n..] == t[..n] + base[n..]
  {
    ReadField(out, HS + 40, Enc(c, kbit, 2, ks.ContentTableIV, t[..n]), base[..n]);
    DecEnc(c, kbit, 2, ks.ContentTableIV, t[..n]);
  }

  /** The table stage over a written container: the size guard passes with
      the serialised length, and decryption under Kbit restores the
      serialised part over the object's own tail. */
  lemma TableReloads(c: Cipher, ks: KeyStore, out: seq<Byte>, header: seq<Byte>, hsig: seq<Byte>,
                     kbit: seq<Byte>, kc: seq<Byte>, base: seq<Byte>, content: seq<Byte>, t: seq<Byte>)
    requires |header| == HS && |hsig| == 8 && |kbit| == 16 && |kc| == 16 && IsTable(base) && IsTable(t)
    requires ParseHeader(header).HeaderSize as int == HS + 40 + TableBytesUsed(t) + 16
    requires FieldAt(out, HS + 40, Enc(c, kbit, 2, ks.ContentTableIV, t[..TableBytesUsed(t)]))
    ensures LoadTable(c, ks, out, header, hsig, KelfState(kbit, kc, base, content))
              == LoadSignedContent(c, ks, out, header, hsig, HS + 40 + TableBytesUsed(t),
                                   KelfState(kbit, kc, t[..TableBytesUsed(t)] + base[TableBytesUsed(t)..], content))
  {
    ReadField(out, HS + 40, Enc(c, kbit, 2, ks.ContentTableIV, t[..TableBytesUsed(t)]), t[..TableBytesUsed(t)]);
    var n := TableBytesUsed(t);
    TableSizeReloads(header, out, n);
    TableBytesReload(c, ks, out, kbit, base, t, n);
    LoadTablePasses(c, ks, out, header, hsig, KelfState(kbit, kc, base, content), n);
  }

  /** The key stage over a written container: unwrapping under the same
      header's KEK restores the keys. */
  lemma KeysReload(c: Cipher, ks: KeyStore, out: seq<Byte>, header: seq<Byte>, hsig: seq<Byte>,
                   s1: KelfState, kbit: seq<Byte>, kc: seq<Byte>)
    requires |header| == HS && |hsig| == 8 && IsTable(s1.Table) && |kbit| == 16 && |kc| == 16
    requires FieldAt(out, HS + 8, WrapKey(c, DeriveKeyEncryptionKey(c, ks, header), kbit))
    requires FieldAt(out, HS + 24, WrapKey(c, DeriveKeyEncryptionKey(c, ks, header), kc))
    ensures LoadKeysAndTable(c, ks, out, header, hsig, s1)
              == LoadTable(c, ks, out, header, hsig, KelfState(kbit, kc, s1.Table, s1.Content))
  {
    ReadField(out, HS + 8, WrapKey(c, DeriveKeyEncryptionKey(c, ks, header), kbit), Resize(s1.Kbit, 16));
    ReadField(out, HS + 24, WrapKey(c, DeriveKeyEncryptionKey(c, ks, header), kc), Resize(s1.Kc, 16));
    UnwrapWrapKey(c, DeriveKeyEncryptionKey(c, ks, header), kbit);
    UnwrapWrapKey(c, DeriveKeyEncryptionKey(c, ks, header), kc);
  }

  /** The gate and the header signature over a written container. */
  lemma HeaderReloads(c: Cipher, ks: KeyStore, out: seq<Byte>, hb: seq<Byte>, s1: KelfState)
    requires |hb| == HS && SupportedHeader(ParseHeader(hb)) && IsTable(s1.Table)
    requires FieldAt(out, 0, hb) && FieldAt(out, HS, GetHeaderSignature(c, ks, hb))
    ensures LoadKelfSpec(c, ks, out, s1) == LoadKeysAndTable(c, ks, out, hb, GetHeaderSignature(c, ks, hb), s1)
  {
    ReadField(out, 0, hb, Zeros(HS));
    ReadField(out, HS, GetHeaderSignature(c, ks, hb), Zeros(8));
  }

  /** The signature stage of a saved container: the trailing signatures,
      taken over the saved table, match over the reloaded one. */
  lemma ContentOfSavedReloads(c: Cipher, ks: KeyStore, out: seq<Byte>, hb: seq<Byte>, hsig: seq<Byte>,
                              s: KelfState, s1: KelfState, k: nat, t: seq<Byte>, bts: seq<Byte>)
    requires Saveable(s) && IsTable(s1.Table) && |hb| == HS && |hsig| == 8
    requires ContentKeyCount(ParseHeader(hb)) == 2
    requires k == HS + 40 + TableBytesUsed(s.Table)
    requires t == s.Table[..TableBytesUsed(s.Table)] + s1.Table[TableBytesUsed(s.Table)..]
    requires bts == GetBitTableSignature(c, ks, s.Kbit, s.Kc, s.Table)
    requires Tail(out, k, bts, GetRootSignature(c, ks, hsig, bts, s.Table), s.Content)
    ensures IsTable(t)
    ensures LoadSignedContent(c, ks, out, hb, hsig, k, KelfState(s.Kbit, s.Kc, t, s1.Content)) == Reloaded(c, ks, s, s1)
  {
    OverlaidSignatures(c, ks, hsig, s, s1);
    SignedContentReloads(c, ks, out, hb, hsig, k, KelfState(s.Kbit, s.Kc, t, s1.Content), bts, s.Content);
    ReloadedIs(c, ks, s, s1);
  }

  /** The reloaded table yields the saved table's signatures and block
      sizes. */
  lemma OverlaidSignatures(c: Cipher, ks: KeyStore, hsig: seq<Byte>, s: KelfState, s1: KelfState)
    requires Saveable(s) && IsTable(s1.Table) && |hsig| == 8
    ensures var n := TableBytesUsed(s.Table);
            var t := s.Table[..n] + s1.Table[n..];
            var bts := GetBitTableSignature(c, ks, s.Kbit, s.Kc, s.Table);
            && IsTable(t) && SizeSum(t, BlockCount(t)) == |s.Content|
            && GetBitTableSignature(c, ks, s.Kbit, s.Kc, t) == bts
            && GetRootSignature(c, ks, hsig, bts, t) == GetRootSignature(c, ks, hsig, bts, s.Table)
  {
    var n := TableBytesUsed(s.Table);
    var t := s.Table[..n] + s1.Table[n..];
    OverlaidTable(s.Table, s1.Table);
    BitTableSignaturePrefix(c, ks, s.Kbit, s.Kc, s.Table, t);
    RootSignaturePrefix(c, ks, hsig, GetBitTableSignature(c, ks, s.Kbit, s.Kc, s.Table), s.Table, t);
  }

  lemma ReloadedIs(c: Cipher, ks: KeyStore, s: KelfState, s1: KelfState)
    requires Saveable(s) && IsTable(s1.Table)
    ensures var n := TableBytesUsed(s.Table);
            var t := s.Table[..n] + s1.Table[n..];
            && IsTable(t) && BlocksFit(t, s1.Content + s.Content) && BlockCount(t) <= 256
            && var plain := DecryptBlocks(c, ks, s.Kc, 2, t, s1.Content + s.Content, BlockCount(t));
               Reloaded(c, ks, s, s1)
                 == Loaded(if ContentSignaturesValid(c, ks, t, plain) then Success else Failure(InvalidContentSignature),
                           KelfState(s.Kbit, s.Kc, t, plain))
  {
    OverlaidTable(s.Table, s1.Table);
  }

  /** The container `SaveKelf` writes for `s`, field by field. */
  lemma SavedOut(c: Cipher, ks: KeyStore, tags: UserHeaders, headerid: int, s: KelfState)
    requires tags.Valid() && 0 <= headerid <= 2 && Saveable(s)
    ensures var hb := HeaderBytes(SaveHeader(tags, headerid, s));
            var hsig := GetHeaderSignature(c, ks, hb);
            var kek := DeriveKeyEncryptionKey(c, ks, hb);
            var n := TableBytesUsed(s.Table);
            var bts := GetBitTableSignature(c, ks, s.Kbit, s.Kc, s.Table);
            SaveKelfSpec(c, ks, tags, headerid, s).out
              == hb + hsig + WrapKey(c, kek, s.Kbit) + WrapKey(c, kek, s.Kc)
                 + Enc(c, s.Kbit, 2, ks.ContentTableIV, s.Table[..n]) + bts
                 + GetRootSignature(c, ks, hsig, bts, s.Table) + s.Content
  {
  }

  /** Each field of a container at its offset, `k` being where the
      serialised table ends, and nothing after the content. */
  predicate Image(out: seq<Byte>, hb: seq<Byte>, hsig: seq<Byte>, kbit: seq<Byte>, kc: seq<Byte>,
                  enc: seq<Byte>, bts: seq<Byte>, root: seq<Byte>, content: seq<Byte>, k: nat)
  {
    && FieldAt(out, 0, hb) && FieldAt(out, HS, hsig)
    && FieldAt(out, HS + 8, kbit) && FieldAt(out, HS + 24, kc) && FieldAt(out, HS + 40, enc)
    && Tail(out, k, bts, root, content)
  }

  /** The two trailing signatures and the content at the end of a
      container, `k` being where the serialised table ends. */
  predicate Tail(out: seq<Byte>, k: nat, bts: seq<Byte>, root: seq<Byte>, content: seq<Byte>)
  {
    && FieldAt(out, k, bts) && FieldAt(out, k + 8, root)
    && FieldAt(out, k + 16, content) && |out| == k + 16 + |content|
  }

  /** The fields of a written container at their offsets, `k` being where
      the serialised table ends. */
  lemma SavedLayout(out: seq<Byte>, hb: seq<Byte>, hsig: seq<Byte>, kbit: seq<Byte>, kc: seq<Byte>,
                    enc: seq<Byte>, bts: seq<Byte>, root: seq<Byte>, content: seq<Byte>, k: nat)
    requires |hb| == HS && |hsig| == 8 && |kbit| == 16 && |kc| == 16 && |bts| == 8 && |root| == 8
    requires out == hb + hsig + kbit + kc + enc + bts + root + content && k == HS + 40 + |enc|
    ensures Image(out, hb, hsig, kbit, kc, enc, bts, root, content, k)
  {
    Layout(hb, hsig, kbit, kc, enc, bts, root, content);
    FieldAtMeans(out, 0, hb);
    FieldAtMeans(out, HS, hsig);
    FieldAtMeans(out, HS + 8, kbit);
    FieldAtMeans(out, HS + 24, kc);
    FieldAtMeans(out, HS + 40, enc);
    FieldAtMeans(out, k, bts);
    FieldAtMeans(out, k + 8, root);
    FieldAtMeans(out, k + 16, content);
  }

  /** The header, key and table stages over a written container: all
      pass, leaving the keys and the serialised table over the object's
      own table tail. */
  lemma FrontReloads(c: Cipher, ks: KeyStore, out: seq<Byte>, hb: seq<Byte>,
                     kbit: seq<Byte>, kc: seq<Byte>, t: seq<Byte>, s1: KelfState)
    requires |hb| == HS && SupportedHeader(ParseHeader(hb)) && IsTable(s1.Table)
    requires |kbit| == 16 && |kc| == 16 && IsTable(t)
    requires ParseHeader(hb).HeaderSize as int == HS + 40 + TableBytesUsed(t) + 16
    requires FieldAt(out, 0, hb) && FieldAt(out, HS, GetHeaderSignature(c, ks, hb))
    requires FieldAt(out, HS + 8, WrapKey(c, DeriveKeyEncryptionKey(c, ks, hb), kbit))
    requires FieldAt(out, HS + 24, WrapKey(c, DeriveKeyEncryptionKey(c, ks, hb), kc))
    requires FieldAt(out, HS + 40, Enc(c, kbit, 2, ks.ContentTableIV, t[..TableBytesUsed(t)]))
    ensures LoadKelfSpec(c, ks, out, s1)
              == LoadSignedContent(c, ks, out, hb, GetHeaderSignature(c, ks, hb), HS + 40 + TableBytesUsed(t),
                                   KelfState(kbit, kc, t[..TableBytesUsed(t)] + s1.Table[TableBytesUsed(t)..], s1.Content))
  {
    var hsig := GetHeaderSignature(c, ks, hb);
    HeaderReloads(c, ks, out, hb, s1);
    KeysReload(c, ks, out, hb, hsig, s1, kbit, kc);
    TableReloads(c, ks, out, hb, hsig, kbit, kc, s1.Table, s1.Content, t);
  }

  /** `out` is the container `SaveKelf` lays out for `s` under the header
      `hb`, with the header signature, the KEK, the encrypted serialised
      table and the two trailing signatures named. */
  predicate Written(c: Cipher, ks: KeyStore, out: seq<Byte>, hb: seq<Byte>, hsig: seq<Byte>, kek: seq<Byte>,
                    enc: seq<Byte>, bts: seq<Byte>, root: seq<Byte>, s: KelfState, s1: KelfState)
  {
    && Saveable(s) && IsTable(s1.Table) && |hb| == HS
    && SupportedHeader(ParseHeader(hb)) && ContentKeyCount(ParseHeader(hb)) == 2
    && ParseHeader(hb).HeaderSize as int == HS + 40 + TableBytesUsed(s.Table) + 16
    && hsig == GetHeaderSignature(c, ks, hb) && kek == DeriveKeyEncryptionKey(c, ks, hb)
    && enc == Enc(c, s.Kbit, 2, ks.ContentTableIV, s.Table[..TableBytesUsed(s.Table)])
    && bts == GetBitTableSignature(c, ks, s.Kbit, s.Kc, s.Table)
    && root == GetRootSignature(c, ks, hsig, bts, s.Table)
    && Image(out, hb, hsig, WrapKey(c, kek, s.Kbit), WrapKey(c, kek, s.Kc), enc, bts, root, s.Content,
             HS + 40 + TableBytesUsed(s.Table))
  }

  /** The stages before the trailing signatures over a written container. */
  lemma FrontOfWritten(c: Cipher, ks: KeyStore, out: seq<Byte>, hb: seq<Byte>, hsig: seq<Byte>, kek: seq<Byte>,
                       enc: seq<Byte>, bts: seq<Byte>, root: seq<Byte>, s: KelfState, s1: KelfState)
    requires Written(c, ks, out, hb, hsig, kek, enc, bts, root, s, s1)
    ensures LoadKelfSpec(c, ks, out, s1)
              == LoadSignedContent(c, ks, out, hb, hsig, HS + 40 + TableBytesUsed(s.Table),
                                   KelfState(s.Kbit, s.Kc, s.Table[..TableBytesUsed(s.Table)]
                                                             + s1.Table[TableBytesUsed(s.Table)..], s1.Content))
  {
    FrontReloads(c, ks, out, hb, s.Kbit, s.Kc, s.Table, s1);
  }

  /** The trailing signatures and the content pass over a written
      container. */
  lemma ContentOfWritten(c: Cipher, ks: KeyStore, out: seq<Byte>, hb: seq<Byte>, hsig: seq<Byte>, kek: seq<Byte>,
                         enc: seq<Byte>, bts: seq<Byte>, root: seq<Byte>, s: KelfState, s1: KelfState,
                         k: nat, t: seq<Byte>)
    requires Written(c, ks, out, hb, hsig, kek, enc, bts, root, s, s1)
    requires k == HS + 40 + TableBytesUsed(s.Table)
    requires t == s.Table[..TableBytesUsed(s.Table)] + s1.Table[TableBytesUsed(s.Table)..]
    ensures IsTable(t)
    ensures LoadSignedContent(c, ks, out, hb, hsig, k, KelfState(s.Kbit, s.Kc, t, s1.Content)) == Reloaded(c, ks, s, s1)
  {
    ContentOfSavedReloads(c, ks, out, hb, hsig, s, s1, k, t, bts);
  }

  /** Loading a written container gives back what `Reloaded` describes. */
  lemma ImageReloads(c: Cipher, ks: KeyStore, out: seq<Byte>, hb: seq<Byte>, hsig: seq<Byte>, kek: seq<Byte>,
                     enc: seq<Byte>, bts: seq<Byte>, root: seq<Byte>, s: KelfState, s1: KelfState)
    requires Written(c, ks, out, hb, hsig, kek, enc, bts, root, s, s1)
    ensures LoadKelfSpec(c, ks, out, s1) == Reloaded(c, ks, s, s1)
  {
    FrontOfWritten(c, ks, out, hb, hsig, kek, enc, bts, root, s, s1);
    ContentOfWritten(c, ks, out, hb, hsig, kek, enc, bts, root, s, s1, HS + 40 + TableBytesUsed(s.Table),
                     s.Table[..TableBytesUsed(s.Table)] + s1.Table[TableBytesUsed(s.Table)..]);
  }

  /** The header `SaveKelf` writes passes the load gate, selects the 2-key
      content cipher, reads back as written and counts the table's
      HeaderSize. */
  lemma SavedHeader(tags: UserHeaders, headerid: int, s: KelfState)
    requires tags.Valid() && 0 <= headerid <= 2 && IsTable(s.Table)
    ensures var h := SaveHeader(tags, headerid, s);
            && SupportedHeader(h) && ContentKeyCount(h) == 2
            && ParseHeader(HeaderBytes(h)) == h && h.HeaderSize == TableHeaderSize(s.Table)
  {
    ParseHeaderBytes(SaveHeader(tags, headerid, s));
  }

  /** Loading what `SaveKelf` wrote gives back the keys, the serialised
      table and the Content, decrypted under the content key count the
      saved flags select (2): the header gate, the header signature, the
      size guard, the bit-table and root signatures all pass, and the
      outcome is the content check's. */
  lemma SaveThenLoad(c: Cipher, ks: KeyStore, tags: UserHeaders, headerid: int, s: KelfState, s1: KelfState)
    requires tags.Valid() && 0 <= headerid <= 2 && Saveable(s) && IsTable(s1.Table)
    ensures LoadKelfSpec(c, ks, SaveKelfSpec(c, ks, tags, headerid, s).out, s1) == Reloaded(c, ks, s, s1)
  {
    var hb := HeaderBytes(SaveHeader(tags, headerid, s));
    var hsig := GetHeaderSignature(c, ks, hb);
    var bts := GetBitTableSignature(c, ks, s.Kbit, s.Kc, s.Table);
    SavedHeader(tags, headerid, s);
    SavedOut(c, ks, tags, headerid, s);
    SavedLayout(SaveKelfSpec(c, ks, tags, headerid, s).out, hb, hsig,
                WrapKey(c, DeriveKeyEncryptionKey(c, ks, hb), s.Kbit), WrapKey(c, DeriveKeyEncryptionKey(c, ks, hb), s.Kc),
                Enc(c, s.Kbit, 2, ks.ContentTableIV, s.Table[..TableBytesUsed(s.Table)]), bts,
                GetRootSignature(c, ks, hsig, bts, s.Table), s.Content, HS + 40 + TableBytesUsed(s.Table));
    ImageReloads(c, ks, SaveKelfSpec(c, ks, tags, headerid, s).out, hb, hsig, DeriveKeyEncryptionKey(c, ks, hb),
                 Enc(c, s.Kbit, 2, ks.ContentTableIV, s.Table[..TableBytesUsed(s.Table)]), bts,
                 GetRootSignature(c, ks, hsig, bts, s.Table), s, s1);
  }

  /** The fields of the 40 bytes `LoadContent` writes, at their offsets
      in any table starting with them. */
  lemma PlannedPrefix(t: seq<Byte>, sig0: seq<Byte>, n: nat)
    requires IsTable(t) && |sig0| == 8 && 0x20 <= n && t[..40] == PlannedTable(sig0, n)
    ensures t[0..4] == Le32(PLANNED_HEADER_SIZE as bv32) && t[4] == 2
    ensures t[8..12] == Le32(0x20) && t[12..16] == Le32(BIT_BLOCK_SIGNED | BIT_BLOCK_ENCRYPTED)
    ensures t[16..24] == sig0 && t[24..28] == LeU32(n - 0x20) && t[28..32] == Le32(0)
  {
    var p := PlannedTable(sig0, n);
    Layout(Le32(PLANNED_HEADER_SIZE as bv32), [2 as Byte, 0, 0, 0], Le32(0x20),
           Le32(BIT_BLOCK_SIGNED | BIT_BLOCK_ENCRYPTED), sig0, LeU32(n - 0x20), Le32(0), Zeros(8));
    PrefixField(t, 40, 0, Le32(PLANNED_HEADER_SIZE as bv32));
    PrefixField(t, 40, 8, Le32(0x20));
    PrefixField(t, 40, 12, Le32(BIT_BLOCK_SIGNED | BIT_BLOCK_ENCRYPTED));
    PrefixField(t, 40, 16, sig0);
    PrefixField(t, 40, 24, LeU32(n - 0x20));
    PrefixField(t, 40, 28, Le32(0));
    assert t[4] == t[..40][4] == p[4];
  }

  /** A table whose first 40 bytes are the ones `LoadContent` writes
      describes two blocks: block 0, 0x20 bytes, SIGNED and ENCRYPTED, with
      tag `sig0`, and block 1, the remaining `n - 0x20` bytes, neither; the
      HeaderSize field counts the container `SaveKelf` writes for it. */
  lemma PlannedFields(t: seq<Byte>, sig0: seq<Byte>, n: nat)
    requires IsTable(t) && |sig0| == 8 && 0x20 <= n < U32 && t[..40] == PlannedTable(sig0, n)
    ensures BlockCount(t) == 2 && TableBytesUsed(t) == 40
    ensures TableHeaderSize(t) as int == PLANNED_HEADER_SIZE
    ensures BlockSize(t, 0) == 0x20 && BlockSize(t, 1) == n - 0x20
    ensures SizeSum(t, 0) == 0 && SizeSum(t, 1) == 0x20 && SizeSum(t, 2) == n
    ensures IsSigned(t, 0) && IsEncrypted(t, 0) && !IsSigned(t, 1) && !IsEncrypted(t, 1)
    ensures StoredSignature(t, 0) == sig0
  {
    PlannedPrefix(t, sig0, n);
    Le32At(t, 0, PLANNED_HEADER_SIZE as bv32);
    PlannedHeaderSizeFits();
    Le32At(t, 8, 0x20);
    Le32At(t, 12, BIT_BLOCK_SIGNED | BIT_BLOCK_ENCRYPTED);
    BlockOneSize(t, n);
    Le32At(t, 28, 0);
    assert SizeSum(t, 1) == 0x20;
  }

  lemma PlannedHeaderSizeFits()
    ensures (PLANNED_HEADER_SIZE as bv32) as int == PLANNED_HEADER_SIZE
  {
    assert PLANNED_HEADER_SIZE == 128;
  }

  /** Block 1's size field, written from the payload size less 0x20. */
  lemma BlockOneSize(t: seq<Byte>, n: nat)
    requires IsTable(t) && 0x20 <= n < U32 && t[24..28] == LeU32(n - 0x20)
    ensures BlockSize(t, 1) == n - 0x20
  {
    LeU32RoundTrip(n - 0x20, t, 24);
  }

  /** A field inside the first `u` bytes. */
  lemma PrefixField(t: seq<Byte>, u: nat, off: nat, v: seq<Byte>)
    requires off + |v| <= u <= |t| && t[..u][off..off + |v|] == v
    ensures t[off..off + |v|] == v
  {
  }

  /** A little-endian field reads back as the value whose bytes it holds. */
  lemma Le32At(t: seq<Byte>, off: nat, x: bv32)
    requires off + 4 <= |t| && t[off..off + 4] == Le32(x)
    ensures GetLe32(t, off) == x
  {
    assert t[off] == t[off..off + 4][0] && t[off + 1] == t[off..off + 4][1];
    assert t[off + 2] == t[off..off + 4][2] && t[off + 3] == t[off..off + 4][3];
    Le32RoundTrip(x, t, off);
  }

  /** The state `LoadContent` builds is one `SaveKelf` writes in a form
      `LoadKelf` reads back, when the payload's size fits a `uint32_t`. */
  lemma BuiltSaveable(c: Cipher, ks: KeyStore, payload: seq<Byte>, s0: KelfState)
    requires 0x20 <= |payload| < U32 && IsTable(s0.Table)
    ensures Saveable(LoadContentSpec(c, ks, payload, s0))
  {
    var s := LoadContentSpec(c, ks, payload, s0);
    var sig0 := EncryptedBlockTag(c, ks, payload, 0, 0x20);
    assert s.Table[..40] == PlannedTable(sig0, |payload|);
    PlannedFields(s.Table, sig0, |payload|);
  }

  /** Decrypting the blocks of the planned table over what `LoadContent`
      left in Content gives the payload back. */
  lemma PlannedDecrypts(c: Cipher, ks: KeyStore, payload: seq<Byte>, content: seq<Byte>, t: seq<Byte>)
    requires 0x20 <= |payload| < U32 && IsTable(t)
    requires t[..40] == PlannedTable(EncryptedBlockTag(c, ks, payload, 0, 0x20), |payload|)
    requires content == Enc(c, Fill(16, 0xBB), 2, ks.ContentIV, payload[..0x20]) + payload[0x20..]
    ensures BlocksFit(t, content)
    ensures DecryptBlocks(c, ks, Fill(16, 0xBB), 2, t, content, BlockCount(t)) == payload
  {
    PlannedFields(t, EncryptedBlockTag(c, ks, payload, 0, 0x20), |payload|);
    var plain := DecryptBlocks(c, ks, Fill(16, 0xBB), 2, t, content, 2);
    BlockZeroDecrypts(c, ks, payload, content, t);
    BlockOneKept(c, ks, payload, content, t);
    Halves(plain, payload, 0x20);
  }

  /** Block 0 decrypts to the first 0x20 bytes of the payload. */
  lemma BlockZeroDecrypts(c: Cipher, ks: KeyStore, payload: seq<Byte>, content: seq<Byte>, t: seq<Byte>)
    requires 0x20 <= |payload| < U32 && IsTable(t) && BlockCount(t) == 2
    requires SizeSum(t, 0) == 0 && SizeSum(t, 1) == 0x20 && SizeSum(t, 2) == |payload| && IsEncrypted(t, 0)
    requires content == Enc(c, Fill(16, 0xBB), 2, ks.ContentIV, payload[..0x20]) + payload[0x20..]
    ensures BlocksFit(t, content)
    ensures DecryptBlocks(c, ks, Fill(16, 0xBB), 2, t, content, 2)[..0x20] == payload[..0x20]
  {
    DecryptBlocksSegment(c, ks, Fill(16, 0xBB), 2, t, content, 2, 0);
    assert content[0..0x20] == Enc(c, Fill(16, 0xBB), 2, ks.ContentIV, payload[..0x20]);
    DecEnc(c, Fill(16, 0xBB), 2, ks.ContentIV, payload[..0x20]);
  }

  /** Block 1, neither ENCRYPTED nor anywhere else, keeps the rest of the
      payload. */
  lemma BlockOneKept(c: Cipher, ks: KeyStore, payload: seq<Byte>, content: seq<Byte>, t: seq<Byte>)
    requires 0x20 <= |payload| < U32 && IsTable(t) && BlockCount(t) == 2
    requires SizeSum(t, 1) == 0x20 && SizeSum(t, 2) == |payload| && !IsEncrypted(t, 1)
    requires content == Enc(c, Fill(16, 0xBB), 2, ks.ContentIV, payload[..0x20]) + payload[0x20..]
    ensures BlocksFit(t, content)
    ensures DecryptBlocks(c, ks, Fill(16, 0xBB), 2, t, content, 2)[0x20..] == payload[0x20..]
  {
    DecryptBlocksSegment(c, ks, Fill(16, 0xBB), 2, t, content, 2, 1);
    assert content[0x20..|payload|] == payload[0x20..];
  }

  /** Sequences of one length agreeing before and after `k` are equal. */
  lemma Halves(x: seq<Byte>, y: seq<Byte>, k: nat)
    requires |x| == |y| && k <= |x| && x[..k] == y[..k] && x[k..] == y[k..]
    ensures x == y
  {
    assert x == x[..k] + x[k..];
    assert y == y[..k] + y[k..];
  }

  /** Over the payload, the planned table's only SIGNED block carries the
      tag the content check recomputes. */
  lemma PlannedVerifies(c: Cipher, ks: KeyStore, payload: seq<Byte>, t: seq<Byte>)
    requires 0x20 <= |payload| < U32 && IsTable(t)
    requires t[..40] == PlannedTable(EncryptedBlockTag(c, ks, payload, 0, 0x20), |payload|)
    ensures ContentSignaturesValid(c, ks, t, payload)
  {
    PlannedFields(t, EncryptedBlockTag(c, ks, payload, 0, 0x20), |payload|);
    assert BlockVerifies(c, ks, t, payload, 0);
    assert BlockVerifies(c, ks, t, payload, 1);
  }

  /** What `LoadKelf` rebuilds, in an object with empty Content, from what
      `SaveKelf` wrote for the state `LoadContent` built: success, the
      fixed keys, the planned table over the object's own table tail, and
      the payload as Content. */
  lemma BuiltReloaded(c: Cipher, ks: KeyStore, payload: seq<Byte>, s0: KelfState, s1: KelfState)
    requires 0x20 <= |payload| < U32 && IsTable(s0.Table) && IsTable(s1.Table) && s1.Content == []
    ensures Saveable(LoadContentSpec(c, ks, payload, s0))
    ensures var s := LoadContentSpec(c, ks, payload, s0);
            Reloaded(c, ks, s, s1)
              == Loaded(Success, KelfState(Fill(16, 0xAA), Fill(16, 0xBB), s.Table[..40] + s1.Table[40..], payload))
  {
    var s := LoadContentSpec(c, ks, payload, s0);
    var sig0 := EncryptedBlockTag(c, ks, payload, 0, 0x20);
    BuiltSaveable(c, ks, payload, s0);
    assert s.Table[..40] == PlannedTable(sig0, |payload|);
    PlannedFields(s.Table, sig0, |payload|);
    var t := s.Table[..40] + s1.Table[40..];
    assert t[..40] == PlannedTable(sig0, |payload|);
    assert s1.Content + s.Content == s.Content;
    PlannedDecrypts(c, ks, payload, s.Content, t);
    PlannedVerifies(c, ks, payload, t);
    ReloadedIs(c, ks, s, s1);
  }

  /** `LoadContent`, then `SaveKelf`, then `LoadKelf` into an object with
      empty Content succeeds and gives back the payload, the fixed keys and
      the planned table. */
  lemma BuiltContentReloads(c: Cipher, ks: KeyStore, tags: UserHeaders, headerid: int,
                            payload: seq<Byte>, s0: KelfState, s1: KelfState)
    requires tags.Valid() && 0 <= headerid <= 2
    requires 0x20 <= |payload| < U32 && IsTable(s0.Table) && IsTable(s1.Table) && s1.Content == []
    ensures Saveable(LoadContentSpec(c, ks, payload, s0))
    ensures var s := LoadContentSpec(c, ks, payload, s0);
            LoadKelfSpec(c, ks, SaveKelfSpec(c, ks, tags, headerid, s).out, s1)
              == Loaded(Success, KelfState(Fill(16, 0xAA), Fill(16, 0xBB), s.Table[..40] + s1.Table[40..], payload))
  {
    BuiltReloaded(c, ks, payload, s0, s1);
    SaveThenLoad(c, ks, tags, headerid, LoadContentSpec(c, ks, payload, s0), s1);
  }
}
