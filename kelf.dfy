/** The `Kelf` object: two 16-byte keys, the bit-table struct and the
    Content buffer, updated in place by the load, build and save
    operations. Each method is proved against the function of the
    `Signatures`, `ContentPass` and `Pipeline` modules that specifies it. */
module KelfCodec {
  import opened Bytes
  import opened Format
  import opened Tdes
  import opened Signatures
  import opened ContentPass
  import opened Pipeline

  /** `memcpy(dst + from, data, |data|)` into a byte array. */
  method Store(dst: array<Byte>, from: nat, data: seq<Byte>)
    requires from + |data| <= dst.Length
    modifies dst
    ensures dst[..] == Splice(old(dst[..]), from, data)
  {
    forall k | from <= k < from + |data| {
      dst[k] := data[k - from];
    }
  }

  /** The loop that steps 8 bytes at a time over `size` bytes stops after
      `(size + 7) / 8` steps. */
  lemma WordCount(k: nat, size: nat)
    requires (k == 0 || 8 * (k - 1) < size) && size <= 8 * k
    ensures k == (size + 7) / 8
  {
  }

  class Kelf {
    /** The key store and the cipher the object was built with. */
    const ks: KeyStore
    const des: Cipher

    var Kbit: seq<Byte>
    var Kc: seq<Byte>
    /** The bytes of the `BitTable` struct. */
    const bitTable: array<Byte>
    var Content: seq<Byte>

    ghost predicate Valid()
      reads this
    {
      bitTable.Length == CAP
    }

    /** The object's fields as a value. */
    ghost function State(): (s: KelfState)
      reads this, bitTable
      ensures Valid() ==> IsTable(s.Table)
    {
      KelfState(Kbit, Kc, bitTable[..], Content)
    }

    /** A codec over a key store; the struct starts out zeroed. */
    constructor(ks: KeyStore, des: Cipher)
      ensures Valid() && this.ks == ks && this.des == des
      ensures State() == KelfState([], [], Zeros(CAP), [])
    {
      this.ks := ks;
      this.des := des;
      Kbit := [];
      Kc := [];
      Content := [];
      bitTable := new Byte[CAP](_ => 0);
    }

    /** `DecryptKeys`: each 8-byte half of Kbit and Kc decrypted on its own
        under the KEK. */
    method DecryptKeys(kek: seq<Byte>)
      requires |Kbit| == 16 && |Kc| == 16
      modifies this
      ensures Kbit == UnwrapKey(des, kek, old(Kbit)) && Kc == UnwrapKey(des, kek, old(Kc))
      ensures Content == old(Content)
    {
      ghost var kb, kc := Kbit, Kc;
      Kbit := Dec(des, kek, 2, IV_NULL, Kbit[..8]) + Kbit[8..];
      Kbit := Kbit[..8] + Dec(des, kek, 2, IV_NULL, Kbit[8..]);
      Kc := Dec(des, kek, 2, IV_NULL, Kc[..8]) + Kc[8..];
      Kc := Kc[..8] + Dec(des, kek, 2, IV_NULL, Kc[8..]);
      assert kb[8..] == kb[8..16] && kc[8..] == kc[8..16];
    }

    /** `EncryptKeys`: each 8-byte half of Kbit and Kc encrypted on its own
        under the KEK. */
    method EncryptKeys(kek: seq<Byte>)
      requires |Kbit| == 16 && |Kc| == 16
      modifies this
      ensures Kbit == WrapKey(des, kek, old(Kbit)) && Kc == WrapKey(des, kek, old(Kc))
      ensures Content == old(Content)
    {
      ghost var kb, kc := Kbit, Kc;
      Kbit := Enc(des, kek, 2, IV_NULL, Kbit[..8]) + Kbit[8..];
      Kbit := Kbit[..8] + Enc(des, kek, 2, IV_NULL, Kbit[8..]);
      Kc := Enc(des, kek, 2, IV_NULL, Kc[..8]) + Kc[8..];
      Kc := Kc[..8] + Enc(des, kek, 2, IV_NULL, Kc[8..]);
      assert kb[8..] == kb[8..16] && kc[8..] == kc[8..16];
    }

    /** `GetBitTableSignature`: the key seed, the first
        `BlockCount * 2 + 1` words of the table folded in, then encrypted
        under the two signature keys. */
    method GetBitTableSignature() returns (sig: seq<Byte>)
      requires Valid() && |Kbit| == 16 && |Kc| == 16
      ensures sig == Signatures.GetBitTableSignature(des, ks, Kbit, Kc, bitTable[..])
    {
      var t := bitTable[..];
      var hash := Kbit[..8];
      if Kbit[..8] != Kbit[8..16] {
        hash := XorBit(Kbit[8..16], hash);
      }
      hash := XorBit(Kc[..8], hash);
      if Kc[..8] != Kc[8..16] {
        hash := XorBit(Kc[8..16], hash);
      }
      assert hash == KeySeed(Kbit, Kc);
      hash := FoldTableWords(t, hash, BlockCount(t) * 2 + 1);
      sig := Enc(des, SigMasterAndHashKey(ks), 2, IV_NULL, hash);
    }

    /** The loop of `GetBitTableSignature`: the first `words` 8-byte words
        of the table XORed into `hash`, in order. */
    static method FoldTableWords(t: seq<Byte>, seed: seq<Byte>, words: nat) returns (hash: seq<Byte>)
      requires |seed| == 8 && 8 * words <= |t|
      ensures hash == FoldWords(seed, t, words)
    {
      hash := seed;
      var i := 0;
      while i < words
        invariant i <= words && hash == FoldWords(seed, t, i)
      {
        hash := XorBit(Word(t, i), hash);
        i := i + 1;
      }
    }

    /** `GetRootSignature`: the two signatures and every SIGNED block's tag
        appended in index order, CBC-encrypted (1-key) under the root master
        key, and the last 8 bytes decrypted (2-key) under the root hash key. */
    method GetRootSignature(hs: seq<Byte>, bts: seq<Byte>) returns (root: seq<Byte>)
      requires Valid() && |hs| == 8 && |bts| == 8
      ensures root == Signatures.GetRootSignature(des, ks, hs, bts, bitTable[..])
    {
      var sigs := AppendSignedTags(bitTable[..], hs + bts);
      sigs := Enc(des, ks.RootSignatureMasterKey, 1, IV_NULL, sigs);
      root := Dec(des, ks.RootSignatureHashKey, 2, IV_NULL, sigs[|sigs| - 8..]);
    }

    /** The loop of `GetRootSignature`: the stored tag of every SIGNED
        descriptor appended to `sigs`, in index order. */
    static method AppendSignedTags(t: seq<Byte>, head: seq<Byte>) returns (sigs: seq<Byte>)
      requires IsTable(t)
      ensures sigs == head + SignedTags(t, BlockCount(t))
    {
      sigs := head;
      var i := 0;
      while i < BlockCount(t)
        invariant i <= BlockCount(t) && sigs == head + SignedTags(t, i)
      {
        if IsSigned(t, i) {
          ConcatAssoc(head, SignedTags(t, i), StoredSignature(t, i));
          sigs := sigs + StoredSignature(t, i);
        } else {
          assert SignedTags(t, i + 1) == SignedTags(t, i) + [];
        }
        i := i + 1;
      }
    }

    /** `DecryptContent`: walking the descriptors with a `uint32_t` offset,
        each ENCRYPTED block is decrypted in place under Kc with the given
        key count. */
    method DecryptContent(keycount: int)
      requires Valid() && BlocksFit(bitTable[..], Content)
      modifies this
      ensures Content == DecryptBlocks(des, ks, Kc, keycount, bitTable[..], old(Content), BlockCount(bitTable[..]))
      ensures Kbit == old(Kbit) && Kc == old(Kc)
    {
      var t := bitTable[..];
      ghost var content := Content;
      var offset := 0;
      var i := 0;
      while i < BlockCount(t)
        invariant i <= BlockCount(t) && offset == Offset(t, i)
        invariant Kbit == old(Kbit) && Kc == old(Kc)
        invariant Content == DecryptBlocks(des, ks, Kc, keycount, t, content, i)
      {
        DecryptBlock(t, content, keycount, i, offset);
        OffsetStep(t, i);
        offset := (offset + BlockSize(t, i)) % U32;
        i := i + 1;
      }
    }

    /** One descriptor of `DecryptContent`: block `i`, at `offset`, is
        decrypted in place when it is ENCRYPTED. */
    method DecryptBlock(t: seq<Byte>, ghost content: seq<Byte>, keycount: int, i: nat, offset: nat)
      requires IsTable(t) && i < BlockCount(t) && BlocksFit(t, content) && offset == Offset(t, i)
      requires Content == DecryptBlocks(des, ks, Kc, keycount, t, content, i)
      modifies this
      ensures Content == DecryptBlocks(des, ks, Kc, keycount, t, content, i + 1)
      ensures Kbit == old(Kbit) && Kc == old(Kc)
    {
      if IsEncrypted(t, i) {
        BlockInBounds(t, content, i);
        var size := BlockSize(t, i);
        Content := Splice(Content, offset, Dec(des, Kc, keycount, ks.ContentIV, Content[offset..offset + size]));
      }
    }

    /** The XOR fold of the block's words at `offset`, as the inner loop of
        the ENCRYPTED branch computes it. */
    method FoldBlock(offset: nat, size: nat) returns (sig: seq<Byte>)
      ensures sig == FoldBlockWords(Content, offset, (size + 7) / 8)
    {
      var content := Content;
      sig := Zeros(8);
      var j := 0;
      ghost var k := 0;
      while j < size
        invariant j == 8 * k && (k == 0 || j - 8 < size)
        invariant sig == FoldBlockWords(content, offset, k)
        decreases size - j
      {
        sig := XorBit(Window(content, offset + j, 8), sig);
        j := j + 8;
        k := k + 1;
      }
      WordCount(k, size);
    }

    /** The tag the SIGNED branch recomputes for block `i` at `offset`: the
        XOR fold encrypted under the signature keys for an ENCRYPTED block,
        the nested CBC-MAC of its bytes otherwise. */
    method RecomputeTag(t: seq<Byte>, i: nat, offset: nat) returns (sig: seq<Byte>)
      requires IsTable(t) && i < 256 && offset == Offset(t, i)
      ensures sig == BlockTag(des, ks, t, Content, i)
    {
      var size := BlockSize(t, i);
      if IsEncrypted(t, i) {
        sig := FoldBlock(offset, size);
        sig := Enc(des, SigMasterAndHashKey(ks), 2, IV_NULL, sig);
      } else {
        var sigMasterEnc := Enc(des, ks.SignatureMasterKey, 1, IV_NULL, Window(Content, offset, size));
        sig := LastWord(sigMasterEnc);
        sig := Dec(des, ks.SignatureHashKey, 1, IV_NULL, sig);
        sig := Enc(des, ks.SignatureMasterKey, 1, IV_NULL, sig);
      }
    }

    /** One iteration of the check: an unsigned block passes, a SIGNED one
        passes when its stored tag equals the recomputed one. */
    method CheckBlock(t: seq<Byte>, i: nat, offset: nat) returns (ok: bool)
      requires IsTable(t) && i < 256 && offset == Offset(t, i)
      ensures ok <==> BlockVerifies(des, ks, t, Content, i)
    {
      ok := true;
      if IsSigned(t, i) {
        var sig := RecomputeTag(t, i, offset);
        ok := StoredSignature(t, i) == sig;
      }
    }

    /** `LoadKelf` over the bytes of the file: the gate on the header's
        Flags and BitCount, then the header signature, then the rest. */
    method LoadKelf(input: seq<Byte>) returns (r: Outcome)
      requires Valid()
      modifies this, bitTable
      ensures Loaded(r, State()) == LoadKelfSpec(des, ks, input, old(State()))
    {
      var header := ReadInto(Zeros(HS), input, 0);
      var h := ParseHeader(header);
      if !SupportedHeader(h) {
        return Failure(UnsupportedFile);
      }
      var hsig := ReadInto(Zeros(8), input, At(input, HS));
      if hsig != Signatures.GetHeaderSignature(des, ks, header) {
        return Failure(InvalidHeaderSignature);
      }
      r := LoadKeysAndTable(input, header, hsig);
    }

    /** The keys read and unwrapped, the size guard, the bit table read and
        decrypted in place. */
    method LoadKeysAndTable(input: seq<Byte>, header: seq<Byte>, hsig: seq<Byte>) returns (r: Outcome)
      requires Valid() && |header| == HS && |hsig| == 8
      modifies this, bitTable
      ensures Loaded(r, State()) == Pipeline.LoadKeysAndTable(des, ks, input, header, hsig, old(State()))
    {
      var kek := DeriveKeyEncryptionKey(des, ks, header);
      Kbit := ReadInto(Resize(Kbit, 16), input, At(input, HS + 8));
      Kc := ReadInto(Resize(Kc, 16), input, At(input, HS + 24));
      DecryptKeys(kek);
      r := LoadTable(input, header, hsig);
    }

    /** The size guard on `HeaderSize - ftell(f) - 16`, then the bit table
        read and decrypted in place. */
    method LoadTable(input: seq<Byte>, header: seq<Byte>, hsig: seq<Byte>) returns (r: Outcome)
      requires Valid() && |header| == HS && |hsig| == 8 && |Kbit| == 16 && |Kc| == 16
      modifies this, bitTable
      ensures Loaded(r, State()) == Pipeline.LoadTable(des, ks, input, header, hsig, old(State()))
    {
      ghost var s1 := State();
      var pos := At(input, HS + 40);
      var size := BitTableSize(ParseHeader(header).HeaderSize, pos);
      BitTableSizeGuard(ParseHeader(header).HeaderSize, pos);
      if SizeExceedsCapacity(size) {
        return Failure(InvalidBitTableSize);
      }
      ReadTable(input, pos, size);
      LoadTablePasses(des, ks, input, header, hsig, s1, size);
      r := LoadSignedContent(input, header, hsig, HS + 40 + size);
    }

    /** The first `size` bytes of the struct read over and decrypted in
        place under Kbit. */
    method ReadTable(input: seq<Byte>, pos: nat, size: int)
      requires Valid() && pos <= |input| && 0 <= size <= CAP
      modifies bitTable
      ensures State() == old(State()).(Table := Dec(des, Kbit, 2, ks.ContentTableIV, ReadInto(old(bitTable[..])[..size], input, pos))
                                                + old(bitTable[..])[size..])
    {
      var raw := ReadInto(bitTable[..size], input, pos);
      var plain := Dec(des, Kbit, 2, ks.ContentTableIV, raw);
      Store(bitTable, 0, plain);
      SpliceFront(old(bitTable[..]), plain);
    }

    /** The bit-table and root signatures read and checked, the blocks
        appended to Content, decrypted and checked. `k` is the number of
        bytes before the bit-table signature. */
    method LoadSignedContent(input: seq<Byte>, header: seq<Byte>, hsig: seq<Byte>, k: nat) returns (r: Outcome)
      requires Valid() && |header| == HS && |hsig| == 8 && |Kbit| == 16 && |Kc| == 16
      modifies this
      ensures Loaded(r, State()) == Pipeline.LoadSignedContent(des, ks, input, header, hsig, k, old(State()))
    {
      var bts := ReadInto(Zeros(8), input, At(input, k));
      var expected := GetBitTableSignature();
      if bts != expected {
        return Failure(InvalidBitTableSignature);
      }
      var root := ReadInto(Zeros(8), input, At(input, k + 8));
      expected := GetRootSignature(hsig, bts);
      if root != expected {
        return Failure(InvalidRootSignature);
      }
      AppendBlocks(input, At(input, k + 16));
      ReadBlocksLength(input, At(input, k + 16), bitTable[..], BlockCount(bitTable[..]));
      DecryptContent(ContentKeyCount(ParseHeader(header)));
      r := VerifyContentSignature();
    }

    /** The block loop: each block `resize`d to its Size, read, and
        appended to Content. */
    method AppendBlocks(input: seq<Byte>, start: nat)
      requires Valid() && start <= |input|
      modifies this
      ensures Content == old(Content) + ReadBlocks(input, start, bitTable[..], BlockCount(bitTable[..])).data
      ensures Kbit == old(Kbit) && Kc == old(Kc)
    {
      var t := bitTable[..];
      var content := Content;
      var pos := start;
      var i := 0;
      while i < BlockCount(t)
        invariant i <= BlockCount(t)
        invariant pos == ReadBlocks(input, start, t, i).pos
        invariant content == old(Content) + ReadBlocks(input, start, t, i).data
        modifies {}
      {
        AppendStep(input, start, t, i, old(Content), content, pos);
        var block := ReadInto(Zeros(BlockSize(t, i)), input, pos);
        content := content + block;
        pos := Advance(input, pos, BlockSize(t, i));
        i := i + 1;
      }
      Content := content;
    }

    /** `LoadContent` over the bytes of the payload file: the payload
        becomes Content, Kbit and Kc get their fixed fill bytes, the table
        header and the two descriptors are written field by field, block 0
        is signed over its plaintext words and then encrypted in place. */
    method LoadContent(payload: seq<Byte>) returns (r: Outcome)
      requires Valid() && |payload| >= 0x20
      modifies this, bitTable
      ensures r == Success
      ensures State() == LoadContentSpec(des, ks, payload, old(State()))
    {
      ghost var t0 := bitTable[..];
      ghost var sig0 := EncryptedBlockTag(des, ks, payload, 0, 0x20);
      Content := payload;
      Kbit := Fill(16, 0xAA);
      Kc := Fill(16, 0xBB);
      WriteBlockZero(t0);
      ghost var head := Le32(PLANNED_HEADER_SIZE as bv32) + ([2] + Zeros(3)) + Le32(0x20)
        + Le32(BIT_BLOCK_SIGNED | BIT_BLOCK_ENCRYPTED) + sig0;
      assert bitTable[..] == Splice(t0, 0, head);
      Content := Splice(Content, 0, Enc(des, Kc, 2, ks.ContentIV, Content[..0x20]));
      SpliceFront(payload, Enc(des, Kc, 2, ks.ContentIV, payload[..0x20]));
      var n := |Content|;
      var size1 := LeU32(n - 0x20);
      WriteBlockOne(t0, head, size1);
      SpliceFront(t0, head + size1 + Le32(0) + Zeros(8));
      PlannedTableBuilt(sig0, n, size1);
      assert bitTable[..] == PlannedTable(sig0, n) + t0[40..];
      r := Success;
    }

    /** `SaveKelf`: the header filled in for `headerid`, the three
        signatures taken over the plaintext table and keys, the table's
        serialised part encrypted in place under Kbit, the keys wrapped
        under the KEK, and the container's fields written in order. */
    method SaveKelf(tags: UserHeaders, headerid: int) returns (r: Outcome, out: seq<Byte>)
      requires Valid() && tags.Valid() && 0 <= headerid <= 2 && |Kbit| == 16 && |Kc| == 16
      modifies this, bitTable
      ensures r == Success
      ensures Saved(State(), out) == SaveKelfSpec(des, ks, tags, headerid, old(State()))
    {
      ghost var s0 := State();
      var header := Header(UserHeaderFor(tags, headerid), U32Of(|Content|),
                           TableHeaderSize(bitTable[..]), SYSTEM_TYPE_PS2, 1, 0x022C, 0, 0xFF);
      assert header == SaveHeader(tags, headerid, s0);
      var hb := HeaderBytes(header);
      var hsig := Signatures.GetHeaderSignature(des, ks, hb);
      var bts := GetBitTableSignature();
      var root := GetRootSignature(hsig, bts);
      var n := (BlockCount(bitTable[..]) * 2 + 1) * 8;
      Store(bitTable, 0, Enc(des, Kbit, 2, ks.ContentTableIV, bitTable[..n]));
      SpliceFront(s0.Table, Enc(des, s0.Kbit, 2, ks.ContentTableIV, s0.Table[..n]));
      var kek := DeriveKeyEncryptionKey(des, ks, hb);
      EncryptKeys(kek);
      out := hb + hsig + Kbit + Kc + bitTable[..n] + bts + root + Content;
      r := Success;
    }

    /** The table header and block 0's descriptor as `LoadContent` writes
        them: the descriptor's signature is the encrypted fold of the 0x20
        plaintext bytes of the block. */
    method WriteBlockZero(ghost t0: seq<Byte>)
      requires Valid() && |Content| >= 0x20 && bitTable[..] == t0
      modifies bitTable
      ensures bitTable[..] == Splice(t0, 0, Le32(PLANNED_HEADER_SIZE as bv32) + ([2] + Zeros(3)) + Le32(0x20)
        + Le32(BIT_BLOCK_SIGNED | BIT_BLOCK_ENCRYPTED) + EncryptedBlockTag(des, ks, Content, 0, 0x20))
    {
      Store(bitTable, 5, Zeros(3));
      Store(bitTable, 4, [2]);
      SplicePrepend(t0, 4, [2], Zeros(3));
      Store(bitTable, 0, Le32(PLANNED_HEADER_SIZE as bv32));
      SplicePrepend(t0, 0, Le32(PLANNED_HEADER_SIZE as bv32), [2] + Zeros(3));
      ghost var p := Le32(PLANNED_HEADER_SIZE as bv32) + ([2] + Zeros(3));
      Store(bitTable, 8, Le32(0x20));
      SpliceExtend(t0, p, Le32(0x20));
      p := p + Le32(0x20);
      Store(bitTable, 12, Le32(BIT_BLOCK_SIGNED | BIT_BLOCK_ENCRYPTED));
      SpliceExtend(t0, p, Le32(BIT_BLOCK_SIGNED | BIT_BLOCK_ENCRYPTED));
      p := p + Le32(BIT_BLOCK_SIGNED | BIT_BLOCK_ENCRYPTED);
      Store(bitTable, 16, Zeros(8));
      SpliceExtend(t0, p, Zeros(8));
      SignBlockZero(t0, p);
      SplicePrefixPart(t0, p + FoldBlockWords(Content, 0, 4), 16, 24);
      assert (p + FoldBlockWords(Content, 0, 4))[16..24] == FoldBlockWords(Content, 0, 4);
      var sig := Enc(des, SigMasterAndHashKey(ks), 2, IV_NULL, bitTable[16..24]);
      assert sig == EncryptedBlockTag(des, ks, Content, 0, 0x20);
      SpliceTail(t0, p, FoldBlockWords(Content, 0, 4), sig);
      Store(bitTable, 16, sig);
    }

    /** Block 1's descriptor as `LoadContent` writes it after block 0's: its
        size field, a zero flags field and a zeroed signature. */
    method WriteBlockOne(ghost t0: seq<Byte>, ghost p: seq<Byte>, size1: seq<Byte>)
      requires Valid() && |t0| == CAP && |p| == 24 && |size1| == 4
      requires bitTable[..] == Splice(t0, 0, p)
      modifies bitTable
      ensures bitTable[..] == Splice(t0, 0, p + size1 + Le32(0) + Zeros(8))
    {
      Store(bitTable, 24, size1);
      SpliceExtend(t0, p, size1);
      Store(bitTable, 28, Le32(0));
      SpliceExtend(t0, p + size1, Le32(0));
      Store(bitTable, 32, Zeros(8));
      SpliceExtend(t0, p + size1 + Le32(0), Zeros(8));
    }

    /** The signing loop of `LoadContent`: the 0x20 plaintext bytes of block
        0 XORed, 8 at a time, into the zeroed signature field. */
    method SignBlockZero(ghost t0: seq<Byte>, ghost p: seq<Byte>)
      requires Valid() && |t0| == CAP && |p| == 16 && |Content| >= 0x20
      requires bitTable[..] == Splice(t0, 0, p + Zeros(8))
      modifies bitTable
      ensures bitTable[..] == Splice(t0, 0, p + FoldBlockWords(Content, 0, 4))
    {
      var content := Content;
      ghost var k := 0;
      var j := 0;
      while j < 0x20
        invariant 0 <= k <= 4 && j == 8 * k
        invariant bitTable[..] == Splice(t0, 0, p + FoldBlockWords(content, 0, k))
      {
        XorIntoSignature(t0, p, FoldBlockWords(content, 0, k), content[j..j + 8]);
        assert Window(content, 8 * k, 8) == content[j..j + 8];
        j := j + 8;
        k := k + 1;
      }
    }

    /** One step of the signing loop: 8 bytes XORed into block 0's
        signature field, in place. */
    method XorIntoSignature(ghost t0: seq<Byte>, ghost p: seq<Byte>, ghost acc: seq<Byte>, word: seq<Byte>)
      requires Valid() && |t0| == CAP && |p| == 16 && |acc| == 8 && |word| == 8
      requires bitTable[..] == Splice(t0, 0, p + acc)
      modifies bitTable
      ensures bitTable[..] == Splice(t0, 0, p + Xor(word, acc))
    {
      SplicePrefixPart(t0, p + acc, 16, 24);
      assert (p + acc)[16..24] == acc;
      var sig := XorBit(word, bitTable[16..24]);
      SpliceTail(t0, p, acc, sig);
      Store(bitTable, 16, sig);
    }

    /** `VerifyContentSignature`: 0 exactly when every SIGNED block carries
        the tag its content yields; the first mismatch is reported. */
    method VerifyContentSignature() returns (r: Outcome)
      requires Valid()
      ensures r == Success <==> ContentSignaturesValid(des, ks, bitTable[..], Content)
      ensures r != Success ==> r == Failure(InvalidContentSignature)
    {
      var t := bitTable[..];
      var offset := 0;
      var i := 0;
      while i < BlockCount(t)
        invariant i <= BlockCount(t) && offset == Offset(t, i)
        invariant BlocksVerify(des, ks, t, Content, i)
      {
        var ok := CheckBlock(t, i, offset);
        if !ok {
          BlocksVerifyMeans(des, ks, t, Content, BlockCount(t));
          return Failure(InvalidContentSignature);
        }
        OffsetStep(t, i);
        offset := (offset + BlockSize(t, i)) % U32;
        i := i + 1;
      }
      return Success;
    }
  }
}
