/** The load and save pipelines as functions of the codec's state: what
    `LoadKelf`, `LoadContent` and `SaveKelf` leave in Kbit, Kc, the bit
    table and Content, what they return and what `SaveKelf` writes. */
module Pipeline {
  import opened Bytes
  import opened Format
  import opened Tdes
  import opened Signatures
  import opened ContentPass

  /** The fields of a `Kelf` object: the two keys, the CAP bytes of the
      bit-table struct, and Content. */
  datatype KelfState = KelfState(Kbit: seq<Byte>, Kc: seq<Byte>, Table: seq<Byte>, Content: seq<Byte>)

  datatype Loaded = Loaded(status: Outcome, state: KelfState)

  datatype Saved = Saved(state: KelfState, out: seq<Byte>)

  /** Bytes read so far and the file position after them. */
  datatype Chunk = Chunk(data: seq<Byte>, pos: nat)

  /** The file position after reading `k` bytes from the start. */
  function At(input: seq<Byte>, k: nat): (p: nat)
    ensures p <= |input|
  {
    Min(k, |input|)
  }

  /** An `int` holding the low 32 bits of `v`, read as two's complement. */
  function Int32(v: int): (r: int)
    ensures -0x8000_0000 <= r < 0x8000_0000
    ensures -0x8000_0000 <= v < 0x8000_0000 ==> r == v
  {
    var m := v % U32;
    if m < 0x8000_0000 then m else m - U32
  }

  /** `int BitTableSize = header.HeaderSize - ftell(f) - 8 - 8`. */
  function BitTableSize(headerSize: bv32, pos: nat): int
  {
    Int32(headerSize as int - pos - 8 - 8)
  }

  /** `BitTableSize > sizeof(BitTable)`, the `int` converted to a 64-bit
      `size_t` for the comparison. */
  predicate SizeExceedsCapacity(size: int)
  {
    size % 0x1_0000_0000_0000_0000 > CAP
  }

  /** The size guard accepts exactly the declared sizes from 0 to CAP: a
      negative difference wraps to a huge `size_t` and is rejected too. */
  lemma BitTableSizeGuard(headerSize: bv32, pos: nat)
    requires pos <= HS + 40
    ensures var size := BitTableSize(headerSize, pos);
            && (!SizeExceedsCapacity(size) <==> 0 <= headerSize as int - pos - 16 <= CAP)
            && (!SizeExceedsCapacity(size) ==> size == headerSize as int - pos - 16)
  {
    var v := headerSize as int - pos - 16;
    assert BitTableSize(headerSize, pos) == Int32(v);
    SizeGuard(v);
  }

  /** The guard on the `int` difference `v`, which lies between
      -(HS + 56) and 2^32. */
  lemma SizeGuard(v: int)
    requires -(HS + 56) <= v < U32
    ensures !SizeExceedsCapacity(Int32(v)) <==> 0 <= v <= CAP
    ensures !SizeExceedsCapacity(Int32(v)) ==> Int32(v) == v
  {
    if v < 0 {
      Mod32Below(v);
      assert Int32(v) == v;
      Mod64Below(v);
    } else if v < 0x8000_0000 {
      Mod32Within(v);
      Mod64Within(v);
    } else {
      Mod32Within(v);
      assert Int32(v) == v - U32;
      Mod64Below(v - U32);
    }
  }

  lemma Mod32Within(x: int)
    requires 0 <= x < U32
    ensures x % U32 == x
  {
  }

  lemma Mod32Below(x: int)
    requires -U32 <= x < 0
    ensures x % U32 == x + U32
  {
  }

  lemma Mod64Within(x: int)
    requires 0 <= x < 0x1_0000_0000_0000_0000
    ensures x % 0x1_0000_0000_0000_0000 == x
  {
  }

  lemma Mod64Below(x: int)
    requires -0x1_0000_0000_0000_0000 <= x < 0
    ensures x % 0x1_0000_0000_0000_0000 == x + 0x1_0000_0000_0000_0000
  {
  }

  /** The sizes of the first `n` blocks, in table order. */
  function Sizes(t: seq<Byte>, n: nat): (r: seq<nat>)
    requires IsTable(t) && n <= 256
    ensures |r| == n
  {
    if n == 0 then [] else Sizes(t, n - 1) + [BlockSize(t, n - 1)]
  }

  function Sum(sizes: seq<nat>): nat
  {
    if |sizes| == 0 then 0 else Sum(sizes[..|sizes| - 1]) + sizes[|sizes| - 1]
  }

  lemma {:induction false} SizesSum(t: seq<Byte>, n: nat)
    requires IsTable(t) && n <= 256
    ensures Sum(Sizes(t, n)) == SizeSum(t, n)
  {
    if n > 0 {
      SizesSum(t, n - 1);
      Snoc(Sizes(t, n - 1), BlockSize(t, n - 1));
    }
  }

  /** Blocks of the given sizes read one after the other, each
      `Block.resize(Size)` then `fread`. */
  function ReadSizes(input: seq<Byte>, pos: nat, sizes: seq<nat>): (r: Chunk)
    requires pos <= |input|
    ensures |r.data| == Sum(sizes) && pos <= r.pos <= |input|
  {
    if |sizes| == 0 then Chunk([], pos)
    else
      var prev := ReadSizes(input, pos, sizes[..|sizes| - 1]);
      Chunk(prev.data + ReadInto(Zeros(sizes[|sizes| - 1]), input, prev.pos),
            Advance(input, prev.pos, sizes[|sizes| - 1]))
  }

  /** The first `n` content blocks of table `t` read from `pos`. */
  function ReadBlocks(input: seq<Byte>, pos: nat, t: seq<Byte>, n: nat): (r: Chunk)
    requires pos <= |input| && IsTable(t) && n <= 256
    ensures pos <= r.pos <= |input|
  {
    ReadSizes(input, pos, Sizes(t, n))
  }

  /** Reading one more block appends it at the position the previous reads
      left. */
  lemma ReadBlocksStep(input: seq<Byte>, pos: nat, t: seq<Byte>, n: nat)
    requires pos <= |input| && IsTable(t) && n < 256
    ensures ReadBlocks(input, pos, t, n + 1).data ==
              ReadBlocks(input, pos, t, n).data + ReadInto(Zeros(BlockSize(t, n)), input, ReadBlocks(input, pos, t, n).pos)
    ensures ReadBlocks(input, pos, t, n + 1).pos == Advance(input, ReadBlocks(input, pos, t, n).pos, BlockSize(t, n))
  {
    Snoc(Sizes(t, n), BlockSize(t, n));
  }

  /** One more block read: Content grows by the block the file yields at
      the position the previous reads left. */
  lemma AppendStep(input: seq<Byte>, start: nat, t: seq<Byte>, i: nat, c0: seq<Byte>, content: seq<Byte>, pos: nat)
    requires IsTable(t) && start <= |input| && i < 256
    requires pos == ReadBlocks(input, start, t, i).pos
    requires content == c0 + ReadBlocks(input, start, t, i).data
    ensures Advance(input, pos, BlockSize(t, i)) == ReadBlocks(input, start, t, i + 1).pos
    ensures content + ReadInto(Zeros(BlockSize(t, i)), input, pos) == c0 + ReadBlocks(input, start, t, i + 1).data
  {
    ReadBlocksStep(input, start, t, i);
    ConcatAssoc(c0, ReadBlocks(input, start, t, i).data, ReadInto(Zeros(BlockSize(t, i)), input, pos));
  }

  lemma ReadBlocksLength(input: seq<Byte>, pos: nat, t: seq<Byte>, n: nat)
    requires pos <= |input| && IsTable(t) && n <= 256
    ensures |ReadBlocks(input, pos, t, n).data| == SizeSum(t, n)
  {
    SizesSum(t, n);
  }

  lemma {:induction false} ReadSizesExact(input: seq<Byte>, pos: nat, sizes: seq<nat>)
    requires pos + Sum(sizes) <= |input|
    ensures ReadSizes(input, pos, sizes) == Chunk(input[pos..pos + Sum(sizes)], pos + Sum(sizes))
  {
    if |sizes| > 0 {
      var init := sizes[..|sizes| - 1];
      var mid := pos + Sum(init);
      var end := pos + Sum(sizes);
      ReadSizesExact(input, pos, init);
      SliceJoin(input, pos, mid, end);
    }
  }

  /** A file holding all the blocks yields exactly those bytes. */
  lemma ReadBlocksExact(input: seq<Byte>, pos: nat, t: seq<Byte>, n: nat)
    requires IsTable(t) && n <= 256 && pos + SizeSum(t, n) <= |input|
    ensures ReadBlocks(input, pos, t, n) == Chunk(input[pos..pos + SizeSum(t, n)], pos + SizeSum(t, n))
  {
    SizesSum(t, n);
    ReadSizesExact(input, pos, Sizes(t, n));
  }

  /** The header as read from the start of the file (an unread tail reads
      as zero). */
  function InputHeader(input: seq<Byte>): (h: seq<Byte>)
    ensures |h| == HS
  {
    ReadInto(Zeros(HS), input, 0)
  }

  /** `LoadKelf`: gate, header signature, then the rest. */
  function LoadKelfSpec(c: Cipher, ks: KeyStore, input: seq<Byte>, s0: KelfState): (r: Loaded)
    requires IsTable(s0.Table)
    ensures IsTable(r.state.Table)
  {
    var header := InputHeader(input);
    var h := ParseHeader(header);
    if !SupportedHeader(h) then Loaded(Failure(UnsupportedFile), s0)
    else
      var hsig := ReadInto(Zeros(8), input, At(input, HS));
      if hsig != GetHeaderSignature(c, ks, header) then Loaded(Failure(InvalidHeaderSignature), s0)
      else LoadKeysAndTable(c, ks, input, header, hsig, s0)
  }

  /** Reading and unwrapping the keys. */
  function LoadKeysAndTable(c: Cipher, ks: KeyStore, input: seq<Byte>, header: seq<Byte>,
                            hsig: seq<Byte>, s0: KelfState): (r: Loaded)
    requires |header| == HS && |hsig| == 8 && IsTable(s0.Table)
    ensures IsTable(r.state.Table)
  {
    var kek := DeriveKeyEncryptionKey(c, ks, header);
    var kbit := UnwrapKey(c, kek, ReadInto(Resize(s0.Kbit, 16), input, At(input, HS + 8)));
    var kc := UnwrapKey(c, kek, ReadInto(Resize(s0.Kc, 16), input, At(input, HS + 24)));
    LoadTable(c, ks, input, header, hsig, s0.(Kbit := kbit, Kc := kc))
  }

  /** The size guard, then the bit table read and decrypted under Kbit. */
  function LoadTable(c: Cipher, ks: KeyStore, input: seq<Byte>, header: seq<Byte>,
                     hsig: seq<Byte>, s1: KelfState): (r: Loaded)
    requires |header| == HS && |hsig| == 8 && |s1.Kbit| == 16 && |s1.Kc| == 16 && IsTable(s1.Table)
    ensures IsTable(r.state.Table)
  {
    var size := BitTableSize(ParseHeader(header).HeaderSize, At(input, HS + 40));
    BitTableSizeGuard(ParseHeader(header).HeaderSize, At(input, HS + 40));
    if SizeExceedsCapacity(size) then Loaded(Failure(InvalidBitTableSize), s1)
    else
      var raw := ReadInto(s1.Table[..size], input, At(input, HS + 40));
      var table := Dec(c, s1.Kbit, 2, ks.ContentTableIV, raw) + s1.Table[size..];
      LoadSignedContent(c, ks, input, header, hsig, HS + 40 + size, s1.(Table := table))
  }

  /** Past the size guard, the table stage hands the decrypted table over
      to the signature stage. */
  lemma LoadTablePasses(c: Cipher, ks: KeyStore, input: seq<Byte>, header: seq<Byte>,
                        hsig: seq<Byte>, s1: KelfState, n: nat)
    requires |header| == HS && |hsig| == 8 && |s1.Kbit| == 16 && |s1.Kc| == 16 && IsTable(s1.Table)
    requires n <= CAP && BitTableSize(ParseHeader(header).HeaderSize, At(input, HS + 40)) == n
    ensures LoadTable(c, ks, input, header, hsig, s1)
              == LoadSignedContent(c, ks, input, header, hsig, HS + 40 + n,
                   s1.(Table := Dec(c, s1.Kbit, 2, ks.ContentTableIV, ReadInto(s1.Table[..n], input, At(input, HS + 40)))
                                + s1.Table[n..]))
  {
    var size := BitTableSize(ParseHeader(header).HeaderSize, At(input, HS + 40));
    assert !SizeExceedsCapacity(size) by {
      assert size % 0x1_0000_0000_0000_0000 == size;
    }
  }

  /** Bit-table signature, root signature, then the content pass. `k` is
      the number of bytes before the bit-table signature. */
  function LoadSignedContent(c: Cipher, ks: KeyStore, input: seq<Byte>, header: seq<Byte>,
                             hsig: seq<Byte>, k: nat, s: KelfState): (r: Loaded)
    requires |header| == HS && |hsig| == 8 && |s.Kbit| == 16 && |s.Kc| == 16 && IsTable(s.Table)
    ensures IsTable(r.state.Table)
  {
    var bts := ReadInto(Zeros(8), input, At(input, k));
    if bts != GetBitTableSignature(c, ks, s.Kbit, s.Kc, s.Table) then Loaded(Failure(InvalidBitTableSignature), s)
    else
      var root := ReadInto(Zeros(8), input, At(input, k + 8));
      if root != GetRootSignature(c, ks, hsig, bts, s.Table) then Loaded(Failure(InvalidRootSignature), s)
      else
        var blocks := ReadBlocks(input, At(input, k + 16), s.Table, BlockCount(s.Table));
        var content := s.Content + blocks.data;
        ReadBlocksLength(input, At(input, k + 16), s.Table, BlockCount(s.Table));
        var plain := DecryptBlocks(c, ks, s.Kc, ContentKeyCount(ParseHeader(header)), s.Table,
                                   content, BlockCount(s.Table));
        var s2 := s.(Content := plain);
        if !ContentSignaturesValid(c, ks, s.Table, plain) then Loaded(Failure(InvalidContentSignature), s2)
        else Loaded(Success, s2)
  }

  /** The bit-table signature read at `k` equals the one computed over the
      state's keys and table. */
  predicate TableSignatureMatches(c: Cipher, ks: KeyStore, input: seq<Byte>, k: nat, s: KelfState)
  {
    && |s.Kbit| == 16 && |s.Kc| == 16 && IsTable(s.Table)
    && ReadInto(Zeros(8), input, At(input, k)) == GetBitTableSignature(c, ks, s.Kbit, s.Kc, s.Table)
  }

  /** The root signature read at `k + 8` equals the one computed over the
      header signature, the bit-table signature read at `k` and the state's
      table. */
  predicate RootSignatureMatches(c: Cipher, ks: KeyStore, input: seq<Byte>, hsig: seq<Byte>, k: nat, s: KelfState)
  {
    && |hsig| == 8 && IsTable(s.Table)
    && ReadInto(Zeros(8), input, At(input, k + 8))
         == GetRootSignature(c, ks, hsig, ReadInto(Zeros(8), input, At(input, k)), s.Table)
  }

  /** Content once the blocks lying after the two signatures at `k` are
      appended to `content` and the ENCRYPTED ones decrypted. */
  function LoadedContent(c: Cipher, ks: KeyStore, kc: seq<Byte>, keycount: int, input: seq<Byte>, k: nat,
                         t: seq<Byte>, content: seq<Byte>): (r: seq<Byte>)
    requires IsTable(t)
    ensures |r| == |content| + SizeSum(t, BlockCount(t))
  {
    var blocks := ReadBlocks(input, At(input, k + 16), t, BlockCount(t));
    ReadBlocksLength(input, At(input, k + 16), t, BlockCount(t));
    DecryptBlocks(c, ks, kc, keycount, t, content + blocks.data, BlockCount(t))
  }

  /** The signature stage: each failure code comes exactly when its own
      check fails and the earlier ones passed; a bad table or root signature
      leaves the state as it came in; past both, Content holds the decrypted
      blocks and the outcome is the content check's. Only Content ever
      changes. */
  lemma LoadSignedContentOutcome(c: Cipher, ks: KeyStore, input: seq<Byte>, header: seq<Byte>,
                                 hsig: seq<Byte>, k: nat, s: KelfState)
    requires |header| == HS && |hsig| == 8 && |s.Kbit| == 16 && |s.Kc| == 16 && IsTable(s.Table)
    ensures var r := LoadSignedContent(c, ks, input, header, hsig, k, s);
            var tableOk := TableSignatureMatches(c, ks, input, k, s);
            var rootOk := tableOk && RootSignatureMatches(c, ks, input, hsig, k, s);
            var plain := LoadedContent(c, ks, s.Kc, ContentKeyCount(ParseHeader(header)), input, k, s.Table, s.Content);
            && r.state.Kbit == s.Kbit && r.state.Kc == s.Kc && r.state.Table == s.Table
            && (r.status == Failure(InvalidBitTableSignature) <==> !tableOk)
            && (r.status == Failure(InvalidRootSignature) <==> tableOk && !rootOk)
            && (!rootOk ==> r.state == s)
            && (rootOk ==> r.state.Content == plain)
            && (r.status == Failure(InvalidContentSignature) <==> rootOk && !ContentSignaturesValid(c, ks, s.Table, plain))
            && (r.status == Success <==> rootOk && ContentSignaturesValid(c, ks, s.Table, plain))
  {
  }

  /** The table stage: `InvalidBitTableSize` comes exactly when the size
      guard fires, and then nothing changes; past the guard the first
      BitTableSize bytes of the struct are read over and decrypted under
      Kbit, and the signature stage decides. */
  lemma LoadTableOutcome(c: Cipher, ks: KeyStore, input: seq<Byte>, header: seq<Byte>,
                         hsig: seq<Byte>, s1: KelfState)
    requires |header| == HS && |hsig| == 8 && |s1.Kbit| == 16 && |s1.Kc| == 16 && IsTable(s1.Table)
    ensures var r := LoadTable(c, ks, input, header, hsig, s1);
            var size := BitTableSize(ParseHeader(header).HeaderSize, At(input, HS + 40));
            && (r.status == Failure(InvalidBitTableSize) <==> SizeExceedsCapacity(size))
            && (SizeExceedsCapacity(size) ==> r.state == s1)
            && (!SizeExceedsCapacity(size) ==>
                  && 0 <= size <= CAP
                  && r == LoadSignedContent(c, ks, input, header, hsig, HS + 40 + size,
                            s1.(Table := Dec(c, s1.Kbit, 2, ks.ContentTableIV, ReadInto(s1.Table[..size], input, At(input, HS + 40)))
                                         + s1.Table[size..])))
  {
    var size := BitTableSize(ParseHeader(header).HeaderSize, At(input, HS + 40));
    BitTableSizeGuard(ParseHeader(header).HeaderSize, At(input, HS + 40));
    if !SizeExceedsCapacity(size) {
      LoadTablePasses(c, ks, input, header, hsig, s1, size);
    }
  }

  /** The key stage: whatever the outcome, Kbit and Kc end up as the 16
      bytes read after the header signature, unwrapped under the header's
      KEK. */
  lemma LoadKeysAndTableOutcome(c: Cipher, ks: KeyStore, input: seq<Byte>, header: seq<Byte>,
                                hsig: seq<Byte>, s0: KelfState)
    requires |header| == HS && |hsig| == 8 && IsTable(s0.Table)
    ensures var r := LoadKeysAndTable(c, ks, input, header, hsig, s0);
            var kek := DeriveKeyEncryptionKey(c, ks, header);
            var kbit := UnwrapKey(c, kek, ReadInto(Resize(s0.Kbit, 16), input, At(input, HS + 8)));
            var kc := UnwrapKey(c, kek, ReadInto(Resize(s0.Kc, 16), input, At(input, HS + 24)));
            && r.state.Kbit == kbit && r.state.Kc == kc
            && r == LoadTable(c, ks, input, header, hsig, s0.(Kbit := kbit, Kc := kc))
  {
    var kek := DeriveKeyEncryptionKey(c, ks, header);
    var kbit := UnwrapKey(c, kek, ReadInto(Resize(s0.Kbit, 16), input, At(input, HS + 8)));
    var kc := UnwrapKey(c, kek, ReadInto(Resize(s0.Kc, 16), input, At(input, HS + 24)));
    LoadTableOutcome(c, ks, input, header, hsig, s0.(Kbit := kbit, Kc := kc));
  }

  /** `LoadKelf` fails fast: each failure code comes exactly when its own
      check fails and every earlier one passed, and success exactly when
      every check passed. A failure at the header leaves the state as it
      came in. */
  lemma LoadKelfFailsFast(c: Cipher, ks: KeyStore, input: seq<Byte>, s0: KelfState)
    requires IsTable(s0.Table)
    ensures var r := LoadKelfSpec(c, ks, input, s0);
            var header := InputHeader(input);
            var h := ParseHeader(header);
            var hsig := ReadInto(Zeros(8), input, At(input, HS));
            var size := BitTableSize(h.HeaderSize, At(input, HS + 40));
            var headerOk := SupportedHeader(h) && hsig == GetHeaderSignature(c, ks, header);
            var sizeOk := headerOk && !SizeExceedsCapacity(size);
            var tableOk := sizeOk && TableSignatureMatches(c, ks, input, HS + 40 + size, r.state);
            var rootOk := tableOk && RootSignatureMatches(c, ks, input, hsig, HS + 40 + size, r.state);
            && (r.status == Failure(UnsupportedFile) <==> !SupportedHeader(h))
            && (r.status == Failure(InvalidHeaderSignature) <==> SupportedHeader(h) && !headerOk)
            && (!headerOk ==> r.state == s0)
            && (r.status == Failure(InvalidBitTableSize) <==> headerOk && SizeExceedsCapacity(size))
            && (r.status == Failure(InvalidBitTableSignature) <==> sizeOk && !tableOk)
            && (r.status == Failure(InvalidRootSignature) <==> tableOk && !rootOk)
            && (r.status == Failure(InvalidContentSignature) <==>
                  rootOk && !ContentSignaturesValid(c, ks, r.state.Table, r.state.Content))
            && (r.status == Success <==> rootOk && ContentSignaturesValid(c, ks, r.state.Table, r.state.Content))
  {
    var header := InputHeader(input);
    if SupportedHeader(ParseHeader(header)) {
      var hsig := ReadInto(Zeros(8), input, At(input, HS));
      if hsig == GetHeaderSignature(c, ks, header) {
        var r := LoadKelfSpec(c, ks, input, s0);
        LoadKeysAndTableOutcome(c, ks, input, header, hsig, s0);
        var s1 := s0.(Kbit := r.state.Kbit, Kc := r.state.Kc);
        assert r == LoadTable(c, ks, input, header, hsig, s1);
        LoadTableOutcome(c, ks, input, header, hsig, s1);
        var size := BitTableSize(ParseHeader(header).HeaderSize, At(input, HS + 40));
        if !SizeExceedsCapacity(size) {
          var s2 := s1.(Table := Dec(c, s1.Kbit, 2, ks.ContentTableIV, ReadInto(s1.Table[..size], input, At(input, HS + 40)))
                                 + s1.Table[size..]);
          LoadSignedContentOutcome(c, ks, input, header, hsig, HS + 40 + size, s2);
        }
      }
    }
  }

  /** The keys and table `LoadKelf` leaves: past the header, Kbit and Kc
      are the unwrapped keys whatever follows; past the size guard, Table is
      the decrypted table, and before it Table keeps its old value. */
  lemma LoadKelfKeysAndTable(c: Cipher, ks: KeyStore, input: seq<Byte>, s0: KelfState)
    requires IsTable(s0.Table)
    ensures var r := LoadKelfSpec(c, ks, input, s0);
            var header := InputHeader(input);
            var h := ParseHeader(header);
            var hsig := ReadInto(Zeros(8), input, At(input, HS));
            var size := BitTableSize(h.HeaderSize, At(input, HS + 40));
            var kek := DeriveKeyEncryptionKey(c, ks, header);
            var headerOk := SupportedHeader(h) && hsig == GetHeaderSignature(c, ks, header);
            var sizeOk := headerOk && !SizeExceedsCapacity(size);
            && (headerOk ==>
                  && r.state.Kbit == UnwrapKey(c, kek, ReadInto(Resize(s0.Kbit, 16), input, At(input, HS + 8)))
                  && r.state.Kc == UnwrapKey(c, kek, ReadInto(Resize(s0.Kc, 16), input, At(input, HS + 24))))
            && (!sizeOk ==> r.state.Table == s0.Table)
            && (sizeOk ==>
                  && 0 <= size <= CAP
                  && r.state.Table == Dec(c, r.state.Kbit, 2, ks.ContentTableIV,
                                          ReadInto(s0.Table[..size], input, At(input, HS + 40))) + s0.Table[size..])
  {
    var header := InputHeader(input);
    var hsig := ReadInto(Zeros(8), input, At(input, HS));
    if SupportedHeader(ParseHeader(header)) && hsig == GetHeaderSignature(c, ks, header) {
      var kek := DeriveKeyEncryptionKey(c, ks, header);
      var s1 := s0.(Kbit := UnwrapKey(c, kek, ReadInto(Resize(s0.Kbit, 16), input, At(input, HS + 8))),
                    Kc := UnwrapKey(c, kek, ReadInto(Resize(s0.Kc, 16), input, At(input, HS + 24))));
      LoadKeysAndTableOutcome(c, ks, input, header, hsig, s0);
      LoadTableOutcome(c, ks, input, header, hsig, s1);
      var size := BitTableSize(ParseHeader(header).HeaderSize, At(input, HS + 40));
      if !SizeExceedsCapacity(size) {
        var s2 := s1.(Table := Dec(c, s1.Kbit, 2, ks.ContentTableIV, ReadInto(s1.Table[..size], input, At(input, HS + 40)))
                               + s1.Table[size..]);
        LoadSignedContentOutcome(c, ks, input, header, hsig, HS + 40 + size, s2);
      }
    }
  }

  /** The content `LoadKelf` leaves: past both signatures, Content holds
      the blocks read after them, decrypted; before that it keeps its old
      value. */
  lemma LoadKelfContent(c: Cipher, ks: KeyStore, input: seq<Byte>, s0: KelfState)
    requires IsTable(s0.Table)
    ensures var r := LoadKelfSpec(c, ks, input, s0);
            var header := InputHeader(input);
            var h := ParseHeader(header);
            var hsig := ReadInto(Zeros(8), input, At(input, HS));
            var size := BitTableSize(h.HeaderSize, At(input, HS + 40));
            var headerOk := SupportedHeader(h) && hsig == GetHeaderSignature(c, ks, header);
            var rootOk := && headerOk && !SizeExceedsCapacity(size)
                          && TableSignatureMatches(c, ks, input, HS + 40 + size, r.state)
                          && RootSignatureMatches(c, ks, input, hsig, HS + 40 + size, r.state);
            && (!rootOk ==> r.state.Content == s0.Content)
            && (rootOk ==>
                  r.state.Content == LoadedContent(c, ks, r.state.Kc, ContentKeyCount(h), input, HS + 40 + size,
                                                   r.state.Table, s0.Content))
  {
    var header := InputHeader(input);
    if SupportedHeader(ParseHeader(header)) {
      var hsig := ReadInto(Zeros(8), input, At(input, HS));
      if hsig == GetHeaderSignature(c, ks, header) {
        var r := LoadKelfSpec(c, ks, input, s0);
        LoadKeysAndTableOutcome(c, ks, input, header, hsig, s0);
        var s1 := s0.(Kbit := r.state.Kbit, Kc := r.state.Kc);
        assert r == LoadTable(c, ks, input, header, hsig, s1);
        LoadTableOutcome(c, ks, input, header, hsig, s1);
        var size := BitTableSize(ParseHeader(header).HeaderSize, At(input, HS + 40));
        if !SizeExceedsCapacity(size) {
          var s2 := s1.(Table := Dec(c, s1.Kbit, 2, ks.ContentTableIV, ReadInto(s1.Table[..size], input, At(input, HS + 40)))
                                 + s1.Table[size..]);
          LoadSignedContentOutcome(c, ks, input, header, hsig, HS + 40 + size, s2);
        }
      }
    }
  }

  /** `bitTable.HeaderSize` as `LoadContent` computes it: header, header
      signature, Kbit, Kc, a two-block table and the two trailing
      signatures. */
  const PLANNED_HEADER_SIZE: nat := HS + 8 + 16 + 16 + (2 * 2 + 1) * 8 + 8 + 8

  /** The 40 bytes `LoadContent` writes at the start of the bit table. */
  function PlannedTable(sig0: seq<Byte>, contentSize: nat): (r: seq<Byte>)
    requires |sig0| == 8 && contentSize >= 0x20
    ensures |r| == 40
  {
    Le32(PLANNED_HEADER_SIZE as bv32) + [2, 0, 0, 0]
      + Le32(0x20) + Le32(BIT_BLOCK_SIGNED | BIT_BLOCK_ENCRYPTED) + sig0
      + LeU32(contentSize - 0x20) + Le32(0) + Zeros(8)
  }

  /** The fields written one after the other give the planned table. */
  lemma PlannedTableBuilt(sig0: seq<Byte>, contentSize: nat, size1: seq<Byte>)
    requires |sig0| == 8 && contentSize >= 0x20 && size1 == LeU32(contentSize - 0x20)
    ensures Le32(PLANNED_HEADER_SIZE as bv32) + ([2] + Zeros(3)) + Le32(0x20)
              + Le32(BIT_BLOCK_SIGNED | BIT_BLOCK_ENCRYPTED) + sig0 + size1 + Le32(0) + Zeros(8)
            == PlannedTable(sig0, contentSize)
  {
    assert [2] + Zeros(3) == [2, 0, 0, 0];
  }

  /** `LoadContent`: the payload becomes Content, Kbit and Kc get their
      fixed values, and the table describes a 0x20-byte SIGNED|ENCRYPTED
      block 0, signed over its plaintext and then encrypted in place, and an
      unflagged block 1 holding the rest. */
  function LoadContentSpec(c: Cipher, ks: KeyStore, payload: seq<Byte>, s0: KelfState): (s: KelfState)
    requires |payload| >= 0x20 && IsTable(s0.Table)
    ensures IsTable(s.Table) && |s.Kbit| == 16 && |s.Kc| == 16
  {
    var kc := Fill(16, 0xBB);
    var sig0 := EncryptedBlockTag(c, ks, payload, 0, 0x20);
    KelfState(Fill(16, 0xAA), kc, PlannedTable(sig0, |payload|) + s0.Table[40..],
              Enc(c, kc, 2, ks.ContentIV, payload[..0x20]) + payload[0x20..])
  }

  /** The header `SaveKelf` fills in. */
  function SaveHeader(tags: UserHeaders, headerid: int, s: KelfState): (h: Header)
    requires tags.Valid() && 0 <= headerid <= 2 && IsTable(s.Table)
    ensures |h.UserDefined| == 16
  {
    Header(UserHeaderFor(tags, headerid), U32Of(|s.Content|), TableHeaderSize(s.Table),
           SYSTEM_TYPE_PS2, 1, 0x022C, 0, 0xFF)
  }

  /** `SaveKelf`: all three signatures over the plaintext table and keys,
      then the table's serialised part encrypted under Kbit, the keys
      wrapped under the KEK, and the container written field by field. */
  function SaveKelfSpec(c: Cipher, ks: KeyStore, tags: UserHeaders, headerid: int, s: KelfState): (r: Saved)
    requires tags.Valid() && 0 <= headerid <= 2
    requires |s.Kbit| == 16 && |s.Kc| == 16 && IsTable(s.Table)
    ensures IsTable(r.state.Table) && r.state.Content == s.Content
    ensures |r.out| == HS + 8 + 16 + 16 + TableBytesUsed(s.Table) + 8 + 8 + |s.Content|
  {
    var hb := HeaderBytes(SaveHeader(tags, headerid, s));
    var hsig := GetHeaderSignature(c, ks, hb);
    var bts := GetBitTableSignature(c, ks, s.Kbit, s.Kc, s.Table);
    var root := GetRootSignature(c, ks, hsig, bts, s.Table);
    var n := TableBytesUsed(s.Table);
    var enc := Enc(c, s.Kbit, 2, ks.ContentTableIV, s.Table[..n]);
    var kek := DeriveKeyEncryptionKey(c, ks, hb);
    var kbit, kc := WrapKey(c, kek, s.Kbit), WrapKey(c, kek, s.Kc);
    Saved(KelfState(kbit, kc, enc + s.Table[n..], s.Content), hb + hsig + kbit + kc + enc + bts + root + s.Content)
  }
}
