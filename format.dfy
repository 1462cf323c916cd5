/** The KELF on-disk records: the fixed-size header, the bit table of block
    descriptors, the key store the codec consults and its error kinds. */
module Format {
  import opened Bytes

  /** The codec's error returns. */
  datatype KelfError =
    | UnsupportedFile
    | InvalidDesKeyCount
    | InvalidHeaderSignature
    | InvalidBitTableSize
    | InvalidBitTableSignature
    | InvalidRootSignature
    | InvalidContentSignature

  /** An `int` status: 0 or one of the error codes. */
  datatype Outcome = Success | Failure(error: KelfError)

  /** `sizeof(KELFHeader)`. */
  const HS: nat := 32

  /** `sizeof(BitTable)`: an 8-byte prefix and room for 256 descriptors. */
  const CAP: nat := 8 + 16 * 256

  /** Descriptor flag bits. */
  const BIT_BLOCK_ENCRYPTED: bv32 := 1
  const BIT_BLOCK_SIGNED: bv32 := 2

  const SYSTEM_TYPE_PS2: bv8 := 0

  datatype Header = Header(
    UserDefined: seq<Byte>,
    ContentSize: bv32,
    HeaderSize: bv32,
    SystemType: bv8,
    ApplicationType: bv16,
    Flags: bv16,
    BitCount: bv16,
    MGZones: bv8)

  /** The packed byte image of a header (little-endian fields in
      declaration order). */
  function HeaderBytes(h: Header): (r: seq<Byte>)
    requires |h.UserDefined| == 16
    ensures |r| == HS
  {
    h.UserDefined + Le32(h.ContentSize) + Le32(h.HeaderSize) + [h.SystemType]
      + Le16(h.ApplicationType) + Le16(h.Flags) + Le16(h.BitCount) + [h.MGZones]
  }

  /** Reading a header back from its byte image. */
  function ParseHeader(b: seq<Byte>): (h: Header)
    requires |b| == HS
    ensures |h.UserDefined| == 16
  {
    Header(b[..16], GetLe32(b, 16), GetLe32(b, 20), b[24], GetLe16(b, 25),
           GetLe16(b, 27), GetLe16(b, 29), b[31])
  }

  lemma ParseHeaderBytes(h: Header)
    requires |h.UserDefined| == 16
    ensures ParseHeader(HeaderBytes(h)) == h
  {
    var b := HeaderBytes(h);
    assert b[..16] == h.UserDefined;
    assert b[24] == h.SystemType && b[31] == h.MGZones;
    HeaderWordsRead(h);
    HeaderHalfWordsRead(h);
  }

  /** The two `uint32_t` fields of a header image read back. */
  lemma HeaderWordsRead(h: Header)
    requires |h.UserDefined| == 16
    ensures GetLe32(HeaderBytes(h), 16) == h.ContentSize && GetLe32(HeaderBytes(h), 20) == h.HeaderSize
  {
    Le32RoundTrip(h.ContentSize, HeaderBytes(h), 16);
    Le32RoundTrip(h.HeaderSize, HeaderBytes(h), 20);
  }

  /** The three `uint16_t` fields of a header image read back. */
  lemma HeaderHalfWordsRead(h: Header)
    requires |h.UserDefined| == 16
    ensures GetLe16(HeaderBytes(h), 25) == h.ApplicationType && GetLe16(HeaderBytes(h), 27) == h.Flags
    ensures GetLe16(HeaderBytes(h), 29) == h.BitCount
  {
    Le16RoundTrip(h.ApplicationType, HeaderBytes(h), 25);
    Le16RoundTrip(h.Flags, HeaderBytes(h), 27);
    Le16RoundTrip(h.BitCount, HeaderBytes(h), 29);
  }

  lemma HeaderBytesParse(b: seq<Byte>)
    requires |b| == HS
    ensures HeaderBytes(ParseHeader(b)) == b
  {
    assert HeaderBytes(ParseHeader(b))
        == b[..16] + b[16..20] + b[20..24] + [b[24]] + b[25..27] + b[27..29] + b[29..31] + [b[31]] by {
      Le32Decodes(b, 16);
      Le32Decodes(b, 20);
      Le16Decodes(b, 25);
      Le16Decodes(b, 27);
      Le16Decodes(b, 29);
    }
    HeaderSplit(b);
  }

  /** A header image is the concatenation of its fields' bytes. */
  lemma HeaderSplit(b: seq<Byte>)
    requires |b| == HS
    ensures b[..16] + b[16..20] + b[20..24] + [b[24]] + b[25..27] + b[27..29] + b[29..31] + [b[31]] == b
  {
    assert b[..16] + b[16..20] == b[..20];
    assert b[..20] + b[20..24] == b[..24];
    assert b[..24] + [b[24]] == b[..25];
    assert b[..25] + b[25..27] == b[..27];
    assert b[..27] + b[27..29] == b[..29];
    assert b[..29] + b[29..31] == b[..31];
    assert b[..31] + [b[31]] == b;
  }

  /** The load gate: bit 0 of Flags, the bits 0xF0000 of Flags (after
      integer promotion) and a non-zero BitCount are unsupported. */
  predicate SupportedHeader(h: Header)
  {
    h.Flags & 1 == 0 && (h.Flags as bv32) & 0xF0000 == 0 && h.BitCount == 0
  }

  /** The content key count selected by the header flags. */
  function ContentKeyCount(h: Header): (n: int)
    ensures 0 <= n <= 3
  {
    ((h.Flags >> 4) & 3) as int
  }

  // The bit table, as the CAP bytes of the `BitTable` struct: HeaderSize
  // (u32), BlockCount (u8), gap[3], then 16 bytes per descriptor: Size
  // (u32), Flags (u32), Signature[8].

  predicate IsTable(t: seq<Byte>) { |t| == CAP }

  function TableHeaderSize(t: seq<Byte>): bv32
    requires IsTable(t)
  {
    GetLe32(t, 0)
  }

  function BlockCount(t: seq<Byte>): (n: nat)
    requires IsTable(t)
    ensures n < 256
  {
    t[4] as nat
  }

  function BlockSize(t: seq<Byte>, i: nat): nat
    requires IsTable(t) && i < 256
  {
    GetLe32(t, 8 + 16 * i) as nat
  }

  function BlockFlags(t: seq<Byte>, i: nat): bv32
    requires IsTable(t) && i < 256
  {
    GetLe32(t, 12 + 16 * i)
  }

  /** The stored 8-byte tag of descriptor `i`. */
  function StoredSignature(t: seq<Byte>, i: nat): (r: seq<Byte>)
    requires IsTable(t) && i < 256
    ensures |r| == 8
  {
    t[16 + 16 * i..24 + 16 * i]
  }

  predicate IsEncrypted(t: seq<Byte>, i: nat)
    requires IsTable(t) && i < 256
  {
    BlockFlags(t, i) & BIT_BLOCK_ENCRYPTED != 0
  }

  predicate IsSigned(t: seq<Byte>, i: nat)
    requires IsTable(t) && i < 256
  {
    BlockFlags(t, i) & BIT_BLOCK_SIGNED != 0
  }

  /** The serialised length of the table: the prefix and BlockCount
      descriptors, `(BlockCount * 2 + 1) * 8`. */
  function TableBytesUsed(t: seq<Byte>): (n: nat)
    requires IsTable(t)
    ensures n == 8 + 16 * BlockCount(t) && n <= CAP
  {
    (BlockCount(t) * 2 + 1) * 8
  }

  /** The named secrets and IVs of the key store. */
  datatype KeyStoreData = KeyStoreData(
    SignatureMasterKey: seq<Byte>,
    SignatureHashKey: seq<Byte>,
    KbitMasterKey: seq<Byte>,
    KcMasterKey: seq<Byte>,
    KbitIV: seq<Byte>,
    KcIV: seq<Byte>,
    ContentIV: seq<Byte>,
    ContentTableIV: seq<Byte>,
    RootSignatureMasterKey: seq<Byte>,
    RootSignatureHashKey: seq<Byte>)
  {
    /** The IVs and the two signature keys are 8-byte values; the other
        keys are handed to the cipher as they are. */
    predicate Valid()
    {
      |SignatureMasterKey| == 8 && |SignatureHashKey| == 8 && |KbitIV| == 8 && |KcIV| == 8
      && |ContentIV| == 8 && |ContentTableIV| == 8
    }
  }

  type KeyStore = k: KeyStoreData | k.Valid()
    witness KeyStoreData(Zeros(8), Zeros(8), Zeros(16), Zeros(16), Zeros(8), Zeros(8),
                         Zeros(8), Zeros(8), Zeros(8), Zeros(16))

  /** The three 16-byte `UserDefined` tags `SaveKelf` can stamp. */
  datatype UserHeaders = UserHeaders(Fmcb: seq<Byte>, Fhdb: seq<Byte>, Mbr: seq<Byte>)
  {
    predicate Valid() { |Fmcb| == 16 && |Fhdb| == 16 && |Mbr| == 16 }
  }

  /** The tag chosen by `headerid`. */
  function UserHeaderFor(tags: UserHeaders, headerid: int): (r: seq<Byte>)
    requires tags.Valid() && 0 <= headerid <= 2
    ensures |r| == 16
    ensures headerid == 0 ==> r == tags.Fmcb
    ensures headerid == 1 ==> r == tags.Fhdb
    ensures headerid == 2 ==> r == tags.Mbr
  {
    if headerid == 0 then tags.Fmcb else if headerid == 1 then tags.Fhdb else tags.Mbr
  }
}
