# KELF container codec, modelled in Dafny

kelftool's `Kelf` class reads and writes KELF containers, the signed and
encrypted executable wrappers of the PlayStation 2 MagicGate scheme. A
container is laid out as follows:

- a 32-byte header;
- the header's signature;
- the two content keys Kbit and Kc, each wrapped under a key-encryption key
  (KEK) derived from the header;
- a bit table, encrypted under Kbit, that describes the content blocks;
- a bit-table signature and a root signature;
- the content blocks.

This project models the codec of `src/kelf.cpp`: its byte layout, its
signature chain, its content pass, and its three pipelines. `LoadKelf`
checks a container and decrypts it into the object. `LoadContent` turns a
raw payload into a two-block plan. `SaveKelf` signs, encrypts and
serialises the object. The project also proves that the pipelines fit
together: what `SaveKelf` writes, `LoadKelf` accepts and reads back.

The modules follow the structure of the source:

- `Bytes` (`bytes.dfy`): byte buffers.
  - `xor_bit`.
  - Little-endian fields.
  - The `uint32_t` truncation of a count.
  - `fread` into a destination buffer, where bytes past the end of the file
    leave the destination as it was.
- `Format` (`format.dfy`): the on-disk records and the error codes.
  - The packed header, with its parser and the load gate.
  - The bit-table struct as its raw bytes, with a field decoder for each
    descriptor.
  - The key store's named secrets.
- `Tdes` (`tdes.dfy`): `TdesCbcCfb64Encrypt`/`Decrypt`.
  - The key-count dispatch as the code writes it.
  - A corrected dispatch (see "## Findings").
  - DES itself is a pair of functions obeying two laws: both preserve
    length, and decryption undoes encryption under the same keys, key count
    and IV.
- `Signatures` (`signatures.dfy`): the signature chain.
  - Header signature (a nested CBC-MAC).
  - KEK derivation, and the wrapping and unwrapping of the keys.
  - The bit-table accumulator and signature.
  - The root signature.
  - The two kinds of block tag.
- `ContentPass` (`content.dfy`): the two walks over Content with a
  `uint32_t` running offset.
  - In-place decryption of the ENCRYPTED blocks.
  - The check of the SIGNED blocks' tags.
- `Pipeline` (`pipeline.dfy`): `LoadKelf`, `LoadContent` and `SaveKelf` as
  functions of the object's fields.
  - `LoadKelf` includes the `int` arithmetic of the bit-table size and its
    `size_t` guard.
  - Each pipeline function states what each failure leaves behind.
- `KelfCodec` (`kelf.dfy`): the `Kelf` class itself.
  - Fields `Kbit`, `Kc` and `Content` (sequences), and `bitTable`, the
    bytes of the fixed-size struct.
  - Each method updates these fields in place, loop by loop as the source
    does.
  - Each method is proved to leave the state that the matching function of
    `Signatures`, `ContentPass` or `Pipeline` describes.
- `RoundTrip` (`roundtrip.dfy`): save then load.
  - Any state whose table counts its own header size and whose blocks fill
    Content reloads.
  - The state `LoadContent` builds reloads with success, giving back the
    payload and the fixed keys 0xAA×16 and 0xBB×16.

The key store, the cipher and the files are parameters:

- The key store is a value, `Format.KeyStore`.
- The cipher is a value of `Tdes.Cipher`.
- A file read is the sequence of its bytes.
- `SaveKelf` returns the bytes it writes.

## Model

| member | source | states |
|---|---|---|
| Bytes.XorBit | src/kelf.cpp:78-84 | the loop leaves byte `i` of the result equal to `a[i] ^ b[i]` for every `i`, i.e. the byte-wise exclusive or `Xor(a, b)` of the inputs as they were before the loop |
| Bytes.XorCancel | src/kelf.cpp:78-84 | folding the same buffer in twice with `xor_bit` gives back the original |
| Bytes.LeU32RoundTrip | src/kelf.cpp:337 | a count below 2^32, assigned to a `uint32_t` Size field and stored little-endian, reads back as itself |
| Format.ParseHeaderBytes | src/kelf.cpp:285 | parsing the 32 packed bytes `SaveKelf` writes for a header gives back that header, field by field |
| Format.HeaderBytesParse | src/kelf.cpp:90-91 | the 32 bytes `LoadKelf` reads are exactly the image of the header parsed from them |
| Format.UserHeaderFor | src/kelf.cpp:252-266 | headerid 0, 1, 2 select the FMCB, FHDB, MBR tag respectively, 16 bytes long |
| Format.ContentKeyCount | src/kelf.cpp:232 | the content key count `Flags >> 4 & 3` is between 0 and 3 |
| Tdes.TdesCbcCfb64Encrypt | src/kelf.cpp:24-49 | the output is as long as the data; the status is 0 exactly when KeyCount is 3, otherwise the key-count error; a count other than 1, 2, 3 leaves the buffer untouched |
| Tdes.TdesCbcCfb64Decrypt | src/kelf.cpp:51-76 | the same dispatch for decryption |
| Tdes.DanglingElse | src/kelf.cpp:39-46 | as written, a 1- or 2-key call transforms the data and still returns `KELF_ERROR_INVALID_DES_KEY_COUNT` |
| Tdes.TdesEncrypt | src/kelf.cpp:39-48 | corrected dispatch: status 0 exactly for 1, 2 or 3 keys; a failure returns the key-count error with the data unchanged |
| Tdes.TdesDecrypt | src/kelf.cpp:66-75 | corrected dispatch for decryption, with the same guarantees |
| Tdes.DispatchSameBytes | src/kelf.cpp:24-76 | the corrected and the written dispatch compute the same bytes, so only the ignored status differs |
| Tdes.TdesRoundTrip | src/kelf.cpp:24-76 | decrypting with the parameters used to encrypt restores the data and reports the same status, for every key count |
| Tdes.DecEnc | src/kelf.cpp:24-76 | decryption undoes encryption for the status-ignoring forms every caller uses |
| Signatures.SigMasterAndHashKey | src/kelf.cpp:414-416 | the 16-byte 2-key buffer holds the signature master key in bytes 0..8 and the hash key in bytes 8..16 |
| Signatures.HeaderSignatureOpens | src/kelf.cpp:353-364 | undoing the final master-key encryption of the header signature gives the hash-key decryption of the last 8 bytes of the header's 1-key CBC encryption |
| Signatures.DeriveKeyEncryptionKey | src/kelf.cpp:366-380 | the KEK is 16 bytes; what its halves are is stated by `Signatures.KekHalvesOpen`, and that it reads only the first 16 header bytes by `Signatures.KekDependsOnFirst16` |
| Signatures.KekDependsOnFirst16 | src/kelf.cpp:366-380 | headers agreeing on their first 16 bytes derive the same KEK |
| Signatures.KekHalvesOpen | src/kelf.cpp:366-380 | KEK[0:8] opens under the Kbit master key to KbitIV ^ header[0:8] ^ header[8:16], and KEK[8:16] opens under the Kc master key to KcIV ^ header[0:8] ^ header[8:16] |
| Signatures.UnwrapWrapKey | src/kelf.cpp:382-398 | `DecryptKeys` after `EncryptKeys` under the same KEK restores a 16-byte key |
| Signatures.KeyHalvesIndependent | src/kelf.cpp:382-398 | each 8-byte half of a wrapped or unwrapped key depends only on the same half of its input (the halves are not chained) |
| Signatures.FoldWordsPrefix | src/kelf.cpp:411-412 | only the first `n` 8-byte words of the table take part in an `n`-word fold |
| Signatures.BitTableSignatureOpens | src/kelf.cpp:400-422 | the bit-table signature opens under the two signature keys to the accumulator: the key seed, Kbit[8:16] and Kc[8:16] folded in only when they differ from the first halves, then the first `BlockCount*2+1` table words |
| Signatures.BitTableSignaturePrefix | src/kelf.cpp:400-422 | tables agreeing on their first `(BlockCount*2+1)*8` bytes get the same bit-table signature |
| Signatures.RootSignatureInput | src/kelf.cpp:426-432 | the MACed buffer is `16 + 8 * (number of SIGNED blocks)` bytes long, starting with the header signature and the bit-table signature |
| Signatures.SignedTagsIgnoreUnsigned | src/kelf.cpp:430-432 | the stored tag of a block without the SIGNED flag never takes part in the root signature |
| Signatures.RootSignaturePrefix | src/kelf.cpp:424-440 | tables agreeing on their serialised part get the same root signature |
| Signatures.DescriptorAgrees | src/kelf.cpp:430-432 | descriptor `i` lies in bytes `8+16i .. 24+16i`: tables agreeing there agree on its size, flags and tag |
| Signatures.SignedBlockTagIsHeaderMac | src/kelf.cpp:470-475 | the tag of a signed-only block of 32 bytes is the header signature of those bytes |
| Signatures.FoldBlockWordsFrame | src/kelf.cpp:461-462 | the fold of a block depends only on the bytes of the words it reads |
| ContentPass.Offset | src/kelf.cpp:444-448 | the running `uint32_t` offset is below 2^32, at most the sum of the earlier sizes, and equal to it while that sum is below 2^32 |
| ContentPass.OffsetStep | src/kelf.cpp:448 | adding a block's size to the offset, wrapping at 2^32, gives the next block's offset |
| ContentPass.BlockInBounds | src/kelf.cpp:446-447 | when the blocks fit in Content, every block lies inside it |
| ContentPass.DecryptBlocksFrame | src/kelf.cpp:442-450 | the decryption pass changes no byte outside the ENCRYPTED blocks |
| ContentPass.DecryptBlocksSegment | src/kelf.cpp:442-450 | with no wrap, block `i` starts at the sum of the sizes before it and afterwards holds the decryption of its original bytes if ENCRYPTED, its original bytes otherwise |
| ContentPass.BlocksVerifyMeans | src/kelf.cpp:452-486 | the in-order check passes exactly when every block among the first BlockCount is unsigned or carries the tag its content yields |
| Pipeline.Int32 | src/kelf.cpp:177 | the `int` holding a difference is its low 32 bits read as two's complement, and is the difference itself when it fits |
| Pipeline.BitTableSizeGuard | src/kelf.cpp:177-182 | the guard `BitTableSize > sizeof(BitTable)` passes exactly for declared sizes from 0 to the struct size, so a negative size (converted to a huge `size_t`) is rejected; when it passes, the `int` is the exact difference |
| Pipeline.ReadBlocksStep | src/kelf.cpp:225-230 | reading one more block appends its bytes, read at the position the earlier reads left |
| Pipeline.ReadBlocksLength | src/kelf.cpp:225-230 | the blocks read are as long as the sum of their sizes, whatever the file holds |
| Pipeline.ReadBlocksExact | src/kelf.cpp:225-230 | a file holding all the blocks yields exactly those bytes, and the cursor ends after them |
| Pipeline.LoadKelfSpec | src/kelf.cpp:86-242 | a loaded object's table stays a full struct; which code comes back, and what each field then holds, is stated by `Pipeline.LoadKelfFailsFast`, `Pipeline.LoadKelfKeysAndTable` and `Pipeline.LoadKelfContent`, and the reload of a saved object by `RoundTrip.SaveThenLoad` |
| Pipeline.LoadSignedContentOutcome | src/kelf.cpp:201-237 | signature stage: `InvalidBitTableSignature` exactly when the stored bit-table signature differs from the computed one; `InvalidRootSignature` exactly when that one matched and the stored root signature differs; either leaves the object as it came in; past both, Content is the old Content plus the blocks read, decrypted, and the outcome is `InvalidContentSignature` or success exactly as some SIGNED block fails its tag or none does; the keys and table never change |
| Pipeline.LoadTableOutcome | src/kelf.cpp:177-237 | table stage: `InvalidBitTableSize` exactly when the guard fires, and then the object is untouched; otherwise the size is within 0..CAP and the signature stage runs, right after the table, on the object whose first `size` table bytes were read over and decrypted under Kbit |
| Pipeline.LoadKeysAndTableOutcome | src/kelf.cpp:161-237 | key stage: whatever follows, Kbit and Kc end up as the 16 bytes read at HS+8 and HS+24, unwrapped under the header's KEK, and the table stage runs on the object holding them |
| Pipeline.LoadKelfFailsFast | src/kelf.cpp:86-242 | `LoadKelf` fails fast, every code tied to its own check in both directions: `UnsupportedFile` exactly when the gate rejects the header; `InvalidHeaderSignature` exactly when the gate passes and the header signature differs, and both leave the object unchanged; `InvalidBitTableSize` exactly when the header passed and the guard fires; `InvalidBitTableSignature`, `InvalidRootSignature` and `InvalidContentSignature` exactly when every earlier check passed and their own fails; success exactly when the header signature, the guard, both trailing signatures and every SIGNED block's tag all match |
| Pipeline.LoadKelfKeysAndTable | src/kelf.cpp:86-200 | past the header checks Kbit and Kc are the unwrapped keys whatever follows; Table is the decrypted table exactly from the size guard on, and keeps its old value before |
| Pipeline.LoadKelfContent | src/kelf.cpp:201-242 | Content is the old Content until both trailing signatures matched, and from then on the old Content plus the blocks read after them, with the ENCRYPTED ones decrypted |
| Pipeline.LoadContentSpec | src/kelf.cpp:299-342 | the built state has 16-byte keys and a full struct; its plan is described by `RoundTrip.PlannedFields`, and `RoundTrip.BuiltSaveable`, `RoundTrip.BuiltReloaded` and `RoundTrip.BuiltContentReloads` state that it saves and loads back to the payload |
| Pipeline.SaveHeader | src/kelf.cpp:266-273 | the saved header has a 16-byte UserDefined tag |
| Pipeline.SaveKelfSpec | src/kelf.cpp:244-297 | the written file is header, header signature, two wrapped keys, the serialised table, two signatures and Content, `HS + 56 + (BlockCount*2+1)*8 + \|Content\|` bytes; Content is untouched |
| KelfCodec.Kelf.DecryptKeys | src/kelf.cpp:382-389 | Kbit and Kc are replaced by their half-by-half 2-key decryption under the KEK; Content unchanged |
| KelfCodec.Kelf.EncryptKeys | src/kelf.cpp:391-398 | Kbit and Kc are replaced by their half-by-half 2-key encryption under the KEK; Content unchanged |
| KelfCodec.Kelf.GetBitTableSignature | src/kelf.cpp:400-422 | returns the bit-table signature of the current keys and table (whose meaning `BitTableSignatureOpens` and `BitTableSignaturePrefix` state) |
| KelfCodec.Kelf.FoldTableWords | src/kelf.cpp:411-412 | the loop XORs the first `words` table words into the hash, in order |
| KelfCodec.Kelf.GetRootSignature | src/kelf.cpp:424-440 | returns the root signature over the two signatures and the current table's SIGNED tags |
| KelfCodec.Kelf.AppendSignedTags | src/kelf.cpp:430-432 | the loop appends the stored tag of every SIGNED descriptor, in index order, and nothing else |
| KelfCodec.Kelf.DecryptContent | src/kelf.cpp:442-450 | Content becomes the in-place decryption of every ENCRYPTED block at its wrapping offset, under Kc and the given key count; the keys are unchanged |
| KelfCodec.Kelf.DecryptBlock | src/kelf.cpp:446-448 | one iteration: block `i` decrypted in place when ENCRYPTED, Content otherwise kept |
| KelfCodec.Kelf.FoldBlock | src/kelf.cpp:461-462 | the `j += 8` loop folds exactly `(Size+7)/8` words of the block at the offset |
| KelfCodec.Kelf.RecomputeTag | src/kelf.cpp:456-476 | the recomputed tag is the encrypted word fold for an ENCRYPTED block and the nested CBC-MAC of the block's bytes otherwise |
| KelfCodec.Kelf.CheckBlock | src/kelf.cpp:456-480 | a block passes exactly when it is unsigned or its stored tag equals the recomputed one |
| KelfCodec.Kelf.VerifyContentSignature | src/kelf.cpp:452-486 | returns 0 exactly when every SIGNED block carries the tag its content yields, and `KELF_ERROR_INVALID_CONTENT_SIGNATURE` otherwise |
| KelfCodec.Kelf.LoadKelf | src/kelf.cpp:86-242 | the status and the object's new fields are those `LoadKelfSpec` gives for the file and the old fields |
| KelfCodec.Kelf.LoadKeysAndTable | src/kelf.cpp:161-175 | keys read and unwrapped under the header's KEK, then the table stage, as `Pipeline.LoadKeysAndTable` |
| KelfCodec.Kelf.LoadTable | src/kelf.cpp:177-186 | the size guard, then the table read and decrypted in place, then the signature stage, as `Pipeline.LoadTable` |
| KelfCodec.Kelf.ReadTable | src/kelf.cpp:184-186 | the first `size` bytes of the struct are overwritten by the file's bytes and decrypted under Kbit; the rest of the struct and the other fields are unchanged |
| KelfCodec.Kelf.LoadSignedContent | src/kelf.cpp:201-237 | the table and root signature checks, the block reads, the decryption and the content check, as `Pipeline.LoadSignedContent` |
| KelfCodec.Kelf.AppendBlocks | src/kelf.cpp:225-230 | Content grows by exactly the blocks read, in table order; the keys are unchanged |
| KelfCodec.Kelf.LoadContent | src/kelf.cpp:299-342 | returns 0 and leaves `LoadContentSpec`: Content is the payload with its first 0x20 bytes encrypted under Kc; Kbit is 0xAA×16 and Kc is 0xBB×16; the table holds the 40-byte two-block plan over the struct's old tail |
| KelfCodec.Kelf.WriteBlockZero | src/kelf.cpp:316-332 | the table header and block 0's descriptor are written, with a tag equal to the encrypted fold of the 0x20 plaintext bytes |
| KelfCodec.Kelf.SignBlockZero | src/kelf.cpp:324-326 | the signing loop XORs the four plaintext words of block 0 into its zeroed tag |
| KelfCodec.Kelf.XorIntoSignature | src/kelf.cpp:326 | one step XORs 8 bytes into block 0's tag field in place, touching nothing else |
| KelfCodec.Kelf.WriteBlockOne | src/kelf.cpp:337-339 | block 1's descriptor is written: size, zero flags and a zeroed tag |
| KelfCodec.Kelf.SaveKelf | src/kelf.cpp:244-297 | returns 0, writes `SaveKelfSpec`'s bytes and leaves its state: signatures taken over the plaintext table and keys, the serialised table encrypted in place, the keys wrapped |
| RoundTrip.SavedHeader | src/kelf.cpp:266-273 | the header `SaveKelf` writes (Flags 0x022C, BitCount 0) passes the load gate, selects 2-key content decryption, parses back as written and carries the table's HeaderSize |
| RoundTrip.SavedLayout | src/kelf.cpp:285-293 | in a container written field after field, the header lies at 0, the header signature at HS, Kbit at HS+8, Kc at HS+24 and the encrypted table at HS+40; the bit-table and root signatures follow at the table's end `k` and `k+8`, and Content runs from `k+16` to the end of the file |
| RoundTrip.KeysReload | src/kelf.cpp:161-175 | unwrapping the written keys under the same header's KEK restores Kbit and Kc |
| RoundTrip.TableReloads | src/kelf.cpp:177-186 | over a written container the size guard passes with the serialised length, and decryption under Kbit restores the serialised table over the object's own tail |
| RoundTrip.OverlaidSignatures | src/kelf.cpp:275-277 | signatures taken before encryption over the saved table equal those recomputed over the reloaded table |
| RoundTrip.SignedContentReloads | src/kelf.cpp:201-237 | over a written container both trailing signatures match and the blocks read are exactly the written Content |
| RoundTrip.SaveThenLoad | src/kelf.cpp:244-297 | loading what `SaveKelf` wrote gives back the keys, the serialised table and the Content decrypted with 2 keys; every check up to the content check passes, and the outcome is the content check's |
| RoundTrip.PlannedFields | src/kelf.cpp:316-339 | the plan describes two blocks. Block 0 is 0x20 bytes, SIGNED and ENCRYPTED, with the computed tag. Block 1 holds the remaining bytes and has no flags. The sizes sum to the payload size, the table is 40 bytes, and HeaderSize is HS + 96 |
| RoundTrip.BuiltSaveable | src/kelf.cpp:299-342 | the state `LoadContent` builds has 16-byte keys, a HeaderSize counting exactly the saved container, and blocks that exactly fill Content |
| RoundTrip.PlannedDecrypts | src/kelf.cpp:335 | decrypting the plan's blocks over what `LoadContent` left in Content gives the payload back |
| RoundTrip.PlannedVerifies | src/kelf.cpp:324-332 | block 0's stored tag is the one the content check recomputes over the payload |
| RoundTrip.BuiltReloaded | src/kelf.cpp:299-342 | reloading the built state into an object with empty Content succeeds with the fixed keys, the plan and the payload |
| RoundTrip.BuiltContentReloads | src/kelf.cpp:299-342 | `LoadContent`, then `SaveKelf`, then `LoadKelf` into an object with empty Content returns 0 with Kbit 0xAA×16, Kc 0xBB×16 and Content equal to the payload |

## Findings

| source | as written | input that shows it | evidently intended | confidence | as-written member | corrected member |
|---|---|---|---|---|---|---|
| src/kelf.cpp:39-46 | the `else` pairs with `if (KeyCount == 3)` alone, so a 1- or 2-key encryption runs and then returns `KELF_ERROR_INVALID_DES_KEY_COUNT` | KeyCount = 2, any data | an `else if` chain returning 0 for 1, 2 and 3 keys | high, not executed | Tdes.DanglingElse | Tdes.TdesEncrypt |
| src/kelf.cpp:66-73 | the same dangling `else` in the decryption dispatch | KeyCount = 1, any data | an `else if` chain returning 0 for 1, 2 and 3 keys | high, not executed | Tdes.DanglingElse | Tdes.TdesDecrypt |

Every caller ignores the status, so the codec's bytes are the same either
way (`Tdes.DispatchSameBytes`). The rest of the model goes through `Enc`
and `Dec`, which are built on the corrected dispatch.

Where the code departs from what the format's documentation describes, the
model follows the code:

- `SaveKelf` takes only a header id. The system type (PS2) and the Flags
  (0x022C) are fixed.
- The save path checks no block plan.
- A failed load is not rolled back. The object keeps whatever the stages
  before the failure wrote into it. `Pipeline.LoadKelfKeysAndTable` and
  `Pipeline.LoadKelfContent` state what that is.
- The key-count error also comes back for valid 1- and 2-key calls (the
  finding above).

## Left out

- File I/O: opening, seeking, closing and the failure of `fopen` (the
  source does not check it). Files are byte sequences; `SaveKelf` returns
  the bytes it writes. `SaveContent` only writes Content out and is not
  part of this model.
- The `printf` dumps in `LoadKelf`, which do not affect control flow.
- `src/kelftool.cpp`, the command-line front end. It is not part of this
  model.
- `kelf.h` is not part of this model. The layout it declares is taken as
  follows:
  - a packed 32-byte little-endian header (UserDefined[16], ContentSize,
    HeaderSize, SystemType, ApplicationType, Flags, BitCount, MGZones);
  - a 16-bit Flags field, so the `Flags & 0xf0000` test of the gate is
    kept but can never fire;
  - a bit table of 8 + 16×256 bytes.
- The key store's internals. The store is a value holding the ten named
  secrets. The IVs and the two signature keys are 8 bytes long.
- Key lengths in the key store. The source uses the Kbit and Kc master
  keys, the Kbit and Kc keys of an object and the root signature keys as
  16-byte two-key buffers. The model leaves their lengths open, because
  the abstract cipher takes a key of any length. In particular, on the
  three-key content path (`Flags >> 4 & 3` equal to 3), `DecryptContent`
  (src/kelf.cpp:447) hands the 16-byte `Kc` to a routine that reads 24
  key bytes. That read past the buffer is not modelled.
- DES and OpenSSL's key schedules. The cipher is abstract, with only two
  laws: length preservation, and decryption undoing encryption. Two
  behaviours of the real `DES_*_cbc_encrypt` routines are not modelled:
  - they write a whole final block when the length is not a multiple of 8;
  - they do not round-trip such a partial block.
- Undefined reads past the end of a buffer are modelled as zero bytes:
  - the last word of an ENCRYPTED block whose size is not a multiple of 8;
  - a signed-only block shorter than 8 bytes.
- A short read of the header leaves the uninitialised local `header`; the
  model reads its missing bytes as zero.
- `ftell` is the real file position, which is past the keys on any file
  that holds them.
- KelfCodec.Kelf.FoldBlock: the source's `unsigned` `j` wraps at 2^32 for
  a block of more than 2^32 − 8 bytes, and its loop then never ends. The
  model stops after `(Size + 7) / 8` words.
- Signatures.FoldBlockWords: reads word `k` of a block at `off + 8*(k-1)`
  with no wrap. The source reads `&Content.data()[offset + j]`
  (src/kelf.cpp:461-462), where both `offset` and `j` are 32-bit unsigned,
  so the index wraps at 2^32 on a Content over 4 GiB. The offset itself
  wraps in the model (`ContentPass.Offset`), but the word index does not.
  The same holds for `EncryptedBlockTag`, `KelfCodec.Kelf.FoldBlock`,
  `KelfCodec.Kelf.RecomputeTag` and `RoundTrip.PlannedVerifies`, which are
  built on it.
- KelfCodec.Kelf.LoadContent: requires a payload of at least 0x20 bytes.
  On a shorter file the source signs and encrypts past the end of
  Content, which is undefined behaviour.
- Pipeline.LoadContentSpec: the same 0x20-byte minimum, for the same
  reason.
- KelfCodec.Kelf.SaveKelf: requires `headerid` in {0, 1, 2}. For any
  other id the source's `switch` sets nothing, and the tag is copied
  through the function-local static `USER_HEADER` as an earlier call left
  it: the last id 0, 1 or 2 saved in this process, or a null pointer
  before any such call. That hidden state across calls is not modelled.
- Pipeline.SaveKelfSpec: the same restriction on `headerid`.
- KelfCodec.Kelf.DecryptContent: requires the blocks to lie within
  Content. `LoadKelf`'s block loop always ensures this. Called on its own
  with a short Content, the source writes out of bounds.
- RoundTrip.SaveThenLoad: assumes a state whose HeaderSize field counts
  exactly the container and whose blocks exactly fill Content. Other
  states are saved as written but are not claimed to reload.
- RoundTrip.BuiltContentReloads: assumes a payload below 2^32 bytes and an
  object with empty Content. `LoadKelf` appends the blocks to whatever
  Content held, and `ContentSize`/`Size` truncate larger payloads.
