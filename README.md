# crate-spec container model

A Dafny model of the core of `crate-spec`. The tool packs a Rust crate into a signed `.scrate` container and unpacks and checks one.

A container is laid out in this order:
- a 5-byte magic number (`CRATE`);
- a 25-byte header;
- a string table;
- a section index of 9-byte entries (type, offset, size);
- the data sections: the package section, the dependency table, the crate binary and one signature section per signature;
- a 32-byte fingerprint. This is the SHA-256 digest of everything before it.

Type-0 signatures sign the file up to the end of the crate binary section, with the signature entries of the index zeroed. Type-1 signatures sign the crate binary alone.

The model follows the program's modules:

| module | file | what it models |
|---|---|---|
| `Basics` | `basics.dfy` | `u8`/`u32`, the `as` casts and wrapping `u32` addition, `Option`/`Result` |
| `Package` | `package.dfy` | the container's structures, its constants and constructors (`src/utils/package/mod.rs`) |
| `Bincode` | `bincode.dfy` | the bincode encoding of every structure under the legacy configuration, the decoders, `CratePackage::decode` and the section-index accounting (`src/utils/package/gen_bincode.rs`) |
| `Bin` | `bin.dfy` | the `Encode`/`Decode` traits' raw-array entry points (`src/utils/package/bin.rs`) |
| `Context` | `context.dfy` | `StringTable` as a class with its maps and `to_bytes`; `DepInfo`, `PackageInfo` and `SigInfo`; the dependency-entry and package-section writers and readers; the `PackageContext` class (`crate-spec/src/utils/context.rs`) |
| `Decode` | `decode.dfy` | section lookups, `binary_before_sig`, the fingerprint and signature checks, and `decode_from_crate_package` on a context (`src/utils/decode.rs`) |
| `Encode` | `encode.dfy` | the in-place `CratePackage` setters as a `WorkingPackage` class, the section writers, `calc_sigs`, `calc_fingerprint`, and the three phases of `encode_to_crate_package` (`src/utils/encode.rs`) |
| `RoundTrip` | `roundtrip.dfy` | what packing and unpacking promise each other |
| `FromToml` | `from_toml.dfy` | filling a context from a parsed `Cargo.toml` (`src/utils/from_toml.rs`) |
| `Hack` | `hack.dfy` | the test fixture that corrupts a container (`crate-spec/test/example/hack.py`) |

There are two copies of the encoder: `crate-spec/src/utils/encode.rs` and `src/utils/encode.rs`. Both take the same steps in the same order, so the `Encode` members model both. The table below cites `src/utils/encode.rs`. The same steps are at these lines of the other copy:
- the setters: 10-41;
- `set_sigs`: 46-49;
- `calc_sigs`: 55-73;
- `calc_fingerprint`: 75-78;
- the phases: 81-104;
- `encode_to_crate_package`: 108-116.

Parts the program does not contain become function parameters:
- the SHA-256 digest is `DigestFn`, any function with 32-byte results;
- PKCS#7 signing is `SignFn`, and verification against the root certificates is `VerifyFn`;
- `StringTable::read_bytes` is `ReadBytesFn`.

All of the model's properties hold for every choice of these parameters. The full round trip additionally assumes two things: verification undoes signing, and `read_bytes` reads back the table `to_bytes` wrote.

Panics are modelled as `None`, `Err(Panic)` or `ok == false`. These include an `unwrap` on a missing value, an index out of range, a `panic!` and an overflowing `u32` addition in the decoder's bounds checks, which the model treats as a debug build does. The encoder's `u32` sums in the header are the exception: `Encode.HeaderFor` and `Encode.WorkingPackage.SetCrateHeader` wrap them as a release build does.

The headline results:
- `RoundTrip.PackedParses`: the bytes `encode_to_crate_package` returns pass `check_fingerprint` and parse back to the same package.
- `RoundTrip.PackThenUnpack`: unpacking those bytes into an empty context gives back the package, its package info and crate binary, the dependencies with `dump` set, and the signed signatures as the file stores them, without their signer (`RoundTrip.SigsReadBackForgetsSigner`).
- `Bincode.DecodeEncodeIdentity`: `CratePackage::decode` inverts the encoding of every consistently laid-out package.

## Model

| member | source | states |
|---|---|---|
| Package.NewLenArray | src/utils/package/mod.rs:34-39 | a new length-prefixed array has length field 0 and no elements |
| Package.LenArrayFromVec | src/utils/package/mod.rs:41-46 | keeps the elements; the length field is their count whenever the count fits in u32 |
| Package.LenArrayCopyFromVec | src/utils/package/mod.rs:56-61 | overwriting both fields of a new array gives the same array as `from_vec` |
| Package.DatasectionType | src/utils/package/mod.rs:279-286 | the type code is 0, 1, 3 or 4, each exactly for its variant, never 2 |
| Package.NewCratePackage | src/utils/package/mod.rs:156-165 | a new package has the `CRATE` magic, a zero 32-byte fingerprint, an empty table, an empty index and no sections |
| Package.SectionNum | src/utils/package/mod.rs:227-229 | the entry count whenever it fits in u32 |
| Bincode.LittleEndianRoundTrip | src/utils/package/gen_bincode.rs:17 | reading back the `n` little-endian bytes of a value below 256^n gives the value |
| Bincode.DecodeU32 | src/utils/package/gen_bincode.rs:17 | succeeds exactly on 4 or more bytes and consumes exactly 4 |
| Bincode.U32RoundTrip | src/utils/package/gen_bincode.rs:17 | a u32 written then read comes back, and the bytes after it are left |
| Bincode.U8RoundTrip | src/utils/package/gen_bincode.rs:17 | a u8 written then read comes back, and the bytes after it are left |
| Bincode.U8Inverse | src/utils/package/gen_bincode.rs:17 | the u8 decoder inverts the u8 encoder on every value and every tail |
| Bincode.U32Inverse | src/utils/package/gen_bincode.rs:17 | the u32 decoder inverts the 4-byte little-endian encoder on every value and every tail |
| Bincode.RawBytesIdentity | src/utils/package/gen_bincode.rs:84-97 | a raw byte array encodes as itself, with no length prefix |
| Bincode.RawArrayLength | src/utils/package/gen_bincode.rs:84-97 | elements of fixed width `w` take `w` bytes each |
| Bincode.DecodeRawArraySpec | src/utils/package/gen_bincode.rs:100-115 | `RawArrayType::decode(d, n)` on success yields exactly `n` elements |
| Bincode.DecodeRawArray | src/utils/package/gen_bincode.rs:109-113 | the push loop computes the element-by-element decoding, failing at the first failed element |
| Bincode.RawArrayRoundTrip | src/utils/package/gen_bincode.rs:84-115 | decoding `|a|` elements from the encoding of `a` gives `a` back and leaves the trailing bytes |
| Bincode.DecodeLenArraySpec | src/utils/package/gen_bincode.rs:59-68 | on success the element count equals the length field that was read |
| Bincode.DecodeLenArray | src/utils/package/gen_bincode.rs:59-68 | the loop reads the length field and then exactly that many elements |
| Bincode.LenArrayRoundTrip | src/utils/package/gen_bincode.rs:49-68 | a length-prefixed array whose length field is its count is read back exactly |
| Bincode.EncodeHeader | src/utils/package/mod.rs:177-188 | the header takes 25 bytes |
| Bincode.HeaderRoundTrip | src/utils/package/mod.rs:177-188 | every header is read back from its encoding, field by field |
| Bincode.EntryInverse | src/utils/package/mod.rs:241-252 | the 9-byte index entry decoder inverts its encoder |
| Bincode.EncodeSectionIndex | src/utils/package/mod.rs:215-218 | the index takes 9 bytes per entry |
| Bincode.IndexRoundTrip | src/utils/package/gen_bincode.rs:267-273 | reading `|si|` entries from an encoded index gives exactly the entries |
| Bincode.PackageSectionRoundTrip | src/utils/package/mod.rs:291-297 | a package section with an honest author count is read back exactly |
| Bincode.DepTableEntryInverse | src/utils/package/mod.rs:319-326 | the 17-byte dependency entry decoder inverts its encoder |
| Bincode.DepTableRoundTrip | src/utils/package/mod.rs:349-352 | a dependency table with an honest length field is read back exactly |
| Bincode.CrateBinaryRoundTrip | src/utils/package/gen_bincode.rs:344-350 | the crate binary encodes as its bytes and `decode(size)` with its length reads it back |
| Bincode.DecodeSigStructureSection | src/utils/package/gen_bincode.rs:153-165 | on success the signature is exactly `size` bytes following the 5-byte size and type |
| Bincode.SigStructureRoundTrip | src/utils/package/gen_bincode.rs:153-165 | a signature section whose size field is its length is read back exactly |
| Bincode.NoVariantTag | src/utils/package/gen_bincode.rs:141-151 | a data section encodes as its payload alone, so the encoding carries no variant tag |
| Bincode.Skip | src/utils/package/gen_bincode.rs:287-290 | consuming `n` bytes drops them, or everything when fewer remain |
| Bincode.DecodeSection | src/utils/package/gen_bincode.rs:291-319 | a section read for code 0, 1, 3 or 4 has that type; any other code is refused with "file format not right!" |
| Bincode.ReadStep | src/utils/package/gen_bincode.rs:284-320 | an entry whose offset lies behind the consumed count is refused; otherwise the count becomes offset plus size |
| Bincode.ReadSections | src/utils/package/gen_bincode.rs:277-323 | after `k` entries the collection holds `k` sections |
| Bincode.ReadErrorPersists | src/utils/package/gen_bincode.rs:283-321 | once a round fails, the whole decoding fails with the same error |
| Bincode.ReadSectionsLoop | src/utils/package/gen_bincode.rs:281-322 | the loop computes the round-by-round decoding, its sections and its error |
| Bincode.ReadRound | src/utils/package/gen_bincode.rs:284-320 | one round of the loop (offset check, skip, read, push) is one step of the round-by-round decoding |
| Bincode.DecodeDataSections | src/utils/package/gen_bincode.rs:277-323 | `DataSectionCollectionType::decode` yields one section per index entry |
| Bincode.DecodedSectionTypes | src/utils/package/gen_bincode.rs:291-319 | each decoded section has the type its index entry names |
| Bincode.SectionRoundTrip | src/utils/package/gen_bincode.rs:291-319 | a section with honest length fields is read back from its encoding with its own type code and size |
| Bincode.DecodeSectionsRoundTrip | src/utils/package/gen_bincode.rs:277-323 | sections laid out as their index describes are read back exactly |
| Bincode.EncodeSizeOffset | src/utils/package/gen_bincode.rs:325-334 | one pair per section: its encoded size and its running offset from 0 |
| Bincode.EncodeFakeSections | src/utils/package/gen_bincode.rs:336-340 | the encoding cut to `min(truncLen, length)` bytes, a prefix of the full encoding |
| Bincode.CountsPartition | src/utils/package/gen_bincode.rs:396-408 | every entry is either a signature entry or not, so the two counts add up to all entries |
| Bincode.NoneSigNum | src/utils/package/gen_bincode.rs:396-404 | the accumulator counts the entries whose type is not 4 |
| Bincode.NoneSigSize | src/utils/package/gen_bincode.rs:386-394 | the accumulator is 9 bytes per non-signature entry |
| Bincode.SigNum | src/utils/package/gen_bincode.rs:406-408 | all entries minus the non-signature ones is the number of signature entries |
| Bincode.SigSize | src/utils/package/gen_bincode.rs:410-412 | the index size minus the non-signature part is 9 bytes per signature entry |
| Bincode.EncodeFakeIndex | src/utils/package/gen_bincode.rs:414-419 | the index bytes cut to `noSigSize`, then zeros to `size` bytes; the subtraction panics when `noSigSize > size` |
| Bincode.DatasectionSizeWithoutSig | src/utils/package/gen_bincode.rs:421-424 | the end (offset plus size) of entry `none_sig_num - 1`, which is the last non-signature entry only when those entries come first, as the encoder lays them out (`RoundTrip.ShapedIndex`); it panics when there is no non-signature entry or the u32 sum overflows |
| Bincode.EncodeCratePackageLayout | src/utils/package/mod.rs:145-153 | the encoding is magic, header, table, index, sections and fingerprint, with their lengths |
| Bincode.IsMagicNumber | src/utils/package/gen_bincode.rs:168-175 | the byte-by-byte loop is true exactly on `CRATE` |
| Bincode.StringTableRegion | src/utils/package/gen_bincode.rs:206-215 | succeeds exactly when size plus offset fits in u32 and is below the input length; it then yields those bytes. Otherwise it gives the "- strtable" message, or a panic on overflow |
| Bincode.SectionIndexRegion | src/utils/package/gen_bincode.rs:217-226 | success implies the region lies inside the input and `si_num` entries were read; a region ending past the input gives the "- si" message |
| Bincode.DataSectionRegion | src/utils/package/gen_bincode.rs:237-245 | success implies `ds_offset` lies inside the input and there is one section per index entry; otherwise the "- ds" message |
| Bincode.DecodeCratePackage | src/utils/package/gen_bincode.rs:198-263 | fewer than 5 bytes panic; a wrong magic gets "magic not right!". On success each region lies inside the input and the string table is its bytes. There is one section per index entry and the fingerprint is the last 32 bytes |
| Bincode.DecodeFromSlice | src/utils/package/gen_bincode.rs:190-196 | succeeds exactly when `decode` does, with the same package; a bincode read error becomes "file format not right! - others" |
| Bincode.DecodeEncodeIdentity | src/utils/package/gen_bincode.rs:198-263 | every consistently laid-out package decodes from its own encoding to itself |
| Bin.DecodeRaw | src/utils/package/bin.rs:42-55 | reads `|bin| / size_of::<T>()` elements; a zero width panics |
| Bin.DecodeRawLoop | src/utils/package/bin.rs:44-54 | the width check and element count, then `Bincode.DecodeRawArray`'s push loop, compute that decoding, panicking at the first failed element |
| Bin.RawRoundTrip | src/utils/package/bin.rs:36-55 | for fixed-width elements, decoding the encoding gives the array back, ignoring fewer than a width of trailing bytes |
| Bin.BytesDecodeAll | src/utils/package/bin.rs:42-55 | a byte array decodes to exactly its input, and re-encoding gives the input |
| Bin.BytesRoundTrip | src/utils/package/bin.rs:36-55 | a byte array encoded then decoded comes back unchanged |
| Bin.U32sRoundTrip | src/utils/package/bin.rs:36-55 | a u32 array encoded then decoded comes back unchanged |
| Context.StringTable.constructor | crate-spec/src/utils/context.rs:124-132 | a new table holds "" at offset 0, and its total is 4 |
| Context.StringTable.InsertStr | crate-spec/src/utils/context.rs:134-145 | a present string keeps its offset and nothing changes; a new one gets the old total as offset, and the total grows by 4 plus its length; both maps are updated and every earlier offset is kept |
| Context.StringTable.GetOffByStr | crate-spec/src/utils/context.rs:151-153 | defined exactly for interned strings, and its offset leads back to the string |
| Context.StringTable.GetStrByOff | crate-spec/src/utils/context.rs:155-157 | defined on every record start, and its string leads back to the offset |
| Context.StringTable.ValidLookups | crate-spec/src/utils/context.rs:117-121 | in a valid table `str2off` and `off2str` invert each other and every record start is an offset |
| Context.StringTable.ToBytes | crate-spec/src/utils/context.rs:160-170 | the offsets in ascending order, each as 4 LE bytes and its string, are the records in insertion order, taking `total_bytes` bytes |
| Context.OffsetsIncrease | crate-spec/src/utils/context.rs:138-142 | later insertions get strictly larger offsets, at least 4 plus the length apart |
| Context.MapsInverse | crate-spec/src/utils/context.rs:134-145 | for distinct strings the two maps the insertions build are inverse to each other |
| Context.RecordsLength | crate-spec/src/utils/context.rs:160-170 | the records take exactly the table's total size |
| Context.RecordAt | crate-spec/src/utils/context.rs:160-170 | string `i`'s record sits at its offset: 4 LE bytes of the offset, then its bytes |
| Context.InternAllExtends | crate-spec/src/utils/context.rs:134-145 | interning more strings keeps the earlier ones, holds each new one, adds nothing else and keeps the strings distinct |
| Context.SrcCode | crate-spec/src/utils/context.rs:54-75 | a dependency's origin code is at most 4, and 0 exactly for crates.io |
| Context.DepEntryFor | crate-spec/src/utils/context.rs:51-77 | the entry holds the origin's code and the offsets of the name, requirement, path and platform |
| Context.WriteToDepTableEntry | crate-spec/src/utils/context.rs:51-77 | interns the four strings in order and writes an entry that reads back as the dependency, marked for dumping |
| Context.ReadFromDepTableEntry | crate-spec/src/utils/context.rs:79-104 | on success `dump` is set, the code is at most 4 and each field is the string at its offset; a code above 4 panics |
| Context.DepEntryRoundTrip | crate-spec/src/utils/context.rs:51-104 | reading back a written entry over maps that invert each other gives the dependency with `dump` set |
| Context.DepEntryStable | crate-spec/src/utils/context.rs:51-77 | an entry written against a table is the same against any later state of the table |
| Context.PackageSectionStable | src/utils/encode.rs:85-88 | a package section written against a table is the same against any later state of the table |
| Context.PackageSectionFor | src/utils/encode.rs:85-88 | the section holds the offsets of name, version and license, and one author offset per author |
| Context.WriteToPackageSection | src/utils/encode.rs:85-88 | interns name, version, license and the authors in order and writes their offsets |
| Context.ReadAuthors | src/utils/decode.rs:95-98 | defined exactly when every author offset is in the table, and gives their strings in order |
| Context.ReadFromPackageSection | src/utils/decode.rs:95-98 | on success each field is the string at its offset, one author per offset |
| Context.PackageSectionRoundTrip | src/utils/decode.rs:95-98 | reading back a written package section gives the package info |
| Context.InsertAll | crate-spec/src/utils/context.rs:134-145 | interning strings one by one gives each string's offset, position by position |
| Context.SigStructureFor | src/utils/encode.rs:77-83 | a signature section holds the signature's bytes, and its size and type when they fit their fields |
| Decode.FirstOfType | src/utils/decode.rs:10-17 | the least index of that type; none exactly when no entry has it |
| Decode.SectionIdByType | src/utils/decode.rs:10-17 | the scan stops at the first entry of the type, and panics when there is none |
| Decode.DataSectionById | src/utils/decode.rs:21-23 | the section at that index, panicking exactly past the end |
| Decode.DataSectionByType | src/utils/decode.rs:25-27 | the section at the first index entry of the type |
| Decode.PackageSectionOf | src/utils/decode.rs:29-37 | defined exactly when the first type-0 entry leads to a package section |
| Decode.DepTableSectionOf | src/utils/decode.rs:39-46 | defined exactly when the first type-1 entry leads to a dependency table |
| Decode.CrateBinarySectionOf | src/utils/decode.rs:48-55 | defined exactly when the first type-3 entry leads to a crate binary |
| Decode.SigStructureSectionOf | src/utils/decode.rs:57-65 | signature `no` is the section `no` places after the first type-4 entry, and must be a signature section |
| Decode.Zeroed | src/utils/decode.rs:83-86 | zeroing keeps the buffer's length |
| Decode.BeforeSig | src/utils/decode.rs:69-89 | the file up to `ds_offset` plus the end of entry `none_sig_num - 1`, with the index entries from position `none_sig_num` on zeroed and every other byte kept. It panics on no non-signature entry, on a short file, and on a signature count mismatch when both counts are non-zero |
| Decode.BinaryBeforeSig | src/utils/decode.rs:69-89 | the copy-and-zero loop computes that region |
| Decode.BinaryBeforeDigest | src/utils/decode.rs:91-93 | everything but the 32-byte trailer |
| Decode.FingerprintOfTrailer | src/utils/decode.rs:124-127 | a file passes the fingerprint check exactly when its trailer is the digest of its body |
| Decode.ReadDeps | src/utils/decode.rs:100-106 | defined exactly when every entry reads back, and gives them in order |
| Decode.SigInfoOf | src/utils/decode.rs:112-122 | a signature info carries the section's bytes, size and type |
| Decode.ReadSigs | src/utils/decode.rs:112-122 | defined exactly when every one of the first `n` signature sections exists, and gives them in order |
| Decode.ExpectedDigest | src/utils/decode.rs:133-146 | type 0 checks the signed region's digest and type 1 the crate binary's; other types panic |
| Decode.CheckSigsSpec | src/utils/decode.rs:133-151 | true exactly when every signature agrees; false only with a mismatch; a panic only with an unknown type |
| Decode.CheckSigs | src/utils/decode.rs:129-152 | the method computes the check over the digests of the signed region and of the crate binary |
| Decode.CheckSigsResult | src/utils/decode.rs:129-152 | a result implies both regions exist and is the per-signature check over their digests |
| Decode.ReadContents | src/utils/decode.rs:162-167 | the package info, the dependencies, the crate binary and `sig_num` signatures, each read from its section |
| Decode.UnpackPackage | src/utils/decode.rs:160-171 | success reads everything back and passes the check; it panics exactly when a read or the check panics; "file sig not right" comes exactly when everything reads and the check is false; when the check is true it succeeds |
| Decode.Unpack | src/utils/decode.rs:154-172 | under 32 bytes panic; a bad trailer gets "fingerprint not right"; a parse failure passes through; success implies both checks passed and the context's new fields are what the file holds |
| Decode.Deps | src/utils/decode.rs:100-106 | appends every dependency read back, and changes nothing else |
| Decode.Sigs | src/utils/decode.rs:112-122 | appends the `sig_num` signatures read back, and changes nothing else |
| Decode.ReadInto | src/utils/decode.rs:162-167 | sets the package info and crate binary and appends the dependencies and signatures |
| Decode.UnpackInto | src/utils/decode.rs:160-171 | the context steps after parsing give the result `UnpackPackage` describes, and after "file sig not right" the context already holds everything read from the package |
| Decode.DecodeFromCratePackage | src/utils/decode.rs:154-172 | the method's result, and on success the context's new state, are those of `Unpack`. A bad fingerprint or a parse error leaves the context unchanged; "file sig not right" leaves it holding the package info, the appended dependencies and signatures, and the crate binary read from the package |
| Encode.IndexFor | src/utils/encode.rs:12-24 | one entry per section |
| Encode.IndexForDescribes | src/utils/encode.rs:12-24 | when the sections fit in u32 the index gives each section's type, running offset and size |
| Encode.IndexForPrefix | src/utils/encode.rs:12-24 | each entry depends only on the sections up to its own |
| Encode.HeaderFor | src/utils/encode.rs:30-41 | version 0 and the table at offset 30; when sizes fit, a table of `stSize` bytes is followed by an index of `siCount + fakeNum` entries, then the sections |
| Encode.WorkingPackage.constructor | src/utils/package/mod.rs:156-165 | the package starts as `CratePackage::new` |
| Encode.WorkingPackage.SetSectionIndex | src/utils/encode.rs:12-24 | replaces the index by the one built from the sections and changes nothing else |
| Encode.WorkingPackage.SetStringTable | src/utils/encode.rs:26-28 | the string table becomes the table's records |
| Encode.WorkingPackage.SetCrateHeader | src/utils/encode.rs:30-41 | the header becomes the one for the current table and index with `fakeNum` extra entries |
| Encode.WorkingPackage.SetMagicNumber | src/utils/encode.rs:43-45 | the magic becomes `CRATE` |
| Encode.WorkingPackage.SetFingerPrint | src/utils/encode.rs:47-49 | the fingerprint becomes the given 32 bytes |
| Encode.DepEntriesFor | src/utils/encode.rs:90-98 | one entry per dependency, each as the dependency is written |
| Encode.WriteToDepTableSection | src/utils/encode.rs:90-98 | interns every dependency's strings in order and writes the entries with their count |
| Encode.NonSigSections | src/utils/encode.rs:53-75 | the three sections before the signatures |
| Encode.WriteWithoutSig | src/utils/encode.rs:53-75 | appends the package section, dependency table and crate binary, interning their strings in that order |
| Encode.SigSections | src/utils/encode.rs:77-83 | one signature section per signature info, in order |
| Encode.WriteSig | src/utils/encode.rs:77-83 | appends those sections |
| Encode.SetSigs | src/utils/encode.rs:103-106 | keeps the first `non_sig_num` sections and appends the signature sections |
| Encode.Signed | src/utils/encode.rs:132-133 | signing keeps the type and signer, and records the signature's bytes and their length |
| Encode.SignAll | src/utils/encode.rs:119-134 | defined exactly when every type is 0 or 1; each info is signed over the digest its type names |
| Encode.SigDigests | src/utils/encode.rs:116-118 | the digests of the signed region of the package's encoding and of the crate binary, when both exist |
| Encode.ComputeSigDigests | src/utils/encode.rs:116-118 | the method computes those digests from the encoding |
| Encode.SignEach | src/utils/encode.rs:119-134 | the loop signs each info in order and fails at the first unknown type |
| Encode.CalcSigs | src/utils/encode.rs:115-135 | the signature infos become their signed versions and nothing else in the context changes; fails exactly when signing panics |
| Encode.CalcFingerprint | src/utils/encode.rs:137-140 | 32 bytes: the digest of the encoding without its last 32 bytes |
| Encode.TableHolds | src/utils/encode.rs:173-181 | the final table holds every string of the context and its two maps invert each other |
| Encode.BeforeSigPhase | src/utils/encode.rs:143-155 | phase 1 leaves the table with every string of the context and the package as `Phase1` describes |
| Encode.SetSections | src/utils/encode.rs:148-151 | the magic, the three sections and the placeholder signature sections |
| Encode.LayOut | src/utils/encode.rs:152-154 | the index, table and header that follow from the sections |
| Encode.SigPhase | src/utils/encode.rs:158-162 | signs, then replaces the placeholder sections by the signed ones |
| Encode.AfterSigPhase | src/utils/encode.rs:165-170 | the final index and header, then the fingerprint of the result |
| Encode.SignAndFinish | src/utils/encode.rs:158-170 | phases 2 and 3: the package ends as `Finished` over the signed infos |
| Encode.FinishFromPhase1 | src/utils/encode.rs:176-178 | phases 2 and 3 on what phase 1 left |
| Encode.EncodeToCratePackage | src/utils/encode.rs:173-181 | fails exactly when signing panics; on success the package is the finished one and the bytes are its encoding |
| RoundTrip.ShapedHeader | src/utils/encode.rs:30-41 | an encoder-shaped package's header describes its regions exactly |
| RoundTrip.ShapedIndex | src/utils/encode.rs:12-24 | its index has three non-signature entries then one per signature, and the non-signature part ends where the crate binary does |
| RoundTrip.TypedFirst | src/utils/decode.rs:10-17 | on such an index the lookups by type stop at entries 0, 1, 2 and 3 |
| RoundTrip.TypedCounts | src/utils/package/gen_bincode.rs:396-408 | on such an index there are 3 non-signature entries and `n` signature entries |
| RoundTrip.ShapedLookups | src/utils/decode.rs:29-65 | the getters find the three sections, and signature `no` at entry 3 + `no` |
| RoundTrip.ShapedSignedRegion | src/utils/decode.rs:69-89 | the region `binary_before_sig` cuts depends on the signature count, never on the signature bytes |
| RoundTrip.SameSignedRegion | src/utils/encode.rs:158-162 | replacing the placeholder signatures keeps the signed region, so signatures made before stay valid |
| RoundTrip.TrailerMatches | src/utils/encode.rs:165-170 | the fingerprint `calc_fingerprint` writes passes `check_fingerprint` |
| RoundTrip.ShapedConsistent | src/utils/package/gen_bincode.rs:198-263 | a shaped package under 4 GiB with the encoder's length fields is laid out as the decoder reads it |
| RoundTrip.TruncatedConsistent | src/utils/package/gen_bincode.rs:291-319 | a section whose length fields are the `as u32` casts of its lengths, and which is under 4 GiB, is consistent |
| RoundTrip.SignedThenChecked | src/utils/decode.rs:133-151 | when verification undoes signing, every signature `calc_sigs` makes passes `check_sigs` |
| RoundTrip.DepsRoundTrip | src/utils/decode.rs:100-106 | the dependency entries written read back as the dependencies, marked for dumping |
| RoundTrip.UnpackedContents | src/utils/decode.rs:160-167 | the contents read from a shaped package over the final table are the packed ones |
| RoundTrip.FinishedLaidOut | src/utils/encode.rs:165-170 | the last phase keeps the shape and writes a trailer the reader accepts |
| RoundTrip.ShapedParses | src/utils/package/gen_bincode.rs:190-196 | a shaped package whose lengths fit their fields parses back from its encoding |
| RoundTrip.FinishedChecks | src/utils/decode.rs:129-152 | the finished package's signatures pass `check_sigs` on its own encoding |
| RoundTrip.UnpackSteps | src/utils/decode.rs:154-172 | unpacking succeeds with the parsed package and the contents once each step does |
| RoundTrip.PackedParses | src/utils/encode.rs:173-181 | the packed bytes pass the fingerprint check and parse back to the packed package |
| RoundTrip.PackThenUnpack | src/utils/decode.rs:154-172 | unpacking the packed bytes gives back the package, the package info, the dependencies marked for dumping, the crate binary and the signatures as stored |
| RoundTrip.EncodeSucceeds | src/utils/encode.rs:115-135 | packing panics exactly when a signature's type is neither 0 nor 1 |
| RoundTrip.ShapedSigns | src/utils/encode.rs:119-131 | on a shaped package both digests exist, so signing fails only on an unknown type |
| RoundTrip.SignedSizes | src/utils/encode.rs:132-133 | every signature made records the length of its bytes |
| RoundTrip.SigsReadBackForgetsSigner | src/utils/decode.rs:112-122 | a signature read back from its section equals the one written, except that its signer, which the file does not store, is lost |
| FromToml.StrField | src/utils/from_toml.rs:36-37 | defined exactly when the key is present with a string value |
| FromToml.Strings | src/utils/from_toml.rs:44-49 | defined exactly when every item is a string, and gives them in order |
| FromToml.LicenseOf | src/utils/from_toml.rs:38-42 | "" when absent, otherwise the string it must be |
| FromToml.AuthorsOf | src/utils/from_toml.rs:39-50 | none when absent, otherwise it must be an array of strings |
| FromToml.PackageInfoOf | src/utils/from_toml.rs:36-51 | defined exactly when name and version are strings and license and authors are well formed, with those fields |
| FromToml.NameAndVersionRequired | src/utils/from_toml.rs:36-37 | a missing or non-string name or version panics whatever else the table holds |
| FromToml.WritePackageInfo | src/utils/from_toml.rs:31-52 | sets the package info from `[package]` and changes nothing else |
| FromToml.DepInfoOf | src/utils/from_toml.rs:62-92 | keeps the name and platform; defined exactly for a string, or a table whose `version`, `git` and `registry` are strings |
| FromToml.StringDependency | src/utils/from_toml.rs:68-69 | a string dependency sets the requirement and nothing else |
| FromToml.TableDependency | src/utils/from_toml.rs:71-91 | `dump` survives exactly without unknown keys; the requirement comes from `version`; the origin is `registry` over `git` over the default |
| FromToml.SelectDeps | src/utils/from_toml.rs:60-104 | defined exactly when no dependency panics; every dependency lands on one side |
| FromToml.SelectCovers | src/utils/from_toml.rs:93-102 | a dependency keeping `dump` is added; any other is reported by name |
| FromToml.SelectSound | src/utils/from_toml.rs:93-102 | every added entry keeps `dump` and the platform and comes from a dependency; every reported name comes from one that lost `dump` |
| FromToml.UnknownKeyExcluded | src/utils/from_toml.rs:77-81 | a dependency table with an unknown key is reported and not added |
| FromToml.DepInfoFor | src/utils/from_toml.rs:62-92 | one loop round, with the scan over the attribute keys, computes that dependency's info |
| FromToml.WriteDepInfo | src/utils/from_toml.rs:54-105 | appends the dependencies kept and returns the names reported; fails exactly on a panic |
| FromToml.WriteInfo | src/utils/from_toml.rs:107-123 | `[package]` and `[dependencies]` must be tables; writes the package info, then the dependencies with platform "" |
| Hack.Splice | crate-spec/test/example/hack.py:16 | the slice assignment replaces up to two bytes by three, with Python's clamping |
| Hack.SpliceLayout | crate-spec/test/example/hack.py:16 | on 202 or more bytes the file grows by one: bytes 200..202 become 10, 20, 30 and the rest shifts by one |
| Hack.SpliceKeepsTrailer | crate-spec/test/example/hack.py:15-17 | mode 0 keeps the old trailer over a changed body, so the file passes the check only on a digest collision |
| Hack.Rehash | crate-spec/test/example/hack.py:19-23 | fails (an index error) exactly when the body is at most 400 bytes |
| Hack.RehashRestoresTrailer | crate-spec/test/example/hack.py:19-23 | keeps the length and every body byte but byte 400, which becomes 0x52; the new trailer passes the check |
| Hack.Mutate | crate-spec/test/example/hack.py:13-23 | the script's steps write what `FileAfter` describes |
| Hack.ModeSelects | crate-spec/test/example/hack.py:14-23 | only mode 0 splices; any other mode rehashes, and a failed rehash leaves the truncated file empty |
| Hack.SpliceNotIdempotent | crate-spec/test/example/hack.py:15-17 | mode 0 is not idempotent: on 202 or more bytes each run adds a byte, so running it twice gives two bytes more than the input and differs from running it once |

## Left out

- File and console I/O, the command line (`src/main.rs`, `src/pack.rs`, `src/unpack.rs`) and reading `Cargo.toml` from disk are not modelled. TOML text parsing is not modelled either: its result is taken as a `TomlValue` tree, and a table's iteration order is the order of its pairs.
- SHA-256, PKCS#7 signing and verification (`crate-spec/src/utils/pkcs.rs`) and `StringTable::read_bytes` are foreign or unseen code, so they are parameters. `hashlib.sha256` in the fixture is taken to be the same digest as `gen_digest_256`.
- `src/utils/context.rs` is not part of this model. The model uses `crate-spec/src/utils/context.rs` for `StringTable`, `DepInfo`, `SrcTypePath` and the dependency-entry writer and reader. The rest is modelled in the evident way from its uses:
  - `NOT_SIG_NUM` is 3 (package, dependency table, crate binary);
  - `write_to_package_section` and `read_from_package_section` intern and look up the name, version, license and authors, in order;
  - `write_to_sig_structure_section` writes size, type and bytes;
  - `write_to_crate_binary_section` copies the bytes;
  - `add_dep_info` keeps `dump` set;
  - `set_package_info` sets the info;
  - `DepInfo::default()` is the parameter `base` of `DepInfoOf`, `SelectDeps` and `WriteDepInfo`.
- The context fields `root_cas` and each signature's key and certificate are not modelled. A signature's signer is an abstract number passed to `SignFn`.
- Context fields after a panic are not described: `WriteInfo`, `WriteDepInfo`, `CalcSigs` and `DecodeFromCratePackage` say nothing about the state they leave when they panic (`ok == false` or `Err(Panic)`), since the program does not go on after a panic.
- `Decode::decode_from_reader` (`src/utils/package/bin.rs:29-33`) reads from a `BufRead`, which is I/O. It is left out. `encode_to_writer` is left out for the same reason. `encode_to_vec`, `decode_from_vec` and `decode_from_slice` only delegate to `encode` and `decode`, so they have no members of their own.
- In the fixture, a missing argument (an `IndexError` on `args[0]`) and a non-number (a `ValueError` from `int`) are left out. Both are raised after line 13 has opened the output for writing, so the file is left empty. `Hack.Mutate` takes `mode` as an integer.
- `crate-spec/src/utils/package/gen_bincode.rs`, `crate-spec/src/utils/package/mod.rs`, `crate-spec/src/utils/decode.rs` and `crate-spec/src/utils/from_toml.rs` are older copies of the modelled files and are not modelled separately.
- The borrow-decoding impl (`gen_bincode.rs:70-81`) is not a fourth decoder in the model: it is the same loop as `LenArrayType::decode`. `encode_size_by_bincode` is modelled as the length of the encoding.
- Context.StringTable.InsertStr: assumes the u32 `total_bytes` does not overflow, so it does not model the wrap or the debug panic past 4 GiB of strings.
- Bincode.DecodeCratePackage: the u32 sums in the bounds checks are computed exactly. An overflowing sum is the panic a debug build raises, not the wrapped value of a release build.
- Encode.HeaderFor: states the header's relations only when the sizes fit in u32. Beyond that the model wraps the `as Size` casts and additions, which is what a release build does.
- Package.LenArrayFromVec: states the length field only when the count fits in u32. Beyond that it is the truncated count.
- RoundTrip.PackThenUnpack: assumes verification undoes signing and `read_bytes` inverts `to_bytes`, because both are foreign or unseen code.
- In `hack.py`, mode 0 assigns three bytes to a two-byte slice, so the fixture's output is one byte longer than its input; `Hack.SpliceLayout` states this about the code as written.
