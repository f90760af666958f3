/**
 * Unpacking a `.scrate` container into a package context: finding sections
 * by type, the signed region, the fingerprint and signature checks, and
 * `decode_from_crate_package`, which runs them in order.
 */
module Decode {
  import opened Basics
  import opened Package
  import opened Bincode
  import opened Context

  /** SHA-256 as the container uses it: some function with 32-byte results. */
  type DigestFn = seq<uint8> -> FingerPrint

  /** PKCS#7 verification against the root certificates: the digest a signature carries. */
  type VerifyFn = seq<uint8> -> seq<uint8>

  /** `StringTable::read_bytes` followed by `get_str_by_off`: the offsets a table's bytes describe. */
  type ReadBytesFn = seq<uint8> -> map<uint32, Str>

  // ------------------------------------------------------------------
  // Finding sections
  // ------------------------------------------------------------------

  /** The least index whose entry has type `typ`; None when there is none. */
  function FirstOfType(entries: seq<SectionIndexEntry>, typ: int): (r: Option<nat>)
    ensures r.Some? ==> r.value < |entries| && entries[r.value].shType == typ
    ensures r.Some? ==> forall j :: 0 <= j < r.value ==> entries[j].shType != typ
    ensures r.None? <==> forall j :: 0 <= j < |entries| ==> entries[j].shType != typ
    decreases |entries|
  {
    if entries == [] then None
    else if entries[0].shType == typ then Some(0)
    else
      match FirstOfType(entries[1..], typ)
      case None => None
      case Some(i) => Some(i + 1)
  }

  /** `section_id_by_type`: scans the index and stops at the first match; no match panics (None). */
  method SectionIdByType(entries: seq<SectionIndexEntry>, typ: int) returns (r: Option<nat>)
    ensures r == FirstOfType(entries, typ)
  {
    var i := 0;
    while i < |entries|
      invariant 0 <= i <= |entries|
      invariant forall j :: 0 <= j < i ==> entries[j].shType != typ
    {
      if entries[i].shType == typ {
        return Some(i);
      }
      i := i + 1;
    }
    return None;
  }

  /** `data_section_by_id`: an index past the sections panics (None). */
  function DataSectionById(p: CratePackage, id: nat): (r: Option<DataSection>)
    ensures r.Some? <==> id < |p.dataSections|
    ensures r.Some? ==> r.value == p.dataSections[id]
  {
    if id < |p.dataSections| then Some(p.dataSections[id]) else None
  }

  /** `data_section_by_type`: the section at the first index entry of that type. */
  function DataSectionByType(p: CratePackage, typ: int): (r: Option<DataSection>)
    ensures r.Some? <==> FirstOfType(p.sectionIndex, typ).Some? && FirstOfType(p.sectionIndex, typ).value < |p.dataSections|
    ensures r.Some? ==> r.value == p.dataSections[FirstOfType(p.sectionIndex, typ).value]
  {
    var id :- FirstOfType(p.sectionIndex, typ);
    DataSectionById(p, id)
  }

  /** `package_section`: the section of type 0, which must hold a package section. */
  function PackageSectionOf(p: CratePackage): (r: Option<PackageSection>)
    ensures r.Some? <==> DataSectionByType(p, PACKAGE_TYPE).Some? && DataSectionByType(p, PACKAGE_TYPE).value.PackageSec?
    ensures r.Some? ==> DataSectionByType(p, PACKAGE_TYPE).value == PackageSec(r.value)
  {
    var d :- DataSectionByType(p, PACKAGE_TYPE);
    if d.PackageSec? then Some(d.pkg) else None
  }

  /** `dep_table_section`: the section of type 1, which must hold a dependency table. */
  function DepTableSectionOf(p: CratePackage): (r: Option<DepTableSection>)
    ensures r.Some? <==> DataSectionByType(p, DEP_TABLE_TYPE).Some? && DataSectionByType(p, DEP_TABLE_TYPE).value.DepTableSec?
    ensures r.Some? ==> DataSectionByType(p, DEP_TABLE_TYPE).value == DepTableSec(r.value)
  {
    var d :- DataSectionByType(p, DEP_TABLE_TYPE);
    if d.DepTableSec? then Some(d.deps) else None
  }

  /** `crate_binary_section`: the section of type 3, which must hold the crate binary. */
  function CrateBinarySectionOf(p: CratePackage): (r: Option<CrateBinarySection>)
    ensures r.Some? <==> DataSectionByType(p, CRATE_BINARY_TYPE).Some? && DataSectionByType(p, CRATE_BINARY_TYPE).value.CrateBinarySec?
    ensures r.Some? ==> DataSectionByType(p, CRATE_BINARY_TYPE).value == CrateBinarySec(r.value)
  {
    var d :- DataSectionByType(p, CRATE_BINARY_TYPE);
    if d.CrateBinarySec? then Some(d.crate) else None
  }

  /** `sig_structure_section(no)`: the section `no` places after the first signature entry. */
  function SigStructureSectionOf(p: CratePackage, no: nat): (r: Option<SigStructureSection>)
    ensures r.Some? <==>
      && FirstOfType(p.sectionIndex, SIG_TYPE).Some?
      && FirstOfType(p.sectionIndex, SIG_TYPE).value + no < |p.dataSections|
      && p.dataSections[FirstOfType(p.sectionIndex, SIG_TYPE).value + no].SigStructureSec?
    ensures r.Some? ==> p.dataSections[FirstOfType(p.sectionIndex, SIG_TYPE).value + no] == SigStructureSec(r.value)
  {
    var base :- FirstOfType(p.sectionIndex, SIG_TYPE);
    var d :- DataSectionById(p, no + base);
    if d.SigStructureSec? then Some(d.sig) else None
  }

  // ------------------------------------------------------------------
  // The signed region and the fingerprint
  // ------------------------------------------------------------------

  /** `buf` with the positions in `[zb, ze)` set to zero. */
  function Zeroed(buf: seq<uint8>, zb: int, ze: int): (r: seq<uint8>)
    ensures |r| == |buf|
  {
    seq(|buf|, i requires 0 <= i < |buf| => if zb <= i < ze then 0 else buf[i])
  }

  /**
   * `binary_before_sig`: the file up to the end of index entry
   * `none_sig_num - 1` (the last non-signature section when those come
   * first, as the encoder lays them out), with the index entries from
   * position `none_sig_num` on zeroed.
   * `sigCount` is the number of signatures the context already holds.
   * It panics (None) when the index has no non-signature entry or its end
   * overflows, when a non-empty context disagrees with a non-zero
   * signature count, or when the region runs past the input.
   */
  function BeforeSig(p: CratePackage, sigCount: nat, bin: seq<uint8>): (r: Option<seq<uint8>>)
    ensures r.Some? <==>
      && DatasectionSizeWithoutSig(p.sectionIndex).Some?
      && !(SigNum(p.sectionIndex) != sigCount && sigCount != 0 && SigNum(p.sectionIndex) != 0)
      && p.crateHeader.dsOffset + DatasectionSizeWithoutSig(p.sectionIndex).value <= |bin|
    ensures r.Some? ==>
      var zb := p.crateHeader.siOffset + 9 * CountNonSig(p.sectionIndex);
      var ze := p.crateHeader.siOffset + p.crateHeader.siSize;
      && |r.value| == p.crateHeader.dsOffset + DatasectionSizeWithoutSig(p.sectionIndex).value
      && (forall i :: 0 <= i < |r.value| && zb <= i < ze ==> r.value[i] == 0)
      && (forall i :: 0 <= i < |r.value| && !(zb <= i < ze) ==> r.value[i] == bin[i])
  {
    var dsSize :- DatasectionSizeWithoutSig(p.sectionIndex);
    var total := p.crateHeader.dsOffset + dsSize;
    var sn := SigNum(p.sectionIndex);
    if sn != sigCount && sigCount != 0 && sn != 0 then None
    else if total > |bin| then None
    else
      var zb := p.crateHeader.siOffset + 9 * CountNonSig(p.sectionIndex);
      var ze := p.crateHeader.siOffset + p.crateHeader.siSize;
      Some(Zeroed(bin[..total], zb, ze))
  }

  /** The zeroing loop of `binary_before_sig`, over the copied prefix. */
  method BinaryBeforeSig(p: CratePackage, sigCount: nat, bin: seq<uint8>) returns (r: Option<seq<uint8>>)
    ensures r == BeforeSig(p, sigCount, bin)
  {
    var dsSize := DatasectionSizeWithoutSig(p.sectionIndex);
    if dsSize.None? {
      return None;
    }
    var total := p.crateHeader.dsOffset + dsSize.value;
    var sn := SigNum(p.sectionIndex);
    if sn != sigCount && sigCount != 0 {
      if sn != 0 {
        return None;
      }
    }
    if total > |bin| {
      return None;
    }
    var buf := bin[..total];
    var nss := NoneSigSize(p.sectionIndex);
    var zb := p.crateHeader.siOffset + nss;
    var ze := p.crateHeader.siOffset + p.crateHeader.siSize;
    var i := zb;
    while i < ze && i < |buf|
      invariant zb <= i && |buf| == total
      invariant i == zb || i <= ze
      invariant forall j :: 0 <= j < |buf| ==> buf[j] == if zb <= j < i then 0 else bin[j]
      decreases |buf| - i
    {
      buf := buf[i := 0];
      i := i + 1;
    }
    forall j | 0 <= j < |buf|
      ensures buf[j] == Zeroed(bin[..total], zb, ze)[j]
    {
      if zb <= j < ze {
        assert j < i;
      }
    }
    assert buf == Zeroed(bin[..total], zb, ze);
    r := Some(buf);
  }

  /** `binary_before_digest`: everything but the 32-byte trailer. */
  function BinaryBeforeDigest(bin: seq<uint8>): (r: seq<uint8>)
    requires |bin| >= FINGERPRINT_LEN
    ensures |r| == |bin| - FINGERPRINT_LEN && r == bin[..|bin| - FINGERPRINT_LEN]
    ensures r + bin[|bin| - FINGERPRINT_LEN..] == bin
  {
    bin[..|bin| - FINGERPRINT_LEN]
  }

  /** `check_fingerprint`: the trailer is the digest of everything before it. */
  predicate FingerprintMatches(digest: DigestFn, bin: seq<uint8>)
    requires |bin| >= FINGERPRINT_LEN
  {
    digest(BinaryBeforeDigest(bin)) == bin[|bin| - FINGERPRINT_LEN..]
  }

  /** A file whose trailer is the digest of its body passes the fingerprint check, and only such a file. */
  lemma FingerprintOfTrailer(digest: DigestFn, body: seq<uint8>, trailer: seq<uint8>)
    requires |trailer| == FINGERPRINT_LEN
    ensures FingerprintMatches(digest, body + trailer) <==> trailer == digest(body)
  {
    var bin := body + trailer;
    assert BinaryBeforeDigest(bin) == body;
    assert bin[|bin| - FINGERPRINT_LEN..] == trailer;
  }

  // ------------------------------------------------------------------
  // Reading the context back
  // ------------------------------------------------------------------

  /** Every entry of the dependency table read back, in order; None if one panics. */
  function ReadDeps(entries: seq<DepTableEntry>, off2str: map<uint32, Str>): (r: Option<seq<DepInfo>>)
    ensures r.Some? <==> forall i :: 0 <= i < |entries| ==> ReadFromDepTableEntry(entries[i], off2str).Some?
    ensures r.Some? ==> |r.value| == |entries|
    ensures r.Some? ==> forall i :: 0 <= i < |entries| ==> r.value[i] == ReadFromDepTableEntry(entries[i], off2str).value
    decreases |entries|
  {
    if entries == [] then Some([])
    else
      var d :- ReadFromDepTableEntry(entries[0], off2str);
      var rest :- ReadDeps(entries[1..], off2str);
      assert forall i :: 1 <= i < |entries| ==> entries[i] == entries[1..][i - 1];
      Some([d] + rest)
  }

  /** A signature section read back as a signature info; the signer is not stored in the file. */
  function SigInfoOf(g: SigStructureSection): (si: SigInfo)
    ensures si.bin == g.sigstructSig && si.size == g.sigstructSize && si.typ == g.sigstructType
  {
    SigInfo(g.sigstructType, g.sigstructSize, g.sigstructSig, 0)
  }

  /** The first `n` signature sections read back; None if one of them is missing. */
  function ReadSigs(p: CratePackage, n: nat): (r: Option<seq<SigInfo>>)
    ensures r.Some? <==> forall no :: 0 <= no < n ==> SigStructureSectionOf(p, no).Some?
    ensures r.Some? ==> |r.value| == n
    ensures r.Some? ==> forall no :: 0 <= no < n ==> r.value[no] == SigInfoOf(SigStructureSectionOf(p, no).value)
  {
    if n == 0 then Some([])
    else
      var init :- ReadSigs(p, n - 1);
      var g :- SigStructureSectionOf(p, n - 1);
      Some(init + [SigInfoOf(g)])
  }

  /** What `check_sigs` compares a signature of type `typ` against; other types panic (None). */
  function ExpectedDigest(typ: uint32, fileDigest: seq<uint8>, crateDigest: seq<uint8>): (r: Option<seq<uint8>>)
    ensures r.Some? <==> typ == 0 || typ == 1
    ensures typ == 0 ==> r == Some(fileDigest)
    ensures typ == 1 ==> r == Some(crateDigest)
  {
    if typ == 0 then Some(fileDigest) else if typ == 1 then Some(crateDigest) else None
  }

  /** A signature agrees with the digests when it is of a known type and carries the digest of its region. */
  predicate SigAgrees(si: SigInfo, fileDigest: seq<uint8>, crateDigest: seq<uint8>, verify: VerifyFn)
  {
    ExpectedDigest(si.typ, fileDigest, crateDigest) == Some(verify(si.bin))
  }

  /** The loop of `check_sigs`: false at the first mismatch, a panic (None) at the first unknown type. */
  function CheckSigsSpec(sigs: seq<SigInfo>, fileDigest: seq<uint8>, crateDigest: seq<uint8>, verify: VerifyFn): (r: Option<bool>)
    ensures r == Some(true) <==> forall i :: 0 <= i < |sigs| ==> SigAgrees(sigs[i], fileDigest, crateDigest, verify)
    ensures r.None? ==> exists i :: 0 <= i < |sigs| && sigs[i].typ > 1
    ensures r == Some(false) ==> exists i :: 0 <= i < |sigs| && !SigAgrees(sigs[i], fileDigest, crateDigest, verify)
    decreases |sigs|
  {
    if sigs == [] then Some(true)
    else
      var want :- ExpectedDigest(sigs[0].typ, fileDigest, crateDigest);
      if want != verify(sigs[0].bin) then Some(false)
      else
        var r := CheckSigsSpec(sigs[1..], fileDigest, crateDigest, verify);
        assert forall i :: 1 <= i < |sigs| ==> sigs[i] == sigs[1..][i - 1];
        r
  }

  /** `check_sigs`: the signed region and the crate binary are found first, then each signature is checked. */
  method CheckSigs(sigs: seq<SigInfo>, p: CratePackage, bin: seq<uint8>, digest: DigestFn, verify: VerifyFn)
    returns (r: Option<bool>)
    ensures r == CheckSigsResult(sigs, p, bin, digest, verify)
  {
    var region := BinaryBeforeSig(p, |sigs|, bin);
    if region.None? {
      return None;
    }
    var crate := CrateBinarySectionOf(p);
    if crate.None? {
      return None;
    }
    var fileDigest := digest(region.value);
    var crateDigest := digest(crate.value.bin);
    var i := 0;
    while i < |sigs|
      invariant 0 <= i <= |sigs|
      invariant CheckSigsSpec(sigs, fileDigest, crateDigest, verify) == CheckSigsSpec(sigs[i..], fileDigest, crateDigest, verify)
    {
      assert sigs[i..][1..] == sigs[i + 1..];
      var want: seq<uint8>;
      if sigs[i].typ == 0 {
        want := fileDigest;
      } else if sigs[i].typ == 1 {
        want := crateDigest;
      } else {
        return None;
      }
      if want != verify(sigs[i].bin) {
        return Some(false);
      }
      i := i + 1;
    }
    return Some(true);
  }

  /** The outcome of `check_sigs` as a value. */
  function CheckSigsResult(sigs: seq<SigInfo>, p: CratePackage, bin: seq<uint8>, digest: DigestFn, verify: VerifyFn): (r: Option<bool>)
    ensures r.Some? ==> BeforeSig(p, |sigs|, bin).Some? && CrateBinarySectionOf(p).Some?
    ensures r.Some? ==> r == CheckSigsSpec(sigs, digest(BeforeSig(p, |sigs|, bin).value), digest(CrateBinarySectionOf(p).value.bin), verify)
  {
    var region :- BeforeSig(p, |sigs|, bin);
    var crate :- CrateBinarySectionOf(p);
    CheckSigsSpec(sigs, digest(region), digest(crate.bin), verify)
  }

  // ------------------------------------------------------------------
  // decode_from_crate_package
  // ------------------------------------------------------------------

  /** What unpacking produces: the package, the string table's offsets, and the context's new fields. */
  datatype Unpacked = Unpacked(
    pkg: CratePackage,
    off2str: map<uint32, Str>,
    packInfo: PackageInfo,
    depInfos: seq<DepInfo>,
    crateBinary: seq<uint8>,
    sigs: seq<SigInfo>)

  function OrPanic<T>(o: Option<T>): (r: Result<T, Failure>)
    ensures r.Ok? <==> o.Some?
    ensures r.Ok? ==> r.value == o.value
  {
    if o.Some? then Ok(o.value) else Err(Panic)
  }

  /**
   * `decode_from_crate_package` on a context holding `deps0` and `sigs0`:
   * the fingerprint first (its slice panics on fewer than 32 bytes), then the
   * structure, then the rest as `Unpacked` describes.
   */
  function Unpack(deps0: seq<DepInfo>, sigs0: seq<SigInfo>, bin: seq<uint8>,
                  digest: DigestFn, verify: VerifyFn, readBytes: ReadBytesFn): (r: Result<Unpacked, Failure>)
    ensures |bin| < FINGERPRINT_LEN ==> r == Err(Panic)
    ensures |bin| >= FINGERPRINT_LEN && !FingerprintMatches(digest, bin) ==> r == Err(Message("fingerprint not right"))
    ensures |bin| >= FINGERPRINT_LEN && FingerprintMatches(digest, bin) && DecodeFromSlice(bin).Err? ==> r == Err(DecodeFromSlice(bin).error)
    ensures r.Ok? ==> |bin| >= FINGERPRINT_LEN && FingerprintMatches(digest, bin) && DecodeFromSlice(bin) == Ok(r.value.pkg)
    ensures r.Ok? ==> Unpacks(deps0, sigs0, bin, digest, verify, readBytes, r.value)
  {
    if |bin| < FINGERPRINT_LEN then Err(Panic)
    else if !FingerprintMatches(digest, bin) then Err(Message("fingerprint not right"))
    else
      var p :- DecodeFromSlice(bin);
      UnpackPackage(deps0, sigs0, p, bin, digest, verify, readBytes)
  }

  /** What a successful unpacking of `bin` into a context holding `deps0` and `sigs0` yields. */
  ghost predicate Unpacks(deps0: seq<DepInfo>, sigs0: seq<SigInfo>, bin: seq<uint8>,
                          digest: DigestFn, verify: VerifyFn, readBytes: ReadBytesFn, u: Unpacked)
  {
    && u.off2str == readBytes(u.pkg.stringTable)
    && PackageSectionOf(u.pkg).Some?
    && ReadFromPackageSection(PackageSectionOf(u.pkg).value, u.off2str) == Some(u.packInfo)
    && DepTableSectionOf(u.pkg).Some?
    && |deps0| <= |u.depInfos| && u.depInfos[..|deps0|] == deps0
    && ReadDeps(DepTableSectionOf(u.pkg).value.entries.arr, u.off2str) == Some(u.depInfos[|deps0|..])
    && CrateBinarySectionOf(u.pkg) == Some(CrateBinarySection(u.crateBinary))
    && |sigs0| <= |u.sigs| && u.sigs[..|sigs0|] == sigs0
    && ReadSigs(u.pkg, SigNum(u.pkg.sectionIndex)) == Some(u.sigs[|sigs0|..])
    && CheckSigsResult(u.sigs, u.pkg, bin, digest, verify) == Some(true)
  }

  /** What the context reads from a package: its info, dependencies, crate binary and signatures. */
  datatype Contents = Contents(packInfo: PackageInfo, depInfos: seq<DepInfo>, crateBinary: seq<uint8>, sigs: seq<SigInfo>)

  /** `pack_info`, `deps`, `binary` and `sigs` in that order; a panic in any of them is None. */
  function ReadContents(p: CratePackage, off2str: map<uint32, Str>): (r: Option<Contents>)
    ensures r.Some? ==> PackageSectionOf(p).Some? && DepTableSectionOf(p).Some?
    ensures r.Some? ==> ReadFromPackageSection(PackageSectionOf(p).value, off2str) == Some(r.value.packInfo)
    ensures r.Some? ==> ReadDeps(DepTableSectionOf(p).value.entries.arr, off2str) == Some(r.value.depInfos)
    ensures r.Some? ==> CrateBinarySectionOf(p) == Some(CrateBinarySection(r.value.crateBinary))
    ensures r.Some? ==> ReadSigs(p, SigNum(p.sectionIndex)) == Some(r.value.sigs)
  {
    var ps :- PackageSectionOf(p);
    var info :- ReadFromPackageSection(ps, off2str);
    var dts :- DepTableSectionOf(p);
    var deps :- ReadDeps(dts.entries.arr, off2str);
    var cbs :- CrateBinarySectionOf(p);
    var sigs :- ReadSigs(p, SigNum(p.sectionIndex));
    Some(Contents(info, deps, cbs.bin, sigs))
  }

  /** The steps after parsing: the contents are read, appended to the context's, and the signatures checked. */
  function UnpackPackage(deps0: seq<DepInfo>, sigs0: seq<SigInfo>, p: CratePackage, bin: seq<uint8>,
                         digest: DigestFn, verify: VerifyFn, readBytes: ReadBytesFn): (r: Result<Unpacked, Failure>)
    ensures r.Ok? ==> r.value.pkg == p && Unpacks(deps0, sigs0, bin, digest, verify, readBytes, r.value)
    ensures r.Err? ==> r.error == Panic || r.error == Message("file sig not right")
    ensures r == Err(Message("file sig not right")) ==> ReadSigs(p, SigNum(p.sectionIndex)).Some?
    ensures r == Err(Message("file sig not right")) ==>
      CheckSigsResult(sigs0 + ReadSigs(p, SigNum(p.sectionIndex)).value, p, bin, digest, verify) == Some(false)
    ensures var c := ReadContents(p, readBytes(p.stringTable));
      r == Err(Panic) <==> c.None? || CheckSigsResult(sigs0 + c.value.sigs, p, bin, digest, verify).None?
    ensures var c := ReadContents(p, readBytes(p.stringTable));
      c.Some? && CheckSigsResult(sigs0 + c.value.sigs, p, bin, digest, verify) == Some(false) ==>
        r == Err(Message("file sig not right"))
    ensures var c := ReadContents(p, readBytes(p.stringTable));
      c.Some? && CheckSigsResult(sigs0 + c.value.sigs, p, bin, digest, verify) == Some(true) ==> r.Ok?
  {
    var off2str := readBytes(p.stringTable);
    var c :- OrPanic(ReadContents(p, off2str));
    var ok :- OrPanic(CheckSigsResult(sigs0 + c.sigs, p, bin, digest, verify));
    if !ok then Err(Message("file sig not right"))
    else
      assert (deps0 + c.depInfos)[|deps0|..] == c.depInfos && (sigs0 + c.sigs)[|sigs0|..] == c.sigs;
      assert (deps0 + c.depInfos)[..|deps0|] == deps0 && (sigs0 + c.sigs)[..|sigs0|] == sigs0;
      Ok(Unpacked(p, off2str, c.packInfo, deps0 + c.depInfos, c.crateBinary, sigs0 + c.sigs))
  }

  /** `deps`: reads each dependency entry and appends it to the context. */
  method Deps(ctx: PackageContext, p: CratePackage, off2str: map<uint32, Str>) returns (ok: bool)
    modifies ctx
    ensures ok <==> DepTableSectionOf(p).Some? && ReadDeps(DepTableSectionOf(p).value.entries.arr, off2str).Some?
    ensures ok ==> ctx.depInfos == old(ctx.depInfos) + ReadDeps(DepTableSectionOf(p).value.entries.arr, off2str).value
    ensures ctx.packInfo == old(ctx.packInfo) && ctx.crateBinary == old(ctx.crateBinary) && ctx.sigs == old(ctx.sigs)
  {
    var dts := DepTableSectionOf(p);
    if dts.None? {
      return false;
    }
    var entries := dts.value.entries.arr;
    var i := 0;
    while i < |entries|
      invariant 0 <= i <= |entries|
      invariant ReadDeps(entries[..i], off2str).Some?
      invariant ctx.depInfos == old(ctx.depInfos) + ReadDeps(entries[..i], off2str).value
      invariant ctx.packInfo == old(ctx.packInfo) && ctx.crateBinary == old(ctx.crateBinary) && ctx.sigs == old(ctx.sigs)
    {
      var d := ReadFromDepTableEntry(entries[i], off2str);
      if d.None? {
        assert !ReadDeps(entries, off2str).Some?;
        return false;
      }
      ReadDepsSnoc(entries[..i], entries[i], off2str);
      assert entries[..i + 1] == entries[..i] + [entries[i]];
      ctx.depInfos := ctx.depInfos + [d.value];
      i := i + 1;
    }
    assert entries[..i] == entries;
    ok := true;
  }

  lemma ReadDepsSnoc(entries: seq<DepTableEntry>, e: DepTableEntry, off2str: map<uint32, Str>)
    requires ReadDeps(entries, off2str).Some? && ReadFromDepTableEntry(e, off2str).Some?
    ensures ReadDeps(entries + [e], off2str) == Some(ReadDeps(entries, off2str).value + [ReadFromDepTableEntry(e, off2str).value])
  {
    var r := ReadDeps(entries + [e], off2str);
    assert forall i :: 0 <= i < |entries| ==> (entries + [e])[i] == entries[i];
    assert r.Some?;
    assert r.value == ReadDeps(entries, off2str).value + [ReadFromDepTableEntry(e, off2str).value];
  }

  /** `sigs`: reads `sig_num` signature sections and appends them to the context. */
  method Sigs(ctx: PackageContext, p: CratePackage) returns (ok: bool)
    modifies ctx
    ensures ok <==> ReadSigs(p, SigNum(p.sectionIndex)).Some?
    ensures ok ==> ctx.sigs == old(ctx.sigs) + ReadSigs(p, SigNum(p.sectionIndex)).value
    ensures ctx.packInfo == old(ctx.packInfo) && ctx.crateBinary == old(ctx.crateBinary) && ctx.depInfos == old(ctx.depInfos)
  {
    var n := SigNum(p.sectionIndex);
    var no := 0;
    while no < n
      invariant 0 <= no <= n
      invariant ReadSigs(p, no).Some?
      invariant ctx.sigs == old(ctx.sigs) + ReadSigs(p, no).value
      invariant ctx.packInfo == old(ctx.packInfo) && ctx.crateBinary == old(ctx.crateBinary) && ctx.depInfos == old(ctx.depInfos)
    {
      var g := SigStructureSectionOf(p, no);
      if g.None? {
        return false;
      }
      ctx.sigs := ctx.sigs + [SigInfoOf(g.value)];
      no := no + 1;
    }
    ok := true;
  }

  /**
   * `decode_from_crate_package`: unpacks `bin` into the context and returns
   * the package and the string table's offsets. On success the context ends
   * as the value `Unpack` describes. A bad fingerprint or a parse error
   * returns before the context is touched; a failed signature check returns
   * after all four fields have been filled from the package.
   */
  method DecodeFromCratePackage(ctx: PackageContext, bin: seq<uint8>,
                                digest: DigestFn, verify: VerifyFn, readBytes: ReadBytesFn)
    returns (r: Result<(CratePackage, map<uint32, Str>), Failure>)
    modifies ctx
    ensures var u := Unpack(old(ctx.depInfos), old(ctx.sigs), bin, digest, verify, readBytes);
      && (r.Ok? <==> u.Ok?)
      && (r.Err? ==> r.error == u.error)
      && (r.Ok? ==> r.value == (u.value.pkg, u.value.off2str))
      && (r.Ok? ==> ctx.packInfo == u.value.packInfo && ctx.depInfos == u.value.depInfos)
      && (r.Ok? ==> ctx.crateBinary == u.value.crateBinary && ctx.sigs == u.value.sigs)
    ensures |bin| < FINGERPRINT_LEN || !FingerprintMatches(digest, bin) || DecodeFromSlice(bin).Err? ==>
      && ctx.packInfo == old(ctx.packInfo) && ctx.depInfos == old(ctx.depInfos)
      && ctx.crateBinary == old(ctx.crateBinary) && ctx.sigs == old(ctx.sigs)
    ensures |bin| >= FINGERPRINT_LEN && FingerprintMatches(digest, bin) && DecodeFromSlice(bin).Ok?
            && r == Err(Message("file sig not right")) ==>
      var p := DecodeFromSlice(bin).value;
      var c := ReadContents(p, readBytes(p.stringTable));
      && c.Some?
      && ctx.packInfo == c.value.packInfo && ctx.depInfos == old(ctx.depInfos) + c.value.depInfos
      && ctx.crateBinary == c.value.crateBinary && ctx.sigs == old(ctx.sigs) + c.value.sigs
  {
    if |bin| < FINGERPRINT_LEN {
      return Err(Panic);
    }
    if !FingerprintMatches(digest, bin) {
      return Err(Message("fingerprint not right"));
    }
    var decoded := DecodeFromSlice(bin);
    if decoded.Err? {
      return Err(decoded.error);
    }
    var p := decoded.value;
    r := UnpackInto(ctx, p, bin, digest, verify, readBytes);
  }

  /** The steps of `decode_from_crate_package` after parsing, on the context. */
  method UnpackInto(ctx: PackageContext, p: CratePackage, bin: seq<uint8>,
                    digest: DigestFn, verify: VerifyFn, readBytes: ReadBytesFn)
    returns (r: Result<(CratePackage, map<uint32, Str>), Failure>)
    modifies ctx
    ensures var u := UnpackPackage(old(ctx.depInfos), old(ctx.sigs), p, bin, digest, verify, readBytes);
      && (r.Ok? <==> u.Ok?)
      && (r.Err? ==> r.error == u.error)
      && (r.Ok? ==> r.value == (u.value.pkg, u.value.off2str))
      && (r.Ok? ==> ctx.packInfo == u.value.packInfo && ctx.depInfos == u.value.depInfos)
      && (r.Ok? ==> ctx.crateBinary == u.value.crateBinary && ctx.sigs == u.value.sigs)
    ensures r == Err(Message("file sig not right")) ==>
      var c := ReadContents(p, readBytes(p.stringTable));
      && c.Some?
      && ctx.packInfo == c.value.packInfo && ctx.depInfos == old(ctx.depInfos) + c.value.depInfos
      && ctx.crateBinary == c.value.crateBinary && ctx.sigs == old(ctx.sigs) + c.value.sigs
  {
    var off2str := readBytes(p.stringTable);
    var ok := ReadInto(ctx, p, off2str);
    if !ok {
      return Err(Panic);
    }
    var checked := CheckSigs(ctx.sigs, p, bin, digest, verify);
    if checked.None? {
      return Err(Panic);
    }
    if !checked.value {
      return Err(Message("file sig not right"));
    }
    r := Ok((p, off2str));
  }

  /** `pack_info`, `deps`, `binary` and `sigs` on the context. */
  method ReadInto(ctx: PackageContext, p: CratePackage, off2str: map<uint32, Str>) returns (ok: bool)
    modifies ctx
    ensures ok <==> ReadContents(p, off2str).Some?
    ensures ok ==> var c := ReadContents(p, off2str).value;
      && ctx.packInfo == c.packInfo && ctx.depInfos == old(ctx.depInfos) + c.depInfos
      && ctx.crateBinary == c.crateBinary && ctx.sigs == old(ctx.sigs) + c.sigs
  {
    var ps := PackageSectionOf(p);
    if ps.None? {
      return false;
    }
    var info := ReadFromPackageSection(ps.value, off2str);
    if info.None? {
      return false;
    }
    ctx.packInfo := info.value;
    ok := Deps(ctx, p, off2str);
    if !ok {
      return false;
    }
    var cbs := CrateBinarySectionOf(p);
    if cbs.None? {
      return false;
    }
    ctx.crateBinary := cbs.value.bin;
    ok := Sigs(ctx, p);
  }
}
