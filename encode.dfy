/**
 * Packing a package context into a `.scrate` container. The encoder fills a
 * `CratePackage` in place in three phases: the sections with placeholder
 * signatures and the layout, then the signatures over the signed region,
 * then the final layout and the fingerprint.
 */
module Encode {
  import opened Basics
  import opened Package
  import opened Bincode
  import opened Context
  import opened Decode

  /** The number of data sections before the signatures: package, dependency table, crate binary. */
  const NOT_SIG_NUM: nat := 3

  /** A signer: PKCS#7 signing of a digest with the signer's key and certificate. */
  type SignFn = (nat, seq<uint8>) -> seq<uint8>

  // ------------------------------------------------------------------
  // Layout
  // ------------------------------------------------------------------

  /** The index `set_section_index` builds: per section its type, running offset and size, cast to u32. */
  function IndexFor(ds: seq<DataSection>): (si: seq<SectionIndexEntry>)
    ensures |si| == |ds|
  {
    seq(|ds|, i requires 0 <= i < |ds| =>
      SectionIndexEntry(DatasectionType(ds[i]), Trunc32(SectionOffset(ds, i)), Trunc32(|EncodeDataSection(ds[i])|)))
  }

  /** The header `set_crate_header(fakeNum)` writes for a string table of `stSize` bytes and `siCount` entries. */
  function HeaderFor(stSize: nat, siCount: nat, fakeNum: nat): (h: CrateHeader)
    ensures h.cVersion == CRATEVERSION && h.strtableOffset == 25 + MAGIC_NUMBER_LEN
    ensures stSize + 30 + 9 * (siCount + fakeNum) < U32_LIMIT ==>
      && h.strtableSize == stSize
      && h.siNum == siCount + fakeNum && h.siSize == 9 * (siCount + fakeNum)
      && h.siOffset == h.strtableOffset + h.strtableSize
      && h.dsOffset == h.siOffset + h.siSize
  {
    var strtableSize := Trunc32(stSize);
    var strtableOffset := Trunc32(25 + MAGIC_NUMBER_LEN);
    var siSize := Add32(Trunc32(9 * siCount), Trunc32(fakeNum * 9));
    var siNum := Add32(Trunc32(siCount), Trunc32(fakeNum));
    var siOffset := Add32(strtableOffset, strtableSize);
    CrateHeader(CRATEVERSION, strtableSize, strtableOffset, siSize, siOffset, siNum, Add32(siOffset, siSize))
  }

  lemma {:induction false} SectionOffsetBound(ds: seq<DataSection>, i: nat)
    requires i <= |ds|
    ensures SectionOffset(ds, i) <= |EncodeDataSections(ds)|
    decreases |ds| - i
  {
    if i == |ds| {
      assert ds[..i] == ds;
    } else {
      SectionOffsetStep(ds, i);
      SectionOffsetBound(ds, i + 1);
    }
  }

  /** When the sections fit in 4 GiB, the casts lose nothing and the index describes the sections. */
  lemma IndexForDescribes(ds: seq<DataSection>)
    requires |EncodeDataSections(ds)| < U32_LIMIT
    ensures IndexDescribes(IndexFor(ds), ds)
  {
    var si := IndexFor(ds);
    forall i | 0 <= i < |ds|
      ensures si[i].shOffset == SectionOffset(ds, i) && si[i].shSize == |EncodeDataSection(ds[i])|
    {
      SectionOffsetStep(ds, i);
      SectionOffsetBound(ds, i + 1);
    }
  }

  /** Entries of the index depend only on the sections up to theirs. */
  lemma IndexForPrefix(ds: seq<DataSection>, k: nat)
    requires k <= |ds|
    ensures IndexFor(ds)[..k] == IndexFor(ds[..k])
  {
    forall i | 0 <= i < k
      ensures IndexFor(ds)[i] == IndexFor(ds[..k])[i]
    {
      assert ds[..k][..i] == ds[..i];
    }
  }

  // ------------------------------------------------------------------
  // The package being filled in
  // ------------------------------------------------------------------

  /** The `CratePackage` the encoder fills in place. */
  class WorkingPackage {
    var magicNumber: MagicNumber
    var crateHeader: CrateHeader
    var stringTable: seq<uint8>
    var sectionIndex: seq<SectionIndexEntry>
    var dataSections: seq<DataSection>
    var fingerPrint: FingerPrint

    function Value(): CratePackage
      reads this
    {
      CratePackage(magicNumber, crateHeader, stringTable, sectionIndex, dataSections, fingerPrint)
    }

    /** `CratePackage::new`. */
    constructor ()
      ensures Value() == NewCratePackage()
    {
      var p := NewCratePackage();
      magicNumber, crateHeader, stringTable := p.magicNumber, p.crateHeader, p.stringTable;
      sectionIndex, dataSections, fingerPrint := p.sectionIndex, p.dataSections, p.fingerPrint;
    }

    /** `set_section_index`: one entry per data section, built from `encode_size_offset`. */
    method SetSectionIndex()
      modifies this
      ensures Value() == old(Value()).(sectionIndex := IndexFor(old(dataSections)))
    {
      var so := EncodeSizeOffset(dataSections);
      var entries: seq<SectionIndexEntry> := [];
      var i := 0;
      while i < |so|
        invariant 0 <= i <= |so|
        invariant entries == IndexFor(dataSections)[..i]
      {
        var (size, off) := so[i];
        entries := entries + [SectionIndexEntry(DatasectionType(dataSections[i]), Trunc32(off), Trunc32(size))];
        i := i + 1;
      }
      sectionIndex := entries;
    }

    /** `set_string_table`: the table's bytes. */
    method SetStringTable(table: StringTable)
      requires table.Valid()
      modifies this
      ensures Value() == old(Value()).(stringTable := Records(table.strs))
    {
      stringTable := table.ToBytes();
    }

    /** `set_crate_header`: sizes and offsets from the current table and index, with `fakeNum` extra entries. */
    method SetCrateHeader(fakeNum: nat)
      modifies this
      ensures Value() == old(Value()).(crateHeader := HeaderFor(|stringTable|, |sectionIndex|, fakeNum))
    {
      var strtableSize := Trunc32(|stringTable|);
      var strtableOffset := Trunc32(|EncodeHeader(crateHeader)| + |magicNumber|);
      var siSize := Add32(Trunc32(|EncodeSectionIndex(sectionIndex)|), Trunc32(fakeNum * |EncodeEntry(SectionIndexEntry(0, 0, 0))|));
      var siNum := Add32(Trunc32(|sectionIndex|), Trunc32(fakeNum));
      var siOffset := Add32(strtableOffset, strtableSize);
      crateHeader := CrateHeader(CRATEVERSION, strtableSize, strtableOffset, siSize, siOffset, siNum, Add32(siOffset, siSize));
    }

    /** `set_magic_numer`. */
    method SetMagicNumber()
      modifies this
      ensures Value() == old(Value()).(magicNumber := MAGIC_NUMBER)
    {
      magicNumber := MAGIC_NUMBER;
    }

    /** `set_finger_print`: `copy_from_slice` needs exactly 32 bytes. */
    method SetFingerPrint(fp: seq<uint8>)
      requires |fp| == FINGERPRINT_LEN
      modifies this
      ensures Value() == old(Value()).(fingerPrint := fp)
    {
      fingerPrint := fp;
    }
  }

  // ------------------------------------------------------------------
  // Writing the sections
  // ------------------------------------------------------------------

  /** All strings the dependency entries intern, dependency by dependency. */
  function AllDepStrings(deps: seq<DepInfo>): seq<Str>
  {
    if deps == [] then [] else AllDepStrings(deps[..|deps| - 1]) + DepStrings(deps[|deps| - 1])
  }

  /** The strings the non-signature sections intern, in the order they are written. */
  function ContextStrings(info: PackageInfo, deps: seq<DepInfo>): seq<Str>
  {
    PackageStrings(info) + AllDepStrings(deps)
  }

  /** `deps` written against the table's offsets, as entries. */
  ghost predicate EntriesAre(deps: seq<DepInfo>, entries: seq<DepTableEntry>, str2off: map<Str, uint32>)
  {
    && |entries| == |deps|
    && forall j :: 0 <= j < |deps| ==> HoldsDepStrings(deps[j], str2off) && entries[j] == DepEntryFor(deps[j], str2off)
  }

  function DepEntriesFor(deps: seq<DepInfo>, str2off: map<Str, uint32>): (es: seq<DepTableEntry>)
    requires forall j :: 0 <= j < |deps| ==> HoldsDepStrings(deps[j], str2off)
    ensures EntriesAre(deps, es, str2off)
  {
    seq(|deps|, j requires 0 <= j < |deps| => DepEntryFor(deps[j], str2off))
  }

  lemma EntriesStep(deps: seq<DepInfo>, es: seq<DepTableEntry>, a: map<Str, uint32>, b: map<Str, uint32>,
                    d: DepInfo, e: DepTableEntry)
    requires EntriesAre(deps, es, a) && Extends(a, b)
    requires HoldsDepStrings(d, b) && e == DepEntryFor(d, b)
    ensures EntriesAre(deps + [d], es + [e], b)
  {
    forall j | 0 <= j < |deps|
      ensures HoldsDepStrings(deps[j], b) && es[j] == DepEntryFor(deps[j], b)
    {
      DepEntryStable(deps[j], a, b);
    }
  }

  lemma ExtendsTrans(a: map<Str, uint32>, b: map<Str, uint32>, c: map<Str, uint32>)
    requires Extends(a, b) && Extends(b, c)
    ensures Extends(a, c)
  {
  }

  /** Writing the dependencies one by one interns their strings in order. */
  lemma DepsFitStep(s0: seq<Str>, deps: seq<DepInfo>, i: nat)
    requires i < |deps|
    ensures InternAll(s0, AllDepStrings(deps[..i + 1])) == InternAll(InternAll(s0, AllDepStrings(deps[..i])), DepStrings(deps[i]))
  {
    var pre := deps[..i + 1];
    assert pre[..|pre| - 1] == deps[..i];
    InternAllConcat(s0, AllDepStrings(deps[..i]), DepStrings(deps[i]));
  }

  /** What writing the next dependency's strings into the table `cur` requires and produces. */
  lemma DepsNext(s0: seq<Str>, deps: seq<DepInfo>, i: nat, cur: seq<Str>)
    requires i < |deps| && TotalSize(InternAll(s0, AllDepStrings(deps))) < U32_LIMIT
    requires cur == InternAll(s0, AllDepStrings(deps[..i]))
    ensures InternAll(cur, DepStrings(deps[i])) == InternAll(s0, AllDepStrings(deps[..i + 1]))
    ensures TotalSize(InternAll(cur, DepStrings(deps[i]))) < U32_LIMIT
  {
    DepsFitStep(s0, deps, i);
    DepsPrefixFits(s0, deps, i + 1);
  }

  lemma TakeNext<T>(s: seq<T>, i: nat)
    requires i < |s|
    ensures s[..i + 1] == s[..i] + [s[i]]
  {
  }

  /** The strings of the first dependencies fit when those of all of them do. */
  lemma DepsPrefixFits(s0: seq<Str>, deps: seq<DepInfo>, k: nat)
    requires k <= |deps|
    requires TotalSize(InternAll(s0, AllDepStrings(deps))) < U32_LIMIT
    ensures TotalSize(InternAll(s0, AllDepStrings(deps[..k]))) < U32_LIMIT
  {
    var pre, rest := deps[..k], deps[k..];
    AllDepStringsConcat(pre, rest);
    assert pre + rest == deps;
    InternPrefixFits(s0, AllDepStrings(pre), AllDepStrings(rest));
  }

  /** Interning a prefix of the strings takes no more room than interning them all. */
  lemma InternPrefixFits(s0: seq<Str>, a: seq<Str>, b: seq<Str>)
    requires TotalSize(InternAll(s0, a + b)) < U32_LIMIT
    ensures TotalSize(InternAll(s0, a)) < U32_LIMIT
  {
    InternAllConcat(s0, a, b);
    InternAllExtends(InternAll(s0, a), b);
  }

  lemma {:induction false} AllDepStringsConcat(a: seq<DepInfo>, b: seq<DepInfo>)
    ensures AllDepStrings(a + b) == AllDepStrings(a) + AllDepStrings(b)
    decreases |b|
  {
    if b == [] {
      assert a + b == a;
    } else {
      var b' := b[..|b| - 1];
      assert (a + b)[..|a + b| - 1] == a + b';
      AllDepStringsConcat(a, b');
    }
  }

  /** `write_to_dep_table_section`: one entry per dependency, in order, length-prefixed. */
  method WriteToDepTableSection(deps: seq<DepInfo>, table: StringTable) returns (dts: DepTableSection)
    requires table.Valid()
    requires TotalSize(InternAll(table.strs, AllDepStrings(deps))) < U32_LIMIT
    modifies table
    ensures table.Valid() && table.strs == InternAll(old(table.strs), AllDepStrings(deps))
    ensures Extends(old(table.str2off), table.str2off)
    ensures forall j :: 0 <= j < |deps| ==> HoldsDepStrings(deps[j], table.str2off)
    ensures dts == DepTableSection(LenArrayFromVec(DepEntriesFor(deps, table.str2off)))
  {
    var entries: seq<DepTableEntry> := [];
    var i := 0;
    assert deps[..0] == [];
    while i < |deps|
      invariant 0 <= i <= |deps|
      invariant table.Valid() && table.strs == InternAll(old(table.strs), AllDepStrings(deps[..i]))
      invariant Extends(old(table.str2off), table.str2off)
      invariant EntriesAre(deps[..i], entries, table.str2off)
    {
      entries := WriteNextEntry(table, old(table.strs), old(table.str2off), deps, i, entries);
      i := i + 1;
    }
    assert deps[..i] == deps;
    assert entries == DepEntriesFor(deps, table.str2off);
    dts := DepTableSection(LenArrayFromVec(entries));
  }

  /** One step of `write_to_dep_table_section`. */
  method WriteNextEntry(table: StringTable, ghost s0: seq<Str>, ghost m0: map<Str, uint32>, deps: seq<DepInfo>, i: nat,
                        entries: seq<DepTableEntry>) returns (entries': seq<DepTableEntry>)
    requires i < |deps| && TotalSize(InternAll(s0, AllDepStrings(deps))) < U32_LIMIT
    requires table.Valid() && table.strs == InternAll(s0, AllDepStrings(deps[..i]))
    requires Extends(m0, table.str2off) && EntriesAre(deps[..i], entries, table.str2off)
    modifies table
    ensures table.Valid() && table.strs == InternAll(s0, AllDepStrings(deps[..i + 1]))
    ensures Extends(m0, table.str2off) && EntriesAre(deps[..i + 1], entries', table.str2off)
  {
    DepsNext(s0, deps, i, table.strs);
    ghost var before := table.str2off;
    var e := WriteToDepTableEntry(deps[i], table);
    EntriesStep(deps[..i], entries, before, table.str2off, deps[i], e);
    TakeNext(deps, i);
    ExtendsTrans(m0, before, table.str2off);
    entries' := entries + [e];
  }

  /** The three sections that precede the signatures, written against the table's offsets. */
  function NonSigSections(info: PackageInfo, deps: seq<DepInfo>, crateBinary: seq<uint8>, str2off: map<Str, uint32>): (ds: seq<DataSection>)
    requires HoldsPackageStrings(info, str2off)
    requires forall j :: 0 <= j < |deps| ==> HoldsDepStrings(deps[j], str2off)
    ensures |ds| == NOT_SIG_NUM
  {
    [ PackageSec(PackageSectionFor(info, str2off)),
      DepTableSec(DepTableSection(LenArrayFromVec(DepEntriesFor(deps, str2off)))),
      CrateBinarySec(CrateBinarySection(crateBinary)) ]
  }

  /**
   * `write_to_data_section_collection_without_sig` (`set_pack_dep_bin`):
   * appends the package section, the dependency table and the crate
   * binary, interning the strings in that order.
   */
  method WriteWithoutSig(ctx: PackageContext, pkg: WorkingPackage, table: StringTable)
    requires table.Valid()
    requires TotalSize(InternAll(table.strs, ContextStrings(ctx.packInfo, ctx.depInfos))) < U32_LIMIT
    modifies pkg, table
    ensures table.Valid() && table.strs == InternAll(old(table.strs), ContextStrings(ctx.packInfo, ctx.depInfos))
    ensures HoldsPackageStrings(ctx.packInfo, table.str2off)
    ensures forall j :: 0 <= j < |ctx.depInfos| ==> HoldsDepStrings(ctx.depInfos[j], table.str2off)
    ensures pkg.Value() == old(pkg.Value()).(dataSections :=
      old(pkg.dataSections) + NonSigSections(ctx.packInfo, ctx.depInfos, ctx.crateBinary, table.str2off))
  {
    ghost var s0 := table.strs;
    InternAllConcat(s0, PackageStrings(ctx.packInfo), AllDepStrings(ctx.depInfos));
    InternAllExtends(InternAll(s0, PackageStrings(ctx.packInfo)), AllDepStrings(ctx.depInfos));
    var ps := WriteToPackageSection(ctx.packInfo, table);
    ghost var m1 := table.str2off;
    var dts := WriteToDepTableSection(ctx.depInfos, table);
    PackageSectionStable(ctx.packInfo, m1, table.str2off);
    var cbs := CrateBinarySection(ctx.crateBinary);
    pkg.dataSections := pkg.dataSections + [PackageSec(ps), DepTableSec(dts), CrateBinarySec(cbs)];
  }

  /** The signature sections written for the signature infos, in order. */
  function SigSections(sigs: seq<SigInfo>): (ds: seq<DataSection>)
    ensures |ds| == |sigs|
    ensures forall i :: 0 <= i < |sigs| ==> ds[i] == SigStructureSec(SigStructureFor(sigs[i]))
  {
    seq(|sigs|, i requires 0 <= i < |sigs| => SigStructureSec(SigStructureFor(sigs[i])))
  }

  /** `write_to_data_section_collection_sig`: appends one signature section per signature info. */
  method WriteSig(ctx: PackageContext, pkg: WorkingPackage)
    modifies pkg
    ensures pkg.Value() == old(pkg.Value()).(dataSections := old(pkg.dataSections) + SigSections(ctx.sigs))
  {
    var added: seq<DataSection> := [];
    var i := 0;
    while i < |ctx.sigs|
      invariant 0 <= i <= |ctx.sigs|
      invariant added == SigSections(ctx.sigs[..i])
      invariant pkg.Value() == old(pkg.Value())
    {
      added := added + [SigStructureSec(SigStructureFor(ctx.sigs[i]))];
      i := i + 1;
    }
    assert ctx.sigs[..i] == ctx.sigs;
    pkg.dataSections := pkg.dataSections + added;
  }

  /** `set_sigs`: keeps the first `nonSigNum` sections and appends the signature sections. */
  method SetSigs(ctx: PackageContext, pkg: WorkingPackage, nonSigNum: nat)
    modifies pkg
    ensures pkg.Value() == old(pkg.Value()).(dataSections :=
      old(pkg.dataSections)[..Min(nonSigNum, |old(pkg.dataSections)|)] + SigSections(ctx.sigs))
  {
    if nonSigNum < |pkg.dataSections| {
      pkg.dataSections := pkg.dataSections[..nonSigNum];
    }
    WriteSig(ctx, pkg);
  }

  // ------------------------------------------------------------------
  // Signatures and fingerprint
  // ------------------------------------------------------------------

  /** A signature info after signing `d`: its bytes and their length. */
  function Signed(si: SigInfo, d: seq<uint8>, sign: SignFn): (r: SigInfo)
    ensures r.typ == si.typ && r.signer == si.signer
    ensures r.bin == sign(si.signer, d) && r.size == |r.bin|
  {
    si.(bin := sign(si.signer, d), size := |sign(si.signer, d)|)
  }

  /**
   * Signs every signature info, in order, over the digest its type names:
   * the signed region for type 0, the crate binary for type 1. Any other
   * type panics, here None.
   */
  function SignAll(sigs: seq<SigInfo>, fileDigest: seq<uint8>, crateDigest: seq<uint8>, sign: SignFn): (r: Option<seq<SigInfo>>)
    ensures r.Some? <==> forall i :: 0 <= i < |sigs| ==> sigs[i].typ <= 1
    ensures r.Some? ==> |r.value| == |sigs|
    ensures r.Some? ==> forall i :: 0 <= i < |sigs| ==>
      r.value[i] == Signed(sigs[i], ExpectedDigest(sigs[i].typ, fileDigest, crateDigest).value, sign)
  {
    if sigs == [] then Some([])
    else
      var init :- SignAll(sigs[..|sigs| - 1], fileDigest, crateDigest, sign);
      var d :- ExpectedDigest(sigs[|sigs| - 1].typ, fileDigest, crateDigest);
      Some(init + [Signed(sigs[|sigs| - 1], d, sign)])
  }

  /**
   * The two digests `calc_sigs` signs: of the signed region of the
   * package's encoding, and of the crate binary. None when either is
   * missing, which panics.
   */
  function SigDigests(p: CratePackage, sigCount: nat, digest: DigestFn): (r: Option<(seq<uint8>, seq<uint8>)>)
    ensures r.Some? <==> BeforeSig(p, sigCount, EncodeCratePackage(p)).Some? && CrateBinarySectionOf(p).Some?
    ensures r.Some? ==> r.value.0 == digest(BeforeSig(p, sigCount, EncodeCratePackage(p)).value)
    ensures r.Some? ==> r.value.1 == digest(CrateBinarySectionOf(p).value.bin)
  {
    var region :- BeforeSig(p, sigCount, EncodeCratePackage(p));
    var crate :- CrateBinarySectionOf(p);
    Some((digest(region), digest(crate.bin)))
  }

  /** What `calc_sigs` turns the signature infos into, on the package as it stands; None when it panics. */
  function SignedSigs(sigs: seq<SigInfo>, p: CratePackage, digest: DigestFn, sign: SignFn): (r: Option<seq<SigInfo>>)
  {
    var d :- SigDigests(p, |sigs|, digest);
    SignAll(sigs, d.0, d.1, sign)
  }

  /** The digests of `calc_sigs`, computed from the encoding. */
  method ComputeSigDigests(p: CratePackage, sigCount: nat, digest: DigestFn) returns (r: Option<(seq<uint8>, seq<uint8>)>)
    ensures r == SigDigests(p, sigCount, digest)
  {
    var binAll := EncodeCratePackage(p);
    var region := BinaryBeforeSig(p, sigCount, binAll);
    if region.None? {
      return None;
    }
    var crate := CrateBinarySectionOf(p);
    if crate.None? {
      return None;
    }
    r := Some((digest(region.value), digest(crate.value.bin)));
  }

  /**
   * `calc_sigs`: encodes the package, takes its signed region and the
   * crate binary, and signs each signature info over the digest of the
   * one its type names, in place.
   */
  method CalcSigs(ctx: PackageContext, pkg: WorkingPackage, digest: DigestFn, sign: SignFn) returns (ok: bool)
    modifies ctx
    ensures ctx.packInfo == old(ctx.packInfo) && ctx.depInfos == old(ctx.depInfos) && ctx.crateBinary == old(ctx.crateBinary)
    ensures ok <==> SignedSigs(old(ctx.sigs), pkg.Value(), digest, sign).Some?
    ensures ok ==> ctx.sigs == SignedSigs(old(ctx.sigs), pkg.Value(), digest, sign).value
  {
    var d := ComputeSigDigests(pkg.Value(), |ctx.sigs|, digest);
    if d.None? {
      return false;
    }
    var signed;
    ok, signed := SignEach(ctx.sigs, d.value.0, d.value.1, sign);
    if ok {
      ctx.sigs := signed;
    }
  }

  /** The loop of `calc_sigs`: each signature info signed, in order; false at the first unknown type. */
  method SignEach(sigs: seq<SigInfo>, fileDigest: seq<uint8>, crateDigest: seq<uint8>, sign: SignFn)
    returns (ok: bool, signed: seq<SigInfo>)
    ensures ok <==> SignAll(sigs, fileDigest, crateDigest, sign).Some?
    ensures ok ==> signed == SignAll(sigs, fileDigest, crateDigest, sign).value
  {
    signed := sigs;
    ghost var done: seq<SigInfo> := [];
    var i := 0;
    while i < |signed|
      invariant 0 <= i <= |signed| == |sigs|
      invariant SignAll(sigs[..i], fileDigest, crateDigest, sign) == Some(done)
      invariant signed == done + sigs[i..]
    {
      TakeTake(sigs, i + 1, i);
      var si := signed[i];
      var d: seq<uint8>;
      if si.typ == 0 {
        d := fileDigest;
      } else if si.typ == 1 {
        d := crateDigest;
      } else {
        assert sigs[i] == si;
        return false, signed;
      }
      var bin := sign(si.signer, d);
      signed := signed[i := si.(bin := bin, size := |bin|)];
      done := done + [Signed(si, d, sign)];
      assert signed == done + sigs[i + 1..];
      i := i + 1;
    }
    assert sigs[..i] == sigs;
    assert signed == done;
    ok := true;
  }

  /** The package with its trailer set to the digest of everything before it. */
  function WithTrailer(p: CratePackage, digest: DigestFn): CratePackage
  {
    EncodeCratePackageLayout(p);
    p.(fingerPrint := digest(BinaryBeforeDigest(EncodeCratePackage(p))))
  }

  /** `calc_fingerprint`: the digest of the encoding without its last 32 bytes. */
  method CalcFingerprint(pkg: WorkingPackage, digest: DigestFn) returns (fp: seq<uint8>)
    ensures |fp| == FINGERPRINT_LEN
    ensures fp == WithTrailer(pkg.Value(), digest).fingerPrint
  {
    var binAll := EncodeCratePackage(pkg.Value());
    EncodeCratePackageLayout(pkg.Value());
    fp := digest(binAll[..|binAll| - FINGERPRINT_LEN]);
  }

  // ------------------------------------------------------------------
  // The three phases
  // ------------------------------------------------------------------

  /** The package with the given sections, their index, the string table and the header that follows. */
  function Laid(p: CratePackage, ds: seq<DataSection>, st: seq<uint8>): (q: CratePackage)
    ensures q.magicNumber == p.magicNumber && q.fingerPrint == p.fingerPrint
    ensures q.dataSections == ds && q.stringTable == st
  {
    p.(dataSections := ds, sectionIndex := IndexFor(ds), stringTable := st, crateHeader := HeaderFor(|st|, |ds|, 0))
  }

  /** The strings the string table holds once the sections are written. */
  ghost function TableStrings(info: PackageInfo, deps: seq<DepInfo>): seq<Str>
  {
    InternAll([[]], ContextStrings(info, deps))
  }

  ghost predicate TableFits(info: PackageInfo, deps: seq<DepInfo>)
  {
    TotalSize(TableStrings(info, deps)) < U32_LIMIT
  }

  /** The sections before the signatures, against the final table. */
  ghost function FirstSections(info: PackageInfo, deps: seq<DepInfo>, crateBinary: seq<uint8>): (ds: seq<DataSection>)
    requires TableFits(info, deps)
    ensures |ds| == NOT_SIG_NUM
  {
    TableHolds(info, deps);
    NonSigSections(info, deps, crateBinary, StrMap(TableStrings(info, deps)))
  }

  /** The final table holds every string of the context, and its two maps invert each other. */
  lemma TableHolds(info: PackageInfo, deps: seq<DepInfo>)
    requires TableFits(info, deps)
    ensures HoldsPackageStrings(info, StrMap(TableStrings(info, deps)))
    ensures forall j :: 0 <= j < |deps| ==> HoldsDepStrings(deps[j], StrMap(TableStrings(info, deps)))
    ensures LooksUpBack(StrMap(TableStrings(info, deps)), OffMap(TableStrings(info, deps)))
  {
    var strs := TableStrings(info, deps);
    InternAllExtends([[]], ContextStrings(info, deps));
    StrMapKeys(strs);
    MapsInverse(strs);
    assert forall s :: s in ContextStrings(info, deps) ==> s in StrMap(strs);
    assert forall j :: 0 <= j < |info.authors| ==> info.authors[j] == PackageStrings(info)[3 + j];
    forall j | 0 <= j < |deps|
      ensures HoldsDepStrings(deps[j], StrMap(strs))
    {
      DepStringsIn(deps, j);
    }
  }

  lemma {:induction false} DepStringsIn(deps: seq<DepInfo>, j: nat)
    requires j < |deps|
    ensures forall s :: s in DepStrings(deps[j]) ==> s in AllDepStrings(deps)
    decreases |deps|
  {
    if j < |deps| - 1 {
      assert deps[..|deps| - 1][j] == deps[j];
      DepStringsIn(deps[..|deps| - 1], j);
    }
  }

  /** The package after the first phase, when the context holds `sigs`. */
  ghost function Phase1(info: PackageInfo, deps: seq<DepInfo>, crateBinary: seq<uint8>, sigs: seq<SigInfo>): CratePackage
    requires TableFits(info, deps)
  {
    var p0 := NewCratePackage().(magicNumber := MAGIC_NUMBER);
    Laid(p0, FirstSections(info, deps, crateBinary) + SigSections(sigs), Records(TableStrings(info, deps)))
  }

  /** The package after the last phase: the signed sections laid out, and the trailer. */
  ghost function Finished(p1: CratePackage, first: seq<DataSection>, signed: seq<SigInfo>, digest: DigestFn): CratePackage
  {
    WithTrailer(Laid(p1, first + SigSections(signed), p1.stringTable), digest)
  }

  /**
   * What `encode_to_crate_package` produces: the final package and the
   * signed signature infos, or None when `calc_sigs` panics.
   */
  ghost function Encoded(info: PackageInfo, deps: seq<DepInfo>, crateBinary: seq<uint8>, sigs: seq<SigInfo>,
                         digest: DigestFn, sign: SignFn): Option<(CratePackage, seq<SigInfo>)>
    requires TableFits(info, deps)
  {
    var p1 := Phase1(info, deps, crateBinary, sigs);
    var signed :- SignedSigs(sigs, p1, digest, sign);
    Some((Finished(p1, FirstSections(info, deps, crateBinary), signed, digest), signed))
  }

  lemma TakeFirst<T>(a: seq<T>, b: seq<T>, n: nat)
    requires |a| == n
    ensures (a + b)[..Min(n, |a + b|)] == a
  {
    assert (a + b)[..n] == a;
  }

  /**
   * `encode_to_crate_package_before_sig`: the magic number, the three
   * sections, placeholder signature sections, the index, the string table
   * and the header.
   */
  method BeforeSigPhase(ctx: PackageContext, table: StringTable, pkg: WorkingPackage)
    requires table.Valid() && table.strs == [[]] && pkg.Value() == NewCratePackage()
    requires TableFits(ctx.packInfo, ctx.depInfos)
    modifies table, pkg
    ensures table.Valid() && table.strs == TableStrings(ctx.packInfo, ctx.depInfos)
    ensures pkg.Value() == Phase1(ctx.packInfo, ctx.depInfos, ctx.crateBinary, ctx.sigs)
  {
    SetSections(ctx, table, pkg);
    LayOut(table, pkg);
  }

  /** The first half of the first phase: the magic number and the sections. */
  method SetSections(ctx: PackageContext, table: StringTable, pkg: WorkingPackage)
    requires table.Valid() && table.strs == [[]] && pkg.Value() == NewCratePackage()
    requires TableFits(ctx.packInfo, ctx.depInfos)
    modifies table, pkg
    ensures table.Valid() && table.strs == TableStrings(ctx.packInfo, ctx.depInfos)
    ensures pkg.Value() == NewCratePackage().(dataSections :=
      FirstSections(ctx.packInfo, ctx.depInfos, ctx.crateBinary) + SigSections(ctx.sigs))
  {
    pkg.SetMagicNumber();
    WriteWithoutSig(ctx, pkg, table);
    ghost var first := pkg.dataSections;
    SetSigs(ctx, pkg, NOT_SIG_NUM);
    TakeFirst(first, [], NOT_SIG_NUM);
  }

  /** The index, the string table and the header, from the sections as they stand. */
  method LayOut(table: StringTable, pkg: WorkingPackage)
    requires table.Valid()
    modifies pkg
    ensures pkg.Value() == Laid(old(pkg.Value()), old(pkg.dataSections), Records(table.strs))
  {
    pkg.SetSectionIndex();
    pkg.SetStringTable(table);
    pkg.SetCrateHeader(0);
  }

  /** `encode_sig_to_crate_package`: signs, then replaces the placeholder signature sections. */
  method SigPhase(ctx: PackageContext, pkg: WorkingPackage, digest: DigestFn, sign: SignFn) returns (ok: bool)
    requires |pkg.dataSections| >= NOT_SIG_NUM
    modifies ctx, pkg
    ensures ctx.packInfo == old(ctx.packInfo) && ctx.depInfos == old(ctx.depInfos) && ctx.crateBinary == old(ctx.crateBinary)
    ensures ok <==> SignedSigs(old(ctx.sigs), old(pkg.Value()), digest, sign).Some?
    ensures ok ==> ctx.sigs == SignedSigs(old(ctx.sigs), old(pkg.Value()), digest, sign).value
    ensures ok ==> pkg.Value() == old(pkg.Value()).(dataSections := old(pkg.dataSections)[..NOT_SIG_NUM] + SigSections(ctx.sigs))
  {
    ok := CalcSigs(ctx, pkg, digest, sign);
    if ok {
      SetSigs(ctx, pkg, NOT_SIG_NUM);
    }
  }

  /** `encode_to_crate_package_after_sig`: the final index and header, then the fingerprint. */
  method AfterSigPhase(pkg: WorkingPackage, digest: DigestFn)
    modifies pkg
    ensures pkg.Value() == WithTrailer(Laid(old(pkg.Value()), old(pkg.dataSections), old(pkg.stringTable)), digest)
  {
    pkg.SetSectionIndex();
    pkg.SetCrateHeader(0);
    var fp := CalcFingerprint(pkg, digest);
    pkg.SetFingerPrint(fp);
  }

  /** The second and third phases. */
  method SignAndFinish(ctx: PackageContext, pkg: WorkingPackage, digest: DigestFn, sign: SignFn) returns (ok: bool)
    requires |pkg.dataSections| >= NOT_SIG_NUM
    modifies ctx, pkg
    ensures ctx.packInfo == old(ctx.packInfo) && ctx.depInfos == old(ctx.depInfos) && ctx.crateBinary == old(ctx.crateBinary)
    ensures ok <==> SignedSigs(old(ctx.sigs), old(pkg.Value()), digest, sign).Some?
    ensures ok ==> ctx.sigs == SignedSigs(old(ctx.sigs), old(pkg.Value()), digest, sign).value
    ensures ok ==> pkg.Value() == Finished(old(pkg.Value()), old(pkg.dataSections)[..NOT_SIG_NUM], ctx.sigs, digest)
  {
    ok := SigPhase(ctx, pkg, digest, sign);
    if ok {
      ghost var kept := (ctx.packInfo, ctx.depInfos, ctx.crateBinary, ctx.sigs);
      AfterSigPhase(pkg, digest);
      assert kept == (ctx.packInfo, ctx.depInfos, ctx.crateBinary, ctx.sigs);
    }
  }

  /** The second and third phases on the package the first phase left. */
  method FinishFromPhase1(ctx: PackageContext, pkg: WorkingPackage, digest: DigestFn, sign: SignFn) returns (ok: bool, p: CratePackage)
    requires TableFits(ctx.packInfo, ctx.depInfos)
    requires pkg.Value() == Phase1(ctx.packInfo, ctx.depInfos, ctx.crateBinary, ctx.sigs)
    modifies ctx, pkg
    ensures ctx.packInfo == old(ctx.packInfo) && ctx.depInfos == old(ctx.depInfos) && ctx.crateBinary == old(ctx.crateBinary)
    ensures ok <==> SignedSigs(old(ctx.sigs), Phase1(ctx.packInfo, ctx.depInfos, ctx.crateBinary, old(ctx.sigs)), digest, sign).Some?
    ensures ok ==> ctx.sigs == SignedSigs(old(ctx.sigs), Phase1(ctx.packInfo, ctx.depInfos, ctx.crateBinary, old(ctx.sigs)), digest, sign).value
    ensures ok ==> p == Finished(Phase1(ctx.packInfo, ctx.depInfos, ctx.crateBinary, old(ctx.sigs)),
      FirstSections(ctx.packInfo, ctx.depInfos, ctx.crateBinary), ctx.sigs, digest)
  {
    assert pkg.dataSections[..NOT_SIG_NUM] == FirstSections(ctx.packInfo, ctx.depInfos, ctx.crateBinary);
    ok := SignAndFinish(ctx, pkg, digest, sign);
    p := pkg.Value();
  }

  /**
   * `encode_to_crate_package`: the three phases on a fresh package and
   * string table, and the package's bytes. False when signing panics.
   */
  method EncodeToCratePackage(ctx: PackageContext, digest: DigestFn, sign: SignFn)
    returns (ok: bool, p: CratePackage, table: StringTable, bin: seq<uint8>)
    requires TableFits(ctx.packInfo, ctx.depInfos)
    modifies ctx
    ensures ctx.packInfo == old(ctx.packInfo) && ctx.depInfos == old(ctx.depInfos) && ctx.crateBinary == old(ctx.crateBinary)
    ensures ok <==> SignedSigs(old(ctx.sigs), Phase1(ctx.packInfo, ctx.depInfos, ctx.crateBinary, old(ctx.sigs)), digest, sign).Some?
    ensures ok ==> ctx.sigs == SignedSigs(old(ctx.sigs), Phase1(ctx.packInfo, ctx.depInfos, ctx.crateBinary, old(ctx.sigs)), digest, sign).value
    ensures ok ==> p == Finished(Phase1(ctx.packInfo, ctx.depInfos, ctx.crateBinary, old(ctx.sigs)),
      FirstSections(ctx.packInfo, ctx.depInfos, ctx.crateBinary), ctx.sigs, digest)
    ensures ok ==> bin == EncodeCratePackage(p)
    ensures table.Valid() && table.strs == TableStrings(ctx.packInfo, ctx.depInfos)
  {
    var pkg := new WorkingPackage();
    table := new StringTable();
    BeforeSigPhase(ctx, table, pkg);
    ok, p := FinishFromPhase1(ctx, pkg, digest, sign);
    bin := if ok then EncodeCratePackage(p) else [];
  }
}
