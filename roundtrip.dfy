/**
 * What packing and unpacking promise each other. A package laid out by the
 * encoder carries its own fingerprint, parses back to itself, is signed over
 * exactly the bytes the reader checks, and unpacks to the context that was
 * packed.
 */
module RoundTrip {
  import opened Basics
  import opened Package
  import opened Bincode
  import opened Context
  import opened Decode
  import opened Encode

  // ------------------------------------------------------------------
  // Sequence helpers
  // ------------------------------------------------------------------

  function Zeros(n: nat): (z: seq<uint8>)
    ensures |z| == n && forall i :: 0 <= i < n ==> z[i] == 0
  {
    seq(n, _ => 0)
  }

  lemma {:induction false} RawArrayConcat<T>(enc: T -> seq<uint8>, a: seq<T>, b: seq<T>)
    ensures EncodeRawArray(enc, a + b) == EncodeRawArray(enc, a) + EncodeRawArray(enc, b)
    decreases |a|
  {
    if a == [] {
      assert a + b == b;
    } else {
      assert (a + b)[0] == a[0] && (a + b)[1..] == a[1..] + b;
      RawArrayConcat(enc, a[1..], b);
    }
  }

  lemma {:induction false} CountNonSigConcat(a: seq<SectionIndexEntry>, b: seq<SectionIndexEntry>)
    ensures CountNonSig(a + b) == CountNonSig(a) + CountNonSig(b)
    decreases |a|
  {
    if a == [] {
      assert a + b == b;
    } else {
      assert (a + b)[0] == a[0] && (a + b)[1..] == a[1..] + b;
      CountNonSigConcat(a[1..], b);
    }
  }

  lemma {:induction false} CountNonSigNone(e: seq<SectionIndexEntry>)
    requires forall i :: 0 <= i < |e| ==> e[i].shType == SIG_TYPE
    ensures CountNonSig(e) == 0
    decreases |e|
  {
    if e != [] {
      assert forall i :: 0 <= i < |e| - 1 ==> e[1..][i] == e[i + 1];
      CountNonSigNone(e[1..]);
    }
  }

  /** Zeroing the middle of three regions. */
  lemma ZeroedMiddle(a: seq<uint8>, b: seq<uint8>, c: seq<uint8>)
    ensures Zeroed(a + b + c, |a|, |a| + |b|) == a + Zeros(|b|) + c
  {
    var l := Zeroed(a + b + c, |a|, |a| + |b|);
    var r := a + Zeros(|b|) + c;
    assert |l| == |r|;
    forall i | 0 <= i < |l|
      ensures l[i] == r[i]
    {
      if i < |a| {
      } else if i < |a| + |b| {
      } else {
      }
    }
  }

  // ------------------------------------------------------------------
  // The shape the encoder gives a package
  // ------------------------------------------------------------------

  /** The three sections that precede the signatures, in the order they are written. */
  ghost predicate FirstThree(first: seq<DataSection>)
  {
    |first| == NOT_SIG_NUM && first[0].PackageSec? && first[1].DepTableSec? && first[2].CrateBinarySec?
  }

  /**
   * A package as the encoder lays it out: the magic number, the three
   * sections and one section per signature, with the index and header
   * that follow from them.
   */
  ghost predicate Shaped(p: CratePackage, first: seq<DataSection>, sigs: seq<SigInfo>)
  {
    && p.magicNumber == MAGIC_NUMBER
    && FirstThree(first)
    && p.dataSections == first + SigSections(sigs)
    && p.sectionIndex == IndexFor(p.dataSections)
    && p.crateHeader == HeaderFor(|p.stringTable|, |p.dataSections|, 0)
  }

  /** The file up to the end of the crate binary section is addressable with u32 offsets. */
  ghost predicate SignedPartFits(p: CratePackage, first: seq<DataSection>)
  {
    30 + |p.stringTable| + 9 * |p.dataSections| + |EncodeDataSections(first)| < U32_LIMIT
  }

  /** The bytes the type-0 signatures sign: everything up to the end of the crate binary section, with the signature entries of the index zeroed. */
  ghost function SignedRegion(p: CratePackage, first: seq<DataSection>, n: nat): seq<uint8>
  {
    p.magicNumber + EncodeHeader(p.crateHeader) + p.stringTable + EncodeSectionIndex(IndexFor(first))
      + Zeros(9 * n) + EncodeDataSections(first)
  }

  lemma SectionFits(ds: seq<DataSection>, i: nat)
    requires i < |ds|
    ensures SectionOffset(ds, i) + |EncodeDataSection(ds[i])| <= |EncodeDataSections(ds)|
  {
    SectionOffsetStep(ds, i);
    SectionOffsetBound(ds, i + 1);
  }

  /** The header of a shaped package describes its regions exactly. */
  lemma ShapedHeader(p: CratePackage, first: seq<DataSection>, sigs: seq<SigInfo>)
    requires Shaped(p, first, sigs) && SignedPartFits(p, first)
    ensures |p.dataSections| == NOT_SIG_NUM + |sigs| && |p.sectionIndex| == |p.dataSections|
    ensures p.crateHeader.strtableOffset == 30 && p.crateHeader.strtableSize == |p.stringTable|
    ensures p.crateHeader.siOffset == 30 + |p.stringTable|
    ensures p.crateHeader.siNum == |p.dataSections| && p.crateHeader.siSize == 9 * |p.dataSections|
    ensures p.crateHeader.dsOffset == 30 + |p.stringTable| + 9 * |p.dataSections|
  {
  }

  /** An index whose entry types are package, dependency table, crate binary, then `n` signatures. */
  ghost predicate Typed(si: seq<SectionIndexEntry>, n: nat)
  {
    && |si| == NOT_SIG_NUM + n
    && si[0].shType == PACKAGE_TYPE && si[1].shType == DEP_TABLE_TYPE && si[2].shType == CRATE_BINARY_TYPE
    && forall i :: 3 <= i < |si| ==> si[i].shType == SIG_TYPE
  }

  /** The index of a shaped package: three non-signature entries, then one signature entry per signature. */
  lemma ShapedIndex(p: CratePackage, first: seq<DataSection>, sigs: seq<SigInfo>)
    requires Shaped(p, first, sigs) && SignedPartFits(p, first)
    ensures |p.sectionIndex| == NOT_SIG_NUM + |sigs|
    ensures p.sectionIndex[..3] == IndexFor(first)
    ensures Typed(p.sectionIndex, |sigs|)
    ensures CountNonSig(p.sectionIndex) == 3 && SigNum(p.sectionIndex) == |sigs|
    ensures DatasectionSizeWithoutSig(p.sectionIndex) == Some(|EncodeDataSections(first)|)
  {
    ShapedTypes(p, first, sigs);
    TypedCounts(p.sectionIndex, |sigs|);
    var ds := p.dataSections;
    SectionOffsetStep(ds, 2);
    assert ds[..3] == first;
  }

  lemma ShapedTypes(p: CratePackage, first: seq<DataSection>, sigs: seq<SigInfo>)
    requires Shaped(p, first, sigs)
    ensures p.sectionIndex[..3] == IndexFor(first)
    ensures Typed(p.sectionIndex, |sigs|)
  {
    var ds := p.dataSections;
    var si := p.sectionIndex;
    assert ds[..3] == first;
    IndexForPrefix(ds, 3);
    forall i | 3 <= i < |si|
      ensures si[i].shType == SIG_TYPE
    {
      assert ds[i] == SigSections(sigs)[i - 3];
    }
  }

  /** The counts `sig_num` and `none_sig_num` of such an index. */
  lemma TypedCounts(si: seq<SectionIndexEntry>, n: nat)
    requires Typed(si, n)
    ensures CountNonSig(si) == 3 && SigNum(si) == n
  {
    assert si == si[..3] + si[3..];
    CountNonSigConcat(si[..3], si[3..]);
    CountNonSigNone(si[3..]);
    var t := si[..3];
    assert t[1..][1..][1..] == [];
    assert CountNonSig(t[1..][1..]) == 1;
    assert CountNonSig(t[1..]) == 2;
    assert CountNonSig(t) == 3;
    CountsPartition(si);
  }

  /** Where `section_id_by_type` stops on such an index. */
  lemma TypedFirst(si: seq<SectionIndexEntry>, n: nat)
    requires Typed(si, n)
    ensures FirstOfType(si, PACKAGE_TYPE) == Some(0)
    ensures FirstOfType(si, DEP_TABLE_TYPE) == Some(1)
    ensures FirstOfType(si, CRATE_BINARY_TYPE) == Some(2)
    ensures n > 0 ==> FirstOfType(si, SIG_TYPE) == Some(3)
  {
    assert FirstOfType(si, PACKAGE_TYPE) == Some(0);
    assert FirstOfType(si, DEP_TABLE_TYPE) == Some(1);
    assert FirstOfType(si, CRATE_BINARY_TYPE) == Some(2);
    if n > 0 {
      assert si[3].shType == SIG_TYPE;
      var r := FirstOfType(si, SIG_TYPE);
      assert r.Some? && r.value >= 3;
    }
  }

  /** The getters find the three sections, and signature `no` at index entry 3 + no. */
  lemma ShapedLookups(p: CratePackage, first: seq<DataSection>, sigs: seq<SigInfo>)
    requires Shaped(p, first, sigs) && SignedPartFits(p, first)
    ensures PackageSectionOf(p) == Some(first[0].pkg)
    ensures DepTableSectionOf(p) == Some(first[1].deps)
    ensures CrateBinarySectionOf(p) == Some(first[2].crate)
    ensures forall no :: 0 <= no < |sigs| ==> SigStructureSectionOf(p, no) == Some(SigStructureFor(sigs[no]))
  {
    ShapedIndex(p, first, sigs);
    TypedFirst(p.sectionIndex, |sigs|);
    assert p.dataSections[0] == first[0] && p.dataSections[1] == first[1] && p.dataSections[2] == first[2];
    forall no | 0 <= no < |sigs|
      ensures SigStructureSectionOf(p, no) == Some(SigStructureFor(sigs[no]))
    {
      assert p.dataSections[3 + no] == SigSections(sigs)[no];
      SigLookup(p, |sigs|, no, SigStructureFor(sigs[no]));
    }
  }

  lemma SigLookup(p: CratePackage, n: nat, no: nat, g: SigStructureSection)
    requires Typed(p.sectionIndex, n) && |p.dataSections| == NOT_SIG_NUM + n
    requires no < n && p.dataSections[3 + no] == SigStructureSec(g)
    ensures SigStructureSectionOf(p, no) == Some(g)
  {
    TypedFirst(p.sectionIndex, n);
  }

  /**
   * The region `binary_before_sig` cuts from a shaped package's encoding:
   * it depends on the number of signatures, never on their bytes.
   */
  lemma ShapedSignedRegion(p: CratePackage, first: seq<DataSection>, sigs: seq<SigInfo>)
    requires Shaped(p, first, sigs) && SignedPartFits(p, first)
    ensures BeforeSig(p, |sigs|, EncodeCratePackage(p)) == Some(SignedRegion(p, first, |sigs|))
  {
    ShapedIndex(p, first, sigs);
    RegionBytes(p, first, sigs);
    RegionCut(p, |sigs|, EncodeCratePackage(p), |EncodeDataSections(first)|, SignedRegion(p, first, |sigs|));
  }

  /** `binary_before_sig` once the sizes, the counts and the zeroed bytes are known. */
  lemma RegionCut(p: CratePackage, n: nat, bin: seq<uint8>, size: nat, region: seq<uint8>)
    requires DatasectionSizeWithoutSig(p.sectionIndex) == Some(size) && SigNum(p.sectionIndex) == n
    requires CountNonSig(p.sectionIndex) == NOT_SIG_NUM
    requires p.crateHeader.dsOffset + size <= |bin|
    requires Zeroed(bin[..p.crateHeader.dsOffset + size], p.crateHeader.siOffset + 9 * 3,
                    p.crateHeader.siOffset + p.crateHeader.siSize) == region
    ensures BeforeSig(p, n, bin) == Some(region)
  {
    var h := p.crateHeader;
    BeforeSigCut(p, n, bin, size, h.dsOffset + size, h.siOffset + 9 * 3, h.siOffset + h.siSize);
  }

  /** The bytes of a shaped package's encoding that `binary_before_sig` keeps, zeroed as it zeroes them. */
  lemma RegionBytes(p: CratePackage, first: seq<DataSection>, sigs: seq<SigInfo>)
    requires Shaped(p, first, sigs) && SignedPartFits(p, first)
    ensures var h := p.crateHeader; var size := |EncodeDataSections(first)|;
      && h.dsOffset + size <= |EncodeCratePackage(p)|
      && Zeroed(EncodeCratePackage(p)[..h.dsOffset + size], h.siOffset + 9 * 3, h.siOffset + h.siSize)
         == SignedRegion(p, first, |sigs|)
  {
    ShapedIndex(p, first, sigs);
    ShapedHeader(p, first, sigs);
    var A := p.magicNumber + EncodeHeader(p.crateHeader) + p.stringTable + EncodeSectionIndex(IndexFor(first));
    var IS := EncodeSectionIndex(p.sectionIndex[3..]);
    var D3 := EncodeDataSections(first);
    var R := EncodeDataSections(SigSections(sigs)) + p.fingerPrint;
    SplitEncoding(p, first, SigSections(sigs));
    assert |IS| == 9 * |sigs|;
    assert SignedRegion(p, first, |sigs|) == A + Zeros(|IS|) + D3;
    var h := p.crateHeader;
    RegionFromParts(EncodeCratePackage(p), A, IS, D3, R, h.siOffset + 9 * 3, h.siOffset + h.siSize, h.dsOffset + |D3|);
  }

  lemma RegionFromParts(bin: seq<uint8>, a: seq<uint8>, b: seq<uint8>, c: seq<uint8>, d: seq<uint8>, x: nat, y: nat, z: nat)
    requires bin == a + b + c + d
    requires |a| == x && |a| + |b| == y && |a| + |b| + |c| == z
    ensures z <= |bin| && Zeroed(bin[..z], x, y) == a + Zeros(|b|) + c
  {
    CutMiddle(a, b, c, d);
  }

  /** `binary_before_sig` when the sizes are known and the count agrees. */
  lemma BeforeSigCut(p: CratePackage, n: nat, bin: seq<uint8>, size: nat, total: nat, zb: nat, ze: nat)
    requires DatasectionSizeWithoutSig(p.sectionIndex) == Some(size) && SigNum(p.sectionIndex) == n
    requires total == p.crateHeader.dsOffset + size <= |bin|
    requires zb == p.crateHeader.siOffset + 9 * CountNonSig(p.sectionIndex)
    requires ze == p.crateHeader.siOffset + p.crateHeader.siSize
    ensures BeforeSig(p, n, bin) == Some(Zeroed(bin[..total], zb, ze))
  {
  }

  /** The encoding of a package, with the index and the sections each split after the third. */
  lemma SplitEncoding(p: CratePackage, first: seq<DataSection>, rest: seq<DataSection>)
    requires p.dataSections == first + rest && |p.sectionIndex| >= 3
    ensures EncodeCratePackage(p) ==
      p.magicNumber + EncodeHeader(p.crateHeader) + p.stringTable + EncodeSectionIndex(p.sectionIndex[..3])
      + EncodeSectionIndex(p.sectionIndex[3..]) + EncodeDataSections(first)
      + (EncodeDataSections(rest) + p.fingerPrint)
  {
    var si := p.sectionIndex;
    EncodeCratePackageLayout(p);
    assert si == si[..3] + si[3..];
    RawArrayConcat(EncodeEntry, si[..3], si[3..]);
    RawArrayConcat(EncodeDataSection, first, rest);
    Regroup(p.magicNumber, EncodeHeader(p.crateHeader), p.stringTable, EncodeSectionIndex(si[..3]),
      EncodeSectionIndex(si[3..]), EncodeDataSections(first), EncodeDataSections(rest), p.fingerPrint);
  }

  lemma Regroup(m: seq<uint8>, h: seq<uint8>, s: seq<uint8>, x: seq<uint8>, y: seq<uint8>,
                d: seq<uint8>, r: seq<uint8>, f: seq<uint8>)
    ensures m + h + s + (x + y) + (d + r) + f == m + h + s + x + y + d + (r + f)
  {
  }

  /** Cutting four regions after the third and zeroing the second. */
  lemma CutMiddle(a: seq<uint8>, b: seq<uint8>, c: seq<uint8>, d: seq<uint8>)
    ensures |a + b + c + d| >= |a| + |b| + |c|
    ensures Zeroed((a + b + c + d)[..|a| + |b| + |c|], |a|, |a| + |b|) == a + Zeros(|b|) + c
  {
    assert (a + b + c + d)[..|a| + |b| + |c|] == a + b + c;
    ZeroedMiddle(a, b, c);
  }

  // ------------------------------------------------------------------
  // The packages of the encoder's phases are shaped
  // ------------------------------------------------------------------

  lemma Phase1Shaped(info: PackageInfo, deps: seq<DepInfo>, crateBinary: seq<uint8>, sigs: seq<SigInfo>)
    requires TableFits(info, deps)
    ensures Shaped(Phase1(info, deps, crateBinary, sigs), FirstSections(info, deps, crateBinary), sigs)
  {
    TableHolds(info, deps);
  }

  lemma FinishedShaped(p1: CratePackage, first: seq<DataSection>, x: seq<SigInfo>, signed: seq<SigInfo>, digest: DigestFn)
    requires Shaped(p1, first, x)
    ensures Shaped(Finished(p1, first, signed, digest), first, signed)
    ensures Finished(p1, first, signed, digest).stringTable == p1.stringTable
  {
  }

  /** The packages differ only in the signature bytes: their signed regions are equal. */
  lemma SameSignedRegion(p: CratePackage, q: CratePackage, first: seq<DataSection>, x: seq<SigInfo>, y: seq<SigInfo>)
    requires Shaped(p, first, x) && Shaped(q, first, y)
    requires q.stringTable == p.stringTable && |x| == |y|
    ensures SignedRegion(q, first, |y|) == SignedRegion(p, first, |x|)
  {
  }

  /** A file under 4 GiB has its signed part and its sections addressable with u32 offsets. */
  lemma FitsFromSize(p: CratePackage, first: seq<DataSection>, rest: seq<DataSection>)
    requires p.dataSections == first + rest && |p.sectionIndex| == |p.dataSections|
    requires |EncodeCratePackage(p)| < U32_LIMIT
    ensures SignedPartFits(p, first)
    ensures |EncodeDataSections(p.dataSections)| < U32_LIMIT
  {
    EncodeCratePackageLayout(p);
    RawArrayConcat(EncodeDataSection, first, rest);
  }

  // ------------------------------------------------------------------
  // The fingerprint
  // ------------------------------------------------------------------

  /** `calc_fingerprint` writes the trailer `check_fingerprint` accepts, whatever the package. */
  lemma TrailerMatches(p: CratePackage, digest: DigestFn)
    ensures |EncodeCratePackage(WithTrailer(p, digest))| >= FINGERPRINT_LEN
    ensures FingerprintMatches(digest, EncodeCratePackage(WithTrailer(p, digest)))
  {
    var q := WithTrailer(p, digest);
    EncodeCratePackageLayout(p);
    EncodeCratePackageLayout(q);
    var body := p.magicNumber + EncodeHeader(p.crateHeader) + p.stringTable
      + EncodeSectionIndex(p.sectionIndex) + EncodeDataSections(p.dataSections);
    assert EncodeCratePackage(p) == body + p.fingerPrint;
    assert BinaryBeforeDigest(EncodeCratePackage(p)) == body;
    assert EncodeCratePackage(q) == body + q.fingerPrint;
    FingerprintOfTrailer(digest, body, q.fingerPrint);
  }

  // ------------------------------------------------------------------
  // Parsing back
  // ------------------------------------------------------------------

  /** Length fields as the encoder writes them: the element count cast to u32. */
  ghost predicate LengthsTruncated(d: DataSection)
  {
    match d
    case PackageSec(ps) => ps.pkgAuthors.len == Trunc32(|ps.pkgAuthors.arr|)
    case DepTableSec(t) => t.entries.len == Trunc32(|t.entries.arr|)
    case CrateBinarySec(_) => true
    case SigStructureSec(g) => g.sigstructSize == Trunc32(|g.sigstructSig|)
  }

  /** When the section is under 4 GiB the casts lose nothing, so its length fields are honest. */
  lemma TruncatedConsistent(d: DataSection)
    requires LengthsTruncated(d) && |EncodeDataSection(d)| < U32_LIMIT
    ensures SelfConsistent(d)
  {
    match d
    case PackageSec(ps) =>
      RawArrayLength(EncodeU32, ps.pkgAuthors.arr, 4);
    case DepTableSec(t) =>
      RawArrayLength(EncodeDepTableEntry, t.entries.arr, 17);
    case CrateBinarySec(_) =>
    case SigStructureSec(g) =>
      RawBytesIdentity(g.sigstructSig);
  }

  lemma FirstSectionsTruncated(info: PackageInfo, deps: seq<DepInfo>, crateBinary: seq<uint8>)
    requires TableFits(info, deps)
    ensures forall i :: 0 <= i < NOT_SIG_NUM ==> LengthsTruncated(FirstSections(info, deps, crateBinary)[i])
  {
    TableHolds(info, deps);
  }

  lemma SigSectionsTruncated(signed: seq<SigInfo>)
    requires forall i :: 0 <= i < |signed| ==> signed[i].size == |signed[i].bin|
    ensures forall i :: 0 <= i < |signed| ==> LengthsTruncated(SigSections(signed)[i])
  {
  }

  /** A shaped package under 4 GiB whose length fields are the encoder's is laid out consistently. */
  lemma ShapedConsistent(p: CratePackage, first: seq<DataSection>, sigs: seq<SigInfo>)
    requires Shaped(p, first, sigs)
    requires forall i :: 0 <= i < |p.dataSections| ==> LengthsTruncated(p.dataSections[i])
    requires |EncodeCratePackage(p)| < U32_LIMIT
    ensures ConsistentLayout(p)
  {
    var ds := p.dataSections;
    FitsFromSize(p, first, SigSections(sigs));
    EncodeCratePackageLayout(p);
    IndexForDescribes(ds);
    forall i | 0 <= i < |ds|
      ensures SelfConsistent(ds[i])
    {
      SectionFits(ds, i);
      TruncatedConsistent(ds[i]);
    }
  }

  // ------------------------------------------------------------------
  // Signatures
  // ------------------------------------------------------------------

  /** The signature infos as the reader rebuilds them from the written sections. */
  function SigsReadBack(signed: seq<SigInfo>): (r: seq<SigInfo>)
    ensures |r| == |signed|
  {
    seq(|signed|, i requires 0 <= i < |signed| => SigInfoOf(SigStructureFor(signed[i])))
  }

  /**
   * A signature whose type and size fit their fields and whose size is its
   * length reads back as itself except for its signer, which the file does
   * not store.
   */
  lemma SigsReadBackForgetsSigner(signed: seq<SigInfo>)
    requires forall i :: 0 <= i < |signed| ==>
      signed[i].typ < U8_LIMIT && signed[i].size == |signed[i].bin| < U32_LIMIT
    ensures forall i :: 0 <= i < |signed| ==> SigsReadBack(signed)[i] == signed[i].(signer := 0)
  {
  }

  /**
   * When verification undoes signing, every signature `calc_sigs` makes
   * passes `check_sigs` over the same two digests.
   */
  lemma SignedThenChecked(sigs: seq<SigInfo>, fileDigest: seq<uint8>, crateDigest: seq<uint8>,
                          sign: SignFn, verify: VerifyFn)
    requires forall k, d :: verify(sign(k, d)) == d
    requires SignAll(sigs, fileDigest, crateDigest, sign).Some?
    ensures CheckSigsSpec(SigsReadBack(SignAll(sigs, fileDigest, crateDigest, sign).value), fileDigest, crateDigest, verify) == Some(true)
  {
    var signed := SignAll(sigs, fileDigest, crateDigest, sign).value;
    var rb := SigsReadBack(signed);
    forall i | 0 <= i < |rb|
      ensures SigAgrees(rb[i], fileDigest, crateDigest, verify)
    {
      var e := ExpectedDigest(sigs[i].typ, fileDigest, crateDigest);
      assert signed[i] == Signed(sigs[i], e.value, sign);
      assert rb[i].typ == sigs[i].typ;
      assert verify(rb[i].bin) == e.value;
    }
  }

  // ------------------------------------------------------------------
  // Packing then unpacking
  // ------------------------------------------------------------------

  /** The dependencies as the reader returns them: each marked for dumping. */
  function Dumped(deps: seq<DepInfo>): (r: seq<DepInfo>)
    ensures |r| == |deps|
  {
    seq(|deps|, i requires 0 <= i < |deps| => deps[i].(dump := true))
  }

  lemma DepsRoundTrip(deps: seq<DepInfo>, str2off: map<Str, uint32>, off2str: map<uint32, Str>)
    requires LooksUpBack(str2off, off2str)
    requires forall j :: 0 <= j < |deps| ==> HoldsDepStrings(deps[j], str2off)
    ensures ReadDeps(DepEntriesFor(deps, str2off), off2str) == Some(Dumped(deps))
  {
    var es := DepEntriesFor(deps, str2off);
    forall j | 0 <= j < |deps|
      ensures ReadFromDepTableEntry(es[j], off2str) == Some(deps[j].(dump := true))
    {
      DepEntryRoundTrip(deps[j], str2off, off2str);
    }
    var r := ReadDeps(es, off2str);
    assert r.value == Dumped(deps);
  }

  /** The contents `decode_from_crate_package` reads from a shaped package over the final string table. */
  lemma UnpackedContents(info: PackageInfo, deps: seq<DepInfo>, crateBinary: seq<uint8>, q: CratePackage, signed: seq<SigInfo>)
    requires TableFits(info, deps)
    requires Shaped(q, FirstSections(info, deps, crateBinary), signed)
    requires SignedPartFits(q, FirstSections(info, deps, crateBinary))
    ensures ReadContents(q, OffMap(TableStrings(info, deps))) ==
      Some(Contents(info, Dumped(deps), crateBinary, SigsReadBack(signed)))
  {
    var strs := TableStrings(info, deps);
    var m := StrMap(strs);
    var o := OffMap(strs);
    var first := FirstSections(info, deps, crateBinary);
    TableHolds(info, deps);
    assert first == NonSigSections(info, deps, crateBinary, m);
    ShapedLookups(q, first, signed);
    ShapedIndex(q, first, signed);
    Context.PackageSectionRoundTrip(info, m, o);
    DepsRoundTrip(deps, m, o);
    var rs := ReadSigs(q, |signed|);
    assert rs.value == SigsReadBack(signed);
  }

  /** What `encode_to_crate_package` produces, phase by phase. */
  lemma EncodedFacts(info: PackageInfo, deps: seq<DepInfo>, crateBinary: seq<uint8>, sigs: seq<SigInfo>,
                     digest: DigestFn, sign: SignFn, p1: CratePackage)
    requires TableFits(info, deps) && p1 == Phase1(info, deps, crateBinary, sigs)
    requires Encoded(info, deps, crateBinary, sigs, digest, sign).Some?
    ensures SignedSigs(sigs, p1, digest, sign).Some?
    ensures Encoded(info, deps, crateBinary, sigs, digest, sign).value
         == (Finished(p1, FirstSections(info, deps, crateBinary), SignedSigs(sigs, p1, digest, sign).value, digest),
             SignedSigs(sigs, p1, digest, sign).value)
  {
  }

  lemma SignedSigsFacts(sigs: seq<SigInfo>, p: CratePackage, digest: DigestFn, sign: SignFn)
    requires SignedSigs(sigs, p, digest, sign).Some?
    ensures SigDigests(p, |sigs|, digest).Some?
    ensures SignedSigs(sigs, p, digest, sign).value
         == SignAll(sigs, SigDigests(p, |sigs|, digest).value.0, SigDigests(p, |sigs|, digest).value.1, sign).value
  {
  }

  /** Every signature `calc_sigs` makes records the length of its bytes. */
  lemma SignedSizes(sigs: seq<SigInfo>, fileDigest: seq<uint8>, crateDigest: seq<uint8>, sign: SignFn)
    requires SignAll(sigs, fileDigest, crateDigest, sign).Some?
    ensures var signed := SignAll(sigs, fileDigest, crateDigest, sign).value;
      |signed| == |sigs| && forall i :: 0 <= i < |signed| ==> signed[i].size == |signed[i].bin|
  {
    var signed := SignAll(sigs, fileDigest, crateDigest, sign).value;
    forall i | 0 <= i < |signed|
      ensures signed[i].size == |signed[i].bin|
    {
      assert signed[i] == Signed(sigs[i], ExpectedDigest(sigs[i].typ, fileDigest, crateDigest).value, sign);
    }
  }

  /** The last phase keeps the shape and writes the trailer the reader accepts. */
  lemma FinishedLaidOut(p1: CratePackage, first: seq<DataSection>, x: seq<SigInfo>, signed: seq<SigInfo>, digest: DigestFn)
    requires Shaped(p1, first, x)
    requires |EncodeCratePackage(Finished(p1, first, signed, digest))| < U32_LIMIT
    ensures var q := Finished(p1, first, signed, digest);
      && Shaped(q, first, signed)
      && q.stringTable == p1.stringTable
      && SignedPartFits(q, first)
      && |EncodeCratePackage(q)| >= FINGERPRINT_LEN
      && FingerprintMatches(digest, EncodeCratePackage(q))
  {
    var q := Finished(p1, first, signed, digest);
    FinishedShaped(p1, first, x, signed, digest);
    FitsFromSize(q, first, SigSections(signed));
    TrailerMatches(Laid(p1, first + SigSections(signed), p1.stringTable), digest);
  }

  lemma AllTruncated(ds: seq<DataSection>, first: seq<DataSection>, signed: seq<SigInfo>)
    requires ds == first + SigSections(signed) && |first| == NOT_SIG_NUM
    requires forall i :: 0 <= i < NOT_SIG_NUM ==> LengthsTruncated(first[i])
    requires forall i :: 0 <= i < |signed| ==> signed[i].size == |signed[i].bin|
    ensures forall i :: 0 <= i < |ds| ==> LengthsTruncated(ds[i])
  {
    SigSectionsTruncated(signed);
    forall i | 0 <= i < |ds|
      ensures LengthsTruncated(ds[i])
    {
      if i >= NOT_SIG_NUM {
        assert ds[i] == SigSections(signed)[i - NOT_SIG_NUM];
      }
    }
  }

  /** A shaped package whose lengths fit their fields parses back from its encoding. */
  lemma ShapedParses(q: CratePackage, first: seq<DataSection>, signed: seq<SigInfo>)
    requires Shaped(q, first, signed) && SignedPartFits(q, first)
    requires forall i :: 0 <= i < NOT_SIG_NUM ==> LengthsTruncated(first[i])
    requires forall i :: 0 <= i < |signed| ==> signed[i].size == |signed[i].bin|
    requires |EncodeCratePackage(q)| < U32_LIMIT
    ensures DecodeFromSlice(EncodeCratePackage(q)) == Ok(q)
  {
    AllTruncated(q.dataSections, first, signed);
    ShapedConsistent(q, first, signed);
    DecodeEncodeIdentity(q);
  }

  /** The signatures of a shaped package pass `check_sigs` when they were made over its signed region. */
  lemma FinishedChecks(p1: CratePackage, first: seq<DataSection>, sigs: seq<SigInfo>, q: CratePackage, signed: seq<SigInfo>,
                       digest: DigestFn, sign: SignFn, verify: VerifyFn)
    requires Shaped(p1, first, sigs) && Shaped(q, first, signed)
    requires SignedPartFits(q, first) && q.stringTable == p1.stringTable
    requires SigDigests(p1, |sigs|, digest).Some?
    requires SignAll(sigs, SigDigests(p1, |sigs|, digest).value.0, SigDigests(p1, |sigs|, digest).value.1, sign) == Some(signed)
    requires forall k, d :: verify(sign(k, d)) == d
    ensures CheckSigsResult(SigsReadBack(signed), q, EncodeCratePackage(q), digest, verify) == Some(true)
  {
    var d := SigDigests(p1, |sigs|, digest).value;
    ShapedSignedRegion(q, first, signed);
    ShapedSignedRegion(p1, first, sigs);
    SameSignedRegion(p1, q, first, sigs, signed);
    ShapedLookups(q, first, signed);
    ShapedLookups(p1, first, sigs);
    SignedThenChecked(sigs, d.0, d.1, sign, verify);
  }

  /** `decode_from_crate_package` into an empty context, once each of its steps is known to succeed. */
  lemma UnpackSteps(bin: seq<uint8>, q: CratePackage, c: Contents, digest: DigestFn, verify: VerifyFn, readBytes: ReadBytesFn)
    requires |bin| >= FINGERPRINT_LEN && FingerprintMatches(digest, bin)
    requires DecodeFromSlice(bin) == Ok(q)
    requires ReadContents(q, readBytes(q.stringTable)) == Some(c)
    requires CheckSigsResult(c.sigs, q, bin, digest, verify) == Some(true)
    ensures Unpack([], [], bin, digest, verify, readBytes) ==
      Ok(Unpacked(q, readBytes(q.stringTable), c.packInfo, c.depInfos, c.crateBinary, c.sigs))
  {
    assert [] + c.sigs == c.sigs && [] + c.depInfos == c.depInfos;
  }

  /** What `encode_to_crate_package` writes, `check_fingerprint` accepts and `decode_from_slice` parses back. */
  lemma PackedParses(info: PackageInfo, deps: seq<DepInfo>, crateBinary: seq<uint8>, sigs: seq<SigInfo>,
                     digest: DigestFn, sign: SignFn)
    requires TableFits(info, deps)
    requires Encoded(info, deps, crateBinary, sigs, digest, sign).Some?
    requires |EncodeCratePackage(Encoded(info, deps, crateBinary, sigs, digest, sign).value.0)| < U32_LIMIT
    ensures var e := Encoded(info, deps, crateBinary, sigs, digest, sign).value;
      && |EncodeCratePackage(e.0)| >= FINGERPRINT_LEN
      && FingerprintMatches(digest, EncodeCratePackage(e.0))
      && DecodeFromSlice(EncodeCratePackage(e.0)) == Ok(e.0)
  {
    var p1 := Phase1(info, deps, crateBinary, sigs);
    var first := FirstSections(info, deps, crateBinary);
    var e := Encoded(info, deps, crateBinary, sigs, digest, sign).value;
    EncodedFacts(info, deps, crateBinary, sigs, digest, sign, p1);
    SignedSigsFacts(sigs, p1, digest, sign);
    var d := SigDigests(p1, |sigs|, digest).value;
    Phase1Shaped(info, deps, crateBinary, sigs);
    SignedSizes(sigs, d.0, d.1, sign);
    FirstSectionsTruncated(info, deps, crateBinary);
    FinishedLaidOut(p1, first, sigs, e.1, digest);
    ShapedParses(e.0, first, e.1);
  }

  /**
   * Unpacking what was packed, into an empty context, gives back the
   * package, the package info, the dependencies (marked for dumping), the
   * crate binary and the signatures as the file stores them, provided the
   * string table reads back as it was built and verification undoes
   * signing.
   */
  lemma PackThenUnpack(info: PackageInfo, deps: seq<DepInfo>, crateBinary: seq<uint8>, sigs: seq<SigInfo>,
                       digest: DigestFn, sign: SignFn, verify: VerifyFn, readBytes: ReadBytesFn)
    requires TableFits(info, deps)
    requires Encoded(info, deps, crateBinary, sigs, digest, sign).Some?
    requires |EncodeCratePackage(Encoded(info, deps, crateBinary, sigs, digest, sign).value.0)| < U32_LIMIT
    requires readBytes(Records(TableStrings(info, deps))) == OffMap(TableStrings(info, deps))
    requires forall k, d :: verify(sign(k, d)) == d
    ensures var e := Encoded(info, deps, crateBinary, sigs, digest, sign).value;
      && |EncodeCratePackage(e.0)| >= FINGERPRINT_LEN
      && Unpack([], [], EncodeCratePackage(e.0), digest, verify, readBytes) ==
         Ok(Unpacked(e.0, OffMap(TableStrings(info, deps)), info, Dumped(deps), crateBinary, SigsReadBack(e.1)))
  {
    var e := Encoded(info, deps, crateBinary, sigs, digest, sign).value;
    var p1 := Phase1(info, deps, crateBinary, sigs);
    var first := FirstSections(info, deps, crateBinary);
    EncodedFacts(info, deps, crateBinary, sigs, digest, sign, p1);
    SignedSigsFacts(sigs, p1, digest, sign);
    var d := SigDigests(p1, |sigs|, digest).value;
    Phase1Shaped(info, deps, crateBinary, sigs);
    SignedSizes(sigs, d.0, d.1, sign);
    FirstSectionsTruncated(info, deps, crateBinary);
    FinishedLaidOut(p1, first, sigs, e.1, digest);
    ShapedParses(e.0, first, e.1);
    FinishedChecks(p1, first, sigs, e.0, e.1, digest, sign, verify);
    UnpackedContents(info, deps, crateBinary, e.0, e.1);
    UnpackSteps(EncodeCratePackage(e.0), e.0, Contents(info, Dumped(deps), crateBinary, SigsReadBack(e.1)),
      digest, verify, readBytes);
  }

  /** Packing panics exactly when a signature has a type other than 0 and 1. */
  lemma EncodeSucceeds(info: PackageInfo, deps: seq<DepInfo>, crateBinary: seq<uint8>, sigs: seq<SigInfo>,
                       digest: DigestFn, sign: SignFn)
    requires TableFits(info, deps)
    requires SignedPartFits(Phase1(info, deps, crateBinary, sigs), FirstSections(info, deps, crateBinary))
    ensures Encoded(info, deps, crateBinary, sigs, digest, sign).Some? <==>
      forall i :: 0 <= i < |sigs| ==> sigs[i].typ <= 1
  {
    Phase1Shaped(info, deps, crateBinary, sigs);
    ShapedSigns(Phase1(info, deps, crateBinary, sigs), FirstSections(info, deps, crateBinary), sigs, digest, sign);
  }

  /** On a shaped package both digests exist, so signing fails only on an unknown signature type. */
  lemma ShapedSigns(p: CratePackage, first: seq<DataSection>, sigs: seq<SigInfo>, digest: DigestFn, sign: SignFn)
    requires Shaped(p, first, sigs) && SignedPartFits(p, first)
    ensures SignedSigs(sigs, p, digest, sign).Some? <==> forall i :: 0 <= i < |sigs| ==> sigs[i].typ <= 1
  {
    ShapedSignedRegion(p, first, sigs);
    ShapedLookups(p, first, sigs);
  }
}
