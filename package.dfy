/**
 * The in-memory structure of a `.scrate` container: the header, the section
 * index, the four kinds of data section and the top-level package, with the
 * format's constants and constructors.
 */
module Package {
  import opened Basics

  const MAGIC_NUMBER_LEN: nat := 5
  /** The bytes of "CRATE". */
  const MAGIC_NUMBER: seq<uint8> := [0x43, 0x52, 0x41, 0x54, 0x45]
  const FINGERPRINT_LEN: nat := 32
  const CRATEVERSION: uint8 := 0

  /** Section type codes as written in a section index entry. */
  const PACKAGE_TYPE: uint8 := 0
  const DEP_TABLE_TYPE: uint8 := 1
  const CRATE_BINARY_TYPE: uint8 := 3
  const SIG_TYPE: uint8 := 4

  type MagicNumber = s: seq<uint8> | |s| == 5 witness [0x43, 0x52, 0x41, 0x54, 0x45]

  type FingerPrint = s: seq<uint8> | |s| == 32 witness seq(32, _ => 0)

  /** A length field followed by the elements; `len` is not forced to equal `|arr|`. */
  datatype LenArray<T> = LenArray(len: uint32, arr: seq<T>)

  datatype CrateHeader = CrateHeader(
    cVersion: uint8,
    strtableSize: uint32,
    strtableOffset: uint32,
    siSize: uint32,
    siOffset: uint32,
    siNum: uint32,
    dsOffset: uint32)

  datatype SectionIndexEntry = SectionIndexEntry(shType: uint8, shOffset: uint32, shSize: uint32)

  datatype PackageSection = PackageSection(
    pkgName: uint32,
    pkgVersion: uint32,
    pkgLicense: uint32,
    pkgAuthors: LenArray<uint32>)

  datatype DepTableEntry = DepTableEntry(
    depName: uint32,
    depVerreq: uint32,
    depSrctype: uint8,
    depSrcpath: uint32,
    depPlatform: uint32)

  datatype DepTableSection = DepTableSection(entries: LenArray<DepTableEntry>)

  datatype CrateBinarySection = CrateBinarySection(bin: seq<uint8>)

  datatype SigStructureSection = SigStructureSection(
    sigstructSize: uint32,
    sigstructType: uint8,
    sigstructSig: seq<uint8>)

  datatype DataSection =
    | PackageSec(pkg: PackageSection)
    | DepTableSec(deps: DepTableSection)
    | CrateBinarySec(crate: CrateBinarySection)
    | SigStructureSec(sig: SigStructureSection)

  datatype CratePackage = CratePackage(
    magicNumber: MagicNumber,
    crateHeader: CrateHeader,
    stringTable: seq<uint8>,
    sectionIndex: seq<SectionIndexEntry>,
    dataSections: seq<DataSection>,
    fingerPrint: FingerPrint)

  /** `LenArrayType::new`. */
  function NewLenArray<T>(): (r: LenArray<T>)
    ensures r.len == 0 && r.arr == []
  {
    LenArray(0, [])
  }

  /** `LenArrayType::from_vec`: the length field is the element count, cast to u32. */
  function LenArrayFromVec<T>(arr: seq<T>): (r: LenArray<T>)
    ensures r.arr == arr
    ensures |arr| < U32_LIMIT ==> r.len == |arr|
  {
    LenArray(Trunc32(|arr|), arr)
  }

  /** `LenArrayType::copy_from_vec`: starts from `new()` and overwrites both fields. */
  function LenArrayCopyFromVec<T>(v: seq<T>): (r: LenArray<T>)
    ensures r == LenArrayFromVec(v)
  {
    var empty := NewLenArray<T>();
    empty.(arr := v, len := Trunc32(|v|))
  }

  /** `datasection_type`: the type code of a data section's variant. */
  function DatasectionType(d: DataSection): (r: uint8)
    ensures r == 0 <==> d.PackageSec?
    ensures r == 1 <==> d.DepTableSec?
    ensures r == 3 <==> d.CrateBinarySec?
    ensures r == 4 <==> d.SigStructureSec?
    ensures r != 2 && r <= 4
  {
    match d
    case PackageSec(_) => PACKAGE_TYPE
    case DepTableSec(_) => DEP_TABLE_TYPE
    case CrateBinarySec(_) => CRATE_BINARY_TYPE
    case SigStructureSec(_) => SIG_TYPE
  }

  function NewCrateHeader(): CrateHeader
  {
    CrateHeader(0, 0, 0, 0, 0, 0, 0)
  }

  /** `CratePackage::new`. */
  function NewCratePackage(): (p: CratePackage)
    ensures p.magicNumber == MAGIC_NUMBER
    ensures |p.fingerPrint| == FINGERPRINT_LEN && forall i :: 0 <= i < |p.fingerPrint| ==> p.fingerPrint[i] == 0
    ensures p.stringTable == [] && p.sectionIndex == [] && p.dataSections == []
    ensures p.crateHeader == NewCrateHeader()
  {
    CratePackage(MAGIC_NUMBER, NewCrateHeader(), [], [], [], seq(FINGERPRINT_LEN, _ => 0))
  }

  /** `SectionIndex::section_num`: the entry count, cast to u32. */
  function SectionNum(entries: seq<SectionIndexEntry>): (r: uint32)
    ensures |entries| < U32_LIMIT ==> r == |entries|
  {
    Trunc32(|entries|)
  }
}
