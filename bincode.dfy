/**
 * The container's byte encoding under bincode's legacy configuration
 * (little-endian, fixed-width integers): the encoders of every structure,
 * the decoders that read them back, the structural decoder of a whole
 * package, and the section-index accounting used for signatures.
 *
 * A decoder takes the unread input and returns the value with the bytes
 * left over, as bincode's slice reader does.
 */
module Bincode {
  import opened Basics
  import opened Package

  // ------------------------------------------------------------------
  // Primitive encoders and decoders
  // ------------------------------------------------------------------

  datatype Decoded<+T> = Decoded(value: T, rest: seq<uint8>)

  /** bincode's `DecodeError`: an input that ends early, a message of the
      container's own (`DecodeError::Other`), or a u32 bounds-check sum that
      overflows (a panic in a debug build). */
  /**
   * Why a decoder stopped: the input ran out, a message of the container's
   * own, or a panic inside `CratePackage::decode` (a u32 overflow in a bounds
   * check, the magic's `unwrap` on fewer than 5 bytes, or the fingerprint
   * slice taken of fewer than 32 bytes).
   */
  datatype DecodeError = UnexpectedEnd | Other(msg: string) | Abort

  type DecodeResult<T> = Result<Decoded<T>, DecodeError>

  /** What `decode_from_slice` hands back on failure: a message, or a panic. */
  datatype Failure = Message(text: string) | Panic

  function EncodeU8(x: uint8): seq<uint8>
  {
    [x]
  }

  /** 256 to the power `n`: one more than the largest `n`-byte value. */
  function Pow256(n: nat): (r: nat)
    ensures r > 0
  {
    if n == 0 then 1 else 0x100 * Pow256(n - 1)
  }

  /** The low `n` bytes of `x`, least significant first. */
  function LittleEndian(x: nat, n: nat): (r: seq<uint8>)
    ensures |r| == n
  {
    if n == 0 then [] else [x % 0x100] + LittleEndian(x / 0x100, n - 1)
  }

  /** The number whose little-endian bytes are `s`. */
  function FromLittleEndian(s: seq<uint8>): (r: nat)
    ensures r < Pow256(|s|)
    decreases |s|
  {
    if s == [] then 0 else s[0] + 0x100 * FromLittleEndian(s[1..])
  }

  lemma {:induction false} LittleEndianRoundTrip(x: nat, n: nat)
    requires x < Pow256(n)
    ensures FromLittleEndian(LittleEndian(x, n)) == x
    decreases n
  {
    if n > 0 {
      var e := LittleEndian(x, n);
      assert e[1..] == LittleEndian(x / 0x100, n - 1);
      LittleEndianRoundTrip(x / 0x100, n - 1);
    }
  }

  function EncodeU32(x: uint32): (r: seq<uint8>)
    ensures |r| == 4
  {
    LittleEndian(x, 4)
  }

  function DecodeU8(s: seq<uint8>): (r: DecodeResult<uint8>)
    ensures r.Ok? <==> |s| >= 1
    ensures r.Ok? ==> r.value.rest == s[1..]
  {
    if |s| < 1 then Err(UnexpectedEnd) else Ok(Decoded(s[0], s[1..]))
  }

  function DecodeU32(s: seq<uint8>): (r: DecodeResult<uint32>)
    ensures r.Ok? <==> |s| >= 4
    ensures r.Ok? ==> r.value.rest == s[4..]
  {
    if |s| < 4 then Err(UnexpectedEnd)
    else
      assert Pow256(4) == U32_LIMIT;
      Ok(Decoded(FromLittleEndian(s[..4]), s[4..]))
  }

  lemma U8RoundTrip(x: uint8, rest: seq<uint8>)
    ensures DecodeU8(EncodeU8(x) + rest) == Ok(Decoded(x, rest))
  {
    assert (EncodeU8(x) + rest)[1..] == rest;
  }

  /** A u32 is written as four little-endian bytes and read back unchanged. */
  lemma U32RoundTrip(x: uint32, rest: seq<uint8>)
    ensures DecodeU32(EncodeU32(x) + rest) == Ok(Decoded(x, rest))
  {
    var s := EncodeU32(x) + rest;
    assert s[..4] == EncodeU32(x) && s[4..] == rest;
    assert Pow256(4) == U32_LIMIT;
    LittleEndianRoundTrip(x, 4);
  }

  /** `dec` reads back exactly what `enc` writes, leaving any trailing bytes. */
  ghost predicate IsInverse<T(!new)>(enc: T -> seq<uint8>, dec: seq<uint8> -> DecodeResult<T>)
  {
    forall x: T, rest: seq<uint8> :: dec(enc(x) + rest) == Ok(Decoded(x, rest))
  }

  lemma U8Inverse()
    ensures IsInverse(EncodeU8, DecodeU8)
  {
    forall x: uint8, rest: seq<uint8> ensures DecodeU8(EncodeU8(x) + rest) == Ok(Decoded(x, rest)) {
      U8RoundTrip(x, rest);
    }
  }

  lemma U32Inverse()
    ensures IsInverse(EncodeU32, DecodeU32)
  {
    forall x: uint32, rest: seq<uint8> ensures DecodeU32(EncodeU32(x) + rest) == Ok(Decoded(x, rest)) {
      U32RoundTrip(x, rest);
    }
  }

  // ------------------------------------------------------------------
  // RawArrayType and LenArrayType
  // ------------------------------------------------------------------

  /** `RawArrayType::encode`: the elements back to back, with no prefix. */
  function EncodeRawArray<T>(enc: T -> seq<uint8>, a: seq<T>): seq<uint8>
    decreases |a|
  {
    if a == [] then [] else enc(a[0]) + EncodeRawArray(enc, a[1..])
  }

  lemma {:induction false} RawArrayAppend<T>(enc: T -> seq<uint8>, a: seq<T>, x: T)
    ensures EncodeRawArray(enc, a + [x]) == EncodeRawArray(enc, a) + enc(x)
    decreases |a|
  {
    if a == [] {
      assert [x][1..] == [];
    } else {
      assert (a + [x])[1..] == a[1..] + [x];
      RawArrayAppend(enc, a[1..], x);
    }
  }

  /** A byte array encodes as itself. */
  lemma {:induction false} RawBytesIdentity(a: seq<uint8>)
    ensures EncodeRawArray(EncodeU8, a) == a
    decreases |a|
  {
    if a != [] {
      RawBytesIdentity(a[1..]);
    }
  }

  /** Elements of fixed width `w` encode to `w` bytes each. */
  lemma {:induction false} RawArrayLength<T>(enc: T -> seq<uint8>, a: seq<T>, w: nat)
    requires forall x: T :: |enc(x)| == w
    ensures |EncodeRawArray(enc, a)| == w * |a|
    decreases |a|
  {
    if a != [] {
      RawArrayLength(enc, a[1..], w);
    }
  }

  /** `RawArrayType::decode(decoder, n)`: exactly `n` elements, in order. */
  function DecodeRawArraySpec<T>(dec: seq<uint8> -> DecodeResult<T>, s: seq<uint8>, n: nat): (r: DecodeResult<seq<T>>)
    ensures r.Ok? ==> |r.value.value| == n
    decreases n
  {
    if n == 0 then Ok(Decoded([], s))
    else
      var first :- dec(s);
      var more :- DecodeRawArraySpec(dec, first.rest, n - 1);
      Ok(Decoded([first.value] + more.value, more.rest))
  }

  /** Puts `done` in front of the elements a decoding result carries. */
  function PrependDecoded<T>(done: seq<T>, r: DecodeResult<seq<T>>): DecodeResult<seq<T>>
  {
    match r
    case Ok(d) => Ok(Decoded(done + d.value, d.rest))
    case Err(e) => Err(e)
  }

  lemma PrependNothing<T>(r: DecodeResult<seq<T>>)
    ensures PrependDecoded([], r) == r
  {
    if r.Ok? {
      assert [] + r.value.value == r.value.value;
    }
  }

  /** One more element read off the front: what the decoding loops rely on. */
  lemma DecodeRawArrayStep<T>(dec: seq<uint8> -> DecodeResult<T>, done: seq<T>, s: seq<uint8>, n: nat)
    requires n > 0 && dec(s).Ok?
    ensures PrependDecoded(done, DecodeRawArraySpec(dec, s, n))
         == PrependDecoded(done + [dec(s).value.value], DecodeRawArraySpec(dec, dec(s).value.rest, n - 1))
  {
    var more := DecodeRawArraySpec(dec, dec(s).value.rest, n - 1);
    if more.Ok? {
      assert done + ([dec(s).value.value] + more.value.value) == (done + [dec(s).value.value]) + more.value.value;
    }
  }

  /** The loop of `RawArrayType::decode`, pushing one element per round. */
  method DecodeRawArray<T>(dec: seq<uint8> -> DecodeResult<T>, s: seq<uint8>, n: nat) returns (r: DecodeResult<seq<T>>)
    ensures r == DecodeRawArraySpec(dec, s, n)
  {
    var arr: seq<T> := [];
    var cur := s;
    var i := 0;
    PrependNothing(DecodeRawArraySpec(dec, s, n));
    while i < n
      invariant 0 <= i <= n
      invariant DecodeRawArraySpec(dec, s, n) == PrependDecoded(arr, DecodeRawArraySpec(dec, cur, n - i))
    {
      var d := dec(cur);
      if d.Err? {
        return Err(d.error);
      }
      DecodeRawArrayStep(dec, arr, cur, n - i);
      arr := arr + [d.value.value];
      cur := d.value.rest;
      i := i + 1;
    }
    assert arr + [] == arr;
    r := Ok(Decoded(arr, cur));
  }

  /** Exactly the `|a|` elements written are read back. */
  lemma {:induction false} RawArrayRoundTrip<T(!new)>(enc: T -> seq<uint8>, dec: seq<uint8> -> DecodeResult<T>, a: seq<T>, rest: seq<uint8>)
    requires IsInverse(enc, dec)
    ensures DecodeRawArraySpec(dec, EncodeRawArray(enc, a) + rest, |a|) == Ok(Decoded(a, rest))
    decreases |a|
  {
    if a != [] {
      var tail := EncodeRawArray(enc, a[1..]) + rest;
      assert EncodeRawArray(enc, a) + rest == enc(a[0]) + tail;
      assert dec(enc(a[0]) + tail) == Ok(Decoded(a[0], tail));
      RawArrayRoundTrip(enc, dec, a[1..], rest);
      assert DecodeRawArraySpec(dec, tail, |a| - 1) == Ok(Decoded(a[1..], rest));
      assert [a[0]] + a[1..] == a;
      assert DecodeRawArraySpec(dec, enc(a[0]) + tail, |a|) == Ok(Decoded([a[0]] + a[1..], rest));
    } else {
      assert EncodeRawArray(enc, a) + rest == rest;
    }
  }

  /** `LenArrayType::encode`: the 4-byte length field, then the elements. */
  function EncodeLenArray<T>(enc: T -> seq<uint8>, a: LenArray<T>): seq<uint8>
  {
    EncodeU32(a.len) + EncodeRawArray(enc, a.arr)
  }

  /** `LenArrayType::decode`: reads the length field, then that many elements. */
  function DecodeLenArraySpec<T>(dec: seq<uint8> -> DecodeResult<T>, s: seq<uint8>): (r: DecodeResult<LenArray<T>>)
    ensures r.Ok? ==> |r.value.value.arr| == r.value.value.len
  {
    var l :- DecodeU32(s);
    var items :- DecodeRawArraySpec(dec, l.rest, l.value);
    Ok(Decoded(LenArray(l.value, items.value), items.rest))
  }

  /** The loop of `LenArrayType::decode`. */
  method DecodeLenArray<T>(dec: seq<uint8> -> DecodeResult<T>, s: seq<uint8>) returns (r: DecodeResult<LenArray<T>>)
    ensures r == DecodeLenArraySpec(dec, s)
  {
    var l := DecodeU32(s);
    if l.Err? {
      return Err(l.error);
    }
    var len := l.value.value;
    var arr: seq<T> := [];
    var cur := l.value.rest;
    var i := 0;
    PrependNothing(DecodeRawArraySpec(dec, l.value.rest, len));
    while i < len
      invariant 0 <= i <= len
      invariant DecodeRawArraySpec(dec, l.value.rest, len) == PrependDecoded(arr, DecodeRawArraySpec(dec, cur, len - i))
    {
      var d := dec(cur);
      if d.Err? {
        return Err(d.error);
      }
      DecodeRawArrayStep(dec, arr, cur, len - i);
      arr := arr + [d.value.value];
      cur := d.value.rest;
      i := i + 1;
    }
    assert arr + [] == arr;
    r := Ok(Decoded(LenArray(len, arr), cur));
  }

  /** decode(encode(a)) = a whenever the length field is the element count. */
  lemma LenArrayRoundTrip<T(!new)>(enc: T -> seq<uint8>, dec: seq<uint8> -> DecodeResult<T>, a: LenArray<T>, rest: seq<uint8>)
    requires IsInverse(enc, dec)
    requires a.len == |a.arr|
    ensures DecodeLenArraySpec(dec, EncodeLenArray(enc, a) + rest) == Ok(Decoded(a, rest))
  {
    var tail := EncodeRawArray(enc, a.arr) + rest;
    assert EncodeLenArray(enc, a) + rest == EncodeU32(a.len) + tail;
    U32RoundTrip(a.len, tail);
    RawArrayRoundTrip(enc, dec, a.arr, rest);
  }

  // ------------------------------------------------------------------
  // Structures
  // ------------------------------------------------------------------

  function EncodeHeader(h: CrateHeader): (r: seq<uint8>)
    ensures |r| == 25
  {
    EncodeU8(h.cVersion) + EncodeU32(h.strtableSize) + EncodeU32(h.strtableOffset) + EncodeU32(h.siSize)
      + EncodeU32(h.siOffset) + EncodeU32(h.siNum) + EncodeU32(h.dsOffset)
  }

  function DecodeHeader(s: seq<uint8>): DecodeResult<CrateHeader>
  {
    var v :- DecodeU8(s);
    var a :- DecodeU32(v.rest);
    var b :- DecodeU32(a.rest);
    var c :- DecodeU32(b.rest);
    var d :- DecodeU32(c.rest);
    var e :- DecodeU32(d.rest);
    var f :- DecodeU32(e.rest);
    Ok(Decoded(CrateHeader(v.value, a.value, b.value, c.value, d.value, e.value, f.value), f.rest))
  }

  lemma HeaderRoundTrip(h: CrateHeader, rest: seq<uint8>)
    ensures DecodeHeader(EncodeHeader(h) + rest) == Ok(Decoded(h, rest))
  {
    var r6 := EncodeU32(h.dsOffset) + rest;
    var r5 := EncodeU32(h.siNum) + r6;
    var r4 := EncodeU32(h.siOffset) + r5;
    var r3 := EncodeU32(h.siSize) + r4;
    var r2 := EncodeU32(h.strtableOffset) + r3;
    var r1 := EncodeU32(h.strtableSize) + r2;
    HeaderBytes(h, rest);
    U8RoundTrip(h.cVersion, r1);
    U32RoundTrip(h.strtableSize, r2);
    U32RoundTrip(h.strtableOffset, r3);
    U32RoundTrip(h.siSize, r4);
    U32RoundTrip(h.siOffset, r5);
    U32RoundTrip(h.siNum, r6);
    U32RoundTrip(h.dsOffset, rest);
    HeaderFields(EncodeHeader(h) + rest, r1, r2, r3, r4, r5, r6, h, rest);
  }

  /** The header's bytes regrouped as its first byte followed by the rest of the input. */
  lemma HeaderBytes(h: CrateHeader, rest: seq<uint8>)
    ensures EncodeHeader(h) + rest
      == EncodeU8(h.cVersion) + (EncodeU32(h.strtableSize) + (EncodeU32(h.strtableOffset) + (EncodeU32(h.siSize)
         + (EncodeU32(h.siOffset) + (EncodeU32(h.siNum) + (EncodeU32(h.dsOffset) + rest))))))
  {
  }

  /** Seven field reads in a row that give the fields of `h` decode to `h`. */
  lemma HeaderFields(s: seq<uint8>, r1: seq<uint8>, r2: seq<uint8>, r3: seq<uint8>, r4: seq<uint8>,
                     r5: seq<uint8>, r6: seq<uint8>, h: CrateHeader, rest: seq<uint8>)
    requires DecodeU8(s) == Ok(Decoded(h.cVersion, r1))
    requires DecodeU32(r1) == Ok(Decoded(h.strtableSize, r2))
    requires DecodeU32(r2) == Ok(Decoded(h.strtableOffset, r3))
    requires DecodeU32(r3) == Ok(Decoded(h.siSize, r4))
    requires DecodeU32(r4) == Ok(Decoded(h.siOffset, r5))
    requires DecodeU32(r5) == Ok(Decoded(h.siNum, r6))
    requires DecodeU32(r6) == Ok(Decoded(h.dsOffset, rest))
    ensures DecodeHeader(s) == Ok(Decoded(h, rest))
  {
  }

  function EncodeEntry(e: SectionIndexEntry): (r: seq<uint8>)
    ensures |r| == 9
  {
    EncodeU8(e.shType) + EncodeU32(e.shOffset) + EncodeU32(e.shSize)
  }

  function DecodeEntry(s: seq<uint8>): DecodeResult<SectionIndexEntry>
  {
    var t :- DecodeU8(s);
    var o :- DecodeU32(t.rest);
    var z :- DecodeU32(o.rest);
    Ok(Decoded(SectionIndexEntry(t.value, o.value, z.value), z.rest))
  }

  lemma EntryInverse()
    ensures IsInverse(EncodeEntry, DecodeEntry)
  {
    forall e: SectionIndexEntry, rest: seq<uint8> ensures DecodeEntry(EncodeEntry(e) + rest) == Ok(Decoded(e, rest)) {
      var r2 := EncodeU32(e.shSize) + rest;
      var r1 := EncodeU32(e.shOffset) + r2;
      assert EncodeEntry(e) + rest == EncodeU8(e.shType) + r1;
      U8RoundTrip(e.shType, r1);
      U32RoundTrip(e.shOffset, r2);
      U32RoundTrip(e.shSize, rest);
    }
  }

  /** The derived encoding of `SectionIndex`: its entries back to back. */
  function EncodeSectionIndex(entries: seq<SectionIndexEntry>): (r: seq<uint8>)
    ensures |r| == 9 * |entries|
  {
    RawArrayLength(EncodeEntry, entries, 9);
    EncodeRawArray(EncodeEntry, entries)
  }

  function EncodePackageSection(p: PackageSection): seq<uint8>
  {
    EncodeU32(p.pkgName) + EncodeU32(p.pkgVersion) + EncodeU32(p.pkgLicense) + EncodeLenArray(EncodeU32, p.pkgAuthors)
  }

  function DecodePackageSection(s: seq<uint8>): DecodeResult<PackageSection>
  {
    var n :- DecodeU32(s);
    var v :- DecodeU32(n.rest);
    var l :- DecodeU32(v.rest);
    var a :- DecodeLenArraySpec(DecodeU32, l.rest);
    Ok(Decoded(PackageSection(n.value, v.value, l.value, a.value), a.rest))
  }

  lemma PackageSectionRoundTrip(p: PackageSection, rest: seq<uint8>)
    requires p.pkgAuthors.len == |p.pkgAuthors.arr|
    ensures DecodePackageSection(EncodePackageSection(p) + rest) == Ok(Decoded(p, rest))
  {
    var r3 := EncodeLenArray(EncodeU32, p.pkgAuthors) + rest;
    var r2 := EncodeU32(p.pkgLicense) + r3;
    var r1 := EncodeU32(p.pkgVersion) + r2;
    PackageSectionBytes(p, rest);
    U32RoundTrip(p.pkgName, r1);
    U32RoundTrip(p.pkgVersion, r2);
    U32RoundTrip(p.pkgLicense, r3);
    U32Inverse();
    LenArrayRoundTrip(EncodeU32, DecodeU32, p.pkgAuthors, rest);
    PackageSectionFields(EncodePackageSection(p) + rest, r1, r2, r3, p, rest);
  }

  /** The package section's bytes regrouped as its first field followed by the rest of the input. */
  lemma PackageSectionBytes(p: PackageSection, rest: seq<uint8>)
    ensures EncodePackageSection(p) + rest
      == EncodeU32(p.pkgName) + (EncodeU32(p.pkgVersion) + (EncodeU32(p.pkgLicense) + (EncodeLenArray(EncodeU32, p.pkgAuthors) + rest)))
  {
  }

  /** Four field reads in a row that give the fields of `p` decode to `p`. */
  lemma PackageSectionFields(s: seq<uint8>, r1: seq<uint8>, r2: seq<uint8>, r3: seq<uint8>, p: PackageSection, rest: seq<uint8>)
    requires DecodeU32(s) == Ok(Decoded(p.pkgName, r1))
    requires DecodeU32(r1) == Ok(Decoded(p.pkgVersion, r2))
    requires DecodeU32(r2) == Ok(Decoded(p.pkgLicense, r3))
    requires DecodeLenArraySpec(DecodeU32, r3) == Ok(Decoded(p.pkgAuthors, rest))
    ensures DecodePackageSection(s) == Ok(Decoded(p, rest))
  {
  }

  function EncodeDepTableEntry(e: DepTableEntry): (r: seq<uint8>)
    ensures |r| == 17
  {
    EncodeU32(e.depName) + EncodeU32(e.depVerreq) + EncodeU8(e.depSrctype) + EncodeU32(e.depSrcpath) + EncodeU32(e.depPlatform)
  }

  function DecodeDepTableEntry(s: seq<uint8>): DecodeResult<DepTableEntry>
  {
    var n :- DecodeU32(s);
    var v :- DecodeU32(n.rest);
    var t :- DecodeU8(v.rest);
    var p :- DecodeU32(t.rest);
    var f :- DecodeU32(p.rest);
    Ok(Decoded(DepTableEntry(n.value, v.value, t.value, p.value, f.value), f.rest))
  }

  lemma DepTableEntryInverse()
    ensures IsInverse(EncodeDepTableEntry, DecodeDepTableEntry)
  {
    forall e: DepTableEntry, rest: seq<uint8>
      ensures DecodeDepTableEntry(EncodeDepTableEntry(e) + rest) == Ok(Decoded(e, rest))
    {
      var r4 := EncodeU32(e.depPlatform) + rest;
      var r3 := EncodeU32(e.depSrcpath) + r4;
      var r2 := EncodeU8(e.depSrctype) + r3;
      var r1 := EncodeU32(e.depVerreq) + r2;
      assert EncodeDepTableEntry(e) + rest == EncodeU32(e.depName) + r1;
      U32RoundTrip(e.depName, r1);
      U32RoundTrip(e.depVerreq, r2);
      U8RoundTrip(e.depSrctype, r3);
      U32RoundTrip(e.depSrcpath, r4);
      U32RoundTrip(e.depPlatform, rest);
    }
  }

  function EncodeDepTableSection(d: DepTableSection): seq<uint8>
  {
    EncodeLenArray(EncodeDepTableEntry, d.entries)
  }

  function DecodeDepTableSection(s: seq<uint8>): DecodeResult<DepTableSection>
  {
    var e :- DecodeLenArraySpec(DecodeDepTableEntry, s);
    Ok(Decoded(DepTableSection(e.value), e.rest))
  }

  function EncodeCrateBinarySection(c: CrateBinarySection): seq<uint8>
  {
    EncodeRawArray(EncodeU8, c.bin)
  }

  /** `CrateBinarySection::decode(decoder, size)`: exactly `size` raw bytes. */
  function DecodeCrateBinarySection(s: seq<uint8>, size: nat): DecodeResult<CrateBinarySection>
  {
    var b :- DecodeRawArraySpec(DecodeU8, s, size);
    Ok(Decoded(CrateBinarySection(b.value), b.rest))
  }

  function EncodeSigStructureSection(g: SigStructureSection): seq<uint8>
  {
    EncodeU32(g.sigstructSize) + EncodeU8(g.sigstructType) + EncodeRawArray(EncodeU8, g.sigstructSig)
  }

  /** `SigStructureSection::decode`: a size, a type, then exactly `size` signature bytes. */
  function DecodeSigStructureSection(s: seq<uint8>): (r: DecodeResult<SigStructureSection>)
    ensures r.Ok? ==> |r.value.value.sigstructSig| == r.value.value.sigstructSize
    ensures r.Ok? ==>
      && |s| >= 5 + r.value.value.sigstructSize
      && r.value.value.sigstructSig == s[5..5 + r.value.value.sigstructSize]
      && r.value.rest == s[5 + r.value.value.sigstructSize..]
  {
    var z :- DecodeU32(s);
    var t :- DecodeU8(z.rest);
    var g :- DecodeRawArraySpec(DecodeU8, t.rest, z.value);
    BytesDecodeIsSlice(t.rest, z.value);
    Ok(Decoded(SigStructureSection(z.value, t.value, g.value), g.rest))
  }

  /** Reading `n` raw bytes takes the first `n` bytes of the input. */
  lemma {:induction false} BytesDecodeIsSlice(s: seq<uint8>, n: nat)
    ensures DecodeRawArraySpec(DecodeU8, s, n).Ok? <==> n <= |s|
    ensures n <= |s| ==> DecodeRawArraySpec(DecodeU8, s, n) == Ok(Decoded(s[..n], s[n..]))
    decreases n
  {
    if n > 0 && |s| > 0 {
      BytesDecodeIsSlice(s[1..], n - 1);
      if n <= |s| {
        assert [s[0]] + s[1..][..n - 1] == s[..n];
        assert s[1..][n - 1..] == s[n..];
      }
    }
  }

  /** The encoding of a data section is its payload alone: no variant tag. */
  function EncodeDataSection(d: DataSection): seq<uint8>
  {
    match d
    case PackageSec(p) => EncodePackageSection(p)
    case DepTableSec(t) => EncodeDepTableSection(t)
    case CrateBinarySec(c) => EncodeCrateBinarySection(c)
    case SigStructureSec(g) => EncodeSigStructureSection(g)
  }

  /** Without a tag the variant cannot be read off the bytes: every section
      encodes exactly like a crate-binary section holding its bytes. */
  lemma NoVariantTag(d: DataSection)
    ensures EncodeDataSection(d) == EncodeDataSection(CrateBinarySec(CrateBinarySection(EncodeDataSection(d))))
  {
    RawBytesIdentity(EncodeDataSection(d));
  }

  /** The derived encoding of `DataSectionCollectionType`. */
  function EncodeDataSections(ds: seq<DataSection>): seq<uint8>
  {
    EncodeRawArray(EncodeDataSection, ds)
  }

  /** Where section `i` starts, relative to the start of the data sections. */
  function SectionOffset(ds: seq<DataSection>, i: nat): nat
    requires i <= |ds|
  {
    |EncodeDataSections(ds[..i])|
  }

  lemma SectionOffsetStep(ds: seq<DataSection>, i: nat)
    requires i < |ds|
    ensures SectionOffset(ds, i + 1) == SectionOffset(ds, i) + |EncodeDataSection(ds[i])|
  {
    assert ds[..i + 1] == ds[..i] + [ds[i]];
    RawArrayAppend(EncodeDataSection, ds[..i], ds[i]);
  }

  // ------------------------------------------------------------------
  // DataSectionCollectionType
  // ------------------------------------------------------------------

  /** bincode's `SliceReader::consume`: drops `n` bytes, or everything left. */
  function Skip(s: seq<uint8>, n: nat): (r: seq<uint8>)
    ensures n <= |s| ==> r == s[n..]
    ensures n > |s| ==> r == []
  {
    if n <= |s| then s[n..] else []
  }

  /** One data section of the given type code; an unknown code is refused. */
  function DecodeSection(typeId: int, size: nat, s: seq<uint8>): (r: DecodeResult<DataSection>)
    ensures r.Ok? ==> typeId in {0, 1, 3, 4} && DatasectionType(r.value.value) == typeId
    ensures typeId !in {0, 1, 3, 4} ==> r == Err(Other("file format not right!"))
  {
    if typeId == 0 then
      var p :- DecodePackageSection(s);
      Ok(Decoded(PackageSec(p.value), p.rest))
    else if typeId == 1 then
      var t :- DecodeDepTableSection(s);
      Ok(Decoded(DepTableSec(t.value), t.rest))
    else if typeId == 3 then
      var c :- DecodeCrateBinarySection(s, size);
      Ok(Decoded(CrateBinarySec(c.value), c.rest))
    else if typeId == 4 then
      var g :- DecodeSigStructureSection(s);
      Ok(Decoded(SigStructureSec(g.value), g.rest))
    else
      Err(Other("file format not right!"))
  }

  /** A reader of one data section from its type code, its size field and the input. */
  type SectionReader = (int, nat, seq<uint8>) -> DecodeResult<DataSection>

  /** Where the loop of `DataSectionCollectionType::decode` stands: the sections
      read so far, the unread input, and its `consume_size` counter. */
  datatype ReadState = ReadState(col: seq<DataSection>, reader: seq<uint8>, consume: nat)

  /**
   * One round of that loop for the index entry `e`. An entry whose offset lies
   * behind the counter is refused; one ahead of it is reached by skipping.
   * The counter then moves to the entry's offset plus its size field,
   * whatever the reader actually consumed.
   */
  function ReadStep(dec: SectionReader, st: ReadState, e: SectionIndexEntry): (r: Result<ReadState, DecodeError>)
    ensures st.consume > e.shOffset ==> r == Err(Other("file format not right!"))
    ensures r.Ok? ==> r.value.consume == e.shOffset + e.shSize
  {
    if st.consume > e.shOffset then Err(Other("file format not right!"))
    else
      var r1 := if st.consume < e.shOffset then Skip(st.reader, e.shOffset - st.consume) else st.reader;
      var sec :- dec(e.shType, e.shSize, r1);
      Ok(ReadState(st.col + [sec.value], sec.rest, e.shOffset + e.shSize))
  }

  /** The state after the first `k` entries, reading from `dsBin`. */
  function ReadSections(dec: SectionReader, entries: seq<SectionIndexEntry>, dsBin: seq<uint8>, k: nat): (r: Result<ReadState, DecodeError>)
    requires k <= |entries|
    ensures r.Ok? ==> |r.value.col| == k
    decreases k
  {
    if k == 0 then Ok(ReadState([], dsBin, 0))
    else
      var st :- ReadSections(dec, entries, dsBin, k - 1);
      ReadStep(dec, st, entries[k - 1])
  }

  /** Once a round fails, the whole decoding fails with that error. */
  lemma {:induction false} ReadErrorPersists(dec: SectionReader, entries: seq<SectionIndexEntry>, dsBin: seq<uint8>, k: nat, n: nat)
    requires k <= n <= |entries| && ReadSections(dec, entries, dsBin, k).Err?
    ensures ReadSections(dec, entries, dsBin, n) == Err(ReadSections(dec, entries, dsBin, k).error)
    decreases n - k
  {
    if k < n {
      ReadErrorPersists(dec, entries, dsBin, k, n - 1);
    }
  }

  /** Round `i + 1` is one `ReadStep` after round `i`. */
  lemma ReadSectionsNext(dec: SectionReader, entries: seq<SectionIndexEntry>, dsBin: seq<uint8>, i: nat, st: ReadState)
    requires i < |entries| && ReadSections(dec, entries, dsBin, i) == Ok(st)
    ensures ReadSections(dec, entries, dsBin, i + 1) == ReadStep(dec, st, entries[i])
  {
  }

  /** The loop of `DataSectionCollectionType::decode` over a given section reader. */
  method ReadSectionsLoop(dec: SectionReader, entries: seq<SectionIndexEntry>, dsBin: seq<uint8>) returns (res: Result<seq<DataSection>, DecodeError>)
    ensures res.Ok? <==> ReadSections(dec, entries, dsBin, |entries|).Ok?
    ensures res.Ok? ==> res.value == ReadSections(dec, entries, dsBin, |entries|).value.col
    ensures res.Err? ==> res.error == ReadSections(dec, entries, dsBin, |entries|).error
  {
    var col: seq<DataSection> := [];
    var reader := dsBin;
    var consumeSize: nat := 0;
    var i := 0;
    while i < |entries|
      invariant 0 <= i <= |entries|
      invariant ReadSections(dec, entries, dsBin, i) == Ok(ReadState(col, reader, consumeSize))
    {
      ReadSectionsNext(dec, entries, dsBin, i, ReadState(col, reader, consumeSize));
      var next := ReadRound(dec, col, reader, consumeSize, entries[i]);
      if next.Err? {
        ReadErrorPersists(dec, entries, dsBin, i + 1, |entries|);
        return Err(next.error);
      }
      col, reader, consumeSize := next.value.col, next.value.reader, next.value.consume;
      i := i + 1;
    }
    res := Ok(col);
  }

  /** One round of that loop: the offset check, the skip, the read and the push. */
  method ReadRound(dec: SectionReader, col: seq<DataSection>, reader: seq<uint8>, consumeSize: nat, e: SectionIndexEntry)
    returns (r: Result<ReadState, DecodeError>)
    ensures r == ReadStep(dec, ReadState(col, reader, consumeSize), e)
  {
    var rd, consumed := reader, consumeSize;
    if consumed > e.shOffset {
      return Err(Other("file format not right!"));
    }
    if consumed < e.shOffset {
      rd := Skip(rd, e.shOffset - consumed);
      consumed := e.shOffset;
    }
    var sec := dec(e.shType, e.shSize, rd);
    if sec.Err? {
      return Err(sec.error);
    }
    r := Ok(ReadState(col + [sec.value.value], sec.value.rest, consumed + e.shSize));
  }

  /** `DataSectionCollectionType::decode`: every entry's section, read from the
      data-section bytes `dsBin` with the type dispatch of `DecodeSection`. */
  function DecodeSectionsSpec(entries: seq<SectionIndexEntry>, dsBin: seq<uint8>): (res: Result<seq<DataSection>, DecodeError>)
    ensures res.Ok? ==> |res.value| == |entries|
  {
    var st :- ReadSections(DecodeSection, entries, dsBin, |entries|);
    Ok(st.col)
  }

  method DecodeDataSections(entries: seq<SectionIndexEntry>, dsBin: seq<uint8>) returns (res: Result<seq<DataSection>, DecodeError>)
    ensures res == DecodeSectionsSpec(entries, dsBin)
  {
    res := ReadSectionsLoop(DecodeSection, entries, dsBin);
  }

  /** A reader that only returns sections of the type code it was asked for. */
  ghost predicate KeepsType(dec: SectionReader)
  {
    forall t: int, n: nat, s: seq<uint8> :: dec(t, n, s).Ok? ==> DatasectionType(dec(t, n, s).value.value) == t
  }

  lemma {:induction false} ReadSectionsTypes(dec: SectionReader, entries: seq<SectionIndexEntry>, dsBin: seq<uint8>, k: nat)
    requires KeepsType(dec) && k <= |entries|
    ensures ReadSections(dec, entries, dsBin, k).Ok? ==>
      forall i :: 0 <= i < k ==> DatasectionType(ReadSections(dec, entries, dsBin, k).value.col[i]) == entries[i].shType
    decreases k
  {
    if k > 0 {
      ReadSectionsTypes(dec, entries, dsBin, k - 1);
    }
  }

  /** Each decoded section has the type its index entry names. */
  lemma DecodedSectionTypes(entries: seq<SectionIndexEntry>, dsBin: seq<uint8>)
    ensures DecodeSectionsSpec(entries, dsBin).Ok? ==>
      forall i :: 0 <= i < |entries| ==> DatasectionType(DecodeSectionsSpec(entries, dsBin).value[i]) == entries[i].shType
  {
    forall t: int, n: nat, s: seq<uint8> ensures DecodeSection(t, n, s).Ok? ==> DatasectionType(DecodeSection(t, n, s).value.value) == t {
    }
    ReadSectionsTypes(DecodeSection, entries, dsBin, |entries|);
  }

  /** A section decodes from its own encoding when its length fields are honest. */
  ghost predicate SelfConsistent(d: DataSection)
  {
    match d
    case PackageSec(p) => p.pkgAuthors.len == |p.pkgAuthors.arr|
    case DepTableSec(t) => t.entries.len == |t.entries.arr|
    case CrateBinarySec(_) => true
    case SigStructureSec(g) => g.sigstructSize == |g.sigstructSig|
  }

  lemma SectionRoundTrip(d: DataSection, rest: seq<uint8>)
    requires SelfConsistent(d)
    ensures DecodeSection(DatasectionType(d), |EncodeDataSection(d)|, EncodeDataSection(d) + rest) == Ok(Decoded(d, rest))
  {
    match d
    case PackageSec(p) =>
      PackageSectionRoundTrip(p, rest);
    case DepTableSec(t) =>
      DepTableRoundTrip(t, rest);
    case CrateBinarySec(c) =>
      CrateBinaryRoundTrip(c, rest);
    case SigStructureSec(g) =>
      SigStructureRoundTrip(g, rest);
  }

  lemma DepTableRoundTrip(t: DepTableSection, rest: seq<uint8>)
    requires t.entries.len == |t.entries.arr|
    ensures DecodeDepTableSection(EncodeDepTableSection(t) + rest) == Ok(Decoded(t, rest))
  {
    DepTableEntryInverse();
    LenArrayRoundTrip(EncodeDepTableEntry, DecodeDepTableEntry, t.entries, rest);
  }

  lemma CrateBinaryRoundTrip(c: CrateBinarySection, rest: seq<uint8>)
    ensures |EncodeCrateBinarySection(c)| == |c.bin|
    ensures DecodeCrateBinarySection(EncodeCrateBinarySection(c) + rest, |c.bin|) == Ok(Decoded(c, rest))
  {
    RawBytesIdentity(c.bin);
    BytesDecodeIsSlice(EncodeCrateBinarySection(c) + rest, |c.bin|);
    assert (c.bin + rest)[..|c.bin|] == c.bin && (c.bin + rest)[|c.bin|..] == rest;
  }

  lemma SigStructureRoundTrip(g: SigStructureSection, rest: seq<uint8>)
    requires g.sigstructSize == |g.sigstructSig|
    ensures DecodeSigStructureSection(EncodeSigStructureSection(g) + rest) == Ok(Decoded(g, rest))
  {
    var r2 := EncodeRawArray(EncodeU8, g.sigstructSig) + rest;
    var r1 := EncodeU8(g.sigstructType) + r2;
    assert EncodeSigStructureSection(g) + rest == EncodeU32(g.sigstructSize) + r1;
    U32RoundTrip(g.sigstructSize, r1);
    U8RoundTrip(g.sigstructType, r2);
    RawBytesIdentity(g.sigstructSig);
    BytesDecodeIsSlice(r2, g.sigstructSize);
    assert (g.sigstructSig + rest)[..|g.sigstructSig|] == g.sigstructSig;
    assert (g.sigstructSig + rest)[|g.sigstructSig|..] == rest;
  }

  /** The index describes the sections: one entry per section, in order, with
      its type code, its running offset and its encoded size. */
  ghost predicate IndexDescribes(si: seq<SectionIndexEntry>, ds: seq<DataSection>)
  {
    && |si| == |ds|
    && forall i :: 0 <= i < |ds| ==>
         && si[i].shType == DatasectionType(ds[i])
         && si[i].shOffset == SectionOffset(ds, i)
         && si[i].shSize == |EncodeDataSection(ds[i])|
  }

  /** A reader that inverts the section encoder on self-consistent sections. */
  ghost predicate ReadsBack(dec: SectionReader)
  {
    forall d: DataSection, rest: seq<uint8> :: SelfConsistent(d) ==>
      dec(DatasectionType(d), |EncodeDataSection(d)|, EncodeDataSection(d) + rest) == Ok(Decoded(d, rest))
  }

  lemma DecodeSectionReadsBack()
    ensures ReadsBack(DecodeSection)
  {
    forall d: DataSection, rest: seq<uint8> | SelfConsistent(d)
      ensures DecodeSection(DatasectionType(d), |EncodeDataSection(d)|, EncodeDataSection(d) + rest) == Ok(Decoded(d, rest))
    {
      SectionRoundTrip(d, rest);
    }
  }

  /** The section at `k` is read back from where the encoding of the rest starts. */
  lemma ReadsBackAt(dec: SectionReader, si: seq<SectionIndexEntry>, ds: seq<DataSection>, k: nat, rest: seq<uint8>)
    requires ReadsBack(dec)
    requires IndexDescribes(si, ds) && k < |ds|
    requires forall i :: 0 <= i < |ds| ==> SelfConsistent(ds[i])
    ensures dec(si[k].shType, si[k].shSize, EncodeDataSections(ds[k..]) + rest)
         == Ok(Decoded(ds[k], EncodeDataSections(ds[k + 1..]) + rest))
  {
    var d := ds[k];
    var tail := EncodeDataSections(ds[k + 1..]) + rest;
    assert ds[k..][1..] == ds[k + 1..];
    assert EncodeDataSections(ds[k..]) + rest == EncodeDataSection(d) + tail;
    assert SelfConsistent(d);
  }

  /** One round of the loop on an encoding the index describes. */
  lemma ReadStepRoundTrip(dec: SectionReader, si: seq<SectionIndexEntry>, ds: seq<DataSection>, k: nat, rest: seq<uint8>)
    requires ReadsBack(dec)
    requires IndexDescribes(si, ds) && k < |ds|
    requires forall i :: 0 <= i < |ds| ==> SelfConsistent(ds[i])
    ensures ReadStep(dec, ReadState(ds[..k], EncodeDataSections(ds[k..]) + rest, SectionOffset(ds, k)), si[k])
         == Ok(ReadState(ds[..k + 1], EncodeDataSections(ds[k + 1..]) + rest, SectionOffset(ds, k + 1)))
  {
    ReadsBackAt(dec, si, ds, k, rest);
    SectionOffsetStep(ds, k);
    assert ds[..k] + [ds[k]] == ds[..k + 1];
  }

  lemma {:induction false} ReadSectionsRoundTrip(dec: SectionReader, si: seq<SectionIndexEntry>, ds: seq<DataSection>, k: nat, rest: seq<uint8>)
    requires ReadsBack(dec)
    requires IndexDescribes(si, ds) && k <= |ds|
    requires forall i :: 0 <= i < |ds| ==> SelfConsistent(ds[i])
    ensures ReadSections(dec, si, EncodeDataSections(ds) + rest, k) == Ok(ReadState(ds[..k], EncodeDataSections(ds[k..]) + rest, SectionOffset(ds, k)))
    decreases k
  {
    if k == 0 {
      assert ds[0..] == ds;
    } else {
      ReadSectionsRoundTrip(dec, si, ds, k - 1, rest);
      ReadStepRoundTrip(dec, si, ds, k - 1, rest);
    }
  }

  /** The sections read back from their own encoding, laid out as the index says. */
  lemma DecodeSectionsRoundTrip(si: seq<SectionIndexEntry>, ds: seq<DataSection>, rest: seq<uint8>)
    requires IndexDescribes(si, ds)
    requires forall i :: 0 <= i < |ds| ==> SelfConsistent(ds[i])
    ensures DecodeSectionsSpec(si, EncodeDataSections(ds) + rest) == Ok(ds)
  {
    DecodeSectionReadsBack();
    ReadSectionsRoundTrip(DecodeSection, si, ds, |ds|, rest);
    assert ds[..|ds|] == ds;
  }

  /** `encode_size_offset`: each section's encoded size with its running offset from 0. */
  method EncodeSizeOffset(ds: seq<DataSection>) returns (v: seq<(nat, nat)>)
    ensures |v| == |ds|
    ensures forall i :: 0 <= i < |ds| ==> v[i] == (|EncodeDataSection(ds[i])|, SectionOffset(ds, i))
  {
    v := [];
    var offset: nat := 0;
    var i := 0;
    while i < |ds|
      invariant 0 <= i <= |ds|
      invariant |v| == i
      invariant offset == SectionOffset(ds, i)
      invariant forall j :: 0 <= j < i ==> v[j] == (|EncodeDataSection(ds[j])|, SectionOffset(ds, j))
    {
      var size := |EncodeDataSection(ds[i])|;
      v := v + [(size, offset)];
      SectionOffsetStep(ds, i);
      offset := offset + size;
      i := i + 1;
    }
  }

  /** `DataSectionCollectionType::encode_fake_to_vec`: the encoding cut to `truncLen` bytes. */
  method EncodeFakeSections(ds: seq<DataSection>, truncLen: nat) returns (buf: seq<uint8>)
    ensures |buf| == Min(truncLen, |EncodeDataSections(ds)|)
    ensures buf == EncodeDataSections(ds)[..|buf|]
  {
    buf := EncodeDataSections(ds);
    if truncLen < |buf| {
      buf := buf[..truncLen];
    }
  }

  // ------------------------------------------------------------------
  // SectionIndex accounting
  // ------------------------------------------------------------------

  /** Entries that are not signature sections. */
  function CountNonSig(entries: seq<SectionIndexEntry>): (r: nat)
    ensures r <= |entries|
    decreases |entries|
  {
    if entries == [] then 0
    else (if entries[0].shType != SIG_TYPE then 1 else 0) + CountNonSig(entries[1..])
  }

  /** Entries that are signature sections. */
  function CountSig(entries: seq<SectionIndexEntry>): nat
    decreases |entries|
  {
    if entries == [] then 0
    else (if entries[0].shType == SIG_TYPE then 1 else 0) + CountSig(entries[1..])
  }

  lemma {:induction false} CountsPartition(entries: seq<SectionIndexEntry>)
    ensures CountNonSig(entries) + CountSig(entries) == |entries|
    decreases |entries|
  {
    if entries != [] {
      CountsPartition(entries[1..]);
    }
  }

  lemma {:induction false} CountNonSigAppend(entries: seq<SectionIndexEntry>, e: SectionIndexEntry)
    ensures CountNonSig(entries + [e]) == CountNonSig(entries) + (if e.shType != SIG_TYPE then 1 else 0)
    decreases |entries|
  {
    if entries == [] {
      assert [e][1..] == [];
    } else {
      assert (entries + [e])[1..] == entries[1..] + [e];
      CountNonSigAppend(entries[1..], e);
    }
  }

  /** `none_sig_num`: an accumulator over the entries. */
  method NoneSigNum(entries: seq<SectionIndexEntry>) returns (total: nat)
    ensures total == CountNonSig(entries)
  {
    total := 0;
    var i := 0;
    while i < |entries|
      invariant 0 <= i <= |entries|
      invariant total == CountNonSig(entries[..i])
    {
      assert entries[..i + 1] == entries[..i] + [entries[i]];
      CountNonSigAppend(entries[..i], entries[i]);
      if entries[i].shType != SIG_TYPE {
        total := total + 1;
      }
      i := i + 1;
    }
    assert entries[..i] == entries;
  }

  /** `none_sig_size`: the encoded size of the non-signature entries, 9 bytes each. */
  method NoneSigSize(entries: seq<SectionIndexEntry>) returns (total: nat)
    ensures total == 9 * CountNonSig(entries)
  {
    total := 0;
    var i := 0;
    while i < |entries|
      invariant 0 <= i <= |entries|
      invariant total == 9 * CountNonSig(entries[..i])
    {
      assert entries[..i + 1] == entries[..i] + [entries[i]];
      CountNonSigAppend(entries[..i], entries[i]);
      if entries[i].shType != SIG_TYPE {
        total := total + |EncodeEntry(entries[i])|;
      }
      i := i + 1;
    }
    assert entries[..i] == entries;
  }

  /** `sig_num`: all entries minus the non-signature ones, i.e. the signature entries. */
  function SigNum(entries: seq<SectionIndexEntry>): (r: nat)
    ensures r == CountSig(entries)
  {
    CountsPartition(entries);
    |entries| - CountNonSig(entries)
  }

  /** `sig_size`: the index size minus the non-signature part. */
  function SigSize(entries: seq<SectionIndexEntry>): (r: nat)
    ensures r == 9 * CountSig(entries)
  {
    CountsPartition(entries);
    |EncodeSectionIndex(entries)| - 9 * CountNonSig(entries)
  }

  /** `SectionIndex::encode_fake_to_vec`: the first `noSigSize` encoded bytes,
      then zeros up to `size`; the subtraction `size - noSigSize` panics (None)
      when `size` is the smaller. */
  method EncodeFakeIndex(entries: seq<SectionIndexEntry>, noSigSize: nat, size: nat) returns (r: Option<seq<uint8>>)
    ensures r.Some? <==> noSigSize <= size
    ensures r.Some? ==> var keep := Min(noSigSize, 9 * |entries|);
      && |r.value| == keep + (size - noSigSize)
      && r.value[..keep] == EncodeSectionIndex(entries)[..keep]
      && forall i :: keep <= i < |r.value| ==> r.value[i] == 0
    ensures r.Some? && noSigSize <= 9 * |entries| ==> |r.value| == size
  {
    var buf := EncodeSectionIndex(entries);
    if noSigSize < |buf| {
      buf := buf[..noSigSize];
    }
    if size < noSigSize {
      return None;
    }
    buf := buf + seq(size - noSigSize, _ => 0);
    r := Some(buf);
  }

  /** `datasection_size_without_sig`: where entry `none_sig_num - 1` ends. That
      is the last non-signature entry only when those entries come first, as
      the encoder lays them out (`RoundTrip.ShapedIndex`). None when there is no
      non-signature entry (the index `none_sig_num - 1` underflows) or when the
      u32 sum overflows. */
  function DatasectionSizeWithoutSig(entries: seq<SectionIndexEntry>): (r: Option<nat>)
    ensures r.Some? <==>
      (CountNonSig(entries) > 0 && entries[CountNonSig(entries) - 1].shOffset + entries[CountNonSig(entries) - 1].shSize < U32_LIMIT)
    ensures r.Some? ==> r.value == entries[CountNonSig(entries) - 1].shOffset + entries[CountNonSig(entries) - 1].shSize
  {
    var n := CountNonSig(entries);
    if n == 0 then None
    else
      var e := entries[n - 1];
      if e.shOffset + e.shSize >= U32_LIMIT then None else Some(e.shOffset + e.shSize)
  }

  // ------------------------------------------------------------------
  // CratePackage
  // ------------------------------------------------------------------

  /** The derived encoding of `CratePackage`, fields in declaration order. */
  function EncodeCratePackage(p: CratePackage): seq<uint8>
  {
    EncodeRawArray(EncodeU8, p.magicNumber) + EncodeHeader(p.crateHeader) + EncodeRawArray(EncodeU8, p.stringTable)
      + EncodeSectionIndex(p.sectionIndex) + EncodeDataSections(p.dataSections) + EncodeRawArray(EncodeU8, p.fingerPrint)
  }

  /** The file layout as bytes: magic, header, string table, index, sections, trailer. */
  lemma EncodeCratePackageLayout(p: CratePackage)
    ensures EncodeCratePackage(p) == p.magicNumber + EncodeHeader(p.crateHeader) + p.stringTable
      + EncodeSectionIndex(p.sectionIndex) + EncodeDataSections(p.dataSections) + p.fingerPrint
    ensures |EncodeCratePackage(p)| == 30 + |p.stringTable| + 9 * |p.sectionIndex| + |EncodeDataSections(p.dataSections)| + 32
  {
    RawBytesIdentity(p.magicNumber);
    RawBytesIdentity(p.stringTable);
    RawBytesIdentity(p.fingerPrint);
  }

  /** `is_magic_number`: compares the five bytes one by one. */
  method IsMagicNumber(mn: MagicNumber) returns (b: bool)
    ensures b <==> mn == MAGIC_NUMBER
  {
    var i := 0;
    while i < MAGIC_NUMBER_LEN
      invariant 0 <= i <= MAGIC_NUMBER_LEN
      invariant mn[..i] == MAGIC_NUMBER[..i]
    {
      if mn[i] != MAGIC_NUMBER[i] {
        return false;
      }
      assert mn[..i + 1] == mn[..i] + [mn[i]];
      assert MAGIC_NUMBER[..i + 1] == MAGIC_NUMBER[..i] + [MAGIC_NUMBER[i]];
      i := i + 1;
    }
    assert mn == mn[..5];
    return true;
  }

  /** The string-table region the header points at, bounds-checked with a u32 sum. */
  function StringTableRegion(bin: seq<uint8>, h: CrateHeader): (r: Result<seq<uint8>, DecodeError>)
    ensures r.Ok? <==> h.strtableSize + h.strtableOffset < Min(|bin|, U32_LIMIT)
    ensures r.Ok? ==> r.value == bin[h.strtableOffset..h.strtableOffset + h.strtableSize]
    ensures h.strtableSize + h.strtableOffset < U32_LIMIT && |bin| <= h.strtableSize + h.strtableOffset
      ==> r == Err(Other("file format not right! - strtable"))
  {
    if h.strtableSize + h.strtableOffset >= U32_LIMIT then Err(Abort)
    else if !(|bin| > h.strtableSize + h.strtableOffset) then Err(Other("file format not right! - strtable"))
    else Ok(bin[h.strtableOffset..h.strtableSize + h.strtableOffset])
  }

  /** The section index: `si_num` entries decoded from the region the header points at. */
  function SectionIndexRegion(bin: seq<uint8>, h: CrateHeader): (r: Result<seq<SectionIndexEntry>, DecodeError>)
    ensures r.Ok? ==> h.siOffset + h.siSize < Min(|bin|, U32_LIMIT) && |r.value| == h.siNum
    ensures h.siOffset + h.siSize < U32_LIMIT && |bin| <= h.siOffset + h.siSize
      ==> r == Err(Other("file format not right! - si"))
  {
    if h.siOffset + h.siSize >= U32_LIMIT then Err(Abort)
    else if !(|bin| > h.siOffset + h.siSize) then Err(Other("file format not right! - si"))
    else
      var si :- DecodeRawArraySpec(DecodeEntry, bin[h.siOffset..h.siOffset + h.siSize], h.siNum);
      Ok(si.value)
  }

  /** The data sections, read from the data-section offset to the end of the input. */
  function DataSectionRegion(bin: seq<uint8>, h: CrateHeader, si: seq<SectionIndexEntry>): (r: Result<seq<DataSection>, DecodeError>)
    ensures r.Ok? ==> h.dsOffset < |bin| && |r.value| == |si|
    ensures |bin| <= h.dsOffset ==> r == Err(Other("file format not right! - ds"))
  {
    if !(|bin| > h.dsOffset) then Err(Other("file format not right! - ds"))
    else DecodeSectionsSpec(si, bin[h.dsOffset..])
  }

  /** Everything after the header: the three regions and the 32-byte trailer. */
  function DecodeRegions(bin: seq<uint8>, h: CrateHeader): (r: Result<CratePackage, DecodeError>)
    requires |bin| >= 5 && bin[..5] == MAGIC_NUMBER
  {
    var stringTable :- StringTableRegion(bin, h);
    var si :- SectionIndexRegion(bin, h);
    var ds :- DataSectionRegion(bin, h, si);
    if |bin| < FINGERPRINT_LEN then Err(Abort)
    else Ok(CratePackage(bin[..5], h, stringTable, si, ds, bin[|bin| - FINGERPRINT_LEN..]))
  }

  /**
   * `CratePackage::decode`: the magic, the header, then the string table,
   * the section index and the data sections, each region bounds-checked
   * against the input first, and the last 32 bytes as the fingerprint.
   */
  function DecodeCratePackage(bin: seq<uint8>): (r: Result<CratePackage, DecodeError>)
    ensures |bin| < 5 ==> r == Err(Abort)
    ensures r.Ok? ==> |bin| >= FINGERPRINT_LEN && bin[..5] == MAGIC_NUMBER && r.value.magicNumber == MAGIC_NUMBER
    ensures |bin| >= 5 && bin[..5] != MAGIC_NUMBER ==> r == Err(Other("magic not right!"))
    ensures r.Ok? ==>
      var h := r.value.crateHeader;
      && h.strtableOffset + h.strtableSize < |bin|
      && r.value.stringTable == bin[h.strtableOffset..h.strtableOffset + h.strtableSize]
      && h.siOffset + h.siSize < |bin|
      && |r.value.sectionIndex| == h.siNum
      && h.dsOffset < |bin|
      && |r.value.dataSections| == |r.value.sectionIndex|
    ensures r.Ok? ==> r.value.fingerPrint == bin[|bin| - FINGERPRINT_LEN..]
  {
    if |bin| < 5 then Err(Abort)
    else if bin[..5] != MAGIC_NUMBER then Err(Other("magic not right!"))
    else
      var hd :- DecodeHeader(bin[5..]);
      DecodeRegions(bin, hd.value)
  }

  /** `CratePackage::decode_from_slice`: container messages pass through,
      every other decoding error becomes one generic message. */
  function DecodeFromSlice(bin: seq<uint8>): (r: Result<CratePackage, Failure>)
    ensures r.Ok? <==> DecodeCratePackage(bin).Ok?
    ensures r.Ok? ==> r.value == DecodeCratePackage(bin).value
    ensures DecodeCratePackage(bin) == Err(UnexpectedEnd) ==> r == Err(Message("file format not right! - others"))
    ensures DecodeCratePackage(bin) == Err(Abort) ==> r == Err(Panic)
  {
    match DecodeCratePackage(bin)
    case Ok(p) => Ok(p)
    case Err(Other(s)) => Err(Message(s))
    case Err(UnexpectedEnd) => Err(Message("file format not right! - others"))
    case Err(Abort) => Err(Panic)
  }

  /** The layout an encoder must produce for the decoder to read it back:
      contiguous regions after the 5-byte magic and the 25-byte header, and
      an index that describes the sections. */
  ghost predicate ConsistentLayout(p: CratePackage)
  {
    var h := p.crateHeader;
    && p.magicNumber == MAGIC_NUMBER
    && h.strtableOffset == 30
    && h.strtableSize == |p.stringTable|
    && h.siOffset == h.strtableOffset + h.strtableSize
    && h.siNum == |p.sectionIndex|
    && h.siSize == 9 * |p.sectionIndex|
    && h.dsOffset == h.siOffset + h.siSize
    && IndexDescribes(p.sectionIndex, p.dataSections)
    && forall i :: 0 <= i < |p.dataSections| ==> SelfConsistent(p.dataSections[i])
  }

  /** Slices of six regions laid end to end. */
  lemma SixRegions(M: seq<uint8>, H: seq<uint8>, S: seq<uint8>, I: seq<uint8>, D: seq<uint8>, F: seq<uint8>)
    requires |M| == 5 && |H| == 25 && |F| == 32
    ensures var bin := M + H + S + I + D + F;
      && |bin| == 30 + |S| + |I| + |D| + 32
      && bin[..5] == M
      && bin[5..] == H + bin[30..]
      && bin[30..30 + |S|] == S
      && bin[30 + |S|..30 + |S| + |I|] == I
      && bin[30 + |S| + |I|..] == D + F
      && bin[|bin| - 32..] == F
  {
    var X1 := M + H;
    var X2 := X1 + S;
    var X3 := X2 + I;
    var X4 := X3 + D;
    var bin := X4 + F;
    assert bin[..5] == M by { assert bin[..5] == X4[..5] == X3[..5] == X2[..5] == X1[..5]; }
    assert bin[30..30 + |S|] == S by { assert bin[30..30 + |S|] == X4[30..30 + |S|] == X3[30..30 + |S|] == X2[30..30 + |S|]; }
    assert bin[|X2|..|X3|] == I by { assert bin[|X2|..|X3|] == X4[|X2|..|X3|] == X3[|X2|..|X3|]; }
    assert bin[|X3|..] == D + F by { assert bin[|X3|..] == X4[|X3|..] + F; }
    assert bin[5..] == H + bin[30..] by {
      assert bin[5..30] == H by { assert bin[5..30] == X4[5..30] == X3[5..30] == X2[5..30] == X1[5..30]; }
      assert bin[5..] == bin[5..30] + bin[30..];
    }
  }

  /** Where the regions of an encoded package lie. */
  lemma EncodedRegions(p: CratePackage)
    ensures var bin := EncodeCratePackage(p);
      var s, i := |p.stringTable|, 9 * |p.sectionIndex|;
      && |bin| == 30 + s + i + |EncodeDataSections(p.dataSections)| + 32
      && bin[..5] == p.magicNumber
      && bin[5..] == EncodeHeader(p.crateHeader) + bin[30..]
      && bin[30..30 + s] == p.stringTable
      && bin[30 + s..30 + s + i] == EncodeSectionIndex(p.sectionIndex)
      && bin[30 + s + i..] == EncodeDataSections(p.dataSections) + p.fingerPrint
      && bin[|bin| - 32..] == p.fingerPrint
  {
    EncodeCratePackageLayout(p);
    SixRegions(p.magicNumber, EncodeHeader(p.crateHeader), p.stringTable,
      EncodeSectionIndex(p.sectionIndex), EncodeDataSections(p.dataSections), p.fingerPrint);
  }

  /** A region laid out at the offset and with the size the header records is
      what the string-table check hands back. */
  lemma StringTableRegionAt(bin: seq<uint8>, S: seq<uint8>, h: CrateHeader)
    requires h.strtableOffset + h.strtableSize < |bin| && h.strtableSize == |S|
    requires bin[h.strtableOffset..h.strtableOffset + h.strtableSize] == S
    requires h.strtableOffset + h.strtableSize < U32_LIMIT
    ensures StringTableRegion(bin, h) == Ok(S)
  {
  }

  lemma SectionIndexRegionAt(bin: seq<uint8>, si: seq<SectionIndexEntry>, h: CrateHeader)
    requires h.siOffset + h.siSize < |bin| && h.siSize == 9 * |si| && h.siNum == |si|
    requires bin[h.siOffset..h.siOffset + h.siSize] == EncodeSectionIndex(si)
    requires h.siOffset + h.siSize < U32_LIMIT
    ensures SectionIndexRegion(bin, h) == Ok(si)
  {
    IndexRoundTrip(si);
  }

  /** An encoded index reads back as exactly its entries. */
  lemma IndexRoundTrip(si: seq<SectionIndexEntry>)
    ensures DecodeRawArraySpec(DecodeEntry, EncodeSectionIndex(si), |si|) == Ok(Decoded(si, []))
  {
    var I := EncodeSectionIndex(si);
    EntryInverse();
    RawArrayRoundTrip(EncodeEntry, DecodeEntry, si, []);
    assert I + [] == I;
  }

  lemma DataSectionRegionAt(bin: seq<uint8>, si: seq<SectionIndexEntry>, ds: seq<DataSection>, post: seq<uint8>, h: CrateHeader)
    requires h.dsOffset < |bin| && bin[h.dsOffset..] == EncodeDataSections(ds) + post
    requires IndexDescribes(si, ds)
    requires forall i :: 0 <= i < |ds| ==> SelfConsistent(ds[i])
    ensures DataSectionRegion(bin, h, si) == Ok(ds)
  {
    DecodeSectionsRoundTrip(si, ds, post);
  }

  /** `CratePackage::decode` succeeds when each of its stages does. */
  lemma DecodeCratePackageStages(bin: seq<uint8>, h: CrateHeader, st: seq<uint8>, si: seq<SectionIndexEntry>, ds: seq<DataSection>)
    requires |bin| >= FINGERPRINT_LEN && bin[..5] == MAGIC_NUMBER
    requires DecodeHeader(bin[5..]).Ok? && DecodeHeader(bin[5..]).value.value == h
    requires StringTableRegion(bin, h) == Ok(st)
    requires SectionIndexRegion(bin, h) == Ok(si)
    requires DataSectionRegion(bin, h, si) == Ok(ds)
    ensures DecodeCratePackage(bin) == Ok(CratePackage(MAGIC_NUMBER, h, st, si, ds, bin[|bin| - FINGERPRINT_LEN..]))
  {
  }

  lemma EncodedHeaderStage(p: CratePackage)
    requires ConsistentLayout(p)
    ensures |EncodeCratePackage(p)| >= FINGERPRINT_LEN && EncodeCratePackage(p)[..5] == MAGIC_NUMBER
    ensures DecodeHeader(EncodeCratePackage(p)[5..]).Ok? && DecodeHeader(EncodeCratePackage(p)[5..]).value.value == p.crateHeader
    ensures EncodeCratePackage(p)[|EncodeCratePackage(p)| - FINGERPRINT_LEN..] == p.fingerPrint
  {
    EncodedRegions(p);
    var bin := EncodeCratePackage(p);
    HeaderRoundTrip(p.crateHeader, bin[30..]);
  }

  lemma EncodedStringTableStage(p: CratePackage)
    requires ConsistentLayout(p)
    ensures StringTableRegion(EncodeCratePackage(p), p.crateHeader) == Ok(p.stringTable)
  {
    EncodedRegions(p);
    StringTableRegionAt(EncodeCratePackage(p), p.stringTable, p.crateHeader);
  }

  lemma EncodedSectionIndexStage(p: CratePackage)
    requires ConsistentLayout(p)
    ensures SectionIndexRegion(EncodeCratePackage(p), p.crateHeader) == Ok(p.sectionIndex)
  {
    EncodedRegions(p);
    var h := p.crateHeader;
    var st, si := |p.stringTable|, 9 * |p.sectionIndex|;
    assert h.siOffset == 30 + st && h.siOffset + h.siSize == 30 + st + si;
    SectionIndexRegionAt(EncodeCratePackage(p), p.sectionIndex, h);
  }

  lemma EncodedDataSectionStage(p: CratePackage)
    requires ConsistentLayout(p)
    ensures DataSectionRegion(EncodeCratePackage(p), p.crateHeader, p.sectionIndex) == Ok(p.dataSections)
  {
    EncodedRegions(p);
    var h := p.crateHeader;
    assert h.dsOffset == 30 + |p.stringTable| + 9 * |p.sectionIndex|;
    DataSectionRegionAt(EncodeCratePackage(p), p.sectionIndex, p.dataSections, p.fingerPrint, h);
  }

  /** The structural decoder inverts the encoder on every consistently laid-out package. */
  lemma DecodeEncodeIdentity(p: CratePackage)
    requires ConsistentLayout(p)
    ensures |EncodeCratePackage(p)| >= FINGERPRINT_LEN
    ensures DecodeCratePackage(EncodeCratePackage(p)) == Ok(p)
  {
    EncodedHeaderStage(p);
    EncodedStringTableStage(p);
    EncodedSectionIndexStage(p);
    EncodedDataSectionStage(p);
    DecodeCratePackageStages(EncodeCratePackage(p), p.crateHeader, p.stringTable, p.sectionIndex, p.dataSections);
  }
}
