/**
 * The `Encode`/`Decode` entry points for `RawArrayType`: a raw array is
 * written as its elements back to back, and read back by counting how many
 * elements of the type's width fit in the input.
 */
module Bin {
  import opened Basics
  import opened Bincode

  /**
   * `RawArrayType::decode`: reads `|bin| / width` elements (`width` being
   * `size_of::<T>()`) and ignores what is left; a failed element read is an
   * `unwrap` panic, and so is a zero width (a division by zero). Both are None.
   */
  function DecodeRaw<T>(dec: seq<uint8> -> DecodeResult<T>, width: nat, bin: seq<uint8>): (r: Option<seq<T>>)
    ensures width == 0 ==> r.None?
    ensures r.Some? ==> |r.value| == |bin| / width
  {
    if width == 0 then None
    else
      match DecodeRawArraySpec(dec, bin, |bin| / width)
      case Ok(d) => Some(d.value)
      case Err(_) => None
  }

  /**
   * `RawArrayType::decode` as the program runs it: the width check and the
   * element count here, then the push loop of `Bincode.DecodeRawArray`.
   */
  method DecodeRawLoop<T>(dec: seq<uint8> -> DecodeResult<T>, width: nat, bin: seq<uint8>) returns (r: Option<seq<T>>)
    ensures r == DecodeRaw(dec, width, bin)
  {
    if width == 0 {
      return None;
    }
    var len := |bin| / width;
    var d := DecodeRawArray(dec, bin, len);
    if d.Err? {
      return None;
    }
    r := Some(d.value.value);
  }

  /**
   * For elements of fixed width `w`, decoding inverts encoding, and fewer
   * than `w` trailing bytes are ignored.
   */
  lemma RawRoundTrip<T(!new)>(enc: T -> seq<uint8>, dec: seq<uint8> -> DecodeResult<T>, w: nat, a: seq<T>, extra: seq<uint8>)
    requires IsInverse(enc, dec)
    requires forall x: T :: |enc(x)| == w
    requires 0 < w && |extra| < w
    ensures DecodeRaw(dec, w, EncodeRawArray(enc, a) + extra) == Some(a)
  {
    var bin := EncodeRawArray(enc, a) + extra;
    RawArrayLength(enc, a, w);
    assert |bin| == w * |a| + |extra|;
    assert |bin| / w == |a| by {
      DivOfMultiplePlus(w, |a|, |extra|);
    }
    RawArrayRoundTrip(enc, dec, a, extra);
  }

  lemma DivOfMultiplePlus(w: nat, n: nat, e: nat)
    requires 0 <= e < w
    ensures (w * n + e) / w == n
  {
    var x := w * n + e;
    var q := x / w;
    assert w * q + x % w == x;
    assert w * (n + 1) == w * n + w;
    assert w * (q + 1) == w * q + w;
    MulMonotone(w, n + 1, q);
    MulMonotone(w, q + 1, n);
  }

  lemma MulMonotone(w: nat, a: nat, b: nat)
    ensures a <= b ==> w * a <= w * b
  {
    if a <= b {
      assert w * b == w * a + w * (b - a);
    }
  }

  /** A byte array decodes to exactly its input, so reading then writing is the identity. */
  lemma BytesDecodeAll(bin: seq<uint8>)
    ensures DecodeRaw(DecodeU8, 1, bin) == Some(bin)
    ensures EncodeRawArray(EncodeU8, DecodeRaw(DecodeU8, 1, bin).value) == bin
  {
    BytesDecodeIsSlice(bin, |bin|);
    assert bin[..|bin|] == bin;
    RawBytesIdentity(bin);
  }

  /** A byte array written then read comes back unchanged. */
  lemma BytesRoundTrip(a: seq<uint8>)
    ensures DecodeRaw(DecodeU8, 1, EncodeRawArray(EncodeU8, a)) == Some(a)
  {
    RawBytesIdentity(a);
    BytesDecodeAll(a);
  }

  /** A `u32` array written then read comes back unchanged. */
  lemma U32sRoundTrip(a: seq<uint32>)
    ensures DecodeRaw(DecodeU32, 4, EncodeRawArray(EncodeU32, a)) == Some(a)
  {
    U32Inverse();
    RawRoundTrip(EncodeU32, DecodeU32, 4, a, []);
    assert EncodeRawArray(EncodeU32, a) + [] == EncodeRawArray(EncodeU32, a);
  }
}
