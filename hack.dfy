/**
 * The fixture mutator that corrupts a packed `.scrate` file for the decoder
 * tests. Mode 0 splices three bytes into the body and keeps the old
 * trailer; any other mode drops the trailer, overwrites byte 400 and
 * appends a fresh digest, so the fingerprint check passes again.
 */
module Hack {
  import opened Basics
  import opened Package
  import opened Decode

  const SPLICE_FROM: nat := 200
  const SPLICE_TO: nat := 202
  const SPLICED: seq<uint8> := [10, 20, 30]
  const PATCHED_AT: nat := 400
  const PATCH: uint8 := 0x52

  /** `bin[200:202] = [10, 20, 30]`, with Python's clamping of the slice bounds. */
  function Splice(bin: seq<uint8>): (r: seq<uint8>)
    ensures |r| == |bin| + 3 - (Min(SPLICE_TO, |bin|) - Min(SPLICE_FROM, |bin|))
  {
    bin[..Min(SPLICE_FROM, |bin|)] + SPLICED + bin[Min(SPLICE_TO, |bin|)..]
  }

  /**
   * `bin = bin[:-32]; bin[400] = 0x52` followed by the digest: None when the
   * index assignment raises (the body is at most 400 bytes).
   */
  function Rehash(bin: seq<uint8>, digest: DigestFn): (r: Option<seq<uint8>>)
    ensures r.None? <==> |bin| <= FINGERPRINT_LEN + PATCHED_AT
  {
    var body := bin[..Max(0, |bin| - FINGERPRINT_LEN)];
    if |body| <= PATCHED_AT then None
    else
      var patched := body[PATCHED_AT := PATCH];
      Some(patched + digest(patched))
  }

  /**
   * What the output file holds afterwards. It is opened for writing, so
   * emptied, before the mutation; a raised index error leaves it empty.
   */
  function FileAfter(mode: int, bin: seq<uint8>, digest: DigestFn): seq<uint8>
  {
    if mode == 0 then Splice(bin)
    else match Rehash(bin, digest)
      case None => []
      case Some(out) => out
  }

  /** The script's steps on the bytearray, in order; `mode` is `int(args[0])`. */
  method Mutate(mode: int, input: seq<uint8>, digest: DigestFn) returns (written: seq<uint8>)
    ensures written == FileAfter(mode, input, digest)
  {
    var bin := input;
    written := [];
    if mode == 0 {
      bin := bin[..Min(SPLICE_FROM, |bin|)] + SPLICED + bin[Min(SPLICE_TO, |bin|)..];
      written := written + bin;
    } else {
      bin := if |bin| >= FINGERPRINT_LEN then bin[..|bin| - FINGERPRINT_LEN] else [];
      if |bin| <= PATCHED_AT {
        return;
      }
      bin := bin[PATCHED_AT := PATCH];
      var sha := digest(bin);
      written := written + bin;
      written := written + sha;
    }
  }

  /**
   * On an input of at least 202 bytes the splice makes it one byte longer:
   * the first 200 bytes stay, bytes 200..202 become 10, 20, 30, and the rest
   * shifts by one. A shorter input gets the bytes inserted at or near its end.
   */
  lemma SpliceLayout(bin: seq<uint8>)
    ensures |bin| >= SPLICE_TO ==>
      && |Splice(bin)| == |bin| + 1
      && Splice(bin)[..SPLICE_FROM] == bin[..SPLICE_FROM]
      && Splice(bin)[SPLICE_FROM..SPLICE_FROM + 3] == SPLICED
      && (forall i :: SPLICE_TO <= i < |bin| ==> Splice(bin)[i + 1] == bin[i])
    ensures |bin| <= SPLICE_FROM ==> Splice(bin) == bin + SPLICED
  {
    if |bin| >= SPLICE_TO {
      var r := Splice(bin);
      assert r == bin[..SPLICE_FROM] + SPLICED + bin[SPLICE_TO..];
      forall i | SPLICE_TO <= i < |bin|
        ensures r[i + 1] == bin[i]
      {
        assert r[i + 1] == bin[SPLICE_TO..][i - SPLICE_TO];
      }
    }
    if |bin| <= SPLICE_FROM {
      assert bin[..|bin|] == bin;
    }
  }

  /**
   * On an input of at least 234 bytes the splice leaves the 32-byte trailer
   * as it was but changes the body it is checked against, so the spliced file
   * passes the fingerprint check only if the digest collides on the two bodies.
   */
  lemma SpliceKeepsTrailer(bin: seq<uint8>, digest: DigestFn)
    requires |bin| >= SPLICE_TO + FINGERPRINT_LEN
    ensures Splice(bin)[|Splice(bin)| - FINGERPRINT_LEN..] == bin[|bin| - FINGERPRINT_LEN..]
    ensures BinaryBeforeDigest(Splice(bin)) != BinaryBeforeDigest(bin)
    ensures FingerprintMatches(digest, bin) && FingerprintMatches(digest, Splice(bin)) ==>
      digest(BinaryBeforeDigest(Splice(bin))) == digest(BinaryBeforeDigest(bin))
  {
    var r := Splice(bin);
    SpliceLayout(bin);
    var t, u := r[|r| - FINGERPRINT_LEN..], bin[|bin| - FINGERPRINT_LEN..];
    assert forall k :: 0 <= k < FINGERPRINT_LEN ==> t[k] == r[|bin| - FINGERPRINT_LEN + 1 + k];
    assert t == u;
    assert |BinaryBeforeDigest(r)| != |BinaryBeforeDigest(bin)|;
  }

  /**
   * The rehash keeps the length and every byte of the body except byte 400,
   * which becomes 0x52, and its trailer is the digest of its body: the
   * result passes the fingerprint check whatever the input's trailer was.
   */
  lemma RehashRestoresTrailer(bin: seq<uint8>, digest: DigestFn)
    requires Rehash(bin, digest).Some?
    ensures var r := Rehash(bin, digest).value;
      && |r| == |bin|
      && r[PATCHED_AT] == PATCH
      && (forall i :: 0 <= i < |bin| - FINGERPRINT_LEN && i != PATCHED_AT ==> r[i] == bin[i])
      && FingerprintMatches(digest, r)
  {
    var body := bin[..|bin| - FINGERPRINT_LEN];
    var patched := body[PATCHED_AT := PATCH];
    FingerprintOfTrailer(digest, patched, digest(patched));
  }

  /**
   * Mode 0 is not idempotent: on an input of at least 202 bytes each run
   * lengthens the file by one byte, so a second run differs from the first.
   */
  lemma SpliceNotIdempotent(bin: seq<uint8>, digest: DigestFn)
    requires |bin| >= SPLICE_TO
    ensures |FileAfter(0, FileAfter(0, bin, digest), digest)| == |bin| + 2
    ensures FileAfter(0, FileAfter(0, bin, digest), digest) != FileAfter(0, bin, digest)
  {
    SpliceLayout(bin);
    SpliceLayout(Splice(bin));
  }

  /** Only mode 0 splices; every other mode, negative ones included, rehashes. */
  lemma ModeSelects(mode: int, bin: seq<uint8>, digest: DigestFn)
    ensures mode == 0 ==> |FileAfter(mode, bin, digest)| == |bin| + 3 - (Min(SPLICE_TO, |bin|) - Min(SPLICE_FROM, |bin|))
    ensures mode != 0 ==> (FileAfter(mode, bin, digest) == [] <==> |bin| <= FINGERPRINT_LEN + PATCHED_AT)
    ensures mode != 0 && |bin| > FINGERPRINT_LEN + PATCHED_AT ==> FingerprintMatches(digest, FileAfter(mode, bin, digest))
  {
    if mode != 0 && |bin| > FINGERPRINT_LEN + PATCHED_AT {
      RehashRestoresTrailer(bin, digest);
    }
  }
}
