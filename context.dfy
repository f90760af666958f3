/**
 * The package context's values (package info, dependency info, signature
 * info) and the string table that interns every string a data section
 * refers to by offset.
 *
 * The string table's layout is a function of the strings in insertion
 * order: string `i` gets the offset `Offset(strs, i)`, the bytes taken by
 * the records before it, each record being a 4-byte offset followed by the
 * string's bytes.
 */
module Context {
  import opened Basics
  import opened Package
  import opened Bincode

  // ------------------------------------------------------------------
  // The interned strings and the layout they determine
  // ------------------------------------------------------------------

  /** The bytes the records of `strs` take: 4 bytes of offset plus the string, each. */
  ghost function TotalSize(strs: seq<Str>): nat
    decreases |strs|
  {
    if strs == [] then 0 else TotalSize(strs[..|strs| - 1]) + 4 + |strs[|strs| - 1]|
  }

  /** The offset of the `i`-th interned string. */
  ghost function Offset(strs: seq<Str>, i: nat): nat
    requires i <= |strs|
  {
    TotalSize(strs[..i])
  }

  ghost predicate Distinct(strs: seq<Str>)
  {
    forall i, j :: 0 <= i < j < |strs| ==> strs[i] != strs[j]
  }

  /** `str2off` as the interned strings determine it. */
  ghost function StrMap(strs: seq<Str>): map<Str, uint32>
    requires TotalSize(strs) < U32_LIMIT
    decreases |strs|
  {
    if strs == [] then map[] else StrMap(strs[..|strs| - 1])[strs[|strs| - 1] := TotalSize(strs[..|strs| - 1])]
  }

  /** `off2str` as the interned strings determine it. */
  ghost function OffMap(strs: seq<Str>): map<uint32, Str>
    requires TotalSize(strs) < U32_LIMIT
    decreases |strs|
  {
    if strs == [] then map[] else OffMap(strs[..|strs| - 1])[TotalSize(strs[..|strs| - 1]) := strs[|strs| - 1]]
  }

  /** What `to_bytes` emits: per string, in offset order, its 4-byte little-endian offset and its bytes. */
  ghost function Records(strs: seq<Str>): seq<uint8>
    decreases |strs|
  {
    if strs == [] then []
    else Records(strs[..|strs| - 1]) + LittleEndian(TotalSize(strs[..|strs| - 1]), 4) + strs[|strs| - 1]
  }

  /** `s` interned into `strs`: appended unless already present. */
  ghost function Interned(strs: seq<Str>, s: Str): seq<Str>
  {
    if s in strs then strs else strs + [s]
  }

  /** The strings `ss` interned one after another. */
  ghost function InternAll(strs: seq<Str>, ss: seq<Str>): seq<Str>
    decreases |ss|
  {
    if ss == [] then strs else InternAll(Interned(strs, ss[0]), ss[1..])
  }

  lemma OffsetStep(strs: seq<Str>, i: nat)
    requires i < |strs|
    ensures Offset(strs, i + 1) == Offset(strs, i) + 4 + |strs[i]|
  {
    assert strs[..i + 1][..i] == strs[..i];
  }

  /** Offsets strictly increase with the insertion index. */
  lemma {:induction false} OffsetsIncrease(strs: seq<Str>, i: nat, j: nat)
    requires i < j <= |strs|
    ensures Offset(strs, i) + 4 + |strs[i]| <= Offset(strs, j)
    decreases j - i
  {
    OffsetStep(strs, i);
    if i + 1 < j {
      OffsetsIncrease(strs, i + 1, j);
      OffsetStep(strs, i + 1);
    }
  }

  lemma AppendPrefix(strs: seq<Str>, s: Str)
    ensures (strs + [s])[..|strs|] == strs
    ensures TotalSize(strs + [s]) == TotalSize(strs) + 4 + |s|
    ensures forall i :: 0 <= i <= |strs| ==> Offset(strs + [s], i) == Offset(strs, i)
  {
    assert (strs + [s])[..|strs|] == strs;
    forall i | 0 <= i <= |strs| ensures Offset(strs + [s], i) == Offset(strs, i) {
      assert (strs + [s])[..i] == strs[..i];
    }
  }

  /** The strings in `StrMap` are exactly the interned ones. */
  lemma {:induction false} StrMapKeys(strs: seq<Str>)
    requires TotalSize(strs) < U32_LIMIT
    ensures forall s :: s in StrMap(strs) <==> s in strs
    decreases |strs|
  {
    if strs != [] {
      var init := strs[..|strs| - 1];
      StrMapKeys(init);
      assert strs == init + [strs[|strs| - 1]];
    }
  }

  /** Every offset in `OffMap` is a record start and lies below the total size. */
  lemma {:induction false} OffMapKeys(strs: seq<Str>)
    requires TotalSize(strs) < U32_LIMIT
    ensures forall o :: o in OffMap(strs) ==> exists i :: 0 <= i < |strs| && o == Offset(strs, i)
    ensures forall o :: o in OffMap(strs) ==> o < TotalSize(strs)
    decreases |strs|
  {
    if strs != [] {
      var init, s := strs[..|strs| - 1], strs[|strs| - 1];
      OffMapKeys(init);
      assert strs == init + [s];
      AppendPrefix(init, s);
      forall o | o in OffMap(strs) ensures exists i :: 0 <= i < |strs| && o == Offset(strs, i) {
        if o != TotalSize(init) {
          assert o in OffMap(init);
          var i :| 0 <= i < |init| && o == Offset(init, i);
          assert o == Offset(strs, i);
        } else {
          assert o == Offset(strs, |init|);
        }
      }
    }
  }

  /** Each interned string sits in `OffMap` at its own offset. */
  lemma {:induction false} OffMapAt(strs: seq<Str>)
    requires TotalSize(strs) < U32_LIMIT
    ensures forall i :: 0 <= i < |strs| ==> Offset(strs, i) in OffMap(strs) && OffMap(strs)[Offset(strs, i)] == strs[i]
    decreases |strs|
  {
    if strs != [] {
      var init, s := strs[..|strs| - 1], strs[|strs| - 1];
      OffMapAt(init);
      assert strs == init + [s];
      AppendPrefix(init, s);
      forall i | 0 <= i < |init| ensures Offset(strs, i) in OffMap(strs) && OffMap(strs)[Offset(strs, i)] == strs[i] {
        OffsetsIncrease(strs, i, |init|);
      }
    }
  }

  /** Each distinct interned string maps to its own offset in `StrMap`. */
  lemma {:induction false} StrMapAt(strs: seq<Str>)
    requires Distinct(strs) && TotalSize(strs) < U32_LIMIT
    ensures forall i :: 0 <= i < |strs| ==> strs[i] in StrMap(strs) && StrMap(strs)[strs[i]] == Offset(strs, i)
    decreases |strs|
  {
    if strs != [] {
      var init, s := strs[..|strs| - 1], strs[|strs| - 1];
      StrMapAt(init);
      assert strs == init + [s];
      AppendPrefix(init, s);
    }
  }

  /** The two maps of a table of distinct strings are inverse to each other. */
  lemma MapsInverse(strs: seq<Str>)
    requires Distinct(strs) && TotalSize(strs) < U32_LIMIT
    ensures forall s :: s in StrMap(strs) ==> StrMap(strs)[s] in OffMap(strs) && OffMap(strs)[StrMap(strs)[s]] == s
    ensures forall o :: o in OffMap(strs) ==> OffMap(strs)[o] in StrMap(strs) && StrMap(strs)[OffMap(strs)[o]] == o
  {
    StrMapKeys(strs);
    StrMapAt(strs);
    OffMapAt(strs);
    OffMapKeys(strs);
    forall s | s in StrMap(strs) ensures StrMap(strs)[s] in OffMap(strs) && OffMap(strs)[StrMap(strs)[s]] == s {
      var i :| 0 <= i < |strs| && strs[i] == s;
    }
    forall o | o in OffMap(strs) ensures OffMap(strs)[o] in StrMap(strs) && StrMap(strs)[OffMap(strs)[o]] == o {
      var i :| 0 <= i < |strs| && o == Offset(strs, i);
    }
  }

  /** The records of `to_bytes` take exactly `total_bytes` bytes. */
  lemma {:induction false} RecordsLength(strs: seq<Str>)
    ensures |Records(strs)| == TotalSize(strs)
    decreases |strs|
  {
    if strs != [] {
      RecordsLength(strs[..|strs| - 1]);
    }
  }

  /** The records of a prefix of the strings are a prefix of the records. */
  lemma {:induction false} RecordsPrefix(strs: seq<Str>, k: nat)
    requires k <= |strs|
    ensures TotalSize(strs[..k]) <= |Records(strs)|
    ensures Records(strs[..k]) == Records(strs)[..TotalSize(strs[..k])]
    decreases |strs| - k
  {
    RecordsLength(strs[..k]);
    RecordsLength(strs);
    if k < |strs| {
      var init := strs[..|strs| - 1];
      assert init[..k] == strs[..k];
      RecordsPrefix(init, k);
      RecordsLength(init);
      var T := TotalSize(strs[..k]);
      assert T <= TotalSize(init) <= TotalSize(strs);
      var tail := LittleEndian(TotalSize(init), 4) + strs[|strs| - 1];
      assert Records(strs) == Records(init) + tail;
      assert Records(strs)[..T] == Records(init)[..T];
    } else {
      assert strs[..k] == strs;
    }
  }

  /** Record `i` starts at the string's own offset: its first four bytes are
      that offset, and the string follows up to the next record. */
  lemma RecordAt(strs: seq<Str>, i: nat)
    requires i < |strs|
    ensures Offset(strs, i) + 4 <= Offset(strs, i + 1) <= |Records(strs)|
    ensures Records(strs)[Offset(strs, i)..Offset(strs, i) + 4] == LittleEndian(Offset(strs, i), 4)
    ensures Records(strs)[Offset(strs, i) + 4..Offset(strs, i + 1)] == strs[i]
  {
    var pre := strs[..i + 1];
    assert pre[..|pre| - 1] == strs[..i];
    assert pre[|pre| - 1] == strs[i];
    RecordsPrefix(strs, i + 1);
    RecordsLength(strs[..i]);
    RecordsLength(strs);
    OffsetStep(strs, i);
    var a, b := Offset(strs, i), Offset(strs, i + 1);
    var A := Records(strs[..i]);
    assert Records(pre) == A + LittleEndian(a, 4) + strs[i];
    PiecesOfPrefix(Records(strs), A, LittleEndian(a, 4), strs[i], b);
  }

  /** The pieces of a prefix sit at their running offsets in the whole. */
  lemma PiecesOfPrefix(x: seq<uint8>, a: seq<uint8>, l: seq<uint8>, t: seq<uint8>, b: nat)
    requires b <= |x| && x[..b] == a + l + t
    ensures x[|a|..|a| + |l|] == l && x[|a| + |l|..b] == t
  {
    assert x[|a|..|a| + |l|] == x[..b][|a|..|a| + |l|];
    assert x[|a| + |l|..b] == x[..b][|a| + |l|..];
  }

  /** Interning more strings keeps what is already there and its offsets. */
  lemma {:induction false} InternAllExtends(strs: seq<Str>, ss: seq<Str>)
    ensures |strs| <= |InternAll(strs, ss)| && InternAll(strs, ss)[..|strs|] == strs
    ensures TotalSize(strs) <= TotalSize(InternAll(strs, ss))
    ensures forall s :: s in ss ==> s in InternAll(strs, ss)
    ensures forall s :: s in InternAll(strs, ss) ==> s in strs || s in ss
    ensures Distinct(strs) ==> Distinct(InternAll(strs, ss))
    decreases |ss|
  {
    if ss != [] {
      var next := Interned(strs, ss[0]);
      if ss[0] !in strs {
        AppendPrefix(strs, ss[0]);
      }
      InternAllExtends(next, ss[1..]);
      var all := InternAll(next, ss[1..]);
      assert all[..|strs|] == all[..|next|][..|strs|];
      forall s | s in ss ensures s in all {
        if s != ss[0] {
          assert s in ss[1..];
        }
      }
    }
  }

  lemma {:induction false} InternAllSnoc(strs: seq<Str>, ss: seq<Str>, x: Str)
    ensures InternAll(strs, ss + [x]) == Interned(InternAll(strs, ss), x)
    decreases |ss|
  {
    if ss == [] {
      assert [x][1..] == [];
    } else {
      assert (ss + [x])[1..] == ss[1..] + [x];
      InternAllSnoc(Interned(strs, ss[0]), ss[1..], x);
    }
  }

  lemma {:induction false} InternAllConcat(strs: seq<Str>, a: seq<Str>, b: seq<Str>)
    ensures InternAll(strs, a + b) == InternAll(InternAll(strs, a), b)
    decreases |a|
  {
    if a != [] {
      assert (a + b)[1..] == a[1..] + b;
      InternAllConcat(Interned(strs, a[0]), a[1..], b);
    } else {
      assert a + b == b;
    }
  }

  /** When the whole run of insertions fits in a u32 total, so does each step of it. */
  lemma FitsStep(strs: seq<Str>, ss: seq<Str>, k: nat)
    requires k < |ss|
    requires TotalSize(InternAll(strs, ss)) < U32_LIMIT
    ensures InternAll(strs, ss[..k + 1]) == Interned(InternAll(strs, ss[..k]), ss[k])
    ensures TotalSize(InternAll(strs, ss[..k + 1])) < U32_LIMIT
  {
    assert ss[..k] + [ss[k]] == ss[..k + 1];
    InternAllSnoc(strs, ss[..k], ss[k]);
    assert ss == ss[..k + 1] + ss[k + 1..];
    InternAllConcat(strs, ss[..k + 1], ss[k + 1..]);
    InternAllExtends(InternAll(strs, ss[..k + 1]), ss[k + 1..]);
  }

  /** Every string of `a` keeps its offset in `b`. */
  ghost predicate Extends(a: map<Str, uint32>, b: map<Str, uint32>)
  {
    forall s :: s in a ==> s in b && b[s] == a[s]
  }

  // ------------------------------------------------------------------
  // StringTable
  // ------------------------------------------------------------------

  class StringTable {
    var str2off: map<Str, uint32>
    var off2str: map<uint32, Str>
    var totalBytes: uint32
    /** The interned strings, in insertion order. */
    ghost var strs: seq<Str>

    ghost predicate Valid()
      reads this
    {
      && Distinct(strs)
      && totalBytes == TotalSize(strs)
      && TotalSize(strs) < U32_LIMIT
      && str2off == StrMap(strs)
      && off2str == OffMap(strs)
    }

    /** `StringTable::new`: an empty table with "" interned at offset 0. */
    constructor ()
      ensures Valid()
      ensures strs == [[]] && totalBytes == 4
      ensures str2off == map[[] := 0] && off2str == map[0 := []]
    {
      str2off, off2str, totalBytes := map[], map[], 0;
      strs := [];
      new;
      var _ := InsertStr([]);
      ghost var one: seq<Str> := [[]];
      assert one[..0] == [];
    }

    /**
     * `insert_str`: a string already present keeps its offset and nothing
     * changes; a new one is given the current total as its offset, and the
     * total grows by 4 plus its byte length. The source's u32 total is
     * assumed not to overflow.
     */
    method InsertStr(s: Str) returns (off: uint32)
      requires Valid()
      requires TotalSize(Interned(strs, s)) < U32_LIMIT
      modifies this
      ensures Valid()
      ensures strs == Interned(old(strs), s)
      ensures off in off2str && off2str[off] == s && s in str2off && str2off[s] == off
      ensures off == if old(s in str2off) then old(str2off[s]) else old(totalBytes)
      ensures totalBytes == old(totalBytes) + if old(s in str2off) then 0 else 4 + |s|
      ensures str2off == old(str2off)[s := off] && off2str == old(off2str)[off := s]
      ensures old(s in str2off) ==> str2off == old(str2off) && off2str == old(off2str)
      ensures Extends(old(str2off), str2off)
    {
      StrMapKeys(strs);
      if s in str2off {
        MapsInverse(strs);
        return str2off[s];
      }
      AppendPrefix(strs, s);
      off := totalBytes;
      str2off := str2off[s := totalBytes];
      off2str := off2str[totalBytes := s];
      totalBytes := totalBytes + 4 + |s|;
      strs := strs + [s];
    }

    /** `contains_str`. */
    predicate ContainsStr(s: Str)
      reads this
    {
      s in str2off
    }

    /** `get_off_by_str`; a missing string (a panicking `unwrap`) is None. */
    function GetOffByStr(s: Str): (r: Option<uint32>)
      reads this
      ensures r.Some? <==> ContainsStr(s)
      ensures Valid() && r.Some? ==> r.value in off2str && off2str[r.value] == s
    {
      ValidLookups();
      if s in str2off then Some(str2off[s]) else None
    }

    /** `get_str_by_off`; an offset that starts no record (a panicking `unwrap`) is None. */
    function GetStrByOff(off: uint32): (r: Option<Str>)
      reads this
      ensures Valid() && r.Some? ==> ContainsStr(r.value) && str2off[r.value] == off
      ensures Valid() && (exists i :: 0 <= i < |strs| && off == Offset(strs, i)) ==> r.Some?
    {
      ValidLookups();
      if off in off2str then Some(off2str[off]) else None
    }

    /** What a valid table's lookups can rely on. */
    lemma ValidLookups()
      ensures Valid() ==>
        forall s :: s in str2off ==> str2off[s] in off2str && off2str[str2off[s]] == s
      ensures Valid() ==>
        forall o :: o in off2str ==> off2str[o] in str2off && str2off[off2str[o]] == o
      ensures Valid() ==> forall i :: 0 <= i < |strs| ==> Offset(strs, i) in off2str
    {
      if Valid() {
        MapsInverse(strs);
        OffMapAt(strs);
      }
    }

    /**
     * `to_bytes`: the offsets in ascending order, each written as 4
     * little-endian bytes followed by its string's bytes. The output takes
     * exactly `total_bytes` bytes.
     */
    method ToBytes() returns (bytes: seq<uint8>)
      requires Valid()
      ensures bytes == Records(strs)
      ensures |bytes| == totalBytes
    {
      var rest: set<int> := off2str.Keys;
      bytes := [];
      ghost var i := 0;
      AllPending(strs);
      while rest != {}
        invariant 0 <= i <= |strs|
        invariant bytes == Records(strs[..i])
        invariant Pending(strs, i, rest)
        decreases |strs| - i
      {
        LeastPending(strs, i, rest);
        var off :| off in rest && forall x :: x in rest ==> off <= x;
        assert off == Offset(strs, i);
        RecordsStep(strs, i);
        OffMapAtOne(strs, i);
        bytes := bytes + LittleEndian(off, 4) + off2str[off];
        RemoveLeast(strs, i, rest);
        rest := rest - {off};
        i := i + 1;
      }
      PendingNonEmpty(strs, i, rest);
      assert strs[..i] == strs;
      RecordsLength(strs);
    }
  }

  /** The offsets of strings `i..` are the ones `to_bytes` has still to write. */
  ghost predicate Pending(strs: seq<Str>, i: nat, rest: set<int>)
  {
    forall x :: x in rest <==> exists j :: i <= j < |strs| && x == Offset(strs, j)
  }

  lemma PendingNonEmpty(strs: seq<Str>, i: nat, rest: set<int>)
    requires Pending(strs, i, rest)
    ensures i < |strs| ==> Offset(strs, i) in rest
  {
    if i < |strs| {
      assert Offset(strs, i) in rest;
    }
  }

  lemma AllPending(strs: seq<Str>)
    requires TotalSize(strs) < U32_LIMIT
    ensures Pending(strs, 0, OffMap(strs).Keys)
  {
    OffMapKeys(strs);
    OffMapAt(strs);
  }

  lemma OffMapAtOne(strs: seq<Str>, i: nat)
    requires i < |strs| && TotalSize(strs) < U32_LIMIT
    ensures Offset(strs, i) in OffMap(strs) && OffMap(strs)[Offset(strs, i)] == strs[i]
  {
    OffMapAt(strs);
  }

  lemma RecordsStep(strs: seq<Str>, i: nat)
    requires i < |strs|
    ensures Records(strs[..i + 1]) == Records(strs[..i]) + LittleEndian(Offset(strs, i), 4) + strs[i]
  {
    assert strs[..i + 1][..i] == strs[..i];
  }

  lemma LeastPending(strs: seq<Str>, i: nat, rest: set<int>)
    requires Pending(strs, i, rest) && rest != {}
    ensures i < |strs|
    ensures Offset(strs, i) in rest && forall x :: x in rest ==> Offset(strs, i) <= x
  {
    forall x | x in rest ensures Offset(strs, i) <= x {
      var j :| i <= j < |strs| && x == Offset(strs, j);
      if i < j {
        OffsetsIncrease(strs, i, j);
      }
    }
  }

  lemma RemoveLeast(strs: seq<Str>, i: nat, rest: set<int>)
    requires Pending(strs, i, rest) && i < |strs|
    ensures Pending(strs, i + 1, rest - {Offset(strs, i)})
  {
    forall x ensures x in rest - {Offset(strs, i)} <==> exists j :: i + 1 <= j < |strs| && x == Offset(strs, j) {
      if x in rest - {Offset(strs, i)} {
        var j :| i <= j < |strs| && x == Offset(strs, j);
        assert j != i;
      }
      if exists j :: i + 1 <= j < |strs| && x == Offset(strs, j) {
        var j :| i + 1 <= j < |strs| && x == Offset(strs, j);
        OffsetsIncrease(strs, i, j);
      }
    }
  }

  // ------------------------------------------------------------------
  // Dependency, package and signature info
  // ------------------------------------------------------------------

  /** `SrcTypePath`: where a dependency comes from. */
  datatype SrcTypePath = CratesIo | Git(url: Str) | Url(url: Str) | Registry(url: Str) | P2p(url: Str)

  datatype DepInfo = DepInfo(name: Str, verReq: Str, src: SrcTypePath, srcPlatform: Str, dump: bool)

  datatype PackageInfo = PackageInfo(name: Str, version: Str, license: Str, authors: seq<Str>)

  /** A signature to attach: its type (0 signs the file, 1 the crate binary),
      its size and bytes, and the signer it belongs to. */
  datatype SigInfo = SigInfo(typ: uint32, size: nat, bin: seq<uint8>, signer: nat)

  /** The source code a dependency's origin is written as. */
  function SrcCode(src: SrcTypePath): (r: uint8)
    ensures r <= 4
    ensures r == 0 <==> src.CratesIo?
  {
    match src
    case CratesIo => 0
    case Git(_) => 1
    case Url(_) => 2
    case Registry(_) => 3
    case P2p(_) => 4
  }

  /** The path string interned for a dependency's origin ("" for crates.io). */
  function SrcPath(src: SrcTypePath): Str
  {
    if src.CratesIo? then [] else src.url
  }

  /** The strings `write_to_dep_table_entry` interns, in order. */
  function DepStrings(d: DepInfo): seq<Str>
  {
    [d.name, d.verReq, SrcPath(d.src), d.srcPlatform]
  }

  /** Every string of the dependency has been interned. */
  predicate HoldsDepStrings(d: DepInfo, str2off: map<Str, uint32>)
  {
    d.name in str2off && d.verReq in str2off && SrcPath(d.src) in str2off && d.srcPlatform in str2off
  }

  /** The table entry a dependency is written as, given the table's offsets. */
  function DepEntryFor(d: DepInfo, str2off: map<Str, uint32>): (e: DepTableEntry)
    requires HoldsDepStrings(d, str2off)
    ensures e.depSrctype == SrcCode(d.src)
    ensures e.depName == str2off[d.name] && e.depVerreq == str2off[d.verReq]
    ensures e.depSrcpath == str2off[SrcPath(d.src)] && e.depPlatform == str2off[d.srcPlatform]
  {
    DepTableEntry(str2off[d.name], str2off[d.verReq], SrcCode(d.src), str2off[SrcPath(d.src)], str2off[d.srcPlatform])
  }

  /**
   * `read_from_dep_table_entry`: the strings looked up by offset, the
   * origin decoded from its code, and `dump` set. A code above 4 or an
   * offset the table does not hold panics, here None.
   */
  function ReadFromDepTableEntry(e: DepTableEntry, off2str: map<uint32, Str>): (r: Option<DepInfo>)
    ensures r.Some? ==> r.value.dump && e.depSrctype <= 4 && SrcCode(r.value.src) == e.depSrctype
    ensures e.depSrctype > 4 ==> r.None?
    ensures r.Some? ==> e.depName in off2str && r.value.name == off2str[e.depName]
    ensures r.Some? ==> e.depVerreq in off2str && r.value.verReq == off2str[e.depVerreq]
    ensures r.Some? ==> e.depPlatform in off2str && r.value.srcPlatform == off2str[e.depPlatform]
    ensures r.Some? && e.depSrctype != 0 ==> e.depSrcpath in off2str && r.value.src.url == off2str[e.depSrcpath]
  {
    if e.depName !in off2str || e.depVerreq !in off2str then None
    else
      var src :- match e.depSrctype
        case 0 => Some(CratesIo)
        case 1 => if e.depSrcpath in off2str then Some(Git(off2str[e.depSrcpath])) else None
        case 2 => if e.depSrcpath in off2str then Some(Url(off2str[e.depSrcpath])) else None
        case 3 => if e.depSrcpath in off2str then Some(Registry(off2str[e.depSrcpath])) else None
        case 4 => if e.depSrcpath in off2str then Some(P2p(off2str[e.depSrcpath])) else None
        case _ => None;
      if e.depPlatform !in off2str then None
      else Some(DepInfo(off2str[e.depName], off2str[e.depVerreq], src, off2str[e.depPlatform], true))
  }

  /** The string maps of a table: each string's offset leads back to it. */
  ghost predicate LooksUpBack(str2off: map<Str, uint32>, off2str: map<uint32, Str>)
  {
    forall s :: s in str2off ==> str2off[s] in off2str && off2str[str2off[s]] == s
  }

  /** Reading back a written dependency entry recovers the dependency, marked for dumping. */
  lemma DepEntryRoundTrip(d: DepInfo, str2off: map<Str, uint32>, off2str: map<uint32, Str>)
    requires LooksUpBack(str2off, off2str)
    requires HoldsDepStrings(d, str2off)
    ensures ReadFromDepTableEntry(DepEntryFor(d, str2off), off2str) == Some(d.(dump := true))
  {
    var e := DepEntryFor(d, str2off);
    assert off2str[e.depName] == d.name && off2str[e.depVerreq] == d.verReq;
    assert off2str[e.depSrcpath] == SrcPath(d.src) && off2str[e.depPlatform] == d.srcPlatform;
  }

  lemma TableLooksUpBack(t: StringTable)
    requires t.Valid()
    ensures LooksUpBack(t.str2off, t.off2str)
  {
    MapsInverse(t.strs);
  }

  lemma InternAllFour(strs: seq<Str>, ss: seq<Str>)
    requires |ss| == 4
    ensures InternAll(strs, ss) == Interned(Interned(Interned(Interned(strs, ss[0]), ss[1]), ss[2]), ss[3])
  {
    var t1 := Interned(strs, ss[0]);
    var t2 := Interned(t1, ss[1]);
    var t3 := Interned(t2, ss[2]);
    assert ss[1..][0] == ss[1] && ss[1..][1..] == ss[2..];
    assert ss[2..][0] == ss[2] && ss[2..][1..] == ss[3..];
    assert ss[3..][0] == ss[3] && ss[3..][1..] == [];
    assert InternAll(strs, ss) == InternAll(t1, ss[1..]);
    assert InternAll(t1, ss[1..]) == InternAll(t2, ss[2..]);
    assert InternAll(t2, ss[2..]) == InternAll(t3, ss[3..]);
    assert InternAll(t3, ss[3..]) == InternAll(Interned(t3, ss[3]), []);
  }

  /** Interning enough strings that each of `ss` is present never overflows
      an intermediate total. */
  lemma InternedFits(strs: seq<Str>, ss: seq<Str>)
    requires ss != []
    requires TotalSize(InternAll(strs, ss)) < U32_LIMIT
    ensures TotalSize(Interned(strs, ss[0])) < U32_LIMIT
  {
    InternAllExtends(Interned(strs, ss[0]), ss[1..]);
  }

  /**
   * `write_to_dep_table_entry`: interns the name, the version requirement,
   * the origin's path ("" for crates.io) and the platform, in that order,
   * and writes their offsets with the origin's code 0..4.
   */
  method WriteToDepTableEntry(d: DepInfo, table: StringTable) returns (e: DepTableEntry)
    requires table.Valid()
    requires TotalSize(InternAll(table.strs, DepStrings(d))) < U32_LIMIT
    modifies table
    ensures table.Valid()
    ensures table.strs == InternAll(old(table.strs), DepStrings(d))
    ensures HoldsDepStrings(d, table.str2off)
    ensures Extends(old(table.str2off), table.str2off)
    ensures e == DepEntryFor(d, table.str2off)
    ensures ReadFromDepTableEntry(e, table.off2str) == Some(d.(dump := true))
  {
    ghost var ss: seq<Str> := DepStrings(d);
    ghost var s0 := table.strs;
    InternAllFour(s0, ss);
    InternedFits(table.strs, ss);
    var name := table.InsertStr(d.name);
    InternedFits(table.strs, ss[1..]);
    var verreq := table.InsertStr(d.verReq);
    assert table.str2off[d.name] == name;
    InternedFits(table.strs, ss[2..]);
    // The source matches on the origin, writing its code and interning its path.
    var code := SrcCode(d.src);
    var path := table.InsertStr(SrcPath(d.src));
    assert table.str2off[d.name] == name && table.str2off[d.verReq] == verreq;
    InternedFits(table.strs, ss[3..]);
    var platform := table.InsertStr(d.srcPlatform);
    assert table.str2off[d.name] == name && table.str2off[d.verReq] == verreq && table.str2off[SrcPath(d.src)] == path;
    e := DepTableEntry(name, verreq, code, path, platform);
    TableLooksUpBack(table);
    DepEntryRoundTrip(d, table.str2off, table.off2str);
  }

  /** An entry written against a table reads the same against any extension of it. */
  lemma DepEntryStable(d: DepInfo, a: map<Str, uint32>, b: map<Str, uint32>)
    requires HoldsDepStrings(d, a) && Extends(a, b)
    ensures HoldsDepStrings(d, b) && DepEntryFor(d, b) == DepEntryFor(d, a)
  {
  }

  // ------------------------------------------------------------------
  // The package section
  // ------------------------------------------------------------------

  /** The strings written for the package section, in order. */
  function PackageStrings(info: PackageInfo): seq<Str>
  {
    [info.name, info.version, info.license] + info.authors
  }

  predicate HoldsPackageStrings(info: PackageInfo, str2off: map<Str, uint32>)
  {
    && info.name in str2off && info.version in str2off && info.license in str2off
    && forall i :: 0 <= i < |info.authors| ==> info.authors[i] in str2off
  }

  /** The package section the package info is written as, given the table's offsets. */
  function PackageSectionFor(info: PackageInfo, str2off: map<Str, uint32>): (ps: PackageSection)
    requires HoldsPackageStrings(info, str2off)
    ensures ps.pkgName == str2off[info.name] && ps.pkgVersion == str2off[info.version]
    ensures ps.pkgLicense == str2off[info.license]
    ensures |ps.pkgAuthors.arr| == |info.authors|
    ensures forall i :: 0 <= i < |info.authors| ==> ps.pkgAuthors.arr[i] == str2off[info.authors[i]]
  {
    var authors := seq(|info.authors|, i requires 0 <= i < |info.authors| => str2off[info.authors[i]]);
    PackageSection(str2off[info.name], str2off[info.version], str2off[info.license], LenArrayFromVec(authors))
  }

  /** The authors' strings looked up by offset; None if one is missing. */
  function ReadAuthors(offs: seq<uint32>, off2str: map<uint32, Str>): (r: Option<seq<Str>>)
    ensures r.Some? <==> forall i :: 0 <= i < |offs| ==> offs[i] in off2str
    ensures r.Some? ==> |r.value| == |offs| && forall i :: 0 <= i < |offs| ==> r.value[i] == off2str[offs[i]]
    decreases |offs|
  {
    if offs == [] then Some([])
    else if offs[0] !in off2str then None
    else
      match ReadAuthors(offs[1..], off2str)
      case None => None
      case Some(rest) => Some([off2str[offs[0]]] + rest)
  }

  /** The package info read back from a package section; a missing offset panics, here None. */
  function ReadFromPackageSection(ps: PackageSection, off2str: map<uint32, Str>): (r: Option<PackageInfo>)
    ensures r.Some? ==> ps.pkgName in off2str && r.value.name == off2str[ps.pkgName]
    ensures r.Some? ==> ps.pkgVersion in off2str && r.value.version == off2str[ps.pkgVersion]
    ensures r.Some? ==> ps.pkgLicense in off2str && r.value.license == off2str[ps.pkgLicense]
    ensures r.Some? ==> |r.value.authors| == |ps.pkgAuthors.arr|
  {
    if ps.pkgName !in off2str || ps.pkgVersion !in off2str || ps.pkgLicense !in off2str then None
    else
      var authors :- ReadAuthors(ps.pkgAuthors.arr, off2str);
      Some(PackageInfo(off2str[ps.pkgName], off2str[ps.pkgVersion], off2str[ps.pkgLicense], authors))
  }

  /** Reading back a written package section recovers the package info. */
  lemma PackageSectionRoundTrip(info: PackageInfo, str2off: map<Str, uint32>, off2str: map<uint32, Str>)
    requires LooksUpBack(str2off, off2str)
    requires HoldsPackageStrings(info, str2off)
    ensures ReadFromPackageSection(PackageSectionFor(info, str2off), off2str) == Some(info)
  {
    var ps := PackageSectionFor(info, str2off);
    var authors := ReadAuthors(ps.pkgAuthors.arr, off2str);
    assert authors.Some?;
    assert authors.value == info.authors;
  }

  lemma PackageSectionStable(info: PackageInfo, a: map<Str, uint32>, b: map<Str, uint32>)
    requires HoldsPackageStrings(info, a) && Extends(a, b)
    ensures HoldsPackageStrings(info, b) && PackageSectionFor(info, b) == PackageSectionFor(info, a)
  {
    assert PackageSectionFor(info, b).pkgAuthors.arr == PackageSectionFor(info, a).pkgAuthors.arr;
  }

  /**
   * The package info's writer: interns the name, version and license and
   * then each author, in that order, and writes their offsets, the authors
   * as a length-prefixed array.
   */
  method WriteToPackageSection(info: PackageInfo, table: StringTable) returns (ps: PackageSection)
    requires table.Valid()
    requires TotalSize(InternAll(table.strs, PackageStrings(info))) < U32_LIMIT
    modifies table
    ensures table.Valid()
    ensures table.strs == InternAll(old(table.strs), PackageStrings(info))
    ensures Extends(old(table.str2off), table.str2off)
    ensures HoldsPackageStrings(info, table.str2off)
    ensures ps == PackageSectionFor(info, table.str2off)
  {
    var offs := InsertAll(table, PackageStrings(info));
    PackageOffsets(info, offs, table.str2off);
    ps := PackageSection(offs[0], offs[1], offs[2], LenArrayFromVec(offs[3..]));
  }

  /** `offs` holds, position by position, the offsets `str2off` gives the strings `ss`. */
  ghost predicate OffsetsOf(ss: seq<Str>, offs: seq<uint32>, str2off: map<Str, uint32>)
  {
    |offs| == |ss| && forall j :: 0 <= j < |ss| ==> ss[j] in str2off && offs[j] == str2off[ss[j]]
  }

  lemma OffsetsOfStep(ss: seq<Str>, offs: seq<uint32>, a: map<Str, uint32>, b: map<Str, uint32>, s: Str, off: uint32)
    requires OffsetsOf(ss, offs, a) && Extends(a, b)
    requires s in b && b[s] == off
    ensures OffsetsOf(ss + [s], offs + [off], b)
  {
  }

  lemma PackageOffsets(info: PackageInfo, offs: seq<uint32>, str2off: map<Str, uint32>)
    requires OffsetsOf(PackageStrings(info), offs, str2off)
    ensures HoldsPackageStrings(info, str2off)
    ensures PackageSectionFor(info, str2off) == PackageSection(offs[0], offs[1], offs[2], LenArrayFromVec(offs[3..]))
  {
    var ss := PackageStrings(info);
    assert ss[0] == info.name && ss[1] == info.version && ss[2] == info.license;
    assert forall i :: 0 <= i < |info.authors| ==> info.authors[i] == ss[3 + i];
    assert PackageSectionFor(info, str2off).pkgAuthors.arr == offs[3..];
  }

  /** Interns the strings one after another and collects their offsets. */
  method InsertAll(table: StringTable, ss: seq<Str>) returns (offs: seq<uint32>)
    requires table.Valid()
    requires TotalSize(InternAll(table.strs, ss)) < U32_LIMIT
    modifies table
    ensures table.Valid()
    ensures table.strs == InternAll(old(table.strs), ss)
    ensures Extends(old(table.str2off), table.str2off)
    ensures OffsetsOf(ss, offs, table.str2off)
  {
    offs := [];
    var i := 0;
    while i < |ss|
      invariant 0 <= i <= |ss|
      invariant table.Valid() && table.strs == InternAll(old(table.strs), ss[..i])
      invariant Extends(old(table.str2off), table.str2off)
      invariant OffsetsOf(ss[..i], offs, table.str2off)
    {
      offs := InsertNext(table, old(table.strs), old(table.str2off), ss, i, offs);
      i := i + 1;
    }
    assert ss[..i] == ss;
  }

  /** One step of `InsertAll`: interns `ss[i]` and appends its offset. */
  method InsertNext(table: StringTable, ghost s0: seq<Str>, ghost m0: map<Str, uint32>, ss: seq<Str>, i: nat,
                    offs: seq<uint32>) returns (offs': seq<uint32>)
    requires i < |ss| && TotalSize(InternAll(s0, ss)) < U32_LIMIT
    requires table.Valid() && table.strs == InternAll(s0, ss[..i])
    requires Extends(m0, table.str2off) && OffsetsOf(ss[..i], offs, table.str2off)
    modifies table
    ensures table.Valid() && table.strs == InternAll(s0, ss[..i + 1])
    ensures Extends(m0, table.str2off) && OffsetsOf(ss[..i + 1], offs', table.str2off)
  {
    FitsStep(s0, ss, i);
    ghost var before := table.str2off;
    var off := table.InsertStr(ss[i]);
    OffsetsOfStep(ss[..i], offs, before, table.str2off, ss[i], off);
    assert ss[..i + 1] == ss[..i] + [ss[i]];
    offs' := offs + [off];
  }

  // ------------------------------------------------------------------
  // Signatures and the context itself
  // ------------------------------------------------------------------

  /** A signature info written as a signature section: size as u32, type as u8, the bytes. */
  function SigStructureFor(si: SigInfo): (g: SigStructureSection)
    ensures g.sigstructSig == si.bin
    ensures si.size < U32_LIMIT ==> g.sigstructSize == si.size
    ensures si.typ < U8_LIMIT ==> g.sigstructType == si.typ
  {
    SigStructureSection(Trunc32(si.size), Trunc8(si.typ), si.bin)
  }

  /** `PackageContext`: what is packed into, or unpacked from, a container. */
  class PackageContext {
    var packInfo: PackageInfo
    var depInfos: seq<DepInfo>
    var crateBinary: seq<uint8>
    var sigs: seq<SigInfo>

    constructor ()
      ensures packInfo == PackageInfo([], [], [], []) && depInfos == [] && crateBinary == [] && sigs == []
    {
      packInfo := PackageInfo([], [], [], []);
      depInfos, crateBinary, sigs := [], [], [];
    }
  }
}
