/**
 * Filling a package context from a parsed `Cargo.toml`: the package info
 * from the `[package]` table, and the dependencies from `[dependencies]`,
 * where a dependency with an attribute the container cannot record is
 * reported instead of added.
 */
module FromToml {
  import opened Basics
  import opened Context

  /** A parsed TOML value; numbers, booleans and dates are all `TOther`. */
  datatype TomlValue =
    | TStr(s: Str)
    | TArray(items: seq<TomlValue>)
    | TTable(entries: seq<(Str, TomlValue)>)
    | TOther

  /** A TOML table as the pairs it iterates over, in iteration order. */
  type TomlTable = seq<(Str, TomlValue)>

  const KEY_PACKAGE: Str := [0x70, 0x61, 0x63, 0x6B, 0x61, 0x67, 0x65]                           // "package"
  const KEY_DEPENDENCIES: Str := [0x64, 0x65, 0x70, 0x65, 0x6E, 0x64, 0x65, 0x6E, 0x63, 0x69, 0x65, 0x73] // "dependencies"
  const KEY_NAME: Str := [0x6E, 0x61, 0x6D, 0x65]                                                // "name"
  const KEY_VERSION: Str := [0x76, 0x65, 0x72, 0x73, 0x69, 0x6F, 0x6E]                           // "version"
  const KEY_LICENSE: Str := [0x6C, 0x69, 0x63, 0x65, 0x6E, 0x73, 0x65]                           // "license"
  const KEY_AUTHORS: Str := [0x61, 0x75, 0x74, 0x68, 0x6F, 0x72, 0x73]                           // "authors"
  const KEY_GIT: Str := [0x67, 0x69, 0x74]                                                       // "git"
  const KEY_REGISTRY: Str := [0x72, 0x65, 0x67, 0x69, 0x73, 0x74, 0x72, 0x79]                    // "registry"

  /** The attributes a table dependency may carry. */
  predicate Allowed(k: Str)
  {
    k == KEY_VERSION || k == KEY_GIT || k == KEY_REGISTRY
  }

  /** `t[k]` / `t.get(k)`: the value of the first pair with that key. */
  function Lookup(t: TomlTable, k: Str): (r: Option<TomlValue>)
    ensures r.None? <==> forall i :: 0 <= i < |t| ==> t[i].0 != k
    ensures r.Some? ==> exists i :: 0 <= i < |t| && t[i] == (k, r.value)
    decreases |t|
  {
    if t == [] then None
    else if t[0].0 == k then Some(t[0].1)
    else
      var r := Lookup(t[1..], k);
      assert forall i :: 1 <= i < |t| ==> t[i] == t[1..][i - 1];
      r
  }

  function AsStr(v: TomlValue): Option<Str>
  {
    if v.TStr? then Some(v.s) else None
  }

  /** `t[k].as_str().unwrap()`: panics (None) when the key is missing or its value is not a string. */
  function StrField(t: TomlTable, k: Str): (r: Option<Str>)
    ensures r.Some? <==> Lookup(t, k).Some? && Lookup(t, k).value.TStr?
    ensures r.Some? ==> r.value == Lookup(t, k).value.s
  {
    var v :- Lookup(t, k);
    AsStr(v)
  }

  /** `.iter().map(|x| x.as_str().unwrap()).collect()`: every item a string, in order. */
  function Strings(items: seq<TomlValue>): (r: Option<seq<Str>>)
    ensures r.Some? <==> forall i :: 0 <= i < |items| ==> items[i].TStr?
    ensures r.Some? ==> |r.value| == |items| && forall i :: 0 <= i < |items| ==> r.value[i] == items[i].s
    decreases |items|
  {
    if items == [] then Some([])
    else
      var rest := Strings(items[1..]);
      assert forall i :: 1 <= i < |items| ==> items[i] == items[1..][i - 1];
      if items[0].TStr? && rest.Some? then Some([items[0].s] + rest.value) else None
  }

  // ------------------------------------------------------------------
  // [package]
  // ------------------------------------------------------------------

  /** The license: "" when absent, otherwise the string it must be. */
  function LicenseOf(package: TomlTable): (r: Option<Str>)
    ensures Lookup(package, KEY_LICENSE).None? ==> r == Some([])
    ensures Lookup(package, KEY_LICENSE).Some? ==> r == StrField(package, KEY_LICENSE)
  {
    if Lookup(package, KEY_LICENSE).Some? then StrField(package, KEY_LICENSE) else Some([])
  }

  /** The authors: none when absent, otherwise the strings of the array it must be. */
  function AuthorsOf(package: TomlTable): (r: Option<seq<Str>>)
    ensures Lookup(package, KEY_AUTHORS).None? ==> r == Some([])
    ensures Lookup(package, KEY_AUTHORS).Some? ==>
      (r.Some? <==> Lookup(package, KEY_AUTHORS).value.TArray? && Strings(Lookup(package, KEY_AUTHORS).value.items).Some?)
    ensures Lookup(package, KEY_AUTHORS).Some? && r.Some? ==> r == Strings(Lookup(package, KEY_AUTHORS).value.items)
  {
    match Lookup(package, KEY_AUTHORS)
    case None => Some([])
    case Some(v) => if v.TArray? then Strings(v.items) else None
  }

  /**
   * `write_package_info_to_package_context`'s reading of `[package]`:
   * the name and version are required strings, the license and authors
   * optional; any other shape panics (None).
   */
  function PackageInfoOf(package: TomlTable): (r: Option<PackageInfo>)
    ensures r.Some? <==>
      StrField(package, KEY_NAME).Some? && StrField(package, KEY_VERSION).Some?
      && LicenseOf(package).Some? && AuthorsOf(package).Some?
    ensures r.Some? ==> r.value.name == StrField(package, KEY_NAME).value
    ensures r.Some? ==> r.value.version == StrField(package, KEY_VERSION).value
    ensures r.Some? ==> r.value.license == LicenseOf(package).value
    ensures r.Some? ==> r.value.authors == AuthorsOf(package).value
  {
    var name :- StrField(package, KEY_NAME);
    var version :- StrField(package, KEY_VERSION);
    var license :- LicenseOf(package);
    var authors :- AuthorsOf(package);
    Some(PackageInfo(name, version, license, authors))
  }

  /** A missing name or version, or one that is not a string, is a panic whatever else the table holds. */
  lemma NameAndVersionRequired(package: TomlTable)
    ensures Lookup(package, KEY_NAME).None? ==> PackageInfoOf(package).None?
    ensures Lookup(package, KEY_VERSION).None? ==> PackageInfoOf(package).None?
    ensures Lookup(package, KEY_NAME).Some? && !Lookup(package, KEY_NAME).value.TStr? ==> PackageInfoOf(package).None?
    ensures Lookup(package, KEY_VERSION).Some? && !Lookup(package, KEY_VERSION).value.TStr? ==> PackageInfoOf(package).None?
  {
  }

  /** `write_package_info_to_package_context`: `set_package_info` with what `[package]` gives. */
  method WritePackageInfo(ctx: PackageContext, package: TomlTable) returns (ok: bool)
    modifies ctx
    ensures ok <==> PackageInfoOf(package).Some?
    ensures ok ==> ctx.packInfo == PackageInfoOf(package).value
    ensures ctx.depInfos == old(ctx.depInfos) && ctx.crateBinary == old(ctx.crateBinary) && ctx.sigs == old(ctx.sigs)
  {
    var info := PackageInfoOf(package);
    if info.None? {
      return false;
    }
    ctx.packInfo := info.value;
    ok := true;
  }

  // ------------------------------------------------------------------
  // [dependencies]
  // ------------------------------------------------------------------

  /** Some attribute of the dependency table is not one the container records. */
  predicate HasUnknownKey(attrs: TomlTable)
  {
    exists i :: 0 <= i < |attrs| && !Allowed(attrs[i].0)
  }

  /** Each of `version`, `git` and `registry` that is present is a string. */
  predicate TableFieldsAreStrings(attrs: TomlTable)
  {
    && (Lookup(attrs, KEY_VERSION).Some? ==> StrField(attrs, KEY_VERSION).Some?)
    && (Lookup(attrs, KEY_GIT).Some? ==> StrField(attrs, KEY_GIT).Some?)
    && (Lookup(attrs, KEY_REGISTRY).Some? ==> StrField(attrs, KEY_REGISTRY).Some?)
  }

  /**
   * The `DepInfo` one dependency becomes, starting from `base` (the unseen
   * `DepInfo::default()`): a string is the version requirement; a table
   * sets the version, then `git`, then `registry` (which wins), and loses
   * `dump` on an unknown key. Any other shape panics (None).
   */
  function DepInfoOf(name: Str, val: TomlValue, platform: Str, base: DepInfo): (r: Option<DepInfo>)
    ensures r.Some? ==> r.value.name == name && r.value.srcPlatform == platform
    ensures r.Some? <==> (val.TStr? || (val.TTable? && TableFieldsAreStrings(val.entries)))
  {
    var d := base.(srcPlatform := platform, name := name);
    if val.TStr? then Some(d.(verReq := val.s))
    else if !val.TTable? then None
    else
      var attrs := val.entries;
      var d1 := if HasUnknownKey(attrs) then d.(dump := false) else d;
      var d2 :- if Lookup(attrs, KEY_VERSION).Some? then
        var v :- StrField(attrs, KEY_VERSION); Some(d1.(verReq := v))
      else Some(d1);
      var d3 :- if Lookup(attrs, KEY_GIT).Some? then
        var g :- StrField(attrs, KEY_GIT); Some(d2.(src := Git(g)))
      else Some(d2);
      if Lookup(attrs, KEY_REGISTRY).Some? then
        var g :- StrField(attrs, KEY_REGISTRY); Some(d3.(src := Registry(g)))
      else Some(d3)
  }

  /** A plain string is the version requirement, and nothing else of `base` changes. */
  lemma StringDependency(name: Str, s: Str, platform: Str, base: DepInfo)
    ensures DepInfoOf(name, TStr(s), platform, base) == Some(base.(name := name, srcPlatform := platform, verReq := s))
  {
  }

  /** A table dependency's fields: what its attributes say, `registry` over `git`, and `dump` lost on an unknown key. */
  lemma TableDependency(name: Str, attrs: TomlTable, platform: Str, base: DepInfo)
    requires DepInfoOf(name, TTable(attrs), platform, base).Some?
    ensures var d := DepInfoOf(name, TTable(attrs), platform, base).value;
      && (d.dump <==> base.dump && !HasUnknownKey(attrs))
      && d.verReq == (if Lookup(attrs, KEY_VERSION).Some? then StrField(attrs, KEY_VERSION).value else base.verReq)
      && d.src == (if Lookup(attrs, KEY_REGISTRY).Some? then Registry(StrField(attrs, KEY_REGISTRY).value)
                   else if Lookup(attrs, KEY_GIT).Some? then Git(StrField(attrs, KEY_GIT).value)
                   else base.src)
  {
  }

  /**
   * The dependencies added and the names reported, after the first `|deps|`
   * rounds of the loop of `write_dep_info_to_package_context`; None when a
   * round panics.
   */
  function SelectDeps(deps: TomlTable, platform: Str, base: DepInfo): (r: Option<(seq<DepInfo>, seq<Str>)>)
    ensures r.Some? <==> forall i :: 0 <= i < |deps| ==> DepInfoOf(deps[i].0, deps[i].1, platform, base).Some?
    ensures r.Some? ==> |r.value.0| + |r.value.1| == |deps|
    decreases |deps|
  {
    if deps == [] then Some(([], []))
    else
      var init := deps[..|deps| - 1];
      var last := deps[|deps| - 1];
      assert forall i :: 0 <= i < |init| ==> init[i] == deps[i];
      var sel :- SelectDeps(init, platform, base);
      var d :- DepInfoOf(last.0, last.1, platform, base);
      if d.dump then Some((sel.0 + [d], sel.1)) else Some((sel.0, sel.1 + [d.name]))
  }

  /** The `DepInfo` the `i`th dependency becomes (defined when the selection is). */
  function Round(deps: TomlTable, platform: Str, base: DepInfo, i: nat): DepInfo
    requires SelectDeps(deps, platform, base).Some? && i < |deps|
  {
    DepInfoOf(deps[i].0, deps[i].1, platform, base).value
  }

  /** Every dependency lands on its side: added if it keeps `dump`, reported by name otherwise. */
  lemma {:induction false} SelectCovers(deps: TomlTable, platform: Str, base: DepInfo)
    requires SelectDeps(deps, platform, base).Some?
    ensures forall i :: 0 <= i < |deps| && Round(deps, platform, base, i).dump ==>
      Round(deps, platform, base, i) in SelectDeps(deps, platform, base).value.0
    ensures forall i :: 0 <= i < |deps| && !Round(deps, platform, base, i).dump ==>
      deps[i].0 in SelectDeps(deps, platform, base).value.1
    decreases |deps|
  {
    if deps != [] {
      var init := deps[..|deps| - 1];
      assert forall i :: 0 <= i < |init| ==> init[i] == deps[i];
      SelectCovers(init, platform, base);
      assert forall i :: 0 <= i < |init| ==> Round(init, platform, base, i) == Round(deps, platform, base, i);
    }
  }

  /** Nothing else lands anywhere: every added entry and every reported name comes from a dependency on that side. */
  lemma {:induction false} SelectSound(deps: TomlTable, platform: Str, base: DepInfo)
    requires SelectDeps(deps, platform, base).Some?
    ensures forall d :: d in SelectDeps(deps, platform, base).value.0 ==>
      (d.dump && d.srcPlatform == platform && exists i :: 0 <= i < |deps| && Round(deps, platform, base, i) == d)
    ensures forall n :: n in SelectDeps(deps, platform, base).value.1 ==>
      exists i :: 0 <= i < |deps| && deps[i].0 == n && !Round(deps, platform, base, i).dump
    decreases |deps|
  {
    if deps != [] {
      var init := deps[..|deps| - 1];
      assert forall i :: 0 <= i < |init| ==> init[i] == deps[i];
      SelectSound(init, platform, base);
      assert forall i :: 0 <= i < |init| ==> Round(init, platform, base, i) == Round(deps, platform, base, i);
      var sel := SelectDeps(init, platform, base).value;
      var last := |deps| - 1;
      var d := Round(deps, platform, base, last);
      assert d.srcPlatform == platform;
      if d.dump {
        assert SelectDeps(deps, platform, base).value == (sel.0 + [d], sel.1);
      } else {
        assert SelectDeps(deps, platform, base).value == (sel.0, sel.1 + [d.name]);
      }
    }
  }

  /** A table dependency with an unknown attribute is reported and not added. */
  lemma UnknownKeyExcluded(deps: TomlTable, platform: Str, base: DepInfo, i: nat)
    requires SelectDeps(deps, platform, base).Some?
    requires i < |deps| && deps[i].1.TTable? && HasUnknownKey(deps[i].1.entries)
    ensures deps[i].0 in SelectDeps(deps, platform, base).value.1
    ensures forall d :: d in SelectDeps(deps, platform, base).value.0 ==> d != Round(deps, platform, base, i)
  {
    SelectCovers(deps, platform, base);
    SelectSound(deps, platform, base);
    TableDependency(deps[i].0, deps[i].1.entries, platform, base);
  }

  lemma SelectStep(deps: TomlTable, platform: Str, base: DepInfo, k: nat)
    requires k < |deps|
    ensures deps[..k + 1][..k] == deps[..k] && deps[..k + 1][k] == deps[k]
  {
  }

  /**
   * `write_dep_info_to_package_context`: each dependency, in table order,
   * is appended to the context or its name to the returned list.
   */
  method WriteDepInfo(ctx: PackageContext, deps: TomlTable, platform: Str, base: DepInfo)
    returns (ok: bool, excluded: seq<Str>)
    modifies ctx
    ensures ok <==> SelectDeps(deps, platform, base).Some?
    ensures ok ==> ctx.depInfos == old(ctx.depInfos) + SelectDeps(deps, platform, base).value.0
    ensures ok ==> excluded == SelectDeps(deps, platform, base).value.1
    ensures ctx.packInfo == old(ctx.packInfo) && ctx.crateBinary == old(ctx.crateBinary) && ctx.sigs == old(ctx.sigs)
  {
    var added: seq<DepInfo> := [];
    excluded := [];
    var k := 0;
    while k < |deps|
      invariant 0 <= k <= |deps|
      invariant SelectDeps(deps[..k], platform, base) == Some((added, excluded))
      invariant ctx.depInfos == old(ctx.depInfos) + added
      invariant ctx.packInfo == old(ctx.packInfo) && ctx.crateBinary == old(ctx.crateBinary) && ctx.sigs == old(ctx.sigs)
    {
      SelectStep(deps, platform, base, k);
      var d := DepInfoFor(deps[k].0, deps[k].1, platform, base);
      if d.None? {
        assert !SelectDeps(deps, platform, base).Some?;
        return false, excluded;
      }
      if d.value.dump {
        ctx.depInfos := ctx.depInfos + [d.value];
        added := added + [d.value];
      } else {
        excluded := excluded + [d.value.name];
      }
      k := k + 1;
    }
    assert deps[..k] == deps;
    ok := true;
  }

  /** One round of the loop: the field assignments, with the scan over the attribute keys. */
  method DepInfoFor(name: Str, val: TomlValue, platform: Str, base: DepInfo) returns (r: Option<DepInfo>)
    ensures r == DepInfoOf(name, val, platform, base)
  {
    var d := base.(srcPlatform := platform, name := name);
    if val.TStr? {
      return Some(d.(verReq := val.s));
    }
    if !val.TTable? {
      return None;
    }
    var attrs := val.entries;
    var j := 0;
    while j < |attrs|
      invariant 0 <= j <= |attrs|
      invariant d.name == name && d.srcPlatform == platform && d.verReq == base.verReq && d.src == base.src
      invariant d.dump == (base.dump && forall i :: 0 <= i < j ==> Allowed(attrs[i].0))
    {
      if !Allowed(attrs[j].0) {
        d := d.(dump := false);
      }
      j := j + 1;
    }
    if Lookup(attrs, KEY_VERSION).Some? {
      var v := StrField(attrs, KEY_VERSION);
      if v.None? {
        return None;
      }
      d := d.(verReq := v.value);
    }
    if Lookup(attrs, KEY_GIT).Some? {
      var g := StrField(attrs, KEY_GIT);
      if g.None? {
        return None;
      }
      d := d.(src := Git(g.value));
    }
    if Lookup(attrs, KEY_REGISTRY).Some? {
      var g := StrField(attrs, KEY_REGISTRY);
      if g.None? {
        return None;
      }
      d := d.(src := Registry(g.value));
    }
    r := Some(d);
  }

  /**
   * `write_info_to_package_context`: `[package]` and `[dependencies]` must
   * both be tables (otherwise a panic), the package info is written first,
   * then the dependencies with platform "".
   */
  method WriteInfo(ctx: PackageContext, t: TomlTable, base: DepInfo) returns (ok: bool, excluded: seq<Str>)
    modifies ctx
    ensures ok <==>
      && Lookup(t, KEY_PACKAGE).Some? && Lookup(t, KEY_PACKAGE).value.TTable?
      && PackageInfoOf(Lookup(t, KEY_PACKAGE).value.entries).Some?
      && Lookup(t, KEY_DEPENDENCIES).Some? && Lookup(t, KEY_DEPENDENCIES).value.TTable?
      && SelectDeps(Lookup(t, KEY_DEPENDENCIES).value.entries, [], base).Some?
    ensures ok ==> ctx.packInfo == PackageInfoOf(Lookup(t, KEY_PACKAGE).value.entries).value
    ensures ok ==> ctx.depInfos == old(ctx.depInfos) + SelectDeps(Lookup(t, KEY_DEPENDENCIES).value.entries, [], base).value.0
    ensures ok ==> excluded == SelectDeps(Lookup(t, KEY_DEPENDENCIES).value.entries, [], base).value.1
    ensures ctx.crateBinary == old(ctx.crateBinary) && ctx.sigs == old(ctx.sigs)
  {
    excluded := [];
    var package := Lookup(t, KEY_PACKAGE);
    if package.None? || !package.value.TTable? {
      return false, excluded;
    }
    ok := WritePackageInfo(ctx, package.value.entries);
    if !ok {
      return false, excluded;
    }
    var deps := Lookup(t, KEY_DEPENDENCIES);
    if deps.None? || !deps.value.TTable? {
      return false, excluded;
    }
    ok, excluded := WriteDepInfo(ctx, deps.value.entries, [], base);
  }
}
