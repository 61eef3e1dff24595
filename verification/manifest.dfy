/** The manifests the conversion writes: one `deno.json` per package
    (name, version and `exports`) and the updated root `deno.json`
    (`workspaces` in dependency order and two import-map entries per
    package). The JSON documents are modelled as records and maps. */
module Manifest {
  import opened Wrappers
  import opened Strings
  import opened ExportDiscovery
  import ImportRewrite
  import ImportScan

  /** `Object.fromEntries` on `[key, path]` pairs: a later pair overrides an
      earlier pair with the same key. */
  function FromEntries(es: seq<ExportEntry>): (m: map<string, string>)
    ensures m.Keys == set e | e in es :: e.key
    decreases |es|
  {
    if |es| == 0 then map[]
    else
      var init := es[..|es| - 1];
      var last := es[|es| - 1];
      assert forall e :: e in es <==> e in init || e == last by {
        assert es == init + [last];
      }
      FromEntries(init)[last.key := last.path]
  }

  /** `i` is the last position of `es` holding key `es[i].key`. */
  predicate LastWithKey(es: seq<ExportEntry>, i: int) {
    0 <= i < |es| && forall j :: i < j < |es| ==> es[j].key != es[i].key
  }

  /** Each key maps to the path of its last pair. */
  lemma {:induction false} FromEntriesLastWins(es: seq<ExportEntry>, i: int)
    requires LastWithKey(es, i)
    ensures FromEntries(es)[es[i].key] == es[i].path
    decreases |es|
  {
    if i < |es| - 1 {
      var init := es[..|es| - 1];
      assert init[i] == es[i];
      assert LastWithKey(init, i);
      FromEntriesLastWins(init, i);
    }
  }

  /** With distinct keys, the object holds every pair exactly as listed. */
  lemma FromEntriesDistinct(es: seq<ExportEntry>)
    requires forall i, j :: 0 <= i < j < |es| ==> es[i].key != es[j].key
    ensures forall i :: 0 <= i < |es| ==> FromEntries(es)[es[i].key] == es[i].path
  {
    forall i | 0 <= i < |es|
      ensures FromEntries(es)[es[i].key] == es[i].path
    {
      FromEntriesLastWins(es, i);
    }
  }

  /** The `exports` field of a package manifest: a single path or a table. */
  datatype ExportsField = Shorthand(path: string) | Table(entries: map<string, string>)

  /** What an `exports` field maps each key to; the shorthand stands for
      the key `.`. */
  function Meaning(f: ExportsField): map<string, string> {
    match f
    case Shorthand(p) => map["." := p]
    case Table(m) => m
  }

  /** Lines 243-248: the shorthand `./mod.ts` when the package has exactly
      one export and it is keyed `.`, the full table otherwise. */
  function PackageExports(list: seq<ExportEntry>): (r: ExportsField)
    ensures r.Shorthand? <==> |list| == 1 && list[0].key == "."
    ensures r.Table? ==> r.entries.Keys == set e | e in list :: e.key
  {
    if |list| == 1 && list[0].key == "." then Shorthand("./mod.ts") else Table(FromEntries(list))
  }

  /** The field means what the export list means, except when the single
      `.` export is not `./mod.ts`: the shorthand names `./mod.ts` whatever
      the list says. */
  lemma ExportsMeaning(list: seq<ExportEntry>)
    ensures Meaning(PackageExports(list)) == FromEntries(list) <==>
              !(|list| == 1 && list[0].key == "." && list[0].path != "./mod.ts")
  {
    if |list| == 1 && list[0].key == "." {
      assert list == [] + [list[0]];
      assert FromEntries(list) == map["." := list[0].path];
      if list[0].path != "./mod.ts" {
        assert Meaning(PackageExports(list))["."] != FromEntries(list)["."];
      }
    }
  }

  /** A discovered export keyed `.` is the package's `mod.ts` or `mod.d.ts`,
      so the shorthand is exact unless the only module is a declaration file. */
  lemma RootExportIsMod(path: string)
    requires |path| > 0 && path[0] == '/'
    requires IsModuleFile(path) && EntryFor(path).key == "."
    ensures path == "/mod.ts" || path == "/mod.d.ts"
    ensures EntryFor(path).path == "." + path
  {
    ValueExtendsKey(path);
    var k := KeyOf(path);
    assert "." + k == ".";
    assert |k| == 0;
    assert path[|k|..] == path;
    assert path != ".ts" && path != ".d.ts" by {
      assert ".ts"[0] == '.' && ".d.ts"[0] == '.';
    }
  }

  /** A package's `deno.json`. */
  datatype PackageJson = PackageJson(name: string, version: string, exports: ExportsField)

  /** Lines 241-258, without the serialisation. */
  function PackageManifest(pkg: string, version: string, list: seq<ExportEntry>): (r: PackageJson)
    ensures StartsWith(r.name, "@std/") && r.name[5..] == pkg
    ensures r.version == version
    ensures Meaning(r.exports).Keys == set e | e in list :: e.key
  {
    var r := PackageJson("@std/" + pkg, version, PackageExports(list));
    assert r.name[..5] == "@std/";
    r
  }

  /** The bare specifier the import rewriter gives a package's entry module
      is the name its manifest publishes. */
  lemma ManifestNameMatchesRewrite(pkg: string, version: string, list: seq<ExportEntry>)
    ensures ImportRewrite.RewriteLegacy(ImportScan.LegacyPrefix + (pkg + "/mod.ts")) ==
              PackageManifest(pkg, version, list).name
  {
    ImportRewrite.LegacyEntryRewrite(pkg);
    var name := PackageManifest(pkg, version, list).name;
    assert name == name[..5] + name[5..];
  }

  function BareKey(pkg: string): string { "@std/" + pkg }
  function DirKey(pkg: string): string { "@std/" + pkg + "/" }
  function BareTarget(pkg: string, version: string): string { "jsr:@std/" + pkg + "@^" + version }
  function DirTarget(pkg: string, version: string): string { "jsr:/@std/" + pkg + "@^" + version + "/" }

  /** The import-map keys written for `packages`. */
  function ImportKeys(packages: seq<string>): set<string> {
    (set p | p in packages :: BareKey(p)) + (set p | p in packages :: DirKey(p))
  }

  /** Lines 263-266: two import-map entries per package, written in order. */
  function AddImports(imports: map<string, string>, packages: seq<string>, version: string): (r: map<string, string>)
    ensures r.Keys == imports.Keys + ImportKeys(packages)
    ensures forall k :: k in imports && k !in ImportKeys(packages) ==> r[k] == imports[k]
    decreases |packages|
  {
    if |packages| == 0 then imports
    else
      var p := packages[0];
      assert forall q :: q in packages <==> q == p || q in packages[1..];
      assert ImportKeys(packages) == {BareKey(p), DirKey(p)} + ImportKeys(packages[1..]);
      AddImports(imports[BareKey(p) := BareTarget(p, version)][DirKey(p) := DirTarget(p, version)],
                 packages[1..], version)
  }

  /** A bare key never coincides with a directory key of a slash-free name. */
  lemma BareNotDir(p: string, q: string)
    requires '/' !in p
    ensures BareKey(p) != DirKey(q)
  {
    var d := DirKey(q);
    assert d[|d| - 1] == '/';
    if |p| > 0 {
      var b := BareKey(p);
      assert b[|b| - 1] == p[|p| - 1];
      assert p[|p| - 1] in p;
    } else {
      assert |BareKey(p)| == 5 < |d|;
    }
  }

  /** Different packages have different keys. */
  lemma KeysInjective(p: string, q: string)
    requires p != q
    ensures BareKey(p) != BareKey(q) && DirKey(p) != DirKey(q)
  {
    assert BareKey(p)[5..] == p && BareKey(q)[5..] == q;
    assert DirKey(p)[5..|DirKey(p)| - 1] == p && DirKey(q)[5..|DirKey(q)| - 1] == q;
  }

  /** Entries already holding the right targets keep them. */
  lemma {:induction false} AddImportsKeeps(imports: map<string, string>, packages: seq<string>, version: string, p: string)
    requires '/' !in p && forall q :: q in packages ==> '/' !in q
    requires BareKey(p) in imports && imports[BareKey(p)] == BareTarget(p, version)
    requires DirKey(p) in imports && imports[DirKey(p)] == DirTarget(p, version)
    ensures AddImports(imports, packages, version)[BareKey(p)] == BareTarget(p, version)
    ensures AddImports(imports, packages, version)[DirKey(p)] == DirTarget(p, version)
    decreases |packages|
  {
    if |packages| > 0 {
      var q := packages[0];
      BareNotDir(p, q);
      BareNotDir(q, p);
      if p != q {
        KeysInjective(p, q);
      }
      var m := imports[BareKey(q) := BareTarget(q, version)][DirKey(q) := DirTarget(q, version)];
      assert q in packages;
      assert forall x :: x in packages[1..] ==> x in packages;
      AddImportsKeeps(m, packages[1..], version, p);
    }
  }

  /** Every package of a workspace of directory names ends up with its two
      `jsr:` targets, whatever the map held before. */
  lemma {:induction false} AddImportsValues(imports: map<string, string>, packages: seq<string>, version: string, p: string)
    requires forall q :: q in packages ==> '/' !in q
    requires p in packages
    ensures AddImports(imports, packages, version)[BareKey(p)] == BareTarget(p, version)
    ensures AddImports(imports, packages, version)[DirKey(p)] == DirTarget(p, version)
    decreases |packages|
  {
    var q := packages[0];
    var m := imports[BareKey(q) := BareTarget(q, version)][DirKey(q) := DirTarget(q, version)];
    assert forall x :: x in packages[1..] ==> x in packages;
    if p == q {
      BareNotDir(p, p);
      AddImportsKeeps(m, packages[1..], version, p);
    } else {
      AddImportsValues(m, packages[1..], version, p);
    }
  }

  /** Rewriting the import map a second time changes nothing. */
  lemma AddImportsIdempotent(imports: map<string, string>, packages: seq<string>, version: string)
    requires forall q :: q in packages ==> '/' !in q
    ensures AddImports(AddImports(imports, packages, version), packages, version) ==
              AddImports(imports, packages, version)
  {
    var once := AddImports(imports, packages, version);
    var twice := AddImports(once, packages, version);
    forall k | k in twice
      ensures twice[k] == once[k]
    {
      if k in ImportKeys(packages) {
        var p :| p in packages && (k == BareKey(p) || k == DirKey(p));
        AddImportsValues(imports, packages, version, p);
        AddImportsValues(once, packages, version, p);
      }
    }
  }

  /** The part of the root `deno.json` the conversion touches; `imports` is
      absent when the document has no such member. */
  datatype RootJson = RootJson(workspaces: seq<string>, imports: Option<map<string, string>>)

  /** Line 262: one `./<pkg>` folder per package, in the given order. */
  function Workspaces(ordered: seq<string>): (r: seq<string>)
    ensures |r| == |ordered|
    ensures forall i :: 0 <= i < |r| ==> StartsWith(r[i], "./") && r[i][2..] == ordered[i]
  {
    seq(|ordered|, i requires 0 <= i < |ordered| => "./" + ordered[i])
  }

  /** Lines 260-266. Writing into an absent `imports` member throws, unless
      there is no package to write. */
  function UpdateRoot(root: RootJson, ordered: seq<string>, packages: seq<string>, version: string): (r: Result<RootJson, string>)
    ensures r.Failure? <==> root.imports.None? && |packages| > 0
    ensures r.Success? ==> r.value.workspaces == Workspaces(ordered)
    ensures r.Success? && root.imports.Some? ==>
              r.value.imports.Some? &&
              r.value.imports.value.Keys == root.imports.value.Keys + ImportKeys(packages)
    ensures r.Success? && root.imports.None? ==> r.value.imports.None?
  {
    if root.imports.None? then
      if |packages| > 0 then Failure("imports") else Success(root.(workspaces := Workspaces(ordered)))
    else
      Success(RootJson(Workspaces(ordered), Some(AddImports(root.imports.value, packages, version))))
  }

  /** The bare name of a package resolves through its exact import-map entry. */
  lemma BareSpecifierResolves(imports: map<string, string>, packages: seq<string>, version: string, pkg: string)
    requires forall q :: q in packages ==> '/' !in q
    requires pkg in packages
    ensures "@std/" + pkg in AddImports(imports, packages, version)
    ensures AddImports(imports, packages, version)["@std/" + pkg] == BareTarget(pkg, version)
  {
    AddImportsValues(imports, packages, version, pkg);
  }

  /** A module path below a package resolves through the package's
      directory entry, which maps the prefix onto the registry package. */
  lemma ModuleSpecifierResolves(imports: map<string, string>, packages: seq<string>, version: string,
                                pkg: string, sub: string)
    requires forall q :: q in packages ==> '/' !in q
    requires pkg in packages
    ensures StartsWith("@std/" + pkg + "/" + sub, DirKey(pkg))
    ensures DirKey(pkg) in AddImports(imports, packages, version)
    ensures AddImports(imports, packages, version)[DirKey(pkg)] == DirTarget(pkg, version)
  {
    AddImportsValues(imports, packages, version, pkg);
    var spec := "@std/" + pkg + "/" + sub;
    assert spec == DirKey(pkg) + sub;
    assert spec[..|DirKey(pkg)|] == DirKey(pkg);
  }
}
