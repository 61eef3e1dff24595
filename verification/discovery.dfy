/** Package discovery: every top-level directory whose name starts with
    neither `.` nor `_` becomes a package, and the package list is sorted. */
module PackageDiscovery {
  import opened Strings
  import opened Sorting

  /** One entry of the working directory's listing (`Deno.readDir(".")`). */
  datatype DirEntry = DirEntry(name: string, isDirectory: bool)

  predicate IsPackageDir(e: DirEntry) {
    e.isDirectory && !StartsWith(e.name, ".") && !StartsWith(e.name, "_")
  }

  /** Names of the qualifying entries, in listing order. */
  function PackageCandidates(entries: seq<DirEntry>): (r: seq<string>)
    ensures forall n :: n in r <==> exists e :: e in entries && IsPackageDir(e) && e.name == n
    decreases |entries|
  {
    if |entries| == 0 then []
    else
      var rest := PackageCandidates(entries[1..]);
      assert forall e :: e in entries <==> e == entries[0] || e in entries[1..];
      if IsPackageDir(entries[0]) then [entries[0].name] + rest else rest
  }

  /** The sorted package list. */
  function DiscoverPackages(entries: seq<DirEntry>): (r: seq<string>)
    ensures SortedBy(r, Self)
    ensures forall n :: n in r <==>
              exists e :: e in entries && e.isDirectory && e.name == n &&
                          !StartsWith(n, ".") && !StartsWith(n, "_")
    ensures multiset(r) == multiset(PackageCandidates(entries))
  {
    var candidates := PackageCandidates(entries);
    var r := SortBy(candidates, Self);
    assert forall n :: n in r <==> n in multiset(r);
    assert forall n :: n in candidates <==> n in multiset(candidates);
    r
  }

  /** A listing of distinct names yields a package list without repetition. */
  lemma {:induction false} CandidatesDistinct(entries: seq<DirEntry>)
    requires forall i, j :: 0 <= i < j < |entries| ==> entries[i].name != entries[j].name
    ensures forall i, j :: 0 <= i < j < |PackageCandidates(entries)| ==>
              PackageCandidates(entries)[i] != PackageCandidates(entries)[j]
    decreases |entries|
  {
    if |entries| > 0 {
      CandidatesDistinct(entries[1..]);
      var rest := PackageCandidates(entries[1..]);
      if IsPackageDir(entries[0]) {
        forall j | 0 <= j < |rest|
          ensures rest[j] != entries[0].name
        {
          assert rest[j] in rest;
          var e :| e in entries[1..] && IsPackageDir(e) && e.name == rest[j];
          var k :| 0 <= k < |entries[1..]| && entries[1..][k] == e;
          assert entries[k + 1] == e;
        }
        assert PackageCandidates(entries) == [entries[0].name] + rest;
      }
    }
  }
}

/** Export discovery for one package: every public module file becomes an
    export entry `[key, "." + path]`, where `path` is the file's location
    below the package root (starting with `/`) and the key is the path with
    its `.ts` / `.d.ts` extension and then a trailing `/mod` removed. */
module ExportDiscovery {
  import opened Strings
  import opened Sorting

  /** One result of walking a package root: the location relative to the
      root (`relative(base, file.path)`) and whether it is a regular file. */
  datatype WalkEntry = WalkEntry(relPath: string, isFile: bool)

  /** `[key, path]`, both starting with `.`. */
  datatype ExportEntry = ExportEntry(key: string, path: string)

  function Key(e: ExportEntry): string { e.key }

  /** `s.replace(/(\.d)?\.ts$/, "")`. */
  function StripTsExtension(s: string): (r: string)
    ensures |r| <= |s| && s[..|r|] == r
    ensures s[|r|..] == "" || s[|r|..] == ".ts" || s[|r|..] == ".d.ts"
    ensures r == s <==> !EndsWith(s, ".ts")
    ensures EndsWith(s, ".d.ts") ==> s[|r|..] == ".d.ts"
    ensures EndsWith(s, ".ts") && !EndsWith(s, ".d.ts") ==> s[|r|..] == ".ts"
  {
    if EndsWith(s, ".d.ts") then s[..|s| - 5]
    else if EndsWith(s, ".ts") then s[..|s| - 3]
    else assert s[|s|..] == ""; s
  }

  /** `s.replace(/\/mod$/, "")`. */
  function StripModSuffix(s: string): (r: string)
    ensures |r| <= |s| && s[..|r|] == r
    ensures s[|r|..] == "" || s[|r|..] == "/mod"
    ensures r != s <==> EndsWith(s, "/mod")
  {
    if EndsWith(s, "/mod") then s[..|s| - 4] else assert s[|s|..] == ""; s
  }

  /** The export-key rule shared with the import rewriter: drop the module
      extension, then collapse a trailing `/mod` to its directory. */
  function KeyOf(s: string): (r: string)
    ensures |r| <= |s| && s[..|r|] == r
    ensures s[|r|..] in {"", ".ts", ".d.ts", "/mod", "/mod.ts", "/mod.d.ts"}
  {
    KeyRemovedSuffix(s);
    StripModSuffix(StripTsExtension(s))
  }

  /** What the two suffix rules remove together. */
  lemma KeyRemovedSuffix(s: string)
    ensures var r := StripModSuffix(StripTsExtension(s));
            |r| <= |s| && s[..|r|] == r &&
            s[|r|..] in {"", ".ts", ".d.ts", "/mod", "/mod.ts", "/mod.d.ts"}
  {
    var name := StripTsExtension(s);
    var r := StripModSuffix(name);
    KeySuffixParts(s);
    var ext := s[|name|..];
    assert s[|r|..] == name[|r|..] + ext;
    if name[|r|..] == "/mod" && ext != "" {
      ModWithExtension(ext);
    }
  }

  /** Line 84 of the walk: a file counts as a module when the extension
      rule changed its name or it is a `.json` data file. */
  predicate IsModuleFile(path: string) {
    var name := StripTsExtension(path);
    !(name == path && !EndsWith(name, ".json"))
  }

  /** Hidden or internal paths, tests, examples, fixtures and manifests,
      judged on the extension-less `name`. */
  predicate IsExcludedName(name: string) {
    || Contains(name, "/.") || Contains(name, "/_")
    || EndsWith(name, "_test") || EndsWith(name, "/test")
    || Contains(name, "/example/") || EndsWith(name, "_example")
    || Contains(name, "/testdata/")
    || EndsWith(name, "/deno.json")
  }

  /** The filters of `discoverExports`, applied to `path` ("/" + the
      root-relative location). */
  predicate IsPublicModule(path: string)
    ensures IsPublicModule(path) ==> EndsWith(path, ".ts") || EndsWith(path, ".json")
  {
    IsModuleFile(path) && !IsExcludedName(StripTsExtension(path))
  }

  /** The entry of a module: its value is the path, and its key is a
      prefix of the value. */
  function EntryFor(path: string): (e: ExportEntry)
    ensures e.path == "." + path
    ensures |e.key| <= |e.path| && e.path[..|e.key|] == e.key
  {
    var key := KeyOf(path);
    assert ("." + path)[..|key| + 1] == "." + path[..|key|];
    ExportEntry("." + key, "." + path)
  }

  predicate Exports(w: WalkEntry) {
    w.isFile && IsPublicModule("/" + w.relPath)
  }

  /** Export entries in walk order. */
  function CollectExports(walk: seq<WalkEntry>): (r: seq<ExportEntry>)
    ensures forall e :: e in r <==> exists w :: w in walk && Exports(w) && e == EntryFor("/" + w.relPath)
    decreases |walk|
  {
    if |walk| == 0 then []
    else
      var rest := CollectExports(walk[1..]);
      assert forall w :: w in walk <==> w == walk[0] || w in walk[1..];
      if Exports(walk[0]) then
        var first := EntryFor("/" + walk[0].relPath);
        assert forall e :: e in [first] + rest <==> e == first || e in rest;
        [first] + rest
      else rest
  }

  /** `discoverExports(pkg)`: the export entries sorted by key. */
  function DiscoverExports(walk: seq<WalkEntry>): (r: seq<ExportEntry>)
    ensures SortedBy(r, Key)
    ensures forall e :: e in r <==>
              exists w :: w in walk && w.isFile && IsPublicModule("/" + w.relPath) &&
                          e == EntryFor("/" + w.relPath)
    ensures multiset(r) == multiset(CollectExports(walk))
    ensures forall k :: WithKey(r, Key, k) == WithKey(CollectExports(walk), Key, k)
  {
    var collected := CollectExports(walk);
    var r := SortBy(collected, Key);
    assert forall e :: e in r <==> e in multiset(r);
    assert forall e :: e in collected <==> e in multiset(collected);
    r
  }

  /** The key rule only ever cuts a suffix off: the module suffix, then
      the extension. */
  lemma KeySuffixParts(path: string)
    ensures var name := StripTsExtension(path);
            var key := StripModSuffix(name);
            |key| <= |name| <= |path| && path == key + path[|key|..] &&
            path[|key|..] == name[|key|..] + path[|name|..]
  {
    var name := StripTsExtension(path);
    var key := StripModSuffix(name);
    assert path == name + path[|name|..];
    assert name == key + name[|key|..];
  }

  /** A `.json` file keeps its whole path as its key. */
  lemma JsonKeyIsPath(path: string)
    requires EndsWith(path, ".json")
    ensures StripTsExtension(path) == path && KeyOf(path) == path
  {
    assert path[|path| - 1] == 'n';
    assert !EndsWith(path, ".ts") by { assert ".ts"[2] == 's'; }
    assert !EndsWith(path, "/mod") by { assert "/mod"[3] == 'd'; }
  }

  /** The export value is the key followed by whatever the key rule removed:
      nothing (data files), the extension, or `/mod` and the extension. */
  lemma ValueExtendsKey(path: string)
    requires IsModuleFile(path)
    ensures EntryFor(path).path == EntryFor(path).key + path[|KeyOf(path)|..]
    ensures path[|KeyOf(path)|..] in {"", ".ts", ".d.ts", "/mod.ts", "/mod.d.ts"}
    ensures path[|KeyOf(path)|..] == "" <==> EndsWith(path, ".json")
    ensures path[|KeyOf(path)|..] in {".d.ts", "/mod.d.ts"} <==> EndsWith(path, ".d.ts")
  {
    var name := StripTsExtension(path);
    var key := StripModSuffix(name);
    var ext := path[|name|..];
    var mod := name[|key|..];
    KeySuffixParts(path);
    var suffix := path[|key|..];
    assert suffix == mod + ext;
    assert "." + path == ("." + key) + suffix;
    if EndsWith(path, ".json") {
      JsonKeyIsPath(path);
      assert suffix == "";
    } else {
      assert name != path;
      DeclarationExtension(path);
      assert mod == "" || mod == "/mod";
      if mod == "" {
        assert suffix == ext;
      } else {
        ModWithExtension(ext);
      }
    }
  }

  /** The extension rule removes `.d.ts` exactly from declaration files. */
  lemma DeclarationExtension(path: string)
    requires EndsWith(path, ".ts")
    ensures path[|StripTsExtension(path)|..] in {".ts", ".d.ts"}
    ensures path[|StripTsExtension(path)|..] == ".d.ts" <==> EndsWith(path, ".d.ts")
  {
    var ext := path[|StripTsExtension(path)|..];
    if ext == ".d.ts" {
      assert path[|path| - 5..] == ext;
    }
  }

  lemma ModWithExtension(ext: string)
    requires ext == ".ts" || ext == ".d.ts"
    ensures "/mod" + ext == (if ext == ".ts" then "/mod.ts" else "/mod.d.ts")
  {
  }

  lemma CharsOfOccurrence(s: string, pat: string, i: int)
    requires OccursAt(s, pat, i)
    ensures forall k :: 0 <= k < |pat| ==> s[i + k] == pat[k]
  {
    forall k | 0 <= k < |pat|
      ensures s[i + k] == pat[k]
    {
      assert s[i..i + |pat|][k] == s[i + k];
    }
  }

  lemma OccurrenceInPrefix(s: string, prefix: string, pat: string, i: int)
    requires |prefix| <= |s| && s[..|prefix|] == prefix
    requires OccursAt(s, pat, i) && i + |pat| <= |prefix|
    ensures Contains(prefix, pat)
  {
    assert prefix[i..i + |pat|] == s[i..i + |pat|];
    assert OccursAt(prefix, pat, i);
  }

  /** An occurrence whose last character cannot belong to a `.ts` or
      `.d.ts` extension survives the extension rule. */
  lemma OccurrenceSurvivesStrip(path: string, pat: string, i: int)
    requires OccursAt(path, pat, i) && |pat| > 0
    requires pat[|pat| - 1] !in {'.', 'd', 't', 's'}
    ensures Contains(StripTsExtension(path), pat)
  {
    var name := StripTsExtension(path);
    var n := |name|;
    var j := i + |pat| - 1;
    CharsOfOccurrence(path, pat, i);
    assert path == name + path[n..];
    OccurrenceInPrefix(path, name, pat, i);
  }

  /** A name ending in `stem` plus an extension keeps `stem` at its end once
      the extension is dropped. */
  lemma StemSurvivesStrip(path: string, stem: string, ext: string)
    requires ext == ".ts" || ext == ".d.ts"
    requires |stem| > 0 && stem[|stem| - 1] != 'd'
    requires EndsWith(path, stem + ext)
    ensures EndsWith(StripTsExtension(path), stem)
  {
    var m := |path|;
    var t := path[m - |stem| - |ext|..];
    assert t == stem + ext;
    assert path[m - |ext|..] == t[|stem|..] == ext;
    var name := path[..m - |ext|];
    assert StripTsExtension(path) == name by {
      if ext == ".ts" {
        assert path[m - 4] == t[|stem| - 1] == stem[|stem| - 1];
        if m >= 5 {
          assert path[m - 5..][1] == path[m - 4] != ".d.ts"[1];
        }
      }
    }
    assert name[|name| - |stem|..] == t[..|stem|] == stem;
  }

  /** Test modules never become exports, whatever the rest of their path. */
  lemma TestFilesNeverExported(path: string)
    requires EndsWith(path, "_test.ts") || EndsWith(path, "_test.d.ts") || EndsWith(path, "/test.ts")
    ensures !IsPublicModule(path)
  {
    var name := StripTsExtension(path);
    if EndsWith(path, "_test.ts") {
      assert "_test.ts" == "_test" + ".ts";
      StemSurvivesStrip(path, "_test", ".ts");
      assert EndsWith(name, "_test");
    } else if EndsWith(path, "_test.d.ts") {
      assert "_test.d.ts" == "_test" + ".d.ts";
      StemSurvivesStrip(path, "_test", ".d.ts");
      assert EndsWith(name, "_test");
    } else {
      assert "/test.ts" == "/test" + ".ts";
      StemSurvivesStrip(path, "/test", ".ts");
      assert EndsWith(name, "/test");
    }
    assert IsExcludedName(name);
  }

  /** Example modules never become exports. */
  lemma ExampleFilesNeverExported(path: string)
    requires EndsWith(path, "_example.ts") || Contains(path, "/example/")
    ensures !IsPublicModule(path)
  {
    if EndsWith(path, "_example.ts") {
      StemSurvivesStrip(path, "_example", ".ts");
    } else {
      OccurrenceSurvivesStrip(path, "/example/", IndexOf(path, "/example/").value);
    }
  }

  /** Internal modules (a segment starting with `_`) and fixtures under a
      `testdata` directory never become exports. */
  lemma InternalFilesNeverExported(path: string)
    requires Contains(path, "/_") || Contains(path, "/testdata/")
    ensures !IsPublicModule(path)
  {
    if Contains(path, "/_") {
      OccurrenceSurvivesStrip(path, "/_", IndexOf(path, "/_").value);
    } else {
      OccurrenceSurvivesStrip(path, "/testdata/", IndexOf(path, "/testdata/").value);
    }
  }

  /** Package manifests and files that are neither TypeScript nor JSON never
      become exports. */
  lemma NonModulesNeverExported(path: string)
    requires EndsWith(path, "/deno.json") || (!EndsWith(path, ".ts") && !EndsWith(path, ".json"))
    ensures !IsPublicModule(path)
  {
    if EndsWith(path, "/deno.json") {
      CharsOfOccurrence(path, "/deno.json", |path| - 10);
      assert path[|path| - 1] == 'n';
      assert !EndsWith(path, ".ts");
    }
  }
}
