/** The import rewriter: for one source file below the working directory,
    every relative import and every legacy `deno.land/std` URL gets a
    replacement specifier, and each replacement is applied to the text with
    a first-occurrence `replace`. Paths are normalised segment sequences
    below the file-system root. */
module ImportRewrite {
  import opened Strings
  import opened Paths
  import opened ImportScan
  import ExportDiscovery

  /** The old specifier and its replacement. */
  datatype Rewrite = Rewrite(original: string, replacement: string)

  /** A file of the tree: `file` lies strictly below the working directory. */
  predicate InTree(cwd: seq<string>, file: seq<string>) {
    NormalPath(cwd) && NormalPath(file) && |file| > |cwd| && file[..|cwd|] == cwd
  }

  function Dirname(file: seq<string>): seq<string>
    requires |file| > 0
  {
    file[..|file| - 1]
  }

  /** `relative(cwd, p).split("/")[0]`. */
  function PackageOfPath(cwd: seq<string>, p: seq<string>): string {
    FirstSegment(Relative(cwd, p))
  }

  /** A specifier the module loader treats as relative to the importer. */
  predicate IsRelativeSpecifier(s: string) {
    StartsWith(s, "./") || StartsWith(s, "../")
  }

  /** Lines 209-211: `./` is prefixed unless the path already starts with
      a dot. */
  function DotPrefixedAsWritten(rel: string): (r: string)
    ensures StartsWith(r, ".")
    ensures r == rel || r == "./" + rel
  {
    if StartsWith(rel, ".") then rel else "./" + rel
  }

  /** The rule lines 209-211 evidently intend: `./` is prefixed unless the
      path already climbs out with `../`. */
  function DotPrefixed(rel: string): (r: string)
    ensures IsRelativeSpecifier(r) && StartsWith(r, ".")
    ensures r == rel || r == "./" + rel
  {
    if StartsWith(rel, "../") then rel else "./" + rel
  }

  /** `"@std/" + target.replace(/(\.d)?\.ts$/, "").replace(/\/mod$/, "")`. */
  function StdSpecifier(target: string): (r: string)
    ensures StartsWith(r, "@std/") && !StartsWith(r, ".") && !IsRelativeSpecifier(r)
  {
    var r := "@std/" + ExportDiscovery.KeyOf(target);
    assert r[..5] == "@std/" && r[0] == '@';
    assert r[..1] != "." && r[..2] != "./" && r[..3] != "../";
    r
  }

  lemma DotLedNotStd(r: string)
    requires StartsWith(r, ".")
    ensures !StartsWith(r, "@std/")
  {
    assert r[0] == r[..1][0];
    if |r| >= 5 {
      assert r[..5][0] == r[0];
    }
  }

  /** Lines 203-205: the imported file relative to the working directory.
      The specifier is resolved from the importer's directory (`new URL`). */
  function TargetOf(cwd: seq<string>, file: seq<string>, spec: string): string
    requires InTree(cwd, file)
  {
    Relative(cwd, Resolve(Dirname(file), spec))
  }

  /** Lines 206-207: the imported file lies in the importer's package. */
  predicate SamePackage(cwd: seq<string>, file: seq<string>, spec: string)
    requires InTree(cwd, file)
  {
    FirstSegment(TargetOf(cwd, file, spec)) == PackageOfPath(cwd, file)
  }

  /** Line 208: `relative(dirname(entry.path), target)`; the target is
      relative to the working directory, which `relative` resolves it
      against. */
  function SiblingPath(cwd: seq<string>, file: seq<string>, spec: string): string
    requires InTree(cwd, file)
  {
    Relative(Dirname(file), Resolve(cwd, TargetOf(cwd, file, spec)))
  }

  /** Lines 202-217: the replacement for one relative specifier of `file`.
      Inside the importer's own package the result is the path from the
      file's directory, with `./` added as lines 209-211 do; across
      packages it is the `@std` name. */
  function RewriteRelative(cwd: seq<string>, file: seq<string>, spec: string): (r: string)
    requires InTree(cwd, file)
    ensures SamePackage(cwd, file, spec) <==> StartsWith(r, ".")
    ensures !SamePackage(cwd, file, spec) <==> StartsWith(r, "@std/")
  {
    if SamePackage(cwd, file, spec) then
      var r := DotPrefixedAsWritten(SiblingPath(cwd, file, spec));
      DotLedNotStd(r);
      r
    else StdSpecifier(TargetOf(cwd, file, spec))
  }

  /** `RewriteRelative` with the intended rule for the `./` prefix. */
  function RewriteRelativeIntended(cwd: seq<string>, file: seq<string>, spec: string): (r: string)
    requires InTree(cwd, file)
    ensures SamePackage(cwd, file, spec) <==> IsRelativeSpecifier(r)
    ensures !SamePackage(cwd, file, spec) <==> StartsWith(r, "@std/")
  {
    if SamePackage(cwd, file, spec) then
      var r := DotPrefixed(SiblingPath(cwd, file, spec));
      DotLedNotStd(r);
      r
    else StdSpecifier(TargetOf(cwd, file, spec))
  }

  /** Lines 220-227: the replacement for one legacy URL. */
  function RewriteLegacy(spec: string): (r: string)
    ensures StartsWith(r, "@std/")
  {
    var target := if StartsWith(spec, LegacyPrefix) then spec[|LegacyPrefix|..] else spec;
    StdSpecifier(target)
  }

  /** Line 189: every captured relative import is recorded as `../` plus
      the capture, whichever of `./` or `../` the text had. */
  function RelativeSpecifiers(text: string): (r: seq<string>)
    ensures |r| == |Scan(RelativeImport, text)|
    ensures forall k :: 0 <= k < |r| ==> r[k] == "../" + Scan(RelativeImport, text)[k].capture
  {
    var ms := Scan(RelativeImport, text);
    seq(|ms|, k requires 0 <= k < |ms| => "../" + ms[k].capture)
  }

  /** Line 197. */
  function LegacySpecifiers(text: string): (r: seq<string>)
    ensures |r| == |Scan(LegacyImport, text)|
    ensures forall k :: 0 <= k < |r| ==> r[k] == LegacyPrefix + Scan(LegacyImport, text)[k].capture
  {
    var ms := Scan(LegacyImport, text);
    seq(|ms|, k requires 0 <= k < |ms| => LegacyPrefix + ms[k].capture)
  }

  /** The replacements for the relative imports, in text order. */
  function RelativeRewrites(cwd: seq<string>, file: seq<string>, text: string): (r: seq<Rewrite>)
    requires InTree(cwd, file)
    ensures |r| == |RelativeSpecifiers(text)|
    ensures forall k :: 0 <= k < |r| ==>
              r[k].original == RelativeSpecifiers(text)[k] &&
              r[k].replacement == RewriteRelative(cwd, file, r[k].original)
  {
    var rel := RelativeSpecifiers(text);
    seq(|rel|, k requires 0 <= k < |rel| => Rewrite(rel[k], RewriteRelative(cwd, file, rel[k])))
  }

  /** The replacements for the legacy URLs, in text order. */
  function LegacyRewrites(text: string): (r: seq<Rewrite>)
    ensures |r| == |LegacySpecifiers(text)|
    ensures forall k :: 0 <= k < |r| ==>
              r[k].original == LegacySpecifiers(text)[k] &&
              r[k].replacement == RewriteLegacy(r[k].original)
  {
    var legacy := LegacySpecifiers(text);
    seq(|legacy|, k requires 0 <= k < |legacy| => Rewrite(legacy[k], RewriteLegacy(legacy[k])))
  }

  /** The replacement list of one file: relative imports first, then the
      legacy URLs, each in text order. */
  function Rewrites(cwd: seq<string>, file: seq<string>, text: string): (r: seq<Rewrite>)
    requires InTree(cwd, file)
    ensures |r| == |Scan(RelativeImport, text)| + |Scan(LegacyImport, text)|
    ensures forall k :: 0 <= k < |Scan(RelativeImport, text)| ==>
              r[k].original == "../" + Scan(RelativeImport, text)[k].capture &&
              r[k].replacement == RewriteRelative(cwd, file, r[k].original)
    ensures forall k :: 0 <= k < |Scan(LegacyImport, text)| ==>
              r[|Scan(RelativeImport, text)| + k].original == LegacyPrefix + Scan(LegacyImport, text)[k].capture &&
              r[|Scan(RelativeImport, text)| + k].replacement == RewriteLegacy(LegacyPrefix + Scan(LegacyImport, text)[k].capture)
  {
    var a := RelativeRewrites(cwd, file, text);
    var b := LegacyRewrites(text);
    assert forall k :: 0 <= k < |a| ==> (a + b)[k] == a[k];
    assert forall k :: 0 <= k < |b| ==> (a + b)[|a| + k] == b[k];
    a + b
  }

  /** Lines 231-234: each replacement, in order, replaces the first
      occurrence of its old specifier in the text produced so far. */
  function ApplyRewrites(text: string, rws: seq<Rewrite>): string
    decreases |rws|
  {
    if |rws| == 0 then text
    else ApplyRewrites(ReplaceFirst(text, rws[0].original, rws[0].replacement), rws[1..])
  }

  /** The new text of one file; a file without imports to rewrite is left
      as it was. */
  function RewriteFile(cwd: seq<string>, file: seq<string>, text: string): (r: string)
    requires InTree(cwd, file)
    ensures Scan(RelativeImport, text) == [] && Scan(LegacyImport, text) == [] ==> r == text
  {
    ApplyRewrites(text, Rewrites(cwd, file, text))
  }

  /** Lines 176-180: regular Markdown and TypeScript files outside the
      tools directory and outside test fixtures are rewritten. */
  predicate IsRewritten(path: string, isFile: bool) {
    isFile && !Contains(path, "/_tools") && !Contains(path, "/testdata/") &&
    (EndsWith(path, ".md") || EndsWith(path, ".ts"))
  }

  /** `./` in front of a path that does not start at the root changes
      nothing about where it leads. */
  lemma DotSlashResolve(dir: seq<string>, rel: string)
    requires NormalPath(dir)
    ensures Resolve(dir, "./" + rel) == Normalize(dir, Split(rel))
  {
    assert "./" + rel == "." + "/" + rel;
    SplitAfterSegment(".", rel);
    var parts := ["."] + Split(rel);
    assert parts[0] == "." && parts[1..] == Split(rel);
  }

  /** The same-package specifier, resolved from the importer's directory,
      reaches the target, and the loader reads it as relative. */
  lemma {:induction false} SameDirRoundTrip(dir: seq<string>, target: seq<string>)
    requires NormalPath(dir) && NormalPath(target)
    ensures IsRelativeSpecifier(DotPrefixed(Relative(dir, target)))
    ensures Resolve(dir, DotPrefixed(Relative(dir, target))) == target
  {
    var rel := Relative(dir, target);
    ResolveRelative(dir, target);
    if !StartsWith(rel, "../") {
      DotSlashResolve(dir, rel);
      RelativeIsNotRooted(dir, target, dir);
    }
  }

  lemma DirnameNormal(file: seq<string>)
    requires NormalPath(file) && |file| > 0
    ensures NormalPath(Dirname(file))
  {
    forall i | 0 <= i < |Dirname(file)|
      ensures NormalSegment(Dirname(file)[i])
    {
      assert Dirname(file)[i] == file[i];
    }
  }

  /** A path produced by `relative` never starts with `./`: its first
      piece is `..` or a normalised segment. */
  lemma RelativeNoDotSlash(from: seq<string>, to: seq<string>)
    requires NormalPath(to)
    ensures !StartsWith(Relative(from, to), "./")
  {
    var k := CommonPrefix(from, to);
    var segs := RelativeSegments(from, to);
    RelativeSegmentsShape(from, to);
    if |segs| > 0 {
      var head := segs[0];
      assert head == ".." || NormalSegment(head) by {
        if |from| - k == 0 {
          assert segs[0] == to[k..][0] == to[k];
        }
      }
      var s := Relative(from, to);
      if |segs| > 1 {
        JoinPrefix(segs);
        assert s == head + ("/" + Join(segs[1..]));
      }
      assert |head| <= |s| && s[..|head|] == head;
      if |head| >= 2 {
        assert s[1] == head[1] && head[1] in head;
      } else {
        assert s[..1] == head;
      }
    }
  }

  /** The two `./` rules differ exactly on a path that starts with a dot
      without climbing out with `../`; there the intended rule adds the
      `./` the code leaves out. */
  lemma DotRulesDiffer(rel: string)
    ensures DotPrefixedAsWritten(rel) != DotPrefixed(rel) <==>
              StartsWith(rel, ".") && !StartsWith(rel, "../")
    ensures DotPrefixedAsWritten(rel) != DotPrefixed(rel) ==>
              DotPrefixedAsWritten(rel) == rel && DotPrefixed(rel) == "./" + rel
  {
    if StartsWith(rel, "../") {
      assert rel[..1] == rel[..3][..1];
    }
  }

  /** The rewriter as written and as intended differ exactly on same-package
      imports whose path from the importer's directory starts with a dot
      without climbing out with `../`. */
  lemma RewriteRulesDiffer(cwd: seq<string>, file: seq<string>, spec: string)
    requires InTree(cwd, file)
    ensures RewriteRelative(cwd, file, spec) != RewriteRelativeIntended(cwd, file, spec) <==>
              SamePackage(cwd, file, spec) &&
              StartsWith(SiblingPath(cwd, file, spec), ".") &&
              !StartsWith(SiblingPath(cwd, file, spec), "../")
  {
    DotRulesDiffer(SiblingPath(cwd, file, spec));
  }

  /** The path the same-package branch computes is the path from the
      importer's directory to the imported file. */
  lemma SiblingPathIsRelative(cwd: seq<string>, file: seq<string>, spec: string)
    requires InTree(cwd, file)
    ensures NormalPath(Dirname(file))
    ensures SiblingPath(cwd, file, spec) == Relative(Dirname(file), Resolve(Dirname(file), spec))
  {
    DirnameNormal(file);
    ResolveRelative(cwd, Resolve(Dirname(file), spec));
  }

  /** Inside the importer's package, lines 208-211 give a specifier that
      starts with a dot and, read as a path from the importer's directory,
      leads to the file the original specifier led to. It is a relative
      specifier for the module loader unless the path from the directory
      starts with a dot without climbing out with `../`: a hidden file or
      directory next to the importer. */
  lemma {:induction false} SamePackageRewrite(cwd: seq<string>, file: seq<string>, spec: string)
    requires InTree(cwd, file)
    requires FirstSegment(Relative(cwd, Resolve(Dirname(file), spec))) == PackageOfPath(cwd, file)
    ensures StartsWith(RewriteRelative(cwd, file, spec), ".")
    ensures Resolve(Dirname(file), RewriteRelative(cwd, file, spec)) == Resolve(Dirname(file), spec)
    ensures var rel := Relative(Dirname(file), Resolve(Dirname(file), spec));
            IsRelativeSpecifier(RewriteRelative(cwd, file, spec)) <==>
              StartsWith(rel, "../") || !StartsWith(rel, ".")
  {
    var dir := Dirname(file);
    SiblingPathIsRelative(cwd, file, spec);
    var path := Resolve(dir, spec);
    var rel := Relative(dir, path);
    ResolveRelative(dir, path);
    RelativeNoDotSlash(dir, path);
    if !StartsWith(rel, ".") {
      DotSlashResolve(dir, rel);
      RelativeIsNotRooted(dir, path, dir);
    }
  }

  /** With the intended rule, the rewritten import inside the importer's
      package is always a relative specifier that leads from the
      importer's directory to the file the original specifier led to. */
  lemma {:induction false} SamePackageRewriteIntended(cwd: seq<string>, file: seq<string>, spec: string)
    requires InTree(cwd, file)
    requires FirstSegment(Relative(cwd, Resolve(Dirname(file), spec))) == PackageOfPath(cwd, file)
    ensures IsRelativeSpecifier(RewriteRelativeIntended(cwd, file, spec))
    ensures StartsWith(RewriteRelativeIntended(cwd, file, spec), ".")
    ensures Resolve(Dirname(file), RewriteRelativeIntended(cwd, file, spec)) == Resolve(Dirname(file), spec)
  {
    SiblingPathIsRelative(cwd, file, spec);
    SameDirRoundTrip(Dirname(file), Resolve(Dirname(file), spec));
  }

  /** A suffix whose pieces after the first contain no slash can only match
      a string ending in a slash-led part within that part. */
  lemma EndsWithAfterSlash(a: string, x: string, suf: string)
    requires |x| > 0 && x[0] == '/'
    requires forall k :: 1 <= k < |suf| ==> suf[k] != '/'
    ensures EndsWith(a + x, suf) <==> EndsWith(x, suf)
  {
    var s := a + x;
    if |suf| <= |x| {
      assert s[|s| - |suf|..] == x[|x| - |suf|..];
    } else {
      var k := |suf| - |x|;
      if |suf| <= |s| {
        assert s[|s| - |suf|..][k] == x[0];
        assert suf[k] != '/';
      }
    }
  }

  lemma StripTsUnder(a: string, x: string)
    requires |x| > 0 && x[0] == '/'
    ensures ExportDiscovery.StripTsExtension(a + x) == a + ExportDiscovery.StripTsExtension(x)
    ensures |ExportDiscovery.StripTsExtension(x)| > 0 && ExportDiscovery.StripTsExtension(x)[0] == '/'
  {
    EndsWithAfterSlash(a, x, ".d.ts");
    EndsWithAfterSlash(a, x, ".ts");
    var s := a + x;
    if EndsWith(x, ".d.ts") {
      assert x[|x| - 5] == '.';
      assert s[..|s| - 5] == a + x[..|x| - 5];
    } else if EndsWith(x, ".ts") {
      assert x[|x| - 3] == '.';
      assert s[..|s| - 3] == a + x[..|x| - 3];
    }
  }

  lemma StripModUnder(a: string, y: string)
    requires |y| > 0 && y[0] == '/'
    ensures ExportDiscovery.StripModSuffix(a + y) == a + ExportDiscovery.StripModSuffix(y)
  {
    EndsWithAfterSlash(a, y, "/mod");
    var s := a + y;
    if EndsWith(y, "/mod") {
      assert s[..|s| - 4] == a + y[..|y| - 4];
    }
  }

  /** The key rule commutes with a directory in front of a path. */
  lemma KeyOfUnder(a: string, x: string)
    requires |x| > 0 && x[0] == '/'
    ensures ExportDiscovery.KeyOf(a + x) == a + ExportDiscovery.KeyOf(x)
  {
    StripTsUnder(a, x);
    StripModUnder(a, ExportDiscovery.StripTsExtension(x));
  }

  /** An import that resolves into another package takes the cross-package
      branch, with the target relative to the working directory. */
  lemma CrossPackageTarget(cwd: seq<string>, file: seq<string>, spec: string,
                           pkg: string, rest: seq<string>)
    requires InTree(cwd, file)
    requires Resolve(Dirname(file), spec) == cwd + [pkg] + rest && |rest| > 0
    requires pkg != PackageOfPath(cwd, file)
    ensures RewriteRelative(cwd, file, spec) == StdSpecifier(pkg + "/" + Join(rest))
  {
    var target := pkg + "/" + Join(rest);
    assert TargetOf(cwd, file, spec) == target by {
      PathInPackage(cwd, pkg, rest);
    }
    assert !SamePackage(cwd, file, spec) by {
      DirnameNormal(file);
      var path := Resolve(Dirname(file), spec);
      assert path[|cwd|] == pkg;
      assert NormalSegment(path[|cwd|]);
      FirstSegmentOf(pkg, Join(rest));
    }
    CrossBranch(cwd, file, spec);
  }

  lemma CrossBranch(cwd: seq<string>, file: seq<string>, spec: string)
    requires InTree(cwd, file) && !SamePackage(cwd, file, spec)
    ensures RewriteRelative(cwd, file, spec) == StdSpecifier(TargetOf(cwd, file, spec))
  {
  }

  /** Across packages, an import of file `rest` of package `pkg` becomes
      `@std/<pkg>` followed by the export key that file has in `pkg`'s
      manifest (without its leading dot): the name the import map resolves. */
  lemma {:induction false} CrossPackageRewrite(cwd: seq<string>, file: seq<string>, spec: string,
                                               pkg: string, rest: seq<string>)
    requires InTree(cwd, file)
    requires Resolve(Dirname(file), spec) == cwd + [pkg] + rest && |rest| > 0
    requires pkg != PackageOfPath(cwd, file)
    ensures RewriteRelative(cwd, file, spec) ==
              "@std/" + pkg + ExportDiscovery.EntryFor("/" + Join(rest)).key[1..]
  {
    CrossPackageTarget(cwd, file, spec, pkg, rest);
    var x := "/" + Join(rest);
    AppendAssoc(pkg, "/", Join(rest));
    KeyOfUnder(pkg, x);
    var key := ExportDiscovery.KeyOf(x);
    assert ExportDiscovery.EntryFor(x).key[1..] == key;
    AppendAssoc("@std/", pkg, key);
  }

  /** A legacy URL of file `rest` of package `pkg` becomes the same name as
      a cross-package import of that file. */
  lemma LegacyRewrite(pkg: string, rest: string)
    ensures RewriteLegacy(LegacyPrefix + pkg + "/" + rest) ==
              "@std/" + pkg + ExportDiscovery.EntryFor("/" + rest).key[1..]
  {
    var spec := LegacyPrefix + pkg + "/" + rest;
    assert spec[..|LegacyPrefix|] == LegacyPrefix;
    assert spec[|LegacyPrefix|..] == pkg + ("/" + rest);
    KeyOfUnder(pkg, "/" + rest);
  }

  /** The legacy URL of a package's entry module becomes its bare name. */
  lemma LegacyEntryRewrite(pkg: string)
    ensures RewriteLegacy(LegacyPrefix + (pkg + "/mod.ts")) == "@std/" + pkg
  {
    var target := pkg + "/mod.ts";
    var spec := LegacyPrefix + target;
    assert spec[..|LegacyPrefix|] == LegacyPrefix;
    assert spec[|LegacyPrefix|..] == target;
    KeyOfUnder(pkg, "/mod.ts");
    EntryModuleKey();
    assert pkg + "" == pkg;
  }

  lemma ConcatKey()
    ensures ExportDiscovery.KeyOf("/concat.ts") == "/concat"
  {
    var p := "/concat.ts";
    assert p[|p| - 5..] == "at.ts" && p[|p| - 3..] == ".ts";
    assert ExportDiscovery.StripTsExtension(p) == "/concat";
    assert "/concat"[3..] == "ncat";
  }

  /** A module of another package: `bytes/concat.ts` becomes
      `@std/bytes/concat`. */
  lemma LegacyModuleExample()
    ensures RewriteLegacy(LegacyPrefix + "bytes/concat.ts") == "@std/bytes/concat"
  {
    var target := "bytes/concat.ts";
    var spec := LegacyPrefix + target;
    assert spec[..|LegacyPrefix|] == LegacyPrefix;
    assert spec[|LegacyPrefix|..] == target;
    assert target == "bytes" + "/concat.ts";
    KeyOfUnder("bytes", "/concat.ts");
    ConcatKey();
    assert "@std/" + ("bytes" + "/concat") == "@std/bytes/concat";
  }

  /** A package's `mod.ts` becomes the bare package name. */
  lemma LegacyPackageExample()
    ensures RewriteLegacy(LegacyPrefix + "path/mod.ts") == "@std/path"
  {
    assert "path/mod.ts" == "path" + "/mod.ts";
    LegacyEntryRewrite("path");
    assert "@std/" + "path" == "@std/path";
  }

  /** Lines 209-211 leave a hidden file next to the importer without `./`:
      in `pkg/name`, the import `../pkg/.x.ts` is rewritten to `.x.ts`,
      which the module loader does not read as relative; the intended rule
      gives `./.x.ts`. */
  lemma HiddenSiblingSpecifier(cwd: seq<string>, pkg: string, name: string, hidden: string)
    requires NormalPath(cwd) && NormalSegment(pkg) && NormalSegment(name) && NormalSegment(hidden)
    requires hidden[0] == '.'
    ensures RewriteRelative(cwd, cwd + [pkg, name], "../" + pkg + "/" + hidden) == hidden
    ensures !IsRelativeSpecifier(hidden)
    ensures RewriteRelativeIntended(cwd, cwd + [pkg, name], "../" + pkg + "/" + hidden) == "./" + hidden
  {
    var file := cwd + [pkg, name];
    var spec := "../" + pkg + "/" + hidden;
    var dir := cwd + [pkg];
    assert file[..|cwd|] == cwd && Dirname(file) == dir;
    assert InTree(cwd, file);
    ResolveSibling(cwd, pkg, pkg, hidden);
    assert Resolve(dir, spec) == cwd + [pkg] + [hidden];
    assert PackageOfPath(cwd, file) == pkg by {
      assert file == cwd + [pkg] + [name];
      PathInPackage(cwd, pkg, [name]);
      FirstSegmentOf(pkg, name);
    }
    assert SamePackage(cwd, file, spec) by {
      PathInPackage(cwd, pkg, [hidden]);
      FirstSegmentOf(pkg, hidden);
    }
    assert SiblingPath(cwd, file, spec) == hidden by {
      SiblingPathIsRelative(cwd, file, spec);
      RelativeBelow(dir, [hidden]);
    }
    assert hidden[..1] == "." && hidden[1] != '/';
    if |hidden| >= 3 {
      assert hidden[2] in hidden;
    }
  }

  /** No two slashes in a row in an import of `../a/f`. */
  lemma ImportLineSlashes(a: string, f: string)
    requires |a| > 0 && |f| > 0 && '/' !in a && '/' !in f
    ensures NoDoubleSlash(ImportLine("../" + (a + "/" + f)))
  {
    var t := ImportLine("../" + (a + "/" + f));
    var p := "from \"../";
    assert t == p + a + "/" + f + "\"";
    forall j | 0 <= j && j + 1 < |t|
      ensures t[j] != '/' || t[j + 1] != '/'
    {
      if j < 8 {
        assert t[j] == p[j];
      } else if j == 8 {
        assert t[j + 1] == a[0] && a[0] in a;
      } else if j < 9 + |a| {
        assert t[j] == a[j - 9] && a[j - 9] in a;
      } else if j == 9 + |a| {
        assert t[j + 1] == f[0] && f[0] in f;
      } else {
        assert t[j] == f[j - 10 - |a|] && f[j - 10 - |a|] in f;
      }
    }
  }

  /** A specifier starting with a dot is first found right after the
      opening quote of `from "<spec>"`. */
  lemma ReplaceImport(spec: string, rep: string)
    requires |spec| > 0 && spec[0] == '.'
    ensures ReplaceFirst(ImportLine(spec), spec, rep) == ImportLine(rep)
  {
    var t := ImportLine(spec);
    assert OccursAt(t, spec, 6) by {
      assert t[6..6 + |spec|] == spec;
    }
    forall j | 0 <= j < 6
      ensures !OccursAt(t, spec, j)
    {
      if j + |spec| <= |t| {
        assert t[j..j + |spec|][0] == t[j] != '.';
      }
    }
    assert t[..6] == "from \"" && t[6 + |spec|..] == "\"";
  }

  /** The replacement list of a file holding only the import of `../<cap>`. */
  lemma RewritesOfOneImport(cwd: seq<string>, file: seq<string>, cap: string)
    requires InTree(cwd, file)
    requires |cap| > 0 && forall k :: 0 <= k < |cap| ==> NotQuote(cap[k])
    requires NoDoubleSlash(ImportLine("../" + cap))
    ensures Rewrites(cwd, file, ImportLine("../" + cap)) ==
              [Rewrite("../" + cap, RewriteRelative(cwd, file, "../" + cap))]
  {
    SingleImportScan("../", cap);
    NoLegacyWithoutDoubleSlash(ImportLine("../" + cap));
  }

  /** A file holding one relative import `from "../<cap>"` and nothing else:
      scanning, the specifier line 189 records, its replacement and the
      first-occurrence replace together put `RewriteRelative`'s specifier
      in place of the import's. */
  lemma RewriteFileOneImport(cwd: seq<string>, file: seq<string>, cap: string)
    requires InTree(cwd, file)
    requires |cap| > 0 && forall k :: 0 <= k < |cap| ==> NotQuote(cap[k])
    requires NoDoubleSlash(ImportLine("../" + cap))
    ensures RewriteFile(cwd, file, ImportLine("../" + cap)) ==
              ImportLine(RewriteRelative(cwd, file, "../" + cap))
  {
    var spec := "../" + cap;
    var t := ImportLine(spec);
    var rep := RewriteRelative(cwd, file, spec);
    RewritesOfOneImport(cwd, file, cap);
    var rws := [Rewrite(spec, rep)];
    assert RewriteFile(cwd, file, t) == ReplaceFirst(t, spec, rep) by {
      assert rws[1..] == [];
      assert ApplyRewrites(t, rws) == ApplyRewrites(ReplaceFirst(t, spec, rep), []);
    }
    ReplaceImport(spec, rep);
  }

  /** The two segments `a/f` hold no quote when neither does. */
  lemma CapNoQuote(a: string, f: string)
    requires forall k :: 0 <= k < |a| ==> NotQuote(a[k])
    requires forall k :: 0 <= k < |f| ==> NotQuote(f[k])
    ensures forall k :: 0 <= k < |a + "/" + f| ==> NotQuote((a + "/" + f)[k])
  {
    var cap := a + "/" + f;
    forall k | 0 <= k < |cap|
      ensures NotQuote(cap[k])
    {
      if k < |a| {
        assert cap[k] == a[k];
      } else if k > |a| {
        assert cap[k] == f[k - |a| - 1];
      }
    }
  }

  /** `from "../a/mod.ts"` in `b/mod.ts` becomes `from "@std/a"`. */
  lemma SiblingPackageFile(cwd: seq<string>, a: string, b: string)
    requires NormalPath(cwd) && NormalSegment(a) && NormalSegment(b) && a != b
    requires forall k :: 0 <= k < |a| ==> NotQuote(a[k])
    ensures RewriteFile(cwd, cwd + [b, "mod.ts"], ImportLine("../" + a + "/mod.ts")) ==
              ImportLine("@std/" + a)
  {
    var file := cwd + [b, "mod.ts"];
    assert file[..|cwd|] == cwd;
    assert InTree(cwd, file);
    var f := "mod.ts";
    var cap := a + "/" + f;
    assert "../" + a + "/mod.ts" == "../" + cap;
    assert forall k :: 0 <= k < |f| ==> NotQuote(f[k]);
    CapNoQuote(a, f);
    ImportLineSlashes(a, f);
    RewriteFileOneImport(cwd, file, cap);
    SiblingPackageExample(cwd, a, b);
  }

  /** `from "../pkg/.x.ts"` in `pkg/name` becomes `from ".x.ts"`, an import
      the module loader does not read as relative. */
  lemma HiddenSiblingFile(cwd: seq<string>, pkg: string, name: string, hidden: string)
    requires NormalPath(cwd) && NormalSegment(pkg) && NormalSegment(name) && NormalSegment(hidden)
    requires hidden[0] == '.'
    requires forall k :: 0 <= k < |pkg| ==> NotQuote(pkg[k])
    requires forall k :: 0 <= k < |hidden| ==> NotQuote(hidden[k])
    ensures RewriteFile(cwd, cwd + [pkg, name], ImportLine("../" + pkg + "/" + hidden)) ==
              ImportLine(hidden)
  {
    var file := cwd + [pkg, name];
    assert file[..|cwd|] == cwd;
    var cap := pkg + "/" + hidden;
    assert "../" + pkg + "/" + hidden == "../" + cap;
    CapNoQuote(pkg, hidden);
    ImportLineSlashes(pkg, hidden);
    RewriteFileOneImport(cwd, file, cap);
    HiddenSiblingSpecifier(cwd, pkg, name, hidden);
  }

  /** Replacing each specifier by itself leaves the text as it was. */
  lemma {:induction false} ApplyIdentityRewrites(text: string, rws: seq<Rewrite>)
    requires forall k :: 0 <= k < |rws| ==> rws[k].original == rws[k].replacement
    ensures ApplyRewrites(text, rws) == text
    decreases |rws|
  {
    if |rws| > 0 {
      ReplaceFirstBySelf(text, rws[0].original);
      ApplyIdentityRewrites(text, rws[1..]);
    }
  }

  /** Applying two lists in a row is applying their concatenation. */
  lemma {:induction false} ApplyRewritesAppend(text: string, a: seq<Rewrite>, b: seq<Rewrite>)
    ensures ApplyRewrites(text, a + b) == ApplyRewrites(ApplyRewrites(text, a), b)
    decreases |a|
  {
    if |a| == 0 {
      assert a + b == b;
    } else {
      assert (a + b)[0] == a[0] && (a + b)[1..] == a[1..] + b;
      ApplyRewritesAppend(ReplaceFirst(text, a[0].original, a[0].replacement), a[1..], b);
    }
  }

  /** The text `gaps[0] + words[0] + gaps[1] + ... + words[n-1] + gaps[n]`. */
  function Interleave(gaps: seq<string>, words: seq<string>): string
    requires |gaps| == |words| + 1
    decreases |words|
  {
    if |words| == 0 then gaps[0]
    else gaps[0] + words[0] + Interleave(gaps[1..], words[1..])
  }

  function Originals(rws: seq<Rewrite>): seq<string> {
    seq(|rws|, k requires 0 <= k < |rws| => rws[k].original)
  }

  function Replacements(rws: seq<Rewrite>): seq<string> {
    seq(|rws|, k requires 0 <= k < |rws| => rws[k].replacement)
  }

  /** The text in front of the k-th slot once the first k replacements are done. */
  function Before(pre: string, gaps: seq<string>, rws: seq<Rewrite>, k: nat): string
    requires |gaps| == |rws| + 1 && k < |rws|
  {
    pre + Interleave(gaps[..k + 1], Replacements(rws)[..k])
  }

  /** At its turn, the k-th old specifier does not occur, whole or in part,
      in the text in front of its own slot. */
  predicate LeftmostInSlot(pre: string, gaps: seq<string>, rws: seq<Rewrite>)
    requires |gaps| == |rws| + 1
  {
    forall k, j :: 0 <= k < |rws| && 0 <= j < |Before(pre, gaps, rws, k)| ==>
      !OccursAt(Before(pre, gaps, rws, k) + rws[k].original, rws[k].original, j)
  }

  /** A text made of the old specifiers in slots is rewritten in place, each
      slot receiving its replacement, as long as no old specifier occurs
      in front of its slot at its turn. */
  lemma {:induction false} ApplyRewritesInPlace(pre: string, gaps: seq<string>, rws: seq<Rewrite>)
    requires |gaps| == |rws| + 1
    requires LeftmostInSlot(pre, gaps, rws)
    ensures ApplyRewrites(pre + Interleave(gaps, Originals(rws)), rws) ==
            pre + Interleave(gaps, Replacements(rws))
    decreases |rws|
  {
    if |rws| > 0 {
      var o, r := rws[0].original, rws[0].replacement;
      var origs, reps := Originals(rws), Replacements(rws);
      var b := pre + gaps[0];
      var tail := Interleave(gaps[1..], origs[1..]);
      assert origs[0] == o && reps[0] == r;
      assert Interleave(gaps, origs) == gaps[0] + o + tail;
      AppendAssoc(pre, gaps[0], o);
      AppendAssoc(pre, gaps[0] + o, tail);
      assert Before(pre, gaps, rws, 0) == b by {
        assert Interleave(gaps[..1], reps[..0]) == gaps[..1][0] == gaps[0];
      }
      InSlotFirst(b, o, r, tail);
      var pre' := b + r;
      assert origs[1..] == Originals(rws[1..]);
      assert reps[1..] == Replacements(rws[1..]);
      forall k, j | 0 <= k < |rws| - 1 && 0 <= j < |Before(pre', gaps[1..], rws[1..], k)|
        ensures !OccursAt(Before(pre', gaps[1..], rws[1..], k) + rws[1..][k].original, rws[1..][k].original, j)
      {
        InterleaveShift(pre, gaps, reps, k);
        assert Before(pre', gaps[1..], rws[1..], k) == Before(pre, gaps, rws, k + 1);
        assert rws[1..][k] == rws[k + 1];
      }
      ApplyRewritesInPlace(pre', gaps[1..], rws[1..]);
      var rest := Interleave(gaps[1..], reps[1..]);
      assert Interleave(gaps, reps) == gaps[0] + r + rest;
      AppendAssoc(pre, gaps[0], r);
      AppendAssoc(pre, gaps[0] + r, rest);
    }
  }

  /** An occurrence of `o` with none in front of it inside `b + o` is the
      leftmost one in `b + o + tail`. */
  lemma InSlotFirst(b: string, o: string, r: string, tail: string)
    requires forall j :: 0 <= j < |b| ==> !OccursAt(b + o, o, j)
    ensures ReplaceFirst(b + o + tail, o, r) == b + r + tail
  {
    var t := b + o + tail;
    assert OccursAt(t, o, |b|) by { assert t[|b|..|b| + |o|] == o; }
    forall j | 0 <= j < |b|
      ensures !OccursAt(t, o, j)
    {
      assert !OccursAt(b + o, o, j);
      assert j + |o| <= |b + o| <= |t|;
      assert t[j..j + |o|] == (b + o)[j..j + |o|];
    }
    assert t[..|b|] == b && t[|b| + |o|..] == tail;
  }

  /** Dropping the first slot of the front text moves the front text along. */
  lemma InterleaveShift(pre: string, gaps: seq<string>, reps: seq<string>, k: nat)
    requires |gaps| == |reps| + 1 && k + 1 < |reps|
    ensures pre + gaps[0] + reps[0] + Interleave(gaps[1..][..k + 1], reps[1..][..k]) ==
            pre + Interleave(gaps[..k + 2], reps[..k + 1])
  {
    assert gaps[..k + 2][1..] == gaps[1..][..k + 1];
    assert reps[..k + 1][1..] == reps[1..][..k];
    assert gaps[..k + 2][0] == gaps[0] && reps[..k + 1][0] == reps[0];
    var i := Interleave(gaps[1..][..k + 1], reps[1..][..k]);
    assert Interleave(gaps[..k + 2], reps[..k + 1]) == gaps[0] + reps[0] + i;
    AppendAssoc(pre, gaps[0], reps[0]);
    AppendAssoc(pre, gaps[0] + reps[0], i);
  }

  /** The whole-file rewrite for any number of imports: when the text is
      the recorded old specifiers in slots, and each is leftmost at its
      turn, every slot receives its replacement and nothing else changes. */
  lemma RewriteFileInPlace(cwd: seq<string>, file: seq<string>, text: string, gaps: seq<string>)
    requires InTree(cwd, file)
    requires |gaps| == |Rewrites(cwd, file, text)| + 1
    requires text == Interleave(gaps, Originals(Rewrites(cwd, file, text)))
    requires LeftmostInSlot("", gaps, Rewrites(cwd, file, text))
    ensures RewriteFile(cwd, file, text) == Interleave(gaps, Replacements(Rewrites(cwd, file, text)))
  {
    var rws := Rewrites(cwd, file, text);
    ApplyRewritesInPlace("", gaps, rws);
    assert "" + text == text;
    assert "" + Interleave(gaps, Replacements(rws)) == Interleave(gaps, Replacements(rws));
  }

  /** The replacement of a recorded specifier goes to its leftmost occurrence
      wherever that is: the `../x.ts` recorded for `from "./x.ts"` is found
      in a later comment and replaced there. */
  lemma DotSlashEntryHitsComment()
    ensures ReplaceFirst("from \"./x.ts\" // see " + "../x.ts", "../x.ts", "@std/x") ==
            "from \"./x.ts\" // see " + "@std/x"
  {
    var b, o := "from \"./x.ts\" // see ", "../x.ts";
    CommentFreeOfEntry(b, o);
    InSlotFirst(b, o, "@std/x", "");
    NoTail(b + o);
    NoTail(b + "@std/x");
  }

  lemma NoTail(s: string)
    ensures s + "" == s
  {
  }

  /** `../x.ts` does not start anywhere in the text in front of the comment's copy. */
  lemma CommentFreeOfEntry(b: string, o: string)
    requires b == "from \"./x.ts\" // see " && o == "../x.ts"
    ensures forall j :: 0 <= j < |b| ==> !OccursAt(b + o, o, j)
  {
    forall j | 0 <= j < |b|
      ensures !OccursAt(b + o, o, j)
    {
      var t := b + o;
      assert t[j] != '.' || t[j + 1] != '.';
      assert t[j..j + |o|][0] == t[j] && t[j..j + |o|][1] == t[j + 1];
    }
  }

  /** Line 189 keeps the capture and always puts `../` in front, so an
      import written `./x` is recorded as `../x`. */
  lemma DotSlashRecordedAsParent(cap: string)
    requires |cap| > 0 && forall k :: 0 <= k < |cap| ==> NotQuote(cap[k])
    ensures RelativeSpecifiers("from \"./" + cap + "\"") == ["../" + cap]
  {
    SingleImportScan("./", cap);
    assert ImportLine("./" + cap) == "from \"./" + cap + "\"";
  }

  /** The `../` form recorded for an import written `./x` does not occur in
      the text, so its replacement leaves the import as it was. */
  lemma DotSlashImportKept(cap: string, rep: string)
    requires |cap| > 0 && forall k :: 0 <= k < |cap| ==> NotQuote(cap[k])
    ensures ReplaceFirst("from \"./" + cap + "\"", "../" + cap, rep) == "from \"./" + cap + "\""
  {
    var t := "from \"./" + cap + "\"";
    var pat := "../" + cap;
    assert t[0] == 'f' && t[1] == 'r' && t[2] == 'o' && t[3] == 'm' && t[4] == ' ';
    assert t[5] == '"' && t[6] == '.' && t[7] == '/';
    assert pat[0] == '.' && pat[1] == '.';
    forall j | 0 <= j
      ensures !OccursAt(t, pat, j)
    {
      if j + |pat| <= |t| {
        assert j <= 6;
        if j == 6 {
          assert t[j..j + |pat|][1] == '/';
        } else {
          assert t[j..j + |pat|][0] == t[j] != '.';
        }
      }
    }
  }

  /** `../a/f` splits into its three pieces. */
  lemma SplitSiblingSpec(a: string, f: string)
    requires NormalSegment(a) && NormalSegment(f)
    ensures Split("../" + a + "/" + f) == ["..", a, f]
  {
    SplitOfSegment(f);
    SplitAfterSegment(a, f);
    SplitAfterSegment("..", a + "/" + f);
    assert "../" + a + "/" + f == ".." + "/" + (a + "/" + f);
  }

  /** `../a/f` seen from directory `dir + [b]` is `dir + [a, f]`. */
  lemma {:induction false} ResolveSibling(dir: seq<string>, a: string, b: string, f: string)
    requires NormalPath(dir) && NormalSegment(a) && NormalSegment(b) && NormalSegment(f)
    ensures Resolve(dir + [b], "../" + a + "/" + f) == dir + [a, f]
  {
    var segs := ["..", a, f];
    SplitSiblingSpec(a, f);
    var up := dir + [b];
    assert Step(up, "..") == dir by { assert up[..|up| - 1] == dir; }
    assert Normalize(up, segs) == Normalize(dir, [a, f]) by {
      assert segs[0] == ".." && segs[1..] == [a, f];
    }
    assert NormalPath([a, f]);
    NormalizeNormal(dir, [a, f]);
  }

  /** The entry module of a package contributes nothing after the package name. */
  lemma EntryModuleKey()
    ensures ExportDiscovery.EntryFor("/mod.ts").key == "."
    ensures ExportDiscovery.EntryFor("/" + "mod.ts").key[1..] == ""
  {
    var p := "/mod.ts";
    assert "/" + "mod.ts" == p;
    assert p[|p| - 5..] == "od.ts" && p[|p| - 3..] == ".ts";
    assert ExportDiscovery.StripTsExtension(p) == "/mod";
    assert ExportDiscovery.KeyOf(p) == "";
  }

  /** The entry module of package `b` importing the entry module of a
      sibling package `a` as `../a/mod.ts` gets the bare name `@std/a`. */
  lemma SiblingPackageExample(cwd: seq<string>, a: string, b: string)
    requires NormalPath(cwd) && NormalSegment(a) && NormalSegment(b) && a != b
    ensures RewriteRelative(cwd, cwd + [b, "mod.ts"], "../" + a + "/mod.ts") == "@std/" + a
  {
    var file := cwd + [b, "mod.ts"];
    assert file[..|cwd|] == cwd && Dirname(file) == cwd + [b];
    assert InTree(cwd, file);
    ResolveSibling(cwd, a, b, "mod.ts");
    assert "../" + a + "/" + "mod.ts" == "../" + a + "/mod.ts";
    assert cwd + [a, "mod.ts"] == cwd + [a] + ["mod.ts"];
    PathInPackage(cwd, b, ["mod.ts"]);
    assert cwd + [b] + ["mod.ts"] == file;
    FirstSegmentOf(b, "mod.ts");
    assert Join(["mod.ts"]) == "mod.ts";
    assert PackageOfPath(cwd, file) == b;
    CrossPackageRewrite(cwd, file, "../" + a + "/mod.ts", a, ["mod.ts"]);
    EntryModuleKey();
    assert "/" + Join(["mod.ts"]) == "/" + "mod.ts";
  }
}
