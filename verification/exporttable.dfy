/** The per-folder export table builder: a breadth-first walk over one
    package folder that lists every public file under a key derived from
    its name, collapsing `mod` files onto their directory, and sorts the
    table by key. A directory tree stands in for the file system; each
    worklist item carries the listing of the folder its path names. */
module ExportTable {
  import opened Strings
  import opened Sorting
  import opened Paths
  import opened ExportDiscovery

  /** One entry of a directory listing: a regular file, a directory with its
      own listing, or anything else (a symbolic link, a socket). */
  datatype Node = File(name: string) | Dir(name: string, children: seq<Node>) | Other(name: string)

  /** A worklist item: the path handed to `Deno.readDir` and what it lists. */
  datatype Folder = Folder(path: string, listing: seq<Node>)

  /** Lines 8-12: hidden and internal entries, tests, JSON and Markdown. */
  predicate Skipped(name: string) {
    || StartsWith(name, ".") || StartsWith(name, "_")
    || EndsWith(name, "_test.ts") || EndsWith(name, ".json")
    || name == "test.ts" || EndsWith(name, ".md")
  }

  /** Line 6: the folder path without its first segment, the package folder. */
  function PrefixOf(path: string): string {
    Join(Split(path)[1..])
  }

  /** Lines 13-25: the first `.ts` is dropped from the entry name; `mod`
      stands for its folder; the result is rooted at `.`. */
  function ExportName(prefix: string, entryName: string): (r: string)
    ensures r == "." || StartsWith(r, "./")
    ensures r == "." <==> prefix == "" && ReplaceFirst(entryName, ".ts", "") in {"mod", ""}
    ensures prefix != "" ==> StartsWith(r, "./" + prefix)
  {
    var stem := ReplaceFirst(entryName, ".ts", "");
    var name :=
      if stem == "mod" then (if prefix != "" then prefix else "")
      else if prefix != "" then prefix + "/" + stem
      else stem;
    if name == "" then "." else "./" + name
  }

  /** Line 26: the entry's location below the package folder. */
  function EntryPath(prefix: string, entryName: string): string {
    if prefix != "" then prefix + "/" + entryName else entryName
  }

  /** Line 27: the table row of a file. */
  function ExportOf(prefix: string, entryName: string): (e: ExportEntry)
    ensures Rooted(e)
    ensures prefix == "" ==> e.path == "./" + entryName
    ensures prefix != "" ==> e.path == "./" + prefix + "/" + entryName
    ensures e.key == ExportName(prefix, entryName)
  {
    var e := ExportEntry(ExportName(prefix, entryName), "./" + EntryPath(prefix, entryName));
    assert e.path[..2] == "./";
    RowPath(prefix, entryName);
    e
  }

  /** The row's path spelled out for the top folder and for a subfolder. */
  lemma RowPath(prefix: string, entryName: string)
    ensures prefix == "" ==> "./" + EntryPath(prefix, entryName) == "./" + entryName
    ensures prefix != "" ==> "./" + EntryPath(prefix, entryName) == "./" + prefix + "/" + entryName
  {
    if prefix != "" {
      AppendAssoc("./", prefix + "/", entryName);
      AppendAssoc("./", prefix, "/");
    }
  }

  /** A table row keyed and located relative to the package folder. */
  predicate Rooted(e: ExportEntry) {
    StartsWith(e.path, "./") && (e.key == "." || StartsWith(e.key, "./"))
  }

  /** Lines 28-32: directories other than fixtures and examples are walked. */
  predicate Descends(n: Node) {
    n.Dir? && n.name != "testdata" && n.name != "example"
  }

  function Size(n: Node): nat
    decreases n, 1
  {
    match n
    case Dir(_, children) => 1 + ListSize(children)
    case _ => 1
  }

  function ListSize(ns: seq<Node>): nat
    decreases ns, 0
  {
    if |ns| == 0 then 0 else Size(ns[0]) + ListSize(ns[1..])
  }

  function FolderSize(f: Folder): nat {
    1 + ListSize(f.listing)
  }

  /** Everything still to be listed by the worklist from `fs` on. */
  function WorkSize(fs: seq<Folder>): nat
    decreases |fs|
  {
    if |fs| == 0 then 0 else FolderSize(fs[0]) + WorkSize(fs[1..])
  }

  lemma {:induction false} WorkSizeAppend(a: seq<Folder>, b: seq<Folder>)
    ensures WorkSize(a + b) == WorkSize(a) + WorkSize(b)
    decreases |a|
  {
    if |a| > 0 {
      assert (a + b)[0] == a[0] && (a + b)[1..] == a[1..] + b;
      WorkSizeAppend(a[1..], b);
    } else {
      assert a + b == b;
    }
  }

  /** Lines 7-33 for one folder: its table rows and the subfolders it adds
      to the worklist, both in listing order. */
  function ScanFolder(root: string, prefix: string, listing: seq<Node>): (r: (seq<ExportEntry>, seq<Folder>))
    ensures forall e :: e in r.0 <==>
              exists n :: n in listing && n.File? && !Skipped(n.name) && e == ExportOf(prefix, n.name)
    ensures forall f :: f in r.1 <==>
              exists n :: n in listing && Descends(n) && !Skipped(n.name) &&
                          f == Folder(root + "/" + EntryPath(prefix, n.name), n.children)
    ensures WorkSize(r.1) <= ListSize(listing)
    decreases |listing|
  {
    if |listing| == 0 then ([], [])
    else
      var n := listing[0];
      var rest := ScanFolder(root, prefix, listing[1..]);
      assert forall m :: m in listing <==> m == n || m in listing[1..];
      var rows := if n.File? && !Skipped(n.name) then [ExportOf(prefix, n.name)] else [];
      var subs :=
        if Descends(n) && !Skipped(n.name) then [Folder(root + "/" + EntryPath(prefix, n.name), n.children)]
        else [];
      WorkSizeAppend(subs, rest.1);
      (rows + rest.0, subs + rest.1)
  }

  /** Entries with different names have different locations. */
  lemma EntryPathInjective(root: string, prefix: string, a: string, b: string)
    requires a != b
    ensures EntryPath(prefix, a) != EntryPath(prefix, b)
    ensures root + "/" + EntryPath(prefix, a) != root + "/" + EntryPath(prefix, b)
  {
    if prefix != "" {
      assert EntryPath(prefix, a)[|prefix| + 1..] == a;
      assert EntryPath(prefix, b)[|prefix| + 1..] == b;
    }
    assert (root + "/" + EntryPath(prefix, a))[|root| + 1..] == EntryPath(prefix, a);
    assert (root + "/" + EntryPath(prefix, b))[|root| + 1..] == EntryPath(prefix, b);
  }

  /** A skipped entry contributes neither a table row nor a subfolder,
      whatever else the folder holds. */
  lemma SkippedNeverListed(root: string, prefix: string, listing: seq<Node>, n: Node)
    requires Skipped(n.name)
    ensures ExportOf(prefix, n.name) !in ScanFolder(root, prefix, listing).0
    ensures forall f :: f in ScanFolder(root, prefix, listing).1 ==>
              f.path != root + "/" + EntryPath(prefix, n.name)
  {
    forall m | m in listing && !Skipped(m.name)
      ensures ExportOf(prefix, m.name) != ExportOf(prefix, n.name)
      ensures root + "/" + EntryPath(prefix, m.name) != root + "/" + EntryPath(prefix, n.name)
    {
      EntryPathInjective(root, prefix, m.name, n.name);
      assert ExportOf(prefix, m.name).path[2..] == EntryPath(prefix, m.name);
      assert ExportOf(prefix, n.name).path[2..] == EntryPath(prefix, n.name);
    }
  }

  /** A reference walk in depth-first order: the rows of a folder, then the
      rows of each subfolder in turn. Every row has a rooted key and path. */
  function Expected(root: string, f: Folder): (r: seq<ExportEntry>)
    ensures forall e :: e in r ==> Rooted(e)
    decreases FolderSize(f), 0
  {
    var scanned := ScanFolder(root, PrefixOf(f.path), f.listing);
    scanned.0 + ExpectedAll(root, scanned.1)
  }

  function ExpectedAll(root: string, fs: seq<Folder>): (r: seq<ExportEntry>)
    ensures forall e :: e in r ==> Rooted(e)
    decreases WorkSize(fs), 1, |fs|
  {
    if |fs| == 0 then [] else Expected(root, fs[0]) + ExpectedAll(root, fs[1..])
  }

  lemma {:induction false} ExpectedAllAppend(root: string, a: seq<Folder>, b: seq<Folder>)
    ensures ExpectedAll(root, a + b) == ExpectedAll(root, a) + ExpectedAll(root, b)
    decreases |a|
  {
    if |a| > 0 {
      assert (a + b)[0] == a[0] && (a + b)[1..] == a[1..] + b;
      WorkSizeAppend(a, b);
      ExpectedAllAppend(root, a[1..], b);
    } else {
      assert a + b == b;
    }
  }

  /** One round of the worklist: listing the first folder moves its rows
      to the table and appends its subfolders, leaving the reference rows
      unchanged as a whole and the work strictly smaller. */
  lemma WalkStep(root: string, fs: seq<Folder>)
    requires |fs| > 0
    ensures var scanned := ScanFolder(root, PrefixOf(fs[0].path), fs[0].listing);
            multiset(ExpectedAll(root, fs)) ==
              multiset(scanned.0) + multiset(ExpectedAll(root, fs[1..] + scanned.1)) &&
            WorkSize(fs[1..] + scanned.1) < WorkSize(fs)
  {
    var scanned := ScanFolder(root, PrefixOf(fs[0].path), fs[0].listing);
    assert Expected(root, fs[0]) == scanned.0 + ExpectedAll(root, scanned.1);
    ExpectedAllAppend(root, fs[1..], scanned.1);
    WorkSizeAppend(fs[1..], scanned.1);
  }

  lemma SliceOfAppend<T>(a: seq<T>, b: seq<T>, k: nat)
    requires k <= |a|
    ensures (a + b)[k..] == a[k..] + b
  {
  }

  /** Lines 1-35: the breadth-first worklist walk from `folder`, then the
      sort by key. `folder` is a single path segment, the package folder
      name the tool is run with, so that the prefix of every worklist path
      is the subfolder's location inside the package. */
  method BuildExportTable(folder: string, listing: seq<Node>) returns (exports: seq<ExportEntry>)
    requires '/' !in folder
    ensures SortedBy(exports, Key)
    ensures multiset(exports) == multiset(Expected(folder, Folder(folder, listing)))
  {
    var found: seq<ExportEntry> := [];
    var folders := [Folder(folder, listing)];
    var i := 0;
    assert ExpectedAll(folder, folders) == Expected(folder, folders[0]) + ExpectedAll(folder, []) by {
      assert folders[1..] == [];
    }
    while i < |folders|
      invariant 0 <= i <= |folders|
      invariant multiset(found) + multiset(ExpectedAll(folder, folders[i..])) ==
                  multiset(Expected(folder, Folder(folder, listing)))
      decreases WorkSize(folders[i..])
    {
      var scanned := ScanFolder(folder, PrefixOf(folders[i].path), folders[i].listing);
      WalkStep(folder, folders[i..]);
      assert folders[i..][0] == folders[i] && folders[i..][1..] == folders[i + 1..];
      var before := folders;
      found := found + scanned.0;
      folders := folders + scanned.1;
      SliceOfAppend(before, scanned.1, i + 1);
      i := i + 1;
    }
    assert folders[i..] == [];
    exports := SortBy(found, Key);
  }

  /** The package folder itself has the empty prefix. */
  lemma PrefixOfRoot(folder: string)
    requires '/' !in folder
    ensures PrefixOf(folder) == ""
  {
    SplitOfSegment(folder);
  }

  /** A subfolder pushed as `folder + "/" + path` has the prefix `path`. */
  lemma PrefixOfSubfolder(folder: string, path: string)
    requires '/' !in folder
    ensures PrefixOf(folder + "/" + path) == path
  {
    SplitAfterSegment(folder, path);
    assert Split(folder + "/" + path)[1..] == Split(path);
    JoinSplit(path);
  }

  /** `mod.ts` loses its extension. */
  lemma ModStem()
    ensures ReplaceFirst("mod.ts", ".ts", "") == "mod"
  {
    var s := "mod.ts";
    assert s[0] == 'm' && s[1] == 'o' && s[2] == 'd';
    assert s[3..6] == ".ts";
    assert OccursAt(s, ".ts", 3);
    assert !OccursAt(s, ".ts", 0) && !OccursAt(s, ".ts", 1) && !OccursAt(s, ".ts", 2);
    assert s[..3] + "" + s[6..] == "mod";
  }

  /** The `mod` module of the package folder is its entry point `.`. */
  lemma RootModKey()
    ensures ExportOf("", "mod.ts") == ExportEntry(".", "./mod.ts")
  {
    ModStem();
    var stem := ReplaceFirst("mod.ts", ".ts", "");
    assert stem == "mod";
    assert ExportName("", "mod.ts") == ".";
    assert EntryPath("", "mod.ts") == "mod.ts";
    assert "./" + "mod.ts" == "./mod.ts";
  }

  /** The `mod` module of subfolder `p` is exported as `./p`. */
  lemma SubfolderModKey(p: string)
    requires p != ""
    ensures ExportOf(p, "mod.ts") == ExportEntry("./" + p, "./" + p + "/mod.ts")
  {
    assert ExportName(p, "mod.ts") == "./" + p by {
      ModStem();
    }
    assert EntryPath(p, "mod.ts") == p + "/" + "mod.ts";
    AppendAssoc(p, "/", "mod.ts");
    SlashMod();
    AppendAssoc("./", p, "/mod.ts");
  }

  lemma SlashMod()
    ensures "/" + "mod.ts" == "/mod.ts"
  {
  }

  /** Dropping the first `.ts` leaves nothing only of `""` and `.ts`. */
  lemma EmptyStem(name: string)
    requires ReplaceFirst(name, ".ts", "") == ""
    ensures name == "" || name == ".ts"
  {
    match IndexOf(name, ".ts")
    case None =>
    case Some(i) =>
      assert |name| == 3 && i == 0;
      assert name == name[0..3];
  }

  /** Any other module `n` is exported as `./n` at the top and as `./p/n`
      in subfolder `p`, where `n` is the entry name without its first `.ts`. */
  lemma PlainModuleKey(prefix: string, entryName: string)
    requires entryName != "" && !Skipped(entryName)
    requires ReplaceFirst(entryName, ".ts", "") != "mod"
    ensures var stem := ReplaceFirst(entryName, ".ts", "");
            ExportName(prefix, entryName) == if prefix == "" then "./" + stem else "./" + prefix + "/" + stem
  {
    if ReplaceFirst(entryName, ".ts", "") == "" {
      EmptyStem(entryName);
      assert false;
    }
  }

  /** The first `.ts` goes, not the extension: `a.tsx.ts` is listed as
      `./ax.ts`. */
  lemma FirstOccurrenceKey()
    ensures ExportName("", "a.tsx.ts") == "./ax.ts"
  {
    FirstTsDropped();
    assert "ax.ts" != "mod" by { assert |"ax.ts"| == 5; }
    assert ExportName("", "a.tsx.ts") == "./" + "ax.ts";
  }

  lemma FirstTsDropped()
    ensures ReplaceFirst("a.tsx.ts", ".ts", "") == "ax.ts"
  {
    var s := "a.tsx.ts";
    assert s[0] == 'a' && s[1..4] == ".ts";
    assert OccursAt(s, ".ts", 1) && !OccursAt(s, ".ts", 0);
    assert s[..1] + "" + s[4..] == "ax.ts";
  }

  /** A declaration file `mod.d.ts` is listed as `./mod.d`, not as `.`. */
  lemma DeclarationModKey()
    ensures ExportName("", "mod.d.ts") == "./mod.d"
  {
    DeclarationStem();
    assert "mod.d" != "mod" by { assert |"mod.d"| == 5; }
    assert ExportName("", "mod.d.ts") == "./" + "mod.d";
  }

  lemma DeclarationStem()
    ensures ReplaceFirst("mod.d.ts", ".ts", "") == "mod.d"
  {
    var t := "mod.d.ts";
    assert t[0] == 'm' && t[1] == 'o' && t[2] == 'd' && t[3] == '.' && t[4] == 'd';
    forall j | 0 <= j < 5
      ensures !OccursAt(t, ".ts", j)
    {
      if j == 3 {
        assert t[j..j + 3][1] == 'd';
      } else {
        assert t[j..j + 3][0] == t[j] != '.';
      }
    }
    assert t[5..8] == ".ts";
    assert ReplaceFirst(t, ".ts", "") == t[..5] + "" + t[8..];
    assert t[..5] + "" + t[8..] == "mod.d";
  }
}
