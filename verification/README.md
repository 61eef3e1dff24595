# Workspace conversion, export tables and `withoutAll` in Dafny

This project models three pieces of the Deno standard library repository.

1. **The workspace conversion tool** (`_tools/convert_to_workspace.ts`). It turns the repository's top-level directories into separately published `@std/<pkg>` packages in six stages:
   - It discovers the packages.
   - It derives each package's export table from the files below it.
   - It reduces the file-level module graph reported by the static analyser to a package dependency graph.
   - It orders the packages dependencies-first by a post-order depth-first search.
   - It rewrites relative imports between packages and legacy `deno.land/std` URLs to `@std/...` specifiers.
   - It writes the per-package manifests and the root manifest's workspace list and import map.
2. **The per-folder export table builder** (`_tools/exports.ts`). It walks one package folder breadth-first with a worklist and lists each public file under a key. A `mod` file stands for its folder. The table is sorted by key.
3. **`withoutAll`** (`collections/without_all.ts`). It keeps the elements of an array that are not among the given values.

The model is purely functional, with two methods for the two worklist algorithms:
- `TopoSort.TopologicalOrder` is the loop over the packages.
- `ExportTable.BuildExportTable` is the breadth-first walk.

The directory listings, the file walk and the analyser's JSON output are inputs.

Paths are sequences of segments. `Paths.Resolve` is dot-segment removal, and stands for `new URL`, `fromFileUrl` and `path.resolve`. `Paths.Relative` stands for `path.relative`.

The `deno.json` documents are records and maps.

Module layout:

| file | module | covers |
|---|---|---|
| wrappers.dfy | `Wrappers` | `Option` and `Result` |
| strings.dfy | `Strings` | `startsWith`, `endsWith`, `includes`, first-occurrence `replace`, lexicographic order |
| sorting.dfy | `Sorting` | sorting by a string key |
| paths.dfy | `Paths` | `split("/")`, `join("/")`, resolution, `relative` |
| collections.dfy | `Collections` | `withoutAll` |
| discovery.dfy | `PackageDiscovery`, `ExportDiscovery` | package discovery and `discoverExports` |
| graph.dfy | `PackageGraph` | the `pkgDeps` construction |
| topo.dfy | `TopoSort` | `visit` and the package order |
| scan.dfy | `ImportScan` | the two `matchAll` regular expressions |
| rewrite.dfy | `ImportRewrite` | the rewrite table and the replacement loop |
| manifest.dfy | `Manifest` | package and root manifests |
| exporttable.dfy | `ExportTable` | `_tools/exports.ts` |

The model follows the code, including where it behaves in ways a reader might not expect:

- **Relative imports.** Every captured relative import is recorded as `../` + capture, also when the text says `./` (line 189). Such an entry resolves one directory too high. Its replacement finds nothing to replace in the import itself, so a same-directory import stays as written, unless `../x` occurs elsewhere in the text; then the replacement lands there, in a comment for instance. See `ImportRewrite.DotSlashRecordedAsParent`, `ImportRewrite.DotSlashImportKept` and `ImportRewrite.DotSlashEntryHitsComment`.
- **Cycles.** The search does not detect cycles (lines 148-155). On a cyclic graph the order it returns is not dependencies-first. See `TopoSort.CycleNotDetected`.
- **Dependency sets.** They are JavaScript `Set`s, which iterate in insertion order. The model keeps that order, so the package order depends on the order of the analyser's output.
- **The `./` prefix.** The code gives a same-package specifier `./` only when it does not already start with `.` (lines 209-211). `ImportRewrite.RewriteRelative`, and through it `ImportRewrite.Rewrites` and `ImportRewrite.RewriteFile`, use this rule as written. The rule that always yields a relative specifier is kept apart as `ImportRewrite.RewriteRelativeIntended`, and `ImportRewrite.RewriteRulesDiffer` says exactly where the two disagree. See "Findings".
- **The `exports` shorthand.** The shorthand is `./mod.ts` whenever the only key is `.`, even when that file is `mod.d.ts`. See `Manifest.ExportsMeaning` and `Manifest.RootExportIsMod`.

## Model

| member | source | states |
|---|---|---|
| Collections.WithoutAll | collections/without_all.ts:17-20 | every kept element is in the array and not among the values, no element is added, and each element outside the values keeps its multiplicity while each value is gone entirely |
| Collections.WithoutAllIsSubsequence | collections/without_all.ts:19 | the result is an order-preserving subsequence of the array |
| Collections.WithoutAllUnique | collections/without_all.ts:17-20 | any subsequence of the array that avoids the values and keeps every other element's multiplicity is exactly the result |
| Collections.WithoutAllOfNothing | collections/without_all.ts:18-19 | with no values to exclude the array comes back unchanged |
| Collections.WithoutAllConcat | collections/without_all.ts:19 | filtering distributes over concatenation |
| Collections.WithoutAllIdempotent | collections/without_all.ts:19 | filtering twice by the same values is filtering once |
| Collections.WithoutAllExample | collections/without_all.ts:12-14 | the documented example `[2, 1, 2, 3]` without `[1, 2]` is `[3]` |
| PackageDiscovery.PackageCandidates | _tools/convert_to_workspace.ts:64-71 | a name is collected exactly when some listed entry with that name is a directory starting with neither `.` nor `_` |
| PackageDiscovery.DiscoverPackages | _tools/convert_to_workspace.ts:63-72 | the package list is sorted, is a permutation of the collected names, and holds a name iff it names a qualifying directory |
| PackageDiscovery.CandidatesDistinct | _tools/convert_to_workspace.ts:64-71 | a listing of distinct names yields a package list without repetition |
| ExportDiscovery.StripTsExtension | _tools/convert_to_workspace.ts:83 | the result is a prefix of the input; a name ending in `.d.ts` loses exactly `.d.ts`, any other name ending in `.ts` loses exactly `.ts`, and a name not ending in `.ts` is unchanged |
| ExportDiscovery.StripModSuffix | _tools/convert_to_workspace.ts:91 | the result is a prefix and what was removed is nothing or `/mod`; something is removed iff the name ends in `/mod` |
| ExportDiscovery.KeyOf | _tools/convert_to_workspace.ts:83-91 | a key is a prefix of its path, and what the two replacements remove is one of ``, `.ts`, `.d.ts`, `/mod`, `/mod.ts`, `/mod.d.ts` |
| ExportDiscovery.IsPublicModule | _tools/convert_to_workspace.ts:83-89 | a file that passes every filter is a TypeScript or a JSON file |
| ExportDiscovery.EntryFor | _tools/convert_to_workspace.ts:91-92 | the entry's path is `.` + the walked path, and its key is a prefix of that path |
| ExportDiscovery.CollectExports | _tools/convert_to_workspace.ts:80-93 | an entry is collected iff some walked regular file passes every filter and the entry is that file's `[key, "." + path]` |
| ExportDiscovery.DiscoverExports | _tools/convert_to_workspace.ts:76-96 | the table is sorted by key, is a permutation of the collected entries, holds exactly the entries of the public module files, and keeps entries with equal keys in walk order |
| ExportDiscovery.ValueExtendsKey | _tools/convert_to_workspace.ts:83-92 | an export's path is its key followed by one of ``, `.ts`, `.d.ts`, `/mod.ts`, `/mod.d.ts`, and by nothing exactly for `.json` files; the path ends in `.d.ts` exactly when the removed part is `.d.ts` or `/mod.d.ts` |
| ExportDiscovery.TestFilesNeverExported | _tools/convert_to_workspace.ts:86 | files ending in `_test.ts`, `_test.d.ts` or `/test.ts` are never exported |
| ExportDiscovery.ExampleFilesNeverExported | _tools/convert_to_workspace.ts:87 | files ending in `_example.ts` or below an `example` directory are never exported |
| ExportDiscovery.InternalFilesNeverExported | _tools/convert_to_workspace.ts:85-88 | files with a segment starting with `_` or below `testdata` are never exported |
| ExportDiscovery.NonModulesNeverExported | _tools/convert_to_workspace.ts:84-89 | `deno.json` files and files that are neither TypeScript nor JSON are never exported |
| Paths.FirstSegment | _tools/convert_to_workspace.ts:127 | the first piece of `split("/")` is a slash-free prefix followed by a slash or the end of the string |
| Paths.JoinSplit | _tools/convert_to_workspace.ts:127 | joining the pieces of a split with `/` gives back the string |
| Paths.PathInPackage | _tools/convert_to_workspace.ts:205-206 | the path of a file below package directory `pkg`, relative to the working directory, is `pkg/` followed by the file's path inside the package |
| Paths.ResolveRelative | _tools/convert_to_workspace.ts:205-210 | resolving the relative path from one directory to a normalised path gives back that path |
| PackageGraph.PackageOf | _tools/convert_to_workspace.ts:126-131 | a dependency has a package exactly when it is a `file://` URL; any other scheme is the error `fromFileUrl` raises |
| PackageGraph.AddEdge | _tools/convert_to_workspace.ts:132-134 | adding an edge fails iff the source is no package and differs from the target; otherwise only that one edge is added, never a self-edge, and nothing is removed |
| PackageGraph.AddTargets | _tools/convert_to_workspace.ts:128-143 | processing one module's dependencies keeps the package set and keeps the graph free of self-edges and duplicate edges |
| PackageGraph.AddModules | _tools/convert_to_workspace.ts:124-144 | the module loop keeps the package set and keeps the graph free of self-edges and duplicate edges |
| PackageGraph.AddTargetsFails | _tools/convert_to_workspace.ts:128-143 | processing one module's code and type dependencies fails iff one of them is not a file URL or leaves a directory that is not a package |
| PackageGraph.AddTargetsEdges | _tools/convert_to_workspace.ts:128-143 | on success the edges from a package are the old ones plus the other packages its module's dependencies lie in |
| PackageGraph.AddModulesFails | _tools/convert_to_workspace.ts:124-144 | the module loop fails iff some local module has a bad dependency; non-file modules are skipped |
| PackageGraph.AddModulesEdges | _tools/convert_to_workspace.ts:124-144 | on success the edges are the old ones plus exactly those induced by local modules |
| PackageGraph.BuildGraph | _tools/convert_to_workspace.ts:121-144 | every package is a key, none depends on itself, and `t` is a dependency of `p` iff some local module of `p` depends on a file of package `t`; the failure cases are characterised |
| TopoSort.Visit | _tools/convert_to_workspace.ts:148-155 | on success the package is seen, the seen set only grows, the order only grows at its end and lists each newly seen package once; it fails only on a name that is no package, and never on a closed graph |
| TopoSort.VisitAll | _tools/convert_to_workspace.ts:151-153 | visiting the dependency list sees every dependency and keeps the search state consistent; failure names a missing package |
| TopoSort.VisitRanked | _tools/convert_to_workspace.ts:148-155 | on an acyclic graph a visit lists the package and keeps every package after all its dependencies |
| TopoSort.VisitAllRanked | _tools/convert_to_workspace.ts:151-153 | on an acyclic graph visiting a dependency list lists all of them and keeps the order dependencies-first |
| TopoSort.TopologicalOrder | _tools/convert_to_workspace.ts:146-158 | the order lists every package exactly once and only packages; for an acyclic graph every dependency precedes its dependent; it terminates on every graph and fails only on a missing package |
| TopoSort.DepsFirstMeansAcyclic | _tools/convert_to_workspace.ts:146-158 | conversely, a dependencies-first listing of all packages exists only for acyclic graphs |
| TopoSort.CycleNotDetected | _tools/convert_to_workspace.ts:148-155 | on the cycle `a -> b -> a` the search returns `[b, a]` without error, and that order is not dependencies-first |
| ImportScan.SpanEnd | _tools/convert_to_workspace.ts:188 | a greedy run ends at the first character outside the class |
| ImportScan.MatchRelativeSound | _tools/convert_to_workspace.ts:188 | every match of the relative-import expression is `from`, whitespace, a quote, `./` or `../`, a quote-free capture and a quote |
| ImportScan.MatchRelativeComplete | _tools/convert_to_workspace.ts:188 | text of that form is matched at its start, with exactly that span and capture |
| ImportScan.MatchLegacySound | _tools/convert_to_workspace.ts:195-196 | every legacy match is the fixed URL prefix followed by the longest run of non-quote, non-space characters |
| ImportScan.MatchLegacyComplete | _tools/convert_to_workspace.ts:195-196 | text of that form is matched at its start with that capture |
| ImportScan.ScanFrom | _tools/convert_to_workspace.ts:188 | the leftmost-first search returns only positions where the per-position matcher succeeds, in increasing, non-overlapping order |
| ImportScan.ScanFromComplete | _tools/convert_to_workspace.ts:188 | the search skips no match: every position where the matcher succeeds lies inside a returned match |
| ImportScan.Scan | _tools/convert_to_workspace.ts:186-198 | `matchAll` returns matches inside the text, in increasing, non-overlapping order |
| ImportScan.ScanSound | _tools/convert_to_workspace.ts:186-198 | every match `matchAll` returns is a match of the expression at its start |
| ImportScan.ScanComplete | _tools/convert_to_workspace.ts:186-198 | every position where the expression matches lies inside a match `matchAll` returns |
| ImportRewrite.DotPrefixedAsWritten | _tools/convert_to_workspace.ts:209-211 | the same-package specifier as written starts with `.` and is the relative path, or `./` in front of it |
| ImportRewrite.DotPrefixed | _tools/convert_to_workspace.ts:209-211 | the corrected same-package specifier always starts with `./` or `../` and only adds `./` |
| ImportRewrite.DotRulesDiffer | _tools/convert_to_workspace.ts:209-211 | the two prefix rules disagree exactly on paths that start with `.` but not with `../`; there the code keeps the path and the corrected rule adds `./` |
| ImportRewrite.StdSpecifier | _tools/convert_to_workspace.ts:213-214 | a cross-package specifier starts with `@std/` and is never read as relative |
| ImportRewrite.RewriteRelative | _tools/convert_to_workspace.ts:202-217 | as written, a recorded import gets a specifier starting with `.` exactly when its target is in the importer's package, and an `@std/` name exactly when it is not |
| ImportRewrite.RewriteRelativeIntended | _tools/convert_to_workspace.ts:202-217 | with the corrected prefix rule, the specifier is relative exactly for same-package targets and an `@std/` name otherwise |
| ImportRewrite.RewriteRulesDiffer | _tools/convert_to_workspace.ts:206-211 | the code and the corrected rule give different specifiers exactly for a same-package target whose path from the importer's directory starts with `.` but not `../` |
| ImportRewrite.RelativeNoDotSlash | _tools/convert_to_workspace.ts:208 | `relative` never returns a path starting with `./`, so a dot-led path it hands the prefix rule either ascends or starts with a hidden name |
| ImportRewrite.RewriteLegacy | _tools/convert_to_workspace.ts:220-227 | a legacy URL is rewritten to an `@std/` name |
| ImportRewrite.RelativeSpecifiers | _tools/convert_to_workspace.ts:186-191 | one recorded specifier per relative-import match, in text order, each `../` + the capture |
| ImportRewrite.LegacySpecifiers | _tools/convert_to_workspace.ts:193-198 | one recorded URL per legacy match, in text order, each the fixed prefix + the capture |
| ImportRewrite.Rewrites | _tools/convert_to_workspace.ts:186-229 | the replacement list is the relative captures, each as `../` + capture with its relative rewrite as the code computes it, then the legacy URLs with their `@std` names, in text order |
| ImportRewrite.RewriteFile | _tools/convert_to_workspace.ts:186-234 | a text with no relative import and no legacy URL comes back unchanged |
| ImportRewrite.RewriteFileInPlace | _tools/convert_to_workspace.ts:186-234 | a text made of the recorded old specifiers in slots, each leftmost at its turn, comes back with every slot holding its replacement and everything else unchanged |
| ImportRewrite.RewriteFileOneImport | _tools/convert_to_workspace.ts:186-234 | a file whose text is one `from "../..."` import ends up as that import with the specifier `RewriteRelative` computes |
| ImportRewrite.SiblingPackageFile | _tools/convert_to_workspace.ts:186-234 | the text `from "../a/mod.ts"` in `b/mod.ts` becomes `from "@std/a"` |
| ImportRewrite.HiddenSiblingFile | _tools/convert_to_workspace.ts:186-234 | the text `from "../pkg/.x.ts"` in a file of `pkg` becomes `from ".x.ts"`, a bare specifier |
| ImportRewrite.SameDirRoundTrip | _tools/convert_to_workspace.ts:208-211 | the corrected specifier is read as relative and leads from the importer's directory to the target |
| ImportRewrite.SamePackageRewrite | _tools/convert_to_workspace.ts:202-212 | as written, inside the importer's package the new specifier starts with `.` and resolves to the same file as the original; it is read as relative exactly when the path from the importer's directory starts with `../` or not with `.` |
| ImportRewrite.SamePackageRewriteIntended | _tools/convert_to_workspace.ts:202-212 | with the corrected prefix rule the new specifier is always relative, starts with `.` and resolves to the same file |
| ImportRewrite.CrossPackageTarget | _tools/convert_to_workspace.ts:203-217 | an import resolving to file `rest` of another package `pkg` becomes the `@std` name of `pkg/rest` |
| ImportRewrite.KeyOfUnder | _tools/convert_to_workspace.ts:214-215 | the key rule commutes with a package directory in front of a path |
| ImportRewrite.CrossPackageRewrite | _tools/convert_to_workspace.ts:203-217 | across packages the import becomes `@std/<pkg>` + the export key the target file has in its package's table |
| ImportRewrite.LegacyRewrite | _tools/convert_to_workspace.ts:220-227 | a legacy URL for a file of package `pkg` becomes the same name as a cross-package import of that file |
| ImportRewrite.LegacyEntryRewrite | _tools/convert_to_workspace.ts:220-227 | the legacy URL of a package's `mod.ts` becomes the bare name `@std/<pkg>` |
| ImportRewrite.LegacyModuleExample | _tools/convert_to_workspace.ts:220-227 | the legacy URL of `bytes/concat.ts` becomes `@std/bytes/concat` |
| ImportRewrite.LegacyPackageExample | _tools/convert_to_workspace.ts:220-227 | the legacy URL of `path/mod.ts` becomes `@std/path` |
| ImportRewrite.SiblingPackageExample | _tools/convert_to_workspace.ts:202-217 | `../a/mod.ts` imported from `b/mod.ts` becomes `@std/a` |
| ImportRewrite.HiddenSiblingSpecifier | _tools/convert_to_workspace.ts:202-211 | as written, `../pkg/.x` imported from a file of `pkg` becomes `.x`, which is not read as relative; the corrected rule gives `./.x` |
| ImportRewrite.ApplyIdentityRewrites | _tools/convert_to_workspace.ts:231-234 | replacing each specifier by itself leaves the text unchanged |
| ImportRewrite.ApplyRewritesAppend | _tools/convert_to_workspace.ts:231-234 | applying two replacement lists in a row is applying their concatenation |
| ImportRewrite.ApplyRewritesInPlace | _tools/convert_to_workspace.ts:231-234 | when no old specifier occurs, whole or in part, in front of its own slot at its turn, the sequential first-occurrence loop replaces each slot in place |
| ImportRewrite.DotSlashEntryHitsComment | _tools/convert_to_workspace.ts:189-234 | the `../x.ts` recorded for `from "./x.ts"` replaces a later `../x.ts` in a comment, not the import |
| ImportRewrite.DotSlashRecordedAsParent | _tools/convert_to_workspace.ts:186-191 | an import written `from "./x"` is recorded as `../x` |
| ImportRewrite.DotSlashImportKept | _tools/convert_to_workspace.ts:231-234 | the recorded `../x` does not occur in `from "./x"`, so the first-occurrence replacement leaves the text as it was |
| Strings.ReplaceFirst | _tools/convert_to_workspace.ts:233 | only the leftmost occurrence is replaced; without one the text is unchanged |
| Manifest.FromEntries | _tools/convert_to_workspace.ts:247 | the object's keys are exactly the keys of the pairs |
| Manifest.FromEntriesLastWins | _tools/convert_to_workspace.ts:247 | each key maps to the path of its last pair |
| Manifest.FromEntriesDistinct | _tools/convert_to_workspace.ts:247 | with distinct keys, every pair is in the object as listed |
| Manifest.PackageExports | _tools/convert_to_workspace.ts:243-248 | the shorthand is chosen iff there is exactly one export and its key is `.`; otherwise the table has exactly the listed keys |
| Manifest.ExportsMeaning | _tools/convert_to_workspace.ts:243-248 | the field means the same as the list except exactly when the single `.` export's path is not `./mod.ts` |
| Manifest.RootExportIsMod | _tools/convert_to_workspace.ts:243-245 | a discovered export keyed `.` is the package's `mod.ts` or `mod.d.ts` |
| Manifest.PackageManifest | _tools/convert_to_workspace.ts:241-253 | the manifest names `@std/<pkg>`, carries the shared version, and its exports have exactly the table's keys |
| Manifest.ManifestNameMatchesRewrite | _tools/convert_to_workspace.ts:249-250 | the name a package's manifest publishes is the bare specifier the rewriter gives its entry module |
| Manifest.AddImports | _tools/convert_to_workspace.ts:263-266 | the import map gains exactly the two keys per package, and every other entry is kept |
| Manifest.AddImportsValues | _tools/convert_to_workspace.ts:263-266 | every package's bare key maps to `jsr:@std/<pkg>@^<version>` and its directory key to `jsr:/@std/<pkg>@^<version>/` |
| Manifest.AddImportsIdempotent | _tools/convert_to_workspace.ts:263-266 | updating the import map a second time changes nothing |
| Manifest.Workspaces | _tools/convert_to_workspace.ts:262 | the workspace list has one `./<pkg>` entry per package, in the given order |
| Manifest.UpdateRoot | _tools/convert_to_workspace.ts:260-266 | the update fails iff there are packages to write and the root document has no `imports` member; otherwise the workspaces are set and the import keys are added |
| Manifest.BareSpecifierResolves | _tools/convert_to_workspace.ts:264 | the bare name `@std/<pkg>` has its own entry in the updated import map |
| Manifest.ModuleSpecifierResolves | _tools/convert_to_workspace.ts:265 | every `@std/<pkg>/...` specifier starts with the package's directory key, which maps to the registry package |
| Sorting.SortBy | _tools/exports.ts:35 | the result is sorted by key, is a permutation of the input, and keeps elements with equal keys in input order, as the stable `Array.prototype.sort` does |
| ExportTable.ScanFolder | _tools/exports.ts:7-33 | a folder yields a row iff it lists a regular, non-skipped file, and that row is the file's key and `./` path; it pushes exactly its non-skipped subdirectories other than `testdata` and `example` |
| ExportTable.SkippedNeverListed | _tools/exports.ts:8-12 | a skipped entry contributes neither a row nor a subfolder, whatever else the folder holds |
| ExportTable.Expected | _tools/exports.ts:5-33 | every row of the reference walk has a path starting with `./` and a key that is `.` or starts with `./` |
| ExportTable.BuildExportTable | _tools/exports.ts:1-35 | the breadth-first worklist walk terminates and returns, sorted by key, a permutation of the rows of the depth-first reference walk |
| ExportTable.PrefixOfRoot | _tools/exports.ts:6 | the package folder itself has the empty prefix |
| ExportTable.PrefixOfSubfolder | _tools/exports.ts:6 | a folder pushed as `folder/path` has the prefix `path` |
| ExportTable.ExportName | _tools/exports.ts:13-25 | a key is `.` or starts with `./`; it is `.` exactly at the top for `mod.ts` or a name that is only `.ts`; in a subfolder it starts with `./` + the prefix |
| ExportTable.ExportOf | _tools/exports.ts:13-27 | every row is keyed by the export name, with a key that is `.` or starts with `./`; its path is `./` + the entry name at the top and `./` + prefix + `/` + entry name in a subfolder |
| ExportTable.RootModKey | _tools/exports.ts:13-27 | `mod.ts` at the top is exported as `.` with path `./mod.ts` |
| ExportTable.SubfolderModKey | _tools/exports.ts:14-27 | `mod.ts` in subfolder `p` is exported as `./p` with path `./p/mod.ts` |
| ExportTable.PlainModuleKey | _tools/exports.ts:13-25 | any other entry `n` gets `./n` at the top and `./p/n` in subfolder `p`, with `n` the name without its first `.ts` |
| ExportTable.FirstOccurrenceKey | _tools/exports.ts:13 | the first `.ts` is removed, not the extension: `a.tsx.ts` is listed as `./ax.ts` |
| ExportTable.DeclarationModKey | _tools/exports.ts:13-25 | `mod.d.ts` is listed as `./mod.d` and does not collapse to `.` |

## Left out

- File-system and process I/O: `Deno.readDir`, `walk`, `Deno.realPath`, `Deno.remove`, the text reads and writes, and the `deno info --json` subprocess. The directory listings, walk results, file texts and analyser output are inputs. Symbolic links resolved by `realPath` are not modelled.
- Building the analyser's synthetic entry document (lines 98-119): only its output, the module list, is modelled.
- JSON parsing and serialisation of the manifests (lines 119, 254-257, 261-270 of the conversion tool, lines 37-40 of `exports.ts`). `Object.fromEntries` itself is `Manifest.FromEntries`.
- The one-off README and `http/file_server.ts` text patches (lines 18-61). They are fixed literal substitutions on two files.
- Walk filter: the filter of the rewrite loop (lines 176-180) is stated as `ImportRewrite.IsRewritten` without a contract. The walk that feeds it is I/O.
- Sort order: `packages.sort()` compares UTF-16 code units and `localeCompare` uses locale collation. Both are modelled as lexicographic order on characters. Strings are sequences of characters with no encoding.
- URLs: `new URL`, `fromFileUrl` and `toFileUrl` are modelled as segment normalisation on absolute paths below the root. Percent-encoding, query strings, fragments, hosts and Windows paths are not modelled. The working directory is a normalised absolute path.
- `String.prototype.replace` with a string replacement expands `$&`, `$1` and similar patterns. `Strings.ReplaceFirst` inserts the replacement literally, so a replacement containing `$` is outside the model.
- Rewrite idempotence: running the rewrite pass on its own output should leave the files unchanged. This is not proved.
- Crashes: when a dependency set is missing, `pkgDeps.get(...)` gives `undefined` (the `!` has no runtime effect), and calling `.add` on it (lines 133, 140) or iterating over it (line 151) throws a `TypeError`. `fromFileUrl` on a non-file URL throws too. All of these are modelled as `Failure` results.
- `TopoSort.TopologicalOrder` and the `Visit` functions model the recursion of `visit` directly. Stack depth is not modelled.
- Manifest.AddImportsValues: states the targets only for slash-free package names. Directory names cannot contain `/`, and a name with a slash could make one package's directory key another's bare key.
- Manifest.AddImportsIdempotent: assumes slash-free package names, for the same reason.
- Manifest.BareSpecifierResolves: assumes slash-free package names, for the same reason.
- Manifest.ModuleSpecifierResolves: assumes slash-free package names, for the same reason.
- ExportTable.BuildExportTable: requires the folder argument to be a single path segment, the package folder name. With a `/` in it, the tool computes prefixes from the later segments and reads directories that do not exist. The model instead carries each folder's listing with its worklist entry.
- ImportRewrite.RewriteFile: the whole-text result is stated only when each recorded specifier is leftmost at its turn (`RewriteFileInPlace`), and for texts without imports or with one import. The first-occurrence `replace` can hit another occurrence, such as one in a comment, and in general the result is not characterised further than by the definition of the loop.
- ExportTable.BuildExportTable: does not state the order of rows with equal keys. That order is the breadth-first discovery order, which `localeCompare`'s stable sort keeps; the model only proves the result is sorted and a permutation of the reference rows.
- ExportTable.PlainModuleKey: requires a non-empty entry name, which every directory entry has.
- `withoutAll` uses `Set` membership, which compares by SameValueZero: `NaN` matches `NaN`, `-0` matches `0`, and objects match only themselves. The model is generic over the element type and uses its `==`, which stands for that comparison; floating-point values and object identity are not modelled.

## Findings

| source | as written | input that shows it | evidently intended | confidence | as-written member | corrected member |
|---|---|---|---|---|---|---|
| _tools/convert_to_workspace.ts:209-211 | a same-package specifier gets `./` only when it does not already start with `.` | in `a/y.ts`, the import `from "../a/.x.ts"` of the sibling `a/.x.ts` is rewritten to `from ".x.ts"`, which the loader treats as a bare specifier | prefix `./` unless the path starts with `../`, so the specifier is always relative | low, not executed (hidden modules are rare, and the walk that feeds the rewriter does not skip them) | ImportRewrite.RewriteRelative; ImportRewrite.HiddenSiblingSpecifier; ImportRewrite.HiddenSiblingFile | ImportRewrite.DotPrefixed; ImportRewrite.RewriteRelativeIntended; ImportRewrite.SameDirRoundTrip; ImportRewrite.SamePackageRewriteIntended |
