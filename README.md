# agent-codemap core, modelled in Dafny

agent-codemap turns a source tree into a markdown outline per file, one line per symbol.
Symbols are classes, functions, methods, fields and the like.
Its core is modelled here:

- **Extractor** (`extractor.dfy`, `nested_tree.dfy`). It reads each query match's captures into one flat symbol and keeps the first symbol per (name, start line). Then it sorts the flat symbols by start byte and nests them into a forest with a stack of open symbols. `parse_kind` maps a capture name to a symbol kind.
- **Symbol** (`symbol.dfy`). The symbol kinds and their wire names, plus positions, ranges, symbols and file maps.
- **Detector** (`detector.dfy`, `paths.dfy`). Maps a file's final extension to one of 16 languages.
- **Scanner** (`scanner.dfy`). `compare_paths` orders files: at the first differing component, a directory comes before a file, and otherwise names compare lexicographically. Also modelled: the sort step of `scan` and `relative_path`.
- **Watch** (`watch.dfy`). `WatchState` is a class whose `cache` field maps each parsed file to its (mtime, size). Its methods are proved equal to value-level folds:
  - `ParseAndWrite`, `Remove`, `FullScan` and `IncrementalUpdate` are methods;
  - `NeedsReparse` and `ShouldProcessEvent` are predicates.
  - The file system, the extractor, the writer and the scanner are seen through an `Env` value. It holds each path's metadata, which files parse, which writes fail, and what the scan returns. It is fixed for the duration of one call.
- **Markdown** (`markdown.dfy`). `RenderSingle` and `RenderSymbol` append to an output string exactly as `render_single` and `render_symbol` push onto their buffer. Both are proved equal to `Rendered`, a pre-order outline function.

Paths are lists of normal components (`/tmp/x/a.rs` is `["tmp", "x", "a.rs"]`).
Rust's `usize` and `u64` values are `nat`.

### Behaviour worth knowing

- **Overlapping spans.** The comment at `src/extractor.rs:163` says a symbol that does not fit inside the open symbol is pushed as a top-level symbol. The code pushes it onto the same stack as the other branch (`src/extractor.rs:154-164`). So it becomes a child of the open symbol, even though it ends past it. The model follows the code. `NestedTree.NestExampleOverlap` shows this: [0,10) then [5,20) gives a parent with a child that ends past it. Containment is therefore proved only for inputs whose spans nest (`NestedTree.NestContained`).
- **Event admission.** The code (`src/watch.rs:231-235`) rejects a whole event as soon as any one of its paths lies under the output directory, even if other paths lie outside it. `Watch.ShouldProcessEvent` states this rule.

## Model

| member | source | states |
|---|---|---|
| Paths.StripPrefix | src/scanner.rs:63-64 | A result exists exactly when the base is a component prefix, and base followed by the result is the path |
| Paths.FileName | src/scanner.rs:46-50 | A name exists exactly for a non-empty path, and it is the last component |
| Paths.LastDot | src/detector.rs:53 | The index found is a dot with no dot after it; with no index, the string holds no dot |
| Paths.Extension | src/detector.rs:53 | `Path::extension`: the text after the last dot of the last component, none for no dot, a leading dot or `..`; its shape is proved in both directions by `Paths.ExtensionIsFinalSuffix` and `Paths.ExtensionOfSuffix` |
| Paths.ExtensionIsFinalSuffix | src/detector.rs:53 | A found extension is dot-free, and the file name is a non-empty stem, a dot and the extension |
| Paths.ExtensionOfSuffix | src/detector.rs:53 | Conversely, a file name other than `..` made of a non-empty stem, a dot and a dot-free tail has exactly that tail as its extension |
| Symbols.KindName | src/symbol.rs:29-48 | `as_str`, one lowercase name per kind; proved equal to serde's rename by `Symbols.KindNameIsSnakeCase` and injective by `Symbols.KindNameInjective` |
| Symbols.KindNameIsSnakeCase | src/symbol.rs:10-47 | Each `as_str` name equals serde's snake_case rename of the variant name, so both wire forms agree |
| Symbols.KindNameInjective | src/symbol.rs:30-47 | No two kinds share a name |
| Symbols.KindNameAlphabet | src/symbol.rs:30-47 | Kind names are non-empty lowercase letters and `_` (hence never contain a line break) |
| Symbols.ExportedKeys | src/symbol.rs:68-77 | `detail` is serialised exactly when present and `children` exactly when non-empty; name, kind and range always, name and kind first |
| Detector.LanguageId | src/detector.rs:29-48 | `Language::as_str`, one id per language; injective by `Detector.LanguageIdInjective` |
| Detector.Detect | src/detector.rs:52-73 | A detected language claims the path's final extension; with `Detector.UnlistedExtensionUndetected`, exactly the claimed extensions are detected |
| Detector.LanguageIdInjective | src/detector.rs:29-48 | No two languages share an id |
| Detector.ExtensionTableAgrees | src/detector.rs:54-72 | The match arms and a per-language extension table agree in both directions |
| Detector.UnlistedExtensionUndetected | src/detector.rs:71 | An extension no language claims gives no language |
| Detector.DetectClaimedSuffix | src/detector.rs:52-72 | Any path whose name ends in a claimed extension after a non-leading dot is detected as the claiming language (`foo.rs` is Rust wherever it lies) |
| Detector.DetectOnlySeesExtension | src/detector.rs:52-53 | Paths with the same final extension are detected alike |
| Detector.NoExtensionUndetected | src/detector.rs:53 | A path without an extension gives no language |
| Detector.DetectGradleScript | src/detector.rs:157 | `build.gradle.kts` is Kotlin: only the last extension counts |
| Detector.DetectPlainText | src/detector.rs:167 | `test.txt` gives no language |
| Detector.DetectNoDot | src/detector.rs:168 | `test` gives no language |
| Detector.DetectRustSource | src/detector.rs:61 | `src/lib.rs` is Rust |
| Scanner.CompareComponents | src/scanner.rs:66-93 | The component-wise comparison; its properties are the `Scanner.Compare…` lemmas below |
| Scanner.ComparePaths | src/scanner.rs:62-94 | `compare_paths`: both paths relative to the base (or unchanged when not under it), then compared by components |
| Scanner.CompareNat | src/scanner.rs:93 | The length comparison is Less / Equal exactly when less / equal |
| Scanner.CompareStrEqual | src/scanner.rs:88 | Names compare Equal exactly when identical |
| Scanner.FirstDifferenceDecides | src/scanner.rs:62-94 | The result is decided at the first differing component: directory before file, then by name; without a difference, by length |
| Scanner.PrefixSortsFirst | src/scanner.rs:92-93 | A proper prefix sorts first; a path compares Equal to itself |
| Scanner.ComparePathsReverse | src/scanner.rs:62-94 | Swapping the arguments reverses the result |
| Scanner.CompareEqualIff | src/scanner.rs:62-94 | Only identical component lists compare Equal |
| Scanner.CompareTransitive | src/scanner.rs:62-94 | Less is transitive on component lists none of which is a proper prefix of another |
| Scanner.PrefixBreaksTransitivity | src/scanner.rs:92-93 | Without that assumption it is not: `x` < `x/y` < `w` yet `x` > `w` |
| Scanner.NotGreaterTransitive | src/scanner.rs:62-94 | "Not after" is transitive on prefix-free relative paths |
| Scanner.SortPaths | src/scanner.rs:36 | The stable `sort_by(compare_paths)`; proved a sorted permutation by the next two lemmas |
| Scanner.SortPathsPermutesAndOrders | src/scanner.rs:36 | The stable sort returns a permutation whose neighbours are in order |
| Scanner.SortPathsCorrect | src/scanner.rs:36 | For prefix-free inputs the result is a permutation and sorted pairwise |
| Scanner.SortedExample | src/scanner.rs:126-149 | `z.rs`, `a.rs`, `sub/m.rs` sort to `sub/m.rs`, `a.rs`, `z.rs` |
| Scanner.Scan | src/scanner.rs:14-39 | A file input gives itself; otherwise the walked files, sorted by `compare_paths` relative to the input, a permutation of them and sorted when prefix-free |
| Scanner.RelativePath | src/scanner.rs:42-59 | File input: the last component; directory input: the input plus the result is the path, or the path itself when the input is not its prefix |
| Scanner.RelativePathExamples | src/scanner.rs:151-171 | `main.rs` for a file input, `src/lib.rs` under a directory |
| NestedTree.Attach | src/extractor.rs:143-148 | A closed tree becomes the last child of the new top, or a root on an empty stack; the stack keeps its height |
| NestedTree.NestFrom | src/extractor.rs:131-165 | One step per flat symbol: pop closed symbols, then push the new one |
| NestedTree.Drain | src/extractor.rs:167-174 | Pops and attaches what is left on the stack |
| NestedTree.Nest | src/extractor.rs:123-177 | The specification forest of `build_nested_tree`; its pre-order, nesting and containment are proved by the lemmas below |
| NestedTree.PopClosed | src/extractor.rs:141-152 | Popping stops at an open symbol that ends after the new start, or at an empty stack |
| NestedTree.NestPreorder | src/extractor.rs:123-177 | The forest's pre-order is exactly the input sequence (nothing lost, duplicated or reordered); empty exactly for empty input |
| NestedTree.NestWellNested | src/extractor.rs:123-177 | For input sorted by start, every child starts within its parent's span and siblings, roots included, do not overlap |
| NestedTree.NestContained | src/extractor.rs:154-164 | When overlapping spans are nested in the input, every child also ends within its parent |
| NestedTree.NestExampleInside | src/extractor.rs:154-160 | [0,40) then [10,20) gives one root with one child |
| NestedTree.NestExampleApart | src/extractor.rs:141-152 | [0,10) then [20,30) gives two roots |
| NestedTree.NestExampleOverlap | src/extractor.rs:154-164 | [0,10) then [5,20) gives a child that ends past its parent |
| NestedTree.ToSymbol | src/extractor.rs:132-138 | The symbol keeps name, kind and range, has no detail and one child per subtree |
| NestedTree.BuiltCount | src/extractor.rs:123-177 | The built forest holds exactly one symbol per flat symbol |
| NestedTree.PopInto | src/extractor.rs:143-148 | Popping the top and attaching it to the new top (or to the result) is one `Attach` step of the specification |
| NestedTree.BuildNestedTree | src/extractor.rs:123-177 | The stack algorithm returns the symbols of the specification forest `Nest` |
| Extractor.ParseKind | src/extractor.rs:179-209 | The if-chain on capture names; proved to be the first matching rule of a keyword table by `Extractor.ParseKindIsFirstRule` |
| Extractor.ParseKindIsFirstRule | src/extractor.rs:179-209 | The if-chain is the keyword table read in order, the first contained keyword winning |
| Extractor.FirstRuleDecides | src/extractor.rs:179-209 | The first matching rule decides; with no match the kind is `Function` |
| Extractor.FirstRuleInTable | src/extractor.rs:179-209 | The kind is `Function` or some rule's kind |
| Extractor.ParseKindNeverConstructor | src/extractor.rs:179-209 | No capture name yields `Constructor` |
| Extractor.EnumMemberHidesEnum | src/extractor.rs:180-183 | A name holding `enum_member` also holds `enum` and yields `EnumMember` |
| Extractor.ClassBeforeMethod | src/extractor.rs:184-187 | A name holding `class` and `method` and no `enum` yields `Class` |
| Extractor.ParseKindDefault | src/extractor.rs:206-207 | A name without any keyword yields `Function` |
| Extractor.ParseKindExamples | src/extractor.rs:180-187 | `definition.enum_member` is `EnumMember`, `definition.class.method` is `Class` |
| Extractor.RangeOf | src/extractor.rs:86-95 | Lines are rows plus one; columns are unchanged |
| Extractor.ReadCaptures | src/extractor.rs:63-97 | One match's captures read in order into a name, kind, bytes and range; what it keeps is stated by the four `Read…` lemmas below |
| Extractor.ReadNoName | src/extractor.rs:64 | Without a name capture the name stays empty |
| Extractor.ReadNameLastWins | src/extractor.rs:80-81 | The name is the text of the last name capture |
| Extractor.ReadNoSpan | src/extractor.rs:65-68 | Without a span capture, kind, bytes and range keep their initial values |
| Extractor.ReadSpanLastWins | src/extractor.rs:82-95 | Kind, bytes and range come from the last non-auxiliary, non-name capture |
| Extractor.Candidate | src/extractor.rs:99-100 | A match yields a symbol exactly when it has a non-empty name and a range |
| Extractor.NoSpanNoSymbol | src/extractor.rs:100 | A match without a span capture yields nothing |
| Extractor.NoNameNoSymbol | src/extractor.rs:99 | A match without a name capture yields nothing |
| Extractor.Candidates | src/extractor.rs:63-111 | Every match's candidate symbol, in match order |
| Extractor.Dedup | src/extractor.rs:101-110 | Keeps the first symbol per (name, start line); proved by `Extractor.DedupKeys` and `Extractor.DedupFirstWins` |
| Extractor.DedupKeys | src/extractor.rs:101-110 | Every (name, start line) survives once: same key set, pairwise distinct keys |
| Extractor.DedupFirstWins | src/extractor.rs:101-110 | Each surviving symbol is the first with its key |
| Extractor.DedupPrefix | src/extractor.rs:101-110 | Survivors keep discovery order: deduplicating a prefix of the candidates gives a prefix of the full result |
| Extractor.CollectFlatSymbols | src/extractor.rs:57-113 | The collection loop with its `seen` set equals deduplicating the matches' symbols |
| Extractor.SortByStart | src/extractor.rs:116 | The stable sort by start byte returns a permutation of its input |
| Extractor.SortByStartSorted | src/extractor.rs:116 | The sort by start byte is sorted and a permutation |
| Extractor.SortByStartStable | src/extractor.rs:116 | Symbols with equal start bytes keep their order |
| Extractor.ExtractSymbols | src/extractor.rs:57-119 | The forest is collect, sort by start byte, nest |
| Extractor.ExtractedCount | src/extractor.rs:57-119 | The forest holds one symbol per distinct (name, start line) among the matches |
| Extractor.ExtractedShape | src/extractor.rs:116-119 | The forest's pre-order is the sorted sequence, it is well nested and its siblings do not overlap |
| Extractor.Extract | src/extractor.rs:18-29 | A read or parse error is returned; otherwise the map carries the path text, the language id and the extracted forest |
| Watch.FileMeta | src/watch.rs:43-49 | Metadata is only read for an existing file |
| Watch.NeedsReparse | src/watch.rs:51-58 | Reparse exactly when uncached, unreadable, or mtime or size differ |
| Watch.ParseOk | src/watch.rs:61-93 | `parse_and_write` succeeds exactly when the language is known, the file exists and parses, and the write succeeds |
| Watch.AfterParse | src/watch.rs:61-93 | Only the parsed file's entry may change; on success with readable metadata it holds that metadata; on failure nothing changes |
| Watch.ParsedIsFresh | src/watch.rs:80-85 | A file just parsed with readable metadata needs no reparse |
| Watch.ParseAll | src/watch.rs:109-114 | The full-scan loop over the scanned files, one `AfterParse` each |
| Watch.FullScanResult | src/watch.rs:103-118 | A scan error is returned; otherwise every scanned file is parsed; proved by `Watch.FullScanIndexes` |
| Watch.FullScanIndexes | src/watch.rs:103-118 | A scan error is returned unchanged; otherwise every scanned file that parses is cached with its metadata and nothing unscanned is added |
| Watch.BatchStep | src/watch.rs:124-153 | One changed path: removed and counted when gone, otherwise skipped or parsed again |
| Watch.Batch | src/watch.rs:124-154 | The changed paths in order |
| Watch.Rescan | src/watch.rs:157-169 | Every scanned file not yet cached is parsed, and counted when that succeeds |
| Watch.Update | src/watch.rs:121-172 | `incremental_update`: the batch, then the scan, or the scan's error |
| Watch.BatchStepSkips | src/watch.rs:137-153 | For all inputs, an existing path under the output directory, with no language, or cached with its current metadata leaves cache and count unchanged |
| Watch.BatchIndexes | src/watch.rs:137-153 | After the batch, every changed path that exists outside the output directory and parses is cached with its current metadata |
| Watch.UpdateIndexes | src/watch.rs:137-169 | After the update, the same holds of those changed paths and of every scanned file the batch left uncached |
| Watch.UpdateRemovesMissing | src/watch.rs:129-135 | A changed path that no longer exists is not cached afterwards |
| Watch.ParsingCount | src/watch.rs:61-93 | The number of paths that parse successfully; missing and parsing paths together are at most all paths |
| Watch.BatchCountsParses | src/watch.rs:124-154 | The batch counts at most its missing paths plus its parsing paths |
| Watch.RescanCountsParses | src/watch.rs:157-169 | The scan adds at most one per scanned file that parses |
| Watch.UpdateCountBounds | src/watch.rs:121-172 | The count is at least the missing changed paths and at most those plus the changed and scanned paths that parse successfully (so at most changed plus scanned paths) |
| Watch.StaleParses | src/watch.rs:137-153 | Counts the changed paths outside the output directory that are stale against the cache before the batch and parse successfully |
| Watch.FreshParses | src/watch.rs:157-169 | Counts the scanned files missing from the cache that parse successfully |
| Watch.BatchFrame | src/watch.rs:124-154 | The batch leaves the cache entry of every path it does not list unchanged |
| Watch.RescanFrame | src/watch.rs:157-169 | The scan leaves the cache entry of every file it does not list unchanged |
| Watch.BatchCount | src/watch.rs:124-154 | For paths listed once, the batch count is exactly the missing paths plus the successful re-parses of stale paths |
| Watch.RescanCount | src/watch.rs:157-169 | For files listed once, the scan adds exactly one per uncached file that parses |
| Watch.UpdateCount | src/watch.rs:121-172 | For paths and files listed once, the update reports exactly removals plus successful re-parses plus successful parses of newly seen files |
| Watch.UpdateIdempotent | src/watch.rs:121-172 | A second identical update with unchanged files changes nothing and reports 0 |
| Watch.NeedsReparseExamples | src/watch.rs:273-354 | Uncached or resized files need a reparse; an unchanged one does not |
| Watch.DeletedUncachedCounts | src/watch.rs:130-135 | Deleting an uncached file still counts one update |
| Watch.OutputFileSkipped | src/watch.rs:473-488 | A change under the output directory is skipped and counts 0 |
| Watch.FullScanTwoFiles | src/watch.rs:403-415 | A full scan of two supported files caches exactly those two |
| Watch.SomePathUnder | src/watch.rs:231-235 | True exactly when some path lies under the directory |
| Watch.ShouldProcessEvent | src/watch.rs:227-241 | Handled exactly when it creates, modifies or removes and no path lies under the output directory |
| Watch.ShouldProcessEventExamples | src/watch.rs:284-326 | Create and remove are handled, access is not, nor a change in the output directory |
| Watch.WatchState.constructor | src/watch.rs:35-41 | A new state has an empty cache |
| Watch.WatchState.ParseAndWrite | src/watch.rs:61-93 | Reports success exactly when `ParseOk` (language known, file read and parsed, write succeeds); the cache becomes `AfterParse` |
| Watch.WatchState.Remove | src/watch.rs:96-100 | The file's entry is removed and nothing else changes |
| Watch.WatchState.FullScan | src/watch.rs:103-118 | Cache and result are those of `FullScanResult` |
| Watch.WatchState.IncrementalUpdate | src/watch.rs:121-172 | Cache and count are those of `Update`: the changed-path batch, then the scan for uncached files |
| Markdown.Indent | src/output/markdown.rs:21 | Two spaces per level, nothing else |
| Markdown.DecimalString | src/output/markdown.rs:23-27 | The line number is printed as decimal digits without leading zeros |
| Markdown.DecimalRoundTrip | src/output/markdown.rs:23-27 | Reading the printed line number back gives the number |
| Markdown.SymbolLine | src/output/markdown.rs:21-28 | The formatted line: indent, `- [kind] `, the name in backticks, ` (line N)` and a line break; its layout is proved by `Markdown.SymbolLineLayout` |
| Markdown.SymbolText | src/output/markdown.rs:20-33 | A symbol's line followed by its children's text one level deeper |
| Markdown.Outline | src/output/markdown.rs:13-15 | The text of a forest, symbol after symbol; proved to be the pre-order lines by `Markdown.OutlineIsPreorder` |
| Markdown.SymbolLineLayout | src/output/markdown.rs:21-28 | A symbol line is 2·depth spaces, a `-` marker, and ends in a line break |
| Markdown.SymbolLineHasOneNewline | src/output/markdown.rs:25-28 | A symbol whose name has no line break renders as exactly one line |
| Markdown.Rendered | src/output/markdown.rs:8-18 | The document starts with the header, and an empty forest renders to the header alone |
| Markdown.OutlineIsPreorder | src/output/markdown.rs:8-33 | The outline is one line per (symbol, depth) in pre-order, roots at 0 and children one deeper |
| Markdown.PreorderDepthsCount | src/output/markdown.rs:30-32 | The pre-order has one entry per symbol of the forest |
| Markdown.OutlineLineCount | src/output/markdown.rs:20-33 | Without line breaks in names, the outline has as many lines as the forest has symbols |
| Markdown.RenderedLineCount | src/output/markdown.rs:8-33 | The document has two header line breaks plus one per symbol |
| Markdown.SymbolLineExample | src/output/mod.rs:53-60 | A top-level function `test` on line 1 renders as ``- [function] `test` (line 1)`` |
| Markdown.RenderedExample | src/output/mod.rs:53-60 | That file renders as the header followed by that line |
| Markdown.RenderSymbol | src/output/markdown.rs:20-33 | Appends the symbol's line, then its children's lines one level deeper |
| Markdown.RenderSingle | src/output/markdown.rs:8-18 | Produces `Rendered(m)` |

## Left out

- Tree-sitter parsing and querying are not modelled. This covers `get_language`, `get_query_source`, the parser and cursor setup (`src/extractor.rs:45-60`) and the query files. Each file's matches are an input: a sequence of captures, each with its capture name, node text, bytes and rows/columns.
- The name capture is recognised by its capture name `name`, not by comparing query indices. The two are equivalent because capture names are unique within a query.
- `node.utf8_text(...).unwrap_or("")` is not modelled: the capture text is given.
- Reading the file in `extract` is not modelled. `Extractor.Extract` receives either the matches or the read/parse error.
- `Extractor.SortByStart` is written as a stable insertion sort instead of the library's `sort_by_key`. Stable sorting by a total preorder has a unique result, so the two agree.
- `Scanner.SortPaths` is written as a stable insertion sort instead of `sort_by`. On prefix-free inputs `compare_paths` is a total order, so the result is again unique.
- Scanner.Scan: sortedness is proved only for prefix-free relative paths, which every list of regular files is (a file cannot be a directory above another file). On other inputs `compare_paths` is not transitive (`Scanner.PrefixBreaksTransitivity`).
- The directory walk is not modelled. That is `WalkBuilder` with hidden-file and gitignore rules, and the `is_file` checks. Its entries are the `walked` input of `Scanner.Scan`.
- `canonicalize` is not modelled anywhere; paths are taken as already absolute.
- Root, `.` and `..` path components are not modelled.
- The non-UTF-8 failure of `to_str` in `detect` is not modelled.
- Watch mode's I/O is not modelled: `fs::metadata`, the `SystemTime` to seconds conversion, `remove_file`, `output_path`, `write_single`, and the written outline. They are the `Env` parameter, which is fixed during one call.
- `scanner::scan` as called from `src/watch.rs:104,157` takes two arguments and is not the shown one-argument `scan`. Its answer is `Env.scan`.
- The `run` loop, the notify watcher and its channel are not modelled (`src/watch.rs:179-225`). `Watch.ShouldProcessEvent` models the filter that loop applies.
- `eprintln!` logging is not modelled. That includes the `parsed` counter of `full_scan`, which is only logged; the model keeps it as a local with no contract.
- Watch.UpdateCount: the exact count is proved only when no changed path and no scanned file is listed twice. With a repeated changed path, the second occurrence sees the cache the first one left, and only the bounds of `Watch.UpdateCountBounds` are proved.
- Watch.UpdateIdempotent: proved only when every changed and scanned path exists and all metadata can be read. A file whose metadata cannot be read is parsed again on every update.
- NestedTree.NestContained: proved only for inputs whose overlapping spans nest. As `NestedTree.NestExampleOverlap` shows, the code does not keep a child inside its parent otherwise.
- `src/output/json.rs`, `src/output/mod.rs` (`write_single`), `src/cli.rs` and `src/main.rs` are not modelled. They are serde, file-writing and argument-parsing glue. `src/main.rs` calls an `output::render_all` that `src/output/mod.rs` does not declare.
- Integer widths are not modelled: `usize` and `u64` are unbounded. Row plus one and the update counter cannot overflow on real inputs.
