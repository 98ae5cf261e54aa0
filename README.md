# ejs-vscode-ext core, modelled in Dafny

This project models the logic of a VS Code extension that serves EJS-style
templates whose data comes from JSON locale files. The extension has four parts:

- **The JSON indexer** walks each parsed JSON file. For each key it searches the whole file's text for the first `"key"` followed by white space and `:`, wherever that is, and takes that match as the key's declaration. A dotted path (`a.b.c`) is recorded, with its file, line, column, value and end line, in a path table (a JavaScript `Map`) only when that search finds a match; otherwise the path is left out of the table.
- **The directive parser** recognises the quoted directives `"{{%- s(a.b) %}}"`, `"{{%- o(a.b) %}}"` and `"{{%= a.b %}}"` on a line. It picks the one under the cursor and splits off a namespace prefix (`CONST`, `ENV`, `EVENT`, `CONFIG`, `PAGE`). It also works out the part of the path up to the segment under the cursor, and it can list the paths of a whole document.
- **The completion provider** uses two looser patterns that need no quotes and no closing, so they match a directive still being typed. It takes the path typed so far and offers either top-level keys or the immediate children of a parent path, filtered by prefix with case ignored. Each offer carries a sort key and a detail line. Only a child whose indexed value is a non-null object or an array also carries a preview, cut to 200 characters; top-level offers carry none.
- **The hover and go-to-definition providers** look up the path under the cursor. If the path as written is not indexed and the directive has a prefix, they look again with the leading `PREFIX.` removed. Hover formats the value and names the defining file and its one-based line; go-to-definition returns the stored file, line and column.

The project's modules:

- `wrappers.dfy` (`Option`)
- `text.dfy`: the JavaScript string operations the code relies on (`trim`, `indexOf`, `lastIndexOf`, `substring`, `split`, `replace`, `startsWith`, `toLowerCase`, line and column of an offset).
- `json.dfy`: parsed JSON values, `typeof`, `String(...)`, and `JSON.stringify` with and without indentation.
- `regexes.dfy`: each fixed regular expression written out as a matcher, plus the `g`-flag `exec` loop.
- `path_table.dfy`: the insertion-ordered `Map`.
- `json_indexer.dfy`: the `JsonIndexer` class, whose `index` field its methods update.
- `ejs_parser.dfy`, `ejs_completion.dfy`, `path_lookup.dfy`, `ejs_hover.dfy`, `ejs_definition.dfy`.

Loops in the source are methods with loop invariants, each proved equal to a specification function. These are:

- the `exec` loops;
- the walk over an object's keys;
- the bracket scan;
- the `forEach` loops that collect keys into a `Set`.

The lemmas then state what those functions promise.

The code differs from the extension's intended design in these ways; the model follows the code:

- The key search always restarts at offset 0 and takes the first declaration in the file. It does not search forward from the parent's position. So every path whose last key has the same name gets the same position (`SameKeySamePosition`).
- The bracket scan's 100-line guard never stops it early, because `endLine` changes only when the scan ends (`JsonIndexer.ScanEnd`).
- Completion candidates come in the order the paths first mention them, unsorted (`ChildKeysUnsorted`).
- `extractAllEjsPaths` keeps duplicates. A `"{{%- s(x) %}}"` directive is reported twice (`ExtractTwiceExample`).
- Only objects are recursed into. A top-level array is still walked, with its indices as keys, because `typeof` of an array is `object`.

## Model

| member | source | states |
|---|---|---|
| PathTable.Empty | src/jsonIndexer.ts:12 | a new map lists no path and finds nothing |
| PathTable.PutValid | src/jsonIndexer.ts:54 | `set` keeps every path listed once and exactly the stored paths listed |
| PathTable.GetPut | src/jsonIndexer.ts:54 | after `set(k, v)`, `get(k)` is `v` and every other path is unchanged |
| PathTable.GetListed | src/jsonIndexer.ts:139-145 | `get` finds an entry exactly for the listed paths |
| PathTable.PutAllValid | src/jsonIndexer.ts:46-61 | any series of `set`s keeps the map well formed |
| PathTable.PutAllAppend | src/jsonIndexer.ts:46-61 | performing two series of `set`s one after the other is performing their concatenation |
| PathTable.GetPutAll | src/jsonIndexer.ts:53-61 | after a series of `set`s a path holds its last written entry, or its old one if never written |
| PathTable.KeysPutAll | src/jsonIndexer.ts:143-145 | the listed paths are the old ones followed by the new ones in order of first insertion |
| JsonIndexing.BracketCloseSpec | src/jsonIndexer.ts:105-120 | the scan stops at exactly the first closing bracket that brings the count back to zero after an opening bracket, and finds none when there is none |
| JsonIndexing.DeclarationsFirst | src/jsonIndexer.ts:84-96 | the first declaration collected is the leftmost `"key"\s*:` match in the whole text, and none is collected exactly when there is no match |
| JsonIndexing.KeyLocationSpec | src/jsonIndexer.ts:70-133 | a key is located exactly when its declaration occurs somewhere in the text; the position is that of the first declaration from offset 0; the end line is never before the start line, and equals it for a scalar or null |
| JsonIndexing.EntryWrite | src/jsonIndexer.ts:51-61 | a key gets an entry (file, line, column, value, end line) only when its declaration is found, and none otherwise |
| JsonIndexing.WalkStep | src/jsonIndexer.ts:46-67 | the walk performs each key's writes and then the rest of the keys' writes, in order |
| JsonIndexing.WalkScope | src/jsonIndexer.ts:63-66 | the walk descends only into object values, whether or not the key itself was located; other values add at most the key's own entry |
| JsonIndexing.ChildPathSpec | src/jsonIndexer.ts:47 | a child path lies under its parent and ends with the key |
| JsonIndexing.UnderChild | src/jsonIndexer.ts:63-66 | paths written by a nested walk lie under the outer prefix too |
| JsonIndexing.WalkLocated | src/jsonIndexer.ts:46-96 | every write of the walk has the document's URI, a path under the prefix ending with its key, and the line and column of the first declaration of that key, ending on or after that line |
| JsonIndexing.SameKeySamePosition | src/jsonIndexer.ts:79-96 | two entries for keys with the same name get the same line and column, wherever they are in the tree |
| JsonIndexing.StoredByWalk | src/jsonIndexer.ts:46-61 | after the walk a path holds its old entry or the entry of one of the walk's writes to it |
| JsonIndexing.JsonIndexer.constructor | src/jsonIndexer.ts:12 | the indexer starts with an empty map |
| JsonIndexing.JsonIndexer.BuildIndex | src/jsonIndexer.ts:26-33 | JSON that does not parse leaves the map unchanged; otherwise the map receives the walk's writes from the empty prefix |
| JsonIndexing.JsonIndexer.IndexObject | src/jsonIndexer.ts:35-68 | the map receives exactly the walk's writes under the prefix, in order (nothing for a scalar or null) |
| JsonIndexing.JsonIndexer.IndexMember | src/jsonIndexer.ts:46-67 | one loop turn: the key's own entry, then the nested walk for an object value |
| JsonIndexing.JsonIndexer.Set | src/jsonIndexer.ts:54-60 | the map is the old one with the entry written |
| JsonIndexing.JsonIndexer.FindKeyLocation | src/jsonIndexer.ts:70-133 | returns the location `KeyLocationSpec` describes |
| JsonIndexing.JsonIndexer.CollectDeclarations | src/jsonIndexer.ts:84-91 | the `exec` loop collects every declaration of the key, in order |
| JsonIndexing.JsonIndexer.ScanEnd | src/jsonIndexer.ts:99-120 | the bounded loop returns what the unbounded bracket scan returns |
| JsonIndexing.JsonIndexer.GetLocation | src/jsonIndexer.ts:139-141 | an entry comes back exactly for a listed path, and it is the stored one |
| JsonIndexing.JsonIndexer.GetAllPaths | src/jsonIndexer.ts:143-145 | every stored path once, and nothing else |
| JsonIndexing.JsonIndexer.Clear | src/jsonIndexer.ts:147-149 | the map becomes empty and lists nothing |
| Text.TrimSpec | src/ejsParser.ts:40 | `trim` drops the white space at both ends and nothing else |
| Text.IndexOfSpec | src/ejsParser.ts:46 | `indexOf` returns an occurrence at or after the clamped start with none before it, or -1 when there is none |
| Text.LastIndexOfSpec | src/ejsCompletionProvider.ts:131 | `lastIndexOf` returns an occurrence with none after it, or -1 |
| Text.SplitSpec | src/ejsCompletionProvider.ts:112 | the pieces of `split` hold no separator and joined with it give back the text |
| Text.SplitFirst | src/ejsCompletionProvider.ts:112 | `split(sep)[0]` is the text before the first separator |
| Text.SplitLast | src/ejsHoverProvider.ts:38 | `split(sep).pop()` is the text after the last separator |
| Regexes.ExecSpec | src/ejsParser.ts:34 | `exec` finds a match exactly when one starts at or after `lastIndex`, and it finds the leftmost |
| Regexes.AllMatches | src/ejsParser.ts:34 | the `exec` loop's matches are in order and do not overlap, the first being the first `exec` |
| Regexes.AllMatchesSpec | src/ejsParser.ts:121 | each match of the loop is what the pattern matches where it starts |
| Regexes.MatchPlaced | src/ejsParser.ts:15-19 | a match is a non-empty piece of the line with one span per capture group |
| Regexes.CallSound | src/ejsParser.ts:15 | whatever the call pattern matches is `"{{%`, an optional `-`, white space, `s` or `o`, `(`, a non-empty argument free of `)`, `)`, white space and `%}}"`, and the group is the argument |
| Regexes.CallComplete | src/ejsParser.ts:15 | every such call directive is matched where it starts, with the argument as the group |
| Regexes.StringIsCall | src/ejsParser.ts:15-19 | whatever the string-directive pattern matches, the call pattern matches identically |
| Regexes.LazyEndSpec | src/ejsParser.ts:17 | the lazy group ends where white space and `%}}"` follow, and holds no `}` |
| Regexes.BareSound | src/ejsParser.ts:17 | whatever the output pattern matches is `"{{%=`, white space, a non-empty argument free of `}`, white space and `%}}"` |
| Regexes.BareComplete | src/ejsParser.ts:17 | an output directive whose argument has no white space at either end is matched, with exactly the argument as group |
| EjsParser.PrefixFromSpec | src/ejsParser.ts:76-83 | the prefix loop returns the first known prefix, from the given one on, that the capture starts with followed by a dot |
| EjsParser.ParsePathSpec | src/ejsParser.ts:69-89 | the path is the capture unchanged; the prefix is set exactly when the capture starts with a known prefix and a dot, and is the first such in the listed order |
| EjsParser.PartialPathSpec | src/ejsParser.ts:91-112 | outside the path the whole path; inside, a prefix of the path at least as long as the offset, dot-free from the offset on, that is the whole path or is followed by a dot |
| EjsParser.PartialPathExample | src/ejsParser.ts:93-94 | `Hero.default.heroWrapper.liveTag.visible` at offset 15 gives `Hero.default.heroWrapper` |
| EjsParser.CapturedFound | src/ejsParser.ts:46 | the search for the trimmed capture from the match start finds it inside the match, no later than where the group puts it |
| EjsParser.PathsSpec | src/ejsParser.ts:121-125 | the loop of one pattern collects the trimmed capture of every match, in order |
| EjsParser.ExtractPathsOrder | src/ejsParser.ts:114-129 | extraction yields the paths of the first pattern, then the second, then the third |
| EjsParser.ExtractAllEjsPaths | src/ejsParser.ts:114-129 | the nested loops produce the extraction above |
| EjsParser.PatternPaths | src/ejsParser.ts:118-125 | the `exec` loop of one pattern produces its paths |
| EjsParser.PathsStep | src/ejsParser.ts:121-125 | one turn of the loop appends the path of its match |
| EjsParser.PathsBeforeStep | src/ejsParser.ts:117-126 | each pattern appends its paths after those of the patterns before it |
| EjsParser.SampleCall | src/ejsParser.ts:15-19 | a call pattern that matches `"{{%- s(x) %}}"` matches all of it, captures `x`, and matches nothing after it |
| EjsParser.SampleCallPaths | src/ejsParser.ts:15 | the first pattern finds `x` in `"{{%- s(x) %}}"` |
| EjsParser.SampleStringPaths | src/ejsParser.ts:19 | the third pattern finds `x` there too |
| EjsParser.SampleBarePaths | src/ejsParser.ts:17 | the second pattern finds nothing there |
| EjsParser.ExtractTwiceExample | src/ejsParser.ts:114-129 | `"{{%- s(x) %}}"` is extracted as `["x", "x"]` |
| EjsParser.Containing | src/ejsParser.ts:34-39 | a match found holds the cursor, both ends included |
| EjsParser.FirstHoldingCons | src/ejsParser.ts:34-39 | checking the first match and then the rest finds the first match holding the cursor |
| EjsParser.ContainingSpec | src/ejsParser.ts:34-39 | the loop returns the first match, left to right, whose span holds the cursor, or none when no span does |
| EjsParser.FirstFound | src/ejsParser.ts:30 | the pattern found is one whose loop found a match |
| EjsParser.FirstFoundSpec | src/ejsParser.ts:30 | the patterns tried before it found nothing |
| EjsParser.MatchHolding | src/ejsParser.ts:30-39 | the match chosen comes from one of the patterns, lies in the line and holds the cursor |
| EjsParser.MatchHoldingAt | src/ejsParser.ts:30-62 | returning at the first hit, after patterns that had none, gives the match the specification chooses |
| EjsParser.GetEjsPathAtPosition | src/ejsParser.ts:22-67 | the loops return the directive the specification function describes |
| EjsParser.PathAtPositionNone | src/ejsParser.ts:30-66 | null exactly when no match of any of the three patterns on the line holds the cursor |
| EjsParser.PathAtPositionFound | src/ejsParser.ts:34-61 | the result is the first holding match of the first pattern that has one; its range is the match span on the cursor's line, its text the match, its path the trimmed capture |
| EjsParser.PathAtPositionPartial | src/ejsParser.ts:45-48 | the path is found again from the match start inside the match; with the cursor's offset from there outside the path the partial path is the whole path, otherwise it is the prefix ending at the first dot at or after the offset, or the whole path when no dot follows |
| EjsCompletion.GetEjsContext | src/ejsCompletionProvider.ts:59-93 | the loops return the context the specification function describes |
| EjsCompletion.EjsContextNone | src/ejsCompletionProvider.ts:69-92 | null exactly when no match of either typing pattern holds the cursor |
| EjsCompletion.EjsContextFound | src/ejsCompletionProvider.ts:73-88 | the context comes from the first holding match of the first typing pattern that has one |
| EjsCompletion.OpenCallCapture | src/ejsCompletionProvider.ts:65 | an unclosed call captures the argument typed so far (free of `)`), or the function letter `s`/`o` when the argument is empty |
| EjsCompletion.OpenBareCapture | src/ejsCompletionProvider.ts:66 | an unclosed output directive captures the text up to the first `}` or `%` |
| EjsCompletion.TypedPrefixSpec | src/ejsCompletionProvider.ts:82 | the typed part is a piece of the capture with no white space at either end, and the whole trimmed capture when cut at or past its end |
| EjsCompletion.PartialTextSpec | src/ejsCompletionProvider.ts:80-82 | the partial path is a trimmed piece of the capture, and all of it when the cursor is at or after the capture's end |
| EjsCompletion.FirstSegmentSpec | src/ejsCompletionProvider.ts:112 | the first segment is the dot-free text before the first dot |
| EjsCompletion.FirstSegmentOf | src/ejsCompletionProvider.ts:112 | that segment is the only dot-free prefix followed by a dot or the end |
| EjsCompletion.TopLevelKeysSpec | src/ejsCompletionProvider.ts:135-141 | each key once, and exactly the first segments that start with the typed text, case ignored |
| EjsCompletion.ChildKeysSpec | src/ejsCompletionProvider.ts:175-184 | each child once, and exactly the segments following `parent.` in some path |
| EjsCompletion.ChildSegmentSpec | src/ejsCompletionProvider.ts:180-181 | a child is a whole dot-free segment right after `parent.` |
| EjsCompletion.CollectTopLevel | src/ejsCompletionProvider.ts:135-141 | the `forEach` collects the top-level keys above |
| EjsCompletion.CollectChildren | src/ejsCompletionProvider.ts:175-184 | the `forEach` collects the children above |
| EjsCompletion.FormatValueForDocs | src/ejsCompletionProvider.ts:213-222 | a container's pretty JSON unchanged up to 200 characters, else its first 200 and `...`, so at most 203; anything else as `String` |
| EjsCompletion.Detail | src/ejsCompletionProvider.ts:190-201 | `Property` exactly for an unindexed child, `Array`/`Object` exactly for those values, otherwise the type, `: ` and the JSON text |
| EjsCompletion.TopLevelCandidatesSpec | src/ejsCompletionProvider.ts:116-121 | top-level offers carry the key, the detail `Top-level key` and the sort key `0_key` |
| EjsCompletion.ChildCandidatesAt | src/ejsCompletionProvider.ts:186-210 | the `map` yields one offer per child, the `i`th for the `i`th child |
| EjsCompletion.ChildCandidatesSpec | src/ejsCompletionProvider.ts:186-210 | child offers carry the child, the sort key `1_child` and the detail of the entry of `parent.child` |
| EjsCompletion.ChildPropertiesSpec | src/ejsCompletionProvider.ts:165-211 | one offer per distinct child, in first-appearance order, each described by its entry |
| EjsCompletion.GetChildProperties | src/ejsCompletionProvider.ts:165-211 | the method computes the children's offers |
| EjsCompletion.FilterTypedSpec | src/ejsCompletionProvider.ts:157-159 | filtering keeps exactly the offers whose label starts with the segment, case ignored |
| EjsCompletion.FilterTypedDistinct | src/ejsCompletionProvider.ts:157-159 | filtering keeps labels distinct |
| EjsCompletion.TypedEmpty | src/ejsCompletionProvider.ts:138 | the empty text fits every key |
| EjsCompletion.GetMatchingPaths | src/ejsCompletionProvider.ts:98-160 | the method computes the offers of `getMatchingPaths` |
| EjsCompletion.MatchingEmpty | src/ejsCompletionProvider.ts:108-122 | with nothing typed: the distinct first segments of all paths, as top-level offers |
| EjsCompletion.MatchingTrailingDot | src/ejsCompletionProvider.ts:125-128 | typed text ending in `.`: the children of the text without that dot |
| EjsCompletion.MatchingNoDot | src/ejsCompletionProvider.ts:131-149 | typed text without a dot: the distinct first segments starting with it, case ignored |
| EjsCompletion.MatchingInnerDot | src/ejsCompletionProvider.ts:151-159 | typed text with a dot inside: the distinct children of the text before the last dot whose name starts with the text after it, case ignored |
| EjsCompletion.ChildKeysExample | src/ejsCompletionProvider.ts:175-184 | the children of `a` among `a.b.c`, `a.b.d`, `a.e` are `b`, `e` |
| EjsCompletion.MatchingExampleDot | src/ejsCompletionProvider.ts:125-128 | with those paths `a.` offers `b`, `e` |
| EjsCompletion.MatchingExampleSegment | src/ejsCompletionProvider.ts:151-159 | with those paths `a.b` offers `b` alone, once |
| EjsCompletion.ChildKeysUnsorted | src/ejsCompletionProvider.ts:186 | children come in first-appearance order, not sorted (`z` before `b`) |
| EjsCompletion.MatchingFromPaths | src/ejsCompletionProvider.ts:98-160 | whatever is typed, every offer is a segment of an indexed path |
| EjsCompletion.CompletionsSpec | src/ejsCompletionProvider.ts:13-29 | completion answers exactly inside a directive being typed, and offers only segments of indexed paths |
| PathLookup.ReplaceLeading | src/ejsHoverProvider.ts:26 | `replace` of a pattern the path starts with removes that leading occurrence |
| PathLookup.ResolveSpec | src/ejsHoverProvider.ts:22-28 | an entry is found exactly when the path, or (with a prefix) the path without `prefix.`, is indexed; the path as written wins |
| PathLookup.ResolveParsed | src/ejsHoverProvider.ts:25-27 | for a parsed directive, the fallback looks up the path after its leading known prefix and dot |
| PathLookup.InfoParsed | src/ejsParser.ts:50-52 | the directive found carries the prefix its path was parsed with |
| EjsHover.FileNameSpec | src/ejsHoverProvider.ts:38 | the file name is the slash-free tail after the last `/` |
| EjsHover.HoverNone | src/ejsHoverProvider.ts:13-32 | no hover exactly when there is no directive at the cursor or both lookups miss |
| EjsHover.HoverFound | src/ejsHoverProvider.ts:34-40 | a hover shows the formatted stored value as `json` and ends with the file name and the one-based line |
| EjsHover.FormatNonString | src/ejsHoverProvider.ts:43-51 | everything but a string is shown as `JSON.stringify(value, null, 2)` shows it |
| EjsHover.FormatPlainString | src/ejsHoverProvider.ts:44-45 | a string with no character JSON escapes is shown as JSON shows it |
| EjsHover.EscapeAllPlain | src/ejsHoverProvider.ts:45 | JSON escaping leaves such a string unchanged |
| EjsHover.FormatQuoteUnescaped | src/ejsHoverProvider.ts:44-45 | a string holding `"` is shown unescaped, unlike JSON |
| EjsDefinition.DefinitionSpec | src/ejsDefinitionProvider.ts:13-37 | a definition exactly when a directive is under the cursor and a lookup hits; it is the stored file, line and column, unchanged |
| EjsDefinition.DefinitionMatchesHover | src/ejsDefinitionProvider.ts:22-37 | hover and definition answer at the same positions and name the same file and line |

## Left out

- `indexFile`, opening documents, logging and the `try`/`catch` around them (src/jsonIndexer.ts:14-24) are I/O. `JSON.parse` is a foreign call: `BuildIndex` takes its result as an `Option<Value>`, with `None` when it throws.
- src/extension.ts is not part of this model. It holds activation, file watching, configuration and file discovery. It also clears the index before re-indexing; `JsonIndexer.Clear` models that operation.
- `escapeRegex` (src/jsonIndexer.ts:135-137) is not modelled as a function. The key pattern matches the key literally, which is what the escaping achieves.
- The unused locals `valueStr` and `startIndex` (src/jsonIndexer.ts:100, 104) are not modelled.
- The `vscode` types are plain records. Documents are their text, and a position is (line, character). `lineAt`/`positionAt` split on `\n` only, with no CRLF handling. Columns and lengths count characters, not UTF-16 code units.
- Hover builds no `MarkdownString`: it stores the code block's text, its language and the footer. The definition result is a record, not a `vscode.Location`.
- The construction of `vscode.CompletionItem` (src/ejsCompletionProvider.ts:32-51) is not modelled. `replaceRange` is always undefined there, so it is not modelled either.
- `toLowerCase` is modelled for ASCII letters only.
- Numbers are kept as the text JavaScript prints for them. Floating point is not modelled, and `String(n)` and `JSON.stringify(n)` are taken to agree.
- Object keys are taken in the order the parsed value lists them. The `for…in` rule that integer-like keys come first, and duplicate keys, are not modelled.
- Concurrency and `async` are not modelled.
- Regexes.AllMatches: states that matches are ordered, do not overlap and are each a match of the pattern. It does not state that the loop skips no match lying between two consecutive ones.
- Regexes.BareComplete: proves completeness only for arguments that neither start nor end with white space. For other arguments the lazy group's backtracking is described by `BareSound` alone.
- The `uri` of an entry is one string that stands both for the document's `Uri`, which go-to-definition returns (src/ejsDefinitionProvider.ts:34-37), and for its `fsPath`, whose last `/`-separated piece the hover shows (src/ejsHoverProvider.ts:38). It is assumed to use `/` as separator. A `fsPath` with `\` separators, for which `split('/').pop()` gives the whole path, is not distinguished from the URI.
