# sential classify-and-aggregate core, in Dafny

sential is a command-line tool. It turns a Git repository into a JSONL
payload for a language model: one record per context file (manifests,
READMEs, Markdown) with the file's content, then one record per source file
with the symbols Universal Ctags finds in it. This project models the code
that decides what goes in that payload and proves properties of it:

- **Language table** (`Constants`): the supported languages, each with its
  manifest names and source-file extensions.
- **Module discovery and scope selection** (`Inventory`, `Prompts`):
  - `get_focused_inventory` yields the directory of every listed manifest;
  - the two revisions of `select_scope` each turn those directories into
    candidate module roots. The cli/ui/prompts.py revision also filters out
    nested selections.
- **The sieve** (`Inventory`): the loop of `get_final_inventory_file` that
  sends each listed file to the language list, the context list, or nowhere.
- **The context phase** (`ContextEmitter`): the first phase of
  `generate_tags_jsonl`. It makes priority passes over the context pool by
  candidate name, shallowest file first, then handles the leftovers.
- **The symbol phase** (`Ctags`): the aggregation loop of `run_ctags`, which
  groups consecutive tags of one file into a record.
- **Payload assembly** (`Payload`): the whole of `generate_tags_jsonl`,
  including its cleanup of the scratch lists and of the payload file.
- **Reading files** (`Reader`, `Utils`): `read_file_content`, with its
  tier-dependent limit and truncation notice, and `is_binary_file`, with its
  1024-byte NUL and UTF-8 check. UTF-8 well-formedness follows the Unicode
  Standard, section 3.9, Table 3-7.

How the model represents things:

- **Paths** are sequences of components. `ParsePath` normalises a string as
  `PurePosixPath` does for a relative path: it drops empty and "." parts.
  `Str` prints a path back, and the two round-trip.
- **The listing tool's output** (`git ls-files`) is a sequence of lines,
  each still ending in its newline.
- **ctags output** is a sequence of already-classified lines: not JSON,
  JSON that is no object, or an object with optional `path`, `kind` and
  `name`.
- **The file system** is a map from paths to file entries. Each entry holds
  the bytes a binary read returns and the text a text read returns; either
  can be missing.
- **The context pool** is a Python set, so the order the loops take it in
  is not fixed. `EmitContext` returns that order as a ghost value, and every
  property is proved for any such order.

## Model

| member | source | states |
|---|---|---|
| Constants.FromValue | cli/constants.py:5-11 | `SupportedLanguages(s)`: a member is returned only for its own value; None means no member has that value |
| Constants.LanguageHeuristics | cli/constants.py:19-113 | `LANGUAGES_HEURISTICS`: every language has an entry, with at least one manifest name and at least one extension |
| Constants.ValueLookup | cli/constants.py:5-11 | the six values are pairwise distinct, so looking a member up by its value returns that member |
| Constants.ExtensionsHaveShape | cli/constants.py:19-113 | every extension in the table is a dot followed by at least one character, with no further dot and no upper-case letter |
| Constants.ShapedExtensionIsMatchable | cli/main.py:395 | for a non-empty stem and an extension of that shape, the lower-cased `suffix` of stem+extension is the extension |
| Constants.ExtensionIsMatchable | cli/main.py:395 | every extension of every language is the lower-cased suffix of some file name, so each one can send a file to the language list |
| Constants.UnmatchableNeverFound | cli/constants.py:19-113 | "Pipfile", "NuGet.config", "CMakeLists.txt" and "Makefile" are table entries, yet no lower-cased file name equals any of them; a file named "Makefile" is found under the lower-case "makefile" entry |
| PathModel.Strip | cli/main.py:386 | `str.strip()`: the result is an infix of the input that neither starts nor ends with whitespace, and every character outside it is whitespace (the characters `str.isspace` accepts) |
| PathModel.ParseStr | cli/ui/prompts.py:84 | parsing the printed form of a normalised path returns the same path, so `Path(str(p))` is `p` |
| PathModel.Parent | cli/main.py:174 | `p.parent` followed by `p.name` makes `p` again; the empty path is its own parent |
| PathModel.Suffix | cli/main.py:395 | `suffix` is the tail of the name from its last dot, with no further dot in it; it is empty exactly when the name has no dot or its last dot is the first or the last character |
| PathModel.Stem | cli/main.py:402 | `stem` is a prefix of the name, and `stem + suffix` is the name |
| PathModel.MissingCharNotContained | cli/main.py:401 | a string without one of the characters of `sub` does not contain `sub` |
| Ordering.SortedUnique | cli/main.py:232-234 | `sorted(set(xs))`: strictly ascending in Python string order, holding exactly the strings of `xs` |
| Ordering.SortPaths | cli/ui/prompts.py:34-36 | `sorted(paths)`: ascending in `PurePath` order, and a permutation of the input, repeats kept |
| Ordering.ProperPrefixLt | cli/ui/prompts.py:76-79 | on component lists, a proper prefix compares strictly smaller than the list it begins |
| Ordering.ProperAncestorPathLt | cli/ui/prompts.py:76-79 | in the path order, a proper ancestor other than the root sorts strictly before each of its descendants |
| Ordering.RootAfterDash | cli/ui/prompts.py:76-79 | the root is the exception: it compares as ".", so its child "-a" sorts before it |
| Ordering.StrLtTotal | cli/main.py:232-234 | the string order is total on distinct strings, so `sorted` is well defined |
| Ordering.PathLeTransitive | cli/ui/prompts.py:34-36 | the path order is transitive |
| Ordering.PathLeTotal | cli/ui/prompts.py:34-36 | any two paths are comparable |
| Inventory.FocusedInventoryMembers | cli/main.py:171-177 | a directory is yielded exactly when some listed file lies directly in it and has a lower-cased name that is one of the manifests |
| Inventory.FocusedInventoryAppend | cli/main.py:171-177 | discovery keeps stream order: the output for `a + b` is the output for `a` followed by the output for `b` |
| Inventory.FocusedInventory | cli/main.py:171-177 | `get_focused_inventory` yields at most one directory per listed file, and each is the directory of a listed manifest |
| Inventory.Candidates | cli/main.py:232-234 | the candidates are strictly sorted and are exactly the string forms of the discovered directories |
| Inventory.SelectScope | cli/main.py:232-277 | no candidates gives Exit; one candidate returns it without prompting; a cancelled prompt is indexed and raises TypeError; "ALL" returns every candidate; otherwise the answer is returned as it is |
| Inventory.SelectScopeNeedsNoPrompt | cli/main.py:236-243 | with at most one candidate, the answer does not affect the outcome |
| Inventory.SameDirectoryOneCandidate | cli/main.py:232-234 | several manifests in one directory give that directory once, as the only candidate |
| Inventory.Tier1Set | cli/main.py:339-341 | the tier-1 set holds exactly the universal names and the language's manifests |
| Inventory.Sieve | cli/main.py:385-408 | the language list and the context list are the stream lines of their bucket, in stream order and as read; the two counters are their lengths |
| Inventory.SiftInventory | cli/main.py:335-408 | the sieve, using the language's allowed extensions and the tier-1 set taken from the table |
| Inventory.BucketedMembers | cli/main.py:395-408 | a line is in a bucket's list exactly when it is in the stream and classified into that bucket |
| Inventory.BucketsPartition | cli/main.py:395-408 | the language list, the context list and the dropped lines together count every stream line exactly once |
| Inventory.ClassifyPath | cli/main.py:395-408 | a path is a language file exactly when its lower-cased suffix is allowed; a dropped path is neither a tier-1 name nor a Markdown file |
| Inventory.ExtensionWins | cli/main.py:395-397 | a file with an allowed extension is a language file and never reaches the context list, even when its name is a tier-1 name or contains "readme" |
| Inventory.ContextIff | cli/main.py:395-408 | a file is a context file if and only if its suffix is not allowed and its name is tier-1, contains "readme" or has suffix ".md"; it is dropped if and only if none of these holds |
| Inventory.StemReadmeContainsReadme | cli/main.py:401-402 | a name whose lower-cased stem is "readme" contains "readme", so the stem test adds nothing |
| Inventory.PipfileIsDropped | cli/main.py:399-408 | for Python, a file named "Pipfile" is dropped unless the universal names list "pipfile": the table's upper-case entry never matches a lower-cased name |
| Inventory.ProjectFileIsDropped | cli/main.py:399-408 | for C#, "App.csproj" is neither a language file nor a context file: ".csproj" is listed as a manifest name, not an extension |
| Prompts.PathCandidates | cli/ui/prompts.py:34-36 | the candidates are sorted paths, a permutation of the discovered directories, repeats kept |
| Prompts.AnyParent | cli/ui/prompts.py:81-87 | the inner loop finds a parent exactly when some root kept so far is the scope path or one of its ancestors, read back from the string forms |
| Prompts.FilterNested | cli/ui/prompts.py:74-90 | the filtered selection is the string forms of `Collapse(selection)`: each root in turn, unless a root kept before it contains it |
| Prompts.SelectScope | cli/ui/prompts.py:34-93 | no candidates gives Exit; one candidate returns its string form; a cancelled prompt gives Exit; selecting "." returns ["."]; otherwise the filtered selection |
| Prompts.CollapseMembers | cli/ui/prompts.py:89-90 | every kept root was selected |
| Prompts.CollapseSubsequence | cli/ui/prompts.py:80-90 | the kept roots are a subsequence of the selection: roots are dropped, never reordered |
| Prompts.CollapseCovers | cli/ui/prompts.py:80-90 | nothing selected is lost: every selected root lies within some kept root |
| Prompts.CollapseNoEarlierAncestor | cli/ui/prompts.py:80-90 | no kept root lies within a root kept before it, so no root is kept twice |
| Prompts.CollapseSorted | cli/ui/prompts.py:76-79 | filtering a sorted selection leaves it sorted |
| Prompts.CollapseIndependent | cli/ui/prompts.py:76-79 | for a sorted selection without ".", no kept root contains another in either direction |
| Prompts.ComponentContainment | cli/ui/prompts.py:84 | containment works on whole components: ["a", "a/b", "ab"] keeps "a" and "ab" |
| ContextEmitter.OrderedCandidates | cli/main.py:467-471 | `dict.fromkeys`: the names are distinct, appear in the universal names or the manifests, and keep the order of their first occurrences |
| ContextEmitter.UniversalFirst | cli/main.py:467-471 | every universal name comes before every name that is only a manifest |
| ContextEmitter.MatchIndex | cli/main.py:502-509 | the pass that takes a file is the first candidate whose lower-cased form equals the file's lower-cased name, and no earlier candidate does; otherwise the leftover pass |
| ContextEmitter.Pool | cli/main.py:483-486 | the pool holds `Path(line.strip())` for every line that is not blank, and every such path is normalised |
| ContextEmitter.PoolIgnoresBlankAndRepeated | cli/main.py:484-486 | a blank or repeated line adds nothing to the pool |
| ContextEmitter.EmittedMembers | cli/main.py:519-520 | a path gets a record exactly when it is taken and its content is not empty |
| ContextEmitter.DepthOrder | cli/main.py:513 | `sort(key=len(p.parents))` of a set: each element once, shallowest first, in any order within a depth |
| ContextEmitter.EmitMatches | cli/main.py:516-534 | one priority pass writes a record for each match with content, in match order, and removes every match from the pool, written or not |
| ContextEmitter.EmitLeftovers | cli/main.py:537-553 | the leftover pass writes a record for each remaining path with content, shallowest first |
| ContextEmitter.EmitContext | cli/main.py:499-558 | the records are those of an order that takes every pool path exactly once, sorted by priority pass and then by depth |
| ContextEmitter.ContextGuarantees | cli/main.py:499-558 | every record has content and names a pool file, with that file's content; no two records name the same file; every pool file with content gets a record; records are in pass-then-depth order |
| ContextEmitter.RecordsComplete | cli/main.py:516-553 | every pool file with content gets its record |
| ContextEmitter.RecordsDistinctPaths | cli/main.py:533-534 | no two records name the same file, because each path leaves the pool when it is taken |
| ContextEmitter.RecordsSorted | cli/main.py:502-539 | records of earlier passes come first, and within a pass and among the leftovers shallower files come first |
| ContextEmitter.SmallerKeyFirst | cli/main.py:502-539 | a path with a strictly smaller (pass, depth) key is taken strictly earlier |
| ContextEmitter.RootManifestFirst | cli/main.py:511-513 | "package.json" at the root is taken before "backend/package.json" |
| ContextEmitter.StrInjective | cli/main.py:522 | two normalised paths with the same printed form are the same path |
| Ctags.FirstNonObject | cli/main.py:648-651 | the index of the first JSON line that is not an object, and no line before it is one |
| Ctags.GroupRuns | cli/main.py:656-688 | the grouping writes only symbol records with a path and at least one tag, and no more records than tags |
| Ctags.RunCtags | cli/main.py:646-688 | without a non-object line, the records are `GroupRuns` of the surviving tags and the counter is their number; with one, the run fails after only the records flushed before that line |
| Ctags.GroupRunsShape | cli/main.py:656-688 | the records stand for every surviving tag, in order and under its own path; each is a symbol record with a path and at least one tag; no two neighbours share a path |
| Ctags.GroupingUnique | cli/main.py:656-688 | two well-grouped record lists that stand for the same tags are equal |
| Ctags.GroupRunsCharacterized | cli/main.py:656-688 | the records written are the one well-grouped list that stands for the surviving tags: one record per maximal run |
| Ctags.InterleavedPathsSplit | cli/main.py:656-666 | with `--sort=no`, tags for a.py, b.py, a.py give three records, not two |
| Ctags.ThreeRuns | cli/main.py:656-666 | for two distinct paths, tags for a, b, a give three single-tag records |
| Payload.ScratchPool | cli/main.py:406 | the blank lines the extra newline leaves add nothing to the pool |
| Payload.Workspace.constructor | cli/main.py:359-363 | the two scratch lists hold what the sieve wrote, each newline-terminated entry followed by a blank line, and there is no payload yet |
| Payload.Workspace.GenerateTagsJsonl | cli/main.py:467-577 | the scratch lists are always removed; the payload survives exactly when the run succeeds, which needs a readable context list, a ctags that starts, and no non-object output line; a successful payload is the context records, in an order sorted by the candidates `dict.fromkeys` builds from the universal names and the language's manifests, followed by the grouped symbol records |
| Payload.PayloadShape | cli/main.py:467-577 | in a successful payload, every context record has content, and the symbol records are well grouped and stand for every surviving tag |
| Reader.NatToStringValue | cli/main.py:768 | the decimal rendering reads back as the number |
| Reader.NoticeNamesLimit | cli/main.py:768 | the notice names the applied limit as `str(limit)`, and that text denotes the limit |
| Reader.ReadChars | cli/main.py:763 | `f.read(n)`: a prefix of the text, of length n unless it is the whole text |
| Reader.ReadFileContent | cli/main.py:751-773 | a missing or non-regular path, a binary file and a failed text open all give "" |
| Reader.ReadTruncates | cli/main.py:763-769 | over the limit: exactly the first `limit` characters, then the notice |
| Reader.ReadWhole | cli/main.py:763-771 | within the limit: the text unchanged |
| Reader.ReadBounded | cli/main.py:751-773 | the content never exceeds the limit by more than the notice |
| Reader.ReadEmptyIff | cli/main.py:751-773 | the content is empty exactly when the file is skipped or its text is empty |
| Reader.BoundedRead | cli/main.py:757-763 | nothing past the first limit+1 characters of the text, or past the first 1024 bytes, affects the result |
| Utils.Chunk | cli/utils.py:35 | `f.read(1024)`: a prefix of the bytes, 1024 long unless the file is shorter |
| Utils.IsBinaryFile | cli/utils.py:31-43 | a file that cannot be read is binary; a file judged text was readable, has no NUL in its first 1024 bytes, and those bytes are well-formed UTF-8 |
| Utils.HeadOfEncodeChar | cli/utils.py:38 | the UTF-8 check reads the encoding of any one character as one well-formed sequence, whatever follows |
| Utils.EncodeIsValid | cli/utils.py:38 | `decode("utf-8")` accepts the UTF-8 encoding of every string |
| Utils.ValidEndsComplete | cli/utils.py:38 | a well-formed sequence does not end in a lead byte |
| Utils.UnreadableIsBinary | cli/utils.py:42-43 | a file that cannot be read counts as binary |
| Utils.NulIsBinary | cli/utils.py:36-37 | a NUL byte within the first 1024 bytes makes the file binary |
| Utils.OnlyChunkMatters | cli/utils.py:35 | files that agree on their first 1024 bytes get the same verdict |
| Utils.CutCharacterIsBinary | cli/utils.py:38-41 | a chunk that ends in a lead byte, such as a multi-byte character cut at byte 1024, makes the file binary |
| Utils.TextIsNotBinary | cli/utils.py:33-39 | UTF-8 text without NUL that fits in the chunk is not binary |
| Utils.NoNulInEncode | cli/utils.py:36 | text without U+0000 encodes without a zero byte |
| Utils.EmptyIsNotBinary | cli/utils.py:33-39 | an empty file is not binary |

## Left out

- I/O is not modelled:
  - subprocesses (`git ls-files`, `git` counting, ctags) and temporary files;
  - progress bars, console output, the Typer command and the inquirer prompt.
  Their results are parameters: the listing lines, the ctags output lines,
  the prompt's answer and the file system map.
- `count_git_files` and `stream_git_inventory` only feed those parameters; they are not modelled.
- core.discovery is not part of this model. cli/ui/prompts.py:9 imports
  `get_focused_inventory` from it, and cli/ui/prompts.py:8 imports a
  `SupportedLanguage` that cli/constants.py does not define. The model
  assumes that core.discovery's `get_focused_inventory` behaves like the one
  in cli/main.py:171-177, and it models module discovery from that one for
  both revisions of the scope selection.
- UNIVERSAL_CONTEXT_FILES and CTAGS_KINDS are not among the files this model
  is built from. They are parameters (`universal`, `kinds`).
- IGNORE_DIRS is a constant in cli/constants.py that the modelled code does
  not use.
- The manifest `frozenset`'s iteration order (in `tuple(...)` for
  `ordered_candidates`) and the `set` order of the context pool are
  unspecified in Python. They are parameters: `manifestOrder`, and the ghost
  order `EmitContext` returns. Every property is stated for all of them.
- `str.lower()` is modelled on the ASCII letters only.
- The path order compares the root as ".", as Python 3.12 and later do, so
  a top-level name that sorts before "." (such as "-a") comes before the
  root. Under Python 3.11 the root has no parts and sorts first. That
  version's order is not modelled.
- Ordering.ProperPrefixLt: it is stated on component lists. For the path
  order the model proves it only for ancestors other than the root
  (`ProperAncestorPathLt`); `RootAfterDash` shows that the root can sort
  after one of its descendants.
- `PurePath.suffix` and `stem` follow the rule "last dot, neither first nor
  last character" of recent Python versions. Version-specific differences
  are not modelled.
- Absolute paths and `base_path / p` joining are left out. Paths are
  relative to the repository root, which is where the file system map is
  keyed.
- `read_file_content`:
  - the text-mode decoding (`errors="ignore"`, newline translation) is
    abstract: the entry's `text` is what that read returns;
  - the UTF-8 check on the first 1024 bytes is modelled exactly.
- ctags JSON values that are present but not strings (numbers, lists) are
  not modelled: a field is either absent or a string.
- JSON serialisation of records (`json.dumps`) is left out. A record is a
  datatype value.
- KeyboardInterrupt, a failure to open the output file, and a write error in
  the middle of the payload are not modelled. The modelled failures are:
  - the context list cannot be opened;
  - ctags cannot be started;
  - an output line is JSON but not an object.
- Ctags.RunCtags: `tag_count` is modelled as the number of surviving tags.
  Only the progress display uses it, so the payload does not depend on it.
- Reader.ReadFileContent: its own contract covers only the skip cases. The
  truncation and whole-text cases are `ReadTruncates` and `ReadWhole`.
- Inventory.Sieve: a line is classified through the `classify` function it
  is given. `SiftInventory` passes the classification of
  cli/main.py:395-408, so the lemmas about the buckets hold for any
  classifier and for that one.
