# minireqs resolution engine, modelled in Dafny

`minireqs` guesses the pip requirements of a Python project. It reads the
import statements of the project's source files and turns every import name
into a set of candidate names. It then attributes each candidate to the
installed distribution whose file manifest best matches the file the
candidate loads from. The result is `name=version` strings and a summary
table.

This project models the resolution engine of
`src/minireqs/pip_package_extract.py`:

- `safe_import` imports a dotted name. When a name is not found it falls back
  to shorter and shorter dot-prefixes (module `Importer`).
- `find_pip_pkg` looks at the origin file of the imported module. It keeps
  the owning distribution of the longest manifest path that is a substring of
  that path (module `Resolver`).
- `get_imports` walks the import nodes of one file. It collects the imported
  names, then adds the first segment of every dotted name (module
  `Extractor`).
- `extract_pip_requirement` unions the candidates of all files and resolves
  each one. It combines name and version into `name=version` and drops the
  unresolved names. It writes every requirement once and keeps the shortest
  import name per requirement (modules `Aggregator` and `Tables`).

The Python and pandas building blocks are modelled with their own semantics:

- `str.split`, `str.join`, `in` on strings, `str.replace` and `str.strip`
  (module `Text`);
- `list(set(...))` and `drop_duplicates(keep='first')` (module
  `Collections`).

The Python runtime's collaborators become parameters:

- the module loader is a map from importable dotted names to modules, each
  with an optional `__file__`;
- the distribution registry is a sequence of (name, version, optional file
  list), in enumeration order;
- a source file is a record. It says whether the path is a file, holds its
  text, and holds either the import nodes `ast.parse` would yield or the
  absence of a tree when parsing fails.

## Behaviour of the code worth knowing

- A syntax error in any file propagates out of `extract_pip_requirement`.
  The loop at lines 137–140 does not catch it. It is not a per-file
  diagnostic that leaves the other files alone. `Aggregator.CandidatesErrIff`,
  `Aggregator.CandidatesFirstFailure` and `Aggregator.CandidatesFailFast`
  state this.
- The requirement manifest written at line 158 is in set-iteration order, not
  sorted. It is deduplicated on the whole `name=version` string.
- `from . import x` gives an import node without a module. Line 121 adds
  `None` to the set, and line 127 then fails with `TypeError` on `'.' in None`.
  The model keeps this path as an explicit `Err(TypeError)` result instead of
  excluding it by a precondition.
- When no candidate is found at all, the function returns before line 158, so
  no manifest is written. `Report.written` is then `None`.

## Model

| member | source | states |
|---|---|---|
| Text.Split | src/minireqs/pip_package_extract.py:60 | `str.split` on one character always gives at least one part, and no part contains the separator |
| Text.JoinSplit | src/minireqs/pip_package_extract.py:60-62 | joining the parts of a split on the same separator gives back the original name |
| Text.SplitJoin | src/minireqs/pip_package_extract.py:60-62 | splitting a join of separator-free parts gives back the parts |
| Text.JoinPrefix | src/minireqs/pip_package_extract.py:61-62 | the join of the first `i` parts is a prefix of the name; it is the whole name exactly when all parts are taken, and is followed by a dot otherwise |
| Text.DotPrefixIndex | src/minireqs/pip_package_extract.py:61-62 | every prefix of the name that ends just before a dot, or is the whole name, is the join of some number of leading parts |
| Text.JoinPrefixGrows | src/minireqs/pip_package_extract.py:61-62 | joining more leading parts gives a strictly longer string |
| Text.FirstSegment | src/minireqs/pip_package_extract.py:127 | `x.split('.')[0]` is the prefix of `x` up to its first dot, contains no dot, and is `x` itself when `x` has no dot |
| Text.Contains | src/minireqs/pip_package_extract.py:92 | `sub in s` holds exactly when `sub` occurs in `s` at some position |
| Text.ReplaceChar | src/minireqs/pip_package_extract.py:83 | `replace` of one character changes exactly the occurrences of that character and keeps the length |
| Text.StripLeading | src/minireqs/pip_package_extract.py:109 | `lstrip` removes a whitespace-only prefix and leaves a string that does not start with whitespace |
| Text.StripTrailing | src/minireqs/pip_package_extract.py:109 | `rstrip` removes a whitespace-only suffix and leaves a string that does not end with whitespace |
| Text.StripEmptyIffBlank | src/minireqs/pip_package_extract.py:109 | `not content.strip()` holds exactly when every character of the content is Python whitespace |
| Collections.ListOf | src/minireqs/pip_package_extract.py:146 | `list(set(...))` lists each element of the set once and nothing else, in an unspecified order |
| Collections.DropDuplicates | src/minireqs/pip_package_extract.py:158 | `drop_duplicates(keep='first')` keeps one element per key, only elements of the input, every key of the input, and each kept element is the first of its key; `DropDuplicatesInOrder` adds order and multiplicity |
| Collections.FirstIndices | src/minireqs/pip_package_extract.py:158 | the positions `keep='first'` keeps: ascending, in range, and exactly those whose element has a key no earlier element has |
| Collections.DropDuplicatesInOrder | src/minireqs/pip_package_extract.py:158 | `drop_duplicates(keep='first')` is the input at those first positions, each once and in the input's order |
| Importer.AttemptsEnds | src/minireqs/pip_package_extract.py:60-62 | the first attempt is the whole name and the last is its first segment |
| Importer.AttemptsArePrefixes | src/minireqs/pip_package_extract.py:60-62 | every attempt is a dot-prefix of the name |
| Importer.AttemptsShrink | src/minireqs/pip_package_extract.py:61 | each attempt is strictly shorter than every attempt before it |
| Importer.AttemptsAreDotPrefixes | src/minireqs/pip_package_extract.py:60-62 | the attempts are exactly the dot-prefixes of the name |
| Importer.FirstLoadable | src/minireqs/pip_package_extract.py:61-66 | the position of the first attempt that loads: every earlier attempt raises `ModuleNotFoundError`, and the one found loads |
| Importer.ImportedIsLongestLoadable | src/minireqs/pip_package_extract.py:60-67 | `safe_import` gives `None` exactly when no dot-prefix of the name loads; otherwise it gives the module of the longest dot-prefix that loads |
| Importer.SafeImport | src/minireqs/pip_package_extract.py:54-67 | the loop with early return gives the result `ImportedIsLongestLoadable` characterises |
| Resolver.Normalise | src/minireqs/pip_package_extract.py:83 | normalising keeps the length, turns every backslash into `/`, and keeps every other character |
| Resolver.ManifestEntries | src/minireqs/pip_package_extract.py:89-91 | the scanned entries are exactly the normalised files of the distributions, each with its owner's name and version |
| Resolver.ScanFindsWinner | src/minireqs/pip_package_extract.py:85-96 | the running best is set exactly when some non-empty manifest path is a substring of the module path; it then carries the name, version and length of an entry that no match outgrows and that every earlier match is strictly shorter than; otherwise it is still `(None, 0, None)` |
| Resolver.ResolveIsBestMatch | src/minireqs/pip_package_extract.py:74-98 | `find_pip_pkg` finds a name exactly when the module loads, has an origin file, and some manifest path matches; name and version are then set together and come from the longest match, the first of its length in enumeration order |
| Resolver.ScanDistributions | src/minireqs/pip_package_extract.py:85-96 | the nested loops over distributions and files end in the state of the scan over all entries |
| Resolver.FindPipPkg | src/minireqs/pip_package_extract.py:72-98 | gives `(None, None)` when nothing loads or the module has no origin file, sets name and version together, and otherwise gives the best match of the scan |
| Extractor.CollectedFromNodes | src/minireqs/pip_package_extract.py:113-124 | a name is collected exactly when some import node contributes it |
| Extractor.AddAliases | src/minireqs/pip_package_extract.py:116-124 | the alias loop of one node adds exactly the prefixed alias names |
| Extractor.WalkImports | src/minireqs/pip_package_extract.py:113-124 | the tree walk collects the names of all nodes and notes whether a relative import without a module added `None` |
| Extractor.Roots | src/minireqs/pip_package_extract.py:127 | the comprehension lists exactly the first segments of the names that contain a dot |
| Extractor.ImportNamesAreCandidates | src/minireqs/pip_package_extract.py:113-129 | the names of a parsed file are exactly its alias names, its modules and `module.alias` forms, and the first segments of the dotted ones |
| Extractor.RootDerivation | src/minireqs/pip_package_extract.py:127-129 | every dotted name collected from a file brings its first segment into the result |
| Extractor.GetImports | src/minireqs/pip_package_extract.py:102-129 | `[]` for a path that is not a file and for blank content; a syntax error or a moduleless relative import is reported as that failure; otherwise every candidate name exactly once |
| Tables.DropNa | src/minireqs/pip_package_extract.py:150-153 | the rows kept are exactly the pairs whose requirement is present; `DropNaInOrder` adds order and multiplicity |
| Tables.PresentIndices | src/minireqs/pip_package_extract.py:153 | the positions `dropna` keeps: ascending, in range, and exactly those whose requirement is present |
| Tables.DropNaInOrder | src/minireqs/pip_package_extract.py:150-153 | `dropna` keeps the present pairs as rows, each once and in the input's order |
| Tables.StrLeTotal | src/minireqs/pip_package_extract.py:161 | Python's string order compares any two strings |
| Tables.StrLeTransitive | src/minireqs/pip_package_extract.py:161 | Python's string order is transitive |
| Tables.StrLeAntisymmetric | src/minireqs/pip_package_extract.py:161 | strings that are each at most the other are equal |
| Tables.RowLeTransitive | src/minireqs/pip_package_extract.py:161 | the order by requirement, then name length, is transitive |
| Tables.Insert | src/minireqs/pip_package_extract.py:161 | inserting a row into sorted rows keeps them sorted and adds exactly that row |
| Tables.SortRows | src/minireqs/pip_package_extract.py:161 | `sort_values(['requirement','len_import'])` gives a sorted permutation of the rows |
| Tables.DropDuplicatesKeepsOrder | src/minireqs/pip_package_extract.py:161-163 | deduplicating sorted rows by requirement leaves them sorted |
| Tables.SummaryAscending | src/minireqs/pip_package_extract.py:161-163 | the summary is strictly ascending by requirement, so each requirement has at most one row |
| Tables.SummaryRowsFromInput | src/minireqs/pip_package_extract.py:161-163 | every summary row is a row of the input |
| Tables.SummaryNameShortest | src/minireqs/pip_package_extract.py:160-163 | a summary row's import name is no longer than that of any input row with the same requirement |
| Tables.SummaryCoversRequirements | src/minireqs/pip_package_extract.py:161-163 | every requirement of the input has a summary row |
| Tables.SummaryIsShortestPerRequirement | src/minireqs/pip_package_extract.py:160-163 | one summary row per distinct requirement, in ascending order, each an input row with a shortest import name for its requirement |
| Aggregator.CombinePairInjective | src/minireqs/pip_package_extract.py:148 | for names without `=`, the requirement string determines name and version |
| Aggregator.CandidatesFailFast | src/minireqs/pip_package_extract.py:137-140 | once a file fails, the whole call fails with that file's failure |
| Aggregator.CandidatesErrIff | src/minireqs/pip_package_extract.py:137-140 | the union of the files fails exactly when some file fails |
| Aggregator.CandidatesFailAt | src/minireqs/pip_package_extract.py:137-140 | when a file is the first to fail, the whole union fails with that file's failure |
| Aggregator.CandidatesFirstFailure | src/minireqs/pip_package_extract.py:137-140 | a failing union fails with the failure of the first file that fails |
| Aggregator.CandidatesUnion | src/minireqs/pip_package_extract.py:137-140 | a successful union holds exactly the names of the files, each contributed by some file |
| Aggregator.CollectImports | src/minireqs/pip_package_extract.py:137-140 | the accumulation loop fails exactly when and as the first failing file does, and otherwise collects the union of all files' names |
| Aggregator.ResolvePairs | src/minireqs/pip_package_extract.py:150-152 | each candidate is paired with the `combine_pair` of its `find_pip_pkg` result |
| Aggregator.ResolvedRows | src/minireqs/pip_package_extract.py:150-153 | a row survives `dropna` exactly when its name is a candidate and resolves to its requirement |
| Aggregator.ColumnEntryResolved | src/minireqs/pip_package_extract.py:150-158 | every requirement in the column comes from a resolved candidate |
| Aggregator.ResolvedInColumn | src/minireqs/pip_package_extract.py:150-158 | every resolved candidate's requirement is in the column |
| Aggregator.DistinctColumn | src/minireqs/pip_package_extract.py:158 | `drop_duplicates()` on the requirement column keeps every requirement of the column exactly once |
| Aggregator.ManifestOfResolved | src/minireqs/pip_package_extract.py:146-158 | the manifest holds each requirement string once, and exactly the requirements of the resolved candidates |
| Aggregator.SummaryNameIsShortest | src/minireqs/pip_package_extract.py:160-163 | a summary row's name is no longer than any candidate that resolves to its requirement |
| Aggregator.SummaryHasRequirement | src/minireqs/pip_package_extract.py:160-163 | every resolved candidate's requirement has a summary row |
| Aggregator.SummaryOfResolved | src/minireqs/pip_package_extract.py:160-163 | the summary is ascending, contains only resolved candidates with their requirements, covers every resolved requirement, and names a shortest candidate for each |
| Aggregator.ExtractPipRequirement | src/minireqs/pip_package_extract.py:133-164 | fails exactly when and as the candidate union fails; writes nothing and gives an empty summary when there are no candidates; otherwise writes the manifest of the resolved candidates and gives their summary |

## Left out

- `find_py_files` (lines 26–50) is filesystem discovery. Its result is the input sequence of source files.
- `importlib.import_module` runs module code. It is an injected map, and a name absent from the map raises `ModuleNotFoundError`. Other exceptions are not modelled, such as the `ValueError` for an empty name, the `ImportError`s a module's own code raises, and the module cache it fills.
- `getattr(module, "__file__", None)` is the `origin` field of the loaded module.
- `md.distributions()`, `dist.metadata["Name"]`, `dist.version` and `dist.files` are foreign calls. They become the fields of an injected sequence of distributions. A distribution without a name or version is not modelled.
- `str(file)` is taken to be the path string itself.
- `os.path.isfile`, `open` and `read` become the `isFile` and `content` fields. Decoding errors and unreadable files are not modelled.
- `ast.parse` and `ast.walk` are not part of this model. A parsed file is given as its import nodes in walk order, or with no tree for a syntax error. The `level` of a relative import is ignored, as the code ignores it.
- The `print` calls (the warning at line 76 and lines 139, 143), the `QA` view (lines 155–156) and `reset_index` are left out. They do not affect the results.
- Writing the CSV at line 158 is left out; what would be written is the `written` field of the report. An empty candidate list returns an empty `DataFrame` before anything is written; the model gives an empty summary and no manifest.
- The `len_import` column (line 160) is not a separate column. The sort key compares `|importName|` directly.
- pandas does not say how `sort_values` orders rows with equal requirement and name length. The model's insertion sort puts rows that compare equal latest first, but no lemma depends on that: each summary row is claimed only to have some shortest name for its requirement.
- Python's set iteration order is left open: `list(set(...))` is a nondeterministic choice of order. No property depends on the order of `list_imports` or of the manifest.
- `ast.walk` visits nodes breadth-first. The model takes the nodes in the given order, which does not change the collected set.
