# A verified model of the code-harvesting crawler

The crawler searches a code host for popular MIT-licensed Python repositories. It
lists each repository's Python files and cuts each file into function and class
blocks. Each block is written as a JSON record named `human_<n>.json`. Three pieces
of pure logic sit inside the network plumbing, and this project models and proves
them in Dafny:

- **Block extraction** (`extract_code_blocks`). The parser's answer is an input: a
  syntax error, or the nodes that `ast.walk` visits, in walk order, with their line
  numbers. The model keeps only `FunctionDef` and `ClassDef` nodes. A node must span
  at least 3 lines. Its block is the stripped `'\n'`-join of its `splitlines()`
  lines, cut with Python's slice semantics. A parse failure gives no blocks at once.
  A language tag other than Python skips parsing. If no definition block is
  accepted and `split('\n')` gives at least 10 pieces, the whole stripped file is
  the one block.
- **Search pagination** (`github_search_repos`). The page count is
  `min(10, (max_repos + 99) // 100)`. The answer for each page number is an input,
  and a 403 is retried exactly once. The result is the in-order concatenation of
  page items. It stops at the first page that is not a 200 or has no items.
- **The write loop of `main`**. It runs over repositories, then files, then blocks,
  with state `collected_count`, `current_repo_blocks` and `file_index`. Only `blob`
  entries ending in `.py` are kept, and at most the first 30 are read. The global
  cap (2500) and the per-repository cap (50) are both checked before every write.
  Record keys are 1, 2, ..., n. Each record carries `github_repo:<name>`, the
  license `MIT` and the language `python`. The file loop (`ProcessFiles`) is
  stated for any function giving a file's blocks; the crawl passes it
  `FileBlocksOf`, which fetches the contents and runs the extractor.

Modules: `Wrappers` (Option), `Seqs` (Python slicing, prefixes, selected positions,
sums), `Text` (Python `str` operations), `Http` (a response, and the one retry
after a 403), `Extractor`, `Search` and `Collector`.

Behaviour of the code that is easy to misread, and that the model follows:

- The fallback counts `split('\n')` pieces, not lines. A nine-line file that ends
  in a newline has ten pieces, so it is kept whole (`NineLinesWithFinalNewlineKeptWhole`).
- All nodes of the walk are considered, nested ones included, not only top-level
  definitions. `async def` functions are never blocks.
- A 403 is retried once, and then any status other than 200 ends the search,
  including a second 403.
- A file's contents are skipped when they are absent and also when they are empty
  (`if code_content:`).

## Model

| member | source | states |
|---|---|---|
| Http.Final | data_collector.py:54-56 | a request answered 403 is repeated exactly once and the repeat's answer is final, whatever its status; any other first answer is final; a 403 is final only when both requests gave it (the same pattern is at data_collector.py:158-160) |
| Search.PagesNeeded | data_collector.py:45-48 | the page count is at most 10; it is 0 for `max_repos` 0 (and never positive for `max_repos` <= 0); for 1..1000 it is the ceiling of `max_repos / 100`; above 1000 it is 10 |
| Search.SearchRepos | data_collector.py:43-73 | pages 1, 2, ... are requested in order, never more than the page count; every page before the last one requested was a 200 with items; stopping early means the last page failed; the result is the items of the successful pages, in page order |
| Search.ItemsGrow | data_collector.py:63-68 | reading more pages only extends the accumulated result; earlier items are kept as they are |
| Text.Strip | data_collector.py:117 | `strip()` gives a text with no leading or trailing whitespace (Python's `isspace` set), never longer than the input |
| Text.StripCharacterised | data_collector.py:117 | `strip()` is empty exactly when the input is all whitespace, and otherwise it is a contiguous part of the input with only whitespace around it |
| Text.StripPadded | data_collector.py:117 | `strip()` is determined by what it removes: padding a trimmed text with whitespace on both sides and stripping gives back exactly that text, interior whitespace unchanged |
| Text.StripIdempotent | data_collector.py:117 | stripping a block twice changes nothing |
| Text.Split | data_collector.py:119 | `split('\n')` gives one more piece than there are '\n' characters, and no piece contains '\n' |
| Text.SplitEndingInSeparator | data_collector.py:119 | a text that ends in '\n' splits with an empty last piece |
| Text.JoinSplit | data_collector.py:116 | joining the `split` pieces with the separator gives back the text |
| Text.SplitJoin | data_collector.py:116 | splitting a join of separator-free lines gives back those lines |
| Text.SplitLines | data_collector.py:115 | `splitlines()` lines contain no line boundary, and only the empty text has no lines |
| Text.SplitLinesByNewline | data_collector.py:115 | when '\n' is the only line boundary, `splitlines()` equals `split('\n')` without the empty piece a final '\n' leaves |
| Text.JoinedPiecesOccur | data_collector.py:115-116 | the '\n'-join of any run of consecutive lines occurs unchanged in the file |
| Seqs.PySlice | data_collector.py:116 | a Python slice never fails; for in-range bounds it is the ordinary slice, and an end past the last line is clamped |
| Seqs.Take | data_collector.py:181 | `xs[:n]` is the prefix of length `min(n, len(xs))` |
| Extractor.PythonTagRecognised | data_collector.py:103 | the crawler's own tag `python` passes `lang.lower() == 'python'` |
| Extractor.DefinitionBlocks | data_collector.py:109-117 | there are no more definition blocks than walked nodes, and each block is stripped |
| Extractor.DefinitionBlocksInWalkOrder | data_collector.py:109-117 | the definition blocks are exactly one block per accepted node, in walk order. Accepted means FunctionDef or ClassDef, an end line present and non-zero, and a span of at least 3 lines. No accepted node is skipped, and nested definitions give overlapping blocks that are all kept |
| Extractor.ExtractCodeBlocks | data_collector.py:99-122 | a parse failure gives no block, even for a long file. If any definition block is accepted, the result is those blocks. Otherwise the result is the one stripped file exactly when the file has at least 9 '\n' characters (10 `split` pieces), and empty if not. A non-Python tag never consults the parser. Every block is stripped |
| Extractor.BlockIsSourceLines | data_collector.py:111-117 | an accepted node spans at least 3 lines. When it lies inside the file and '\n' is the only line boundary, its block is the stripped join of exactly lines `lineno..end_lineno` of `split('\n')`, and that run occurs unchanged in the file |
| Extractor.ShortDefinitionDropped | data_collector.py:111-117 | a 5-line function followed by a 2-line function gives exactly one block, the 5-line one |
| Extractor.NineLinesWithFinalNewlineKeptWhole | data_collector.py:115-120 | a file of 9 `splitlines()` lines ending in '\n' has 10 `split` pieces, so without definitions it is kept whole |
| Collector.PyFiles | data_collector.py:173-176 | every kept path ends in ".py" and there are no more of them than tree entries |
| Collector.PyFilesInTreeOrder | data_collector.py:173-176 | the kept paths are exactly the paths of the `blob` entries ending in ".py", in tree order |
| Collector.ScanList | data_collector.py:181 | the files read are the first `min(30, len(py_files))` Python files of the listing, in listing order: all of them when there are at most 30, exactly 30 otherwise |
| Collector.Listing | data_collector.py:155-181 | a repository is read only when the final tree answer is a 200 with a `tree` field; then the paths read are the first `min(30, n)` of the n `blob` ".py" entries of that tree, in tree order, all ending in ".py" |
| Collector.FileBlocks | data_collector.py:185-188 | a file whose contents could not be fetched, or are empty, gives no blocks, whatever the parser would report for the empty text; otherwise its blocks are what the extractor gives for the tag "python", each stripped |
| Collector.LicenseTag | data_collector.py:198 | the license field, `TARGET_LICENSE.upper()`, is "MIT" |
| Collector.Candidates | data_collector.py:185-200 | every uncapped record of a repository names that repository as source and carries the license tag and language "python" |
| Collector.CandidatesFromFiles | data_collector.py:181-197 | every uncapped record of a repository names one of the files read, and its code is one of the blocks cut from that file |
| Collector.CandidatesPrefix | data_collector.py:181-192 | reading fewer files of a repository gives a prefix of its records |
| Collector.Room | data_collector.py:182-192 | the room left is zero exactly when a cap is reached; otherwise it brings the global count or the repository count exactly to its cap, and never past either |
| Collector.Write | data_collector.py:194-208 | one write appends the record under key `file_index` (the `human_<file_index>.json` name), leaves the earlier records as they were, and keeps the session invariant while the global cap is not reached |
| Collector.Append | data_collector.py:202-208 | writing keeps the records already written, and keeps the session invariant: counts match the records, `file_index == collected_count + 1`, keys run 1..n, and the global cap holds |
| Collector.WriteBlocks | data_collector.py:190-208 | with both caps checked before every write, one file's blocks are written in order, and exactly as many as there is room for |
| Collector.ProcessFiles | data_collector.py:181-210 | for any way of fetching and cutting a file, a repository's output is the first `min(2500 - collected, 50)` of its uncapped records in file order, and its count never exceeds 50 |
| Collector.VisitRepo | data_collector.py:145-212 | one repository adds at most 50 records and leaves earlier records unchanged; each new record names that repository, carries "MIT" and "python", names a ".py" file of the repository's listing, and its code is a block cut from that file |
| Collector.Harvest | data_collector.py:141-216 | over all repositories the session invariant holds: at most 2500 records, keys 1..n, and earlier records unchanged |
| Collector.HarvestAttributed | data_collector.py:185-200 | every record written comes from one of the searched repositories: it names that repository as source, has license "MIT" and language "python", names a ".py" file of that repository's listing, and its code is a block cut from that file |
| Collector.Collect | data_collector.py:136-216 | the loop writes exactly the reference run (`Harvest`); every per-repository count is at most 50 and the counts add up to the total |
| Collector.Crawl | data_collector.py:124-221 | `main` searches one page (100 repositories), keeps its items only if that page is a 200 with items, and writes the reference run over them, with per-repository counts of at most 50 adding up to the total |

## Left out

- HTTP requests are left out. The answers to the search, tree and contents requests
  are inputs, and so is the default-branch lookup behind each tree answer. The query
  string, URL construction and headers are not modelled.
- `check_rate_limit` is left out. It asks for the quota, reads the wall clock and
  sleeps. The model keeps only what follows it: the request that got a 403 is
  repeated once (`Http.Final`).
- Exceptions raised inside `check_rate_limit` are not modelled. `time.sleep` raises
  `ValueError` when the quota reset lies more than 10 seconds in the past, and a
  quota reply without the `resources.core` fields raises `KeyError`
  (data_collector.py:27-36). During the search (data_collector.py:55) such an
  exception ends `main` before anything is written. During a tree request
  (data_collector.py:159) the `except` at data_collector.py:214 skips the
  repository. The model always retries and goes on.
- The base64 decode in `get_file_contents` is left out. It is a library call; file
  contents are a given text or absent.
- `ast.parse` and `ast.walk` are left out. They are Python's own grammar; the parser
  is an input that fails or lists nodes in walk order.
- The parser's line numbering is not related to `splitlines()`. The parser counts
  only \n, \r and \r\n, while `splitlines()` also breaks at \v, \f, \x1c-\x1e, \x85,
  U+2028 and U+2029. The node line numbers are taken as given, and
  `BlockIsSourceLines` assumes '\n' is the only boundary.
- `json.dump`, `os.makedirs`, file names and printing are left out. A write is an
  entry with its key appended to the session.
- The `time.sleep` pauses between requests are left out; apart from the quota wait
  above they have no logical effect.
- The per-repository `except Exception: continue` is left out. In the model, tree
  entries always have `path` and `type`, and writes never fail, so apart from the
  quota wait above nothing inside a repository raises.
- Text.Lower: maps only ASCII letters, while Python's `lower()` also maps other
  characters (the Kelvin sign becomes `k`). The gap is in `Lower` alone:
  `Extractor.IsPython` still agrees with `lang.lower() == 'python'`, because no
  non-ASCII character lowers into any of the letters of "python".
- Text.Upper: maps only ASCII letters. The only string it is applied to, "mit",
  is ASCII.
- Search results keep only the full name and the star count of each item. An answer
  without an `items` field is modelled as an empty item list, as `.get("items", [])`
  reads it.
