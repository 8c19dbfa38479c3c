# Summary tree and index scraper, modelled in Dafny

This project models the pure core of two small command-line tools.

**Summary tree** (`tree_summary/main.py`). The tool receives a flat mapping from relative file paths to summaries and does two things:

- It builds a nested dictionary tree. Directories are dictionaries, and file summaries are strings.
- It prints that tree with box-drawing connectors. At every level, directories come before files, and each group is in ascending name order. Every file's summary is printed line by line under its name.

**Index scraper** (`index_scraper/main.py`). The tool walks the anchors of an Apache-style directory listing. The model covers three of its parts:

- the guards that decide whether an anchor is downloaded;
- `sanitize_filename`, which cleans the file name;
- the loop that appends `_1`, `_2`, … to the name until no file of that name exists in the output directory.

Files:

- `wrappers.dfy` (`Wrappers`): the `Option` type.
- `text.dfy` (`Text`): the Python string operations the core uses:
  - `str.split` on one character, and `join`;
  - code-point ordering and `sorted` over a set of names;
  - the whitespace set of `str.strip`;
  - ASCII `lower`;
  - `str(n)` for counters.
- `tree_build.dfy` (`TreeBuild`): the tree builder. `Insert` is the inner cursor walk, `Build` is the fold over the mapping, and the method `BuildFileTree` is the outer loop. The file also holds what is proved about the result.
- `tree_render.dfy` (`TreeRender`): the printer. The printed lines are a value (`RenderDir`). The file also holds the entry point `PrintSummariesTree` and the lemmas about the connector and indentation structure.
- `render_as_written.dfy` (`TreeRenderAsWritten`): the two comprehensions of the printer as the source spells them. It models the dictionary subscript with the exceptions it raises, and proves that the printer as written raises on every non-empty directory.
- `index_scraper.dfy` (`IndexScraper`): the percent-decoding, the three rewriting steps of the cleaner, the link guards, `os.path.splitext`, and the naming loop.

The builder raises a Python `TypeError` when a path runs through an existing file. The model represents that as `None`. The console output of the printer is modelled as the sequence of printed lines.

## Model

| member | source | states |
|---|---|---|
| TreeBuild.BuildFileTree | tree_summary/main.py:8-21 | The loop over the mapping produces exactly the fold `Build` of inserting every entry in order. |
| TreeBuild.BuildFailureSticks | tree_summary/main.py:13-20 | Once inserting some entry raises, building the whole mapping raises. |
| TreeBuild.InsertSucceeds | tree_summary/main.py:16-19 | Storing a summary at a path fails exactly when a file already sits at one of the path's directory prefixes. |
| TreeBuild.InsertReaches | tree_summary/main.py:15-20 | After a successful insertion, following the path from the root reaches a leaf holding the new summary. |
| TreeBuild.InsertDirsAlong | tree_summary/main.py:16-19 | Every proper prefix of the inserted path is a directory, and it lists the next segment as a child. |
| TreeBuild.Insert | tree_summary/main.py:15-20 | A path of one segment is always stored. After a successful insertion, the level's names are the old names plus the first segment, and that entry is a leaf exactly when the path has one segment. |
| TreeBuild.Build | tree_summary/main.py:12-21 | When the builder does not raise, the first segment of every key is a name in the root dictionary. |
| TreeBuild.InsertCutsBelow | tree_summary/main.py:20 | Nothing lies below the new leaf: a leaf that replaced a directory drops that whole subtree. |
| TreeBuild.InsertFrame | tree_summary/main.py:16-20 | Every path that leaves the inserted path at some segment looks up the same node as before. |
| TreeBuild.TopLevelKey | tree_summary/main.py:14-20 | A key without a separator is stored directly in the root dictionary. |
| TreeBuild.OverwriteExisting | tree_summary/main.py:17-20 | Re-inserting an existing path always succeeds. It replaces only that leaf's summary, keeps the names along the path, and leaves every unrelated path unchanged. |
| TreeBuild.ExistingPathHasDirs | tree_summary/main.py:16-19 | Every proper prefix of a path present in the tree is a directory. |
| TreeBuild.LookupEmpty | tree_summary/main.py:12 | Nothing is found in the empty tree the builder starts from. |
| TreeBuild.BuildWithoutConflicts | tree_summary/main.py:8-21 | If no key's path is a proper prefix of another key's path, the builder does not raise. Each key then reaches a leaf holding the last summary given for it, and every leaf sits at some key's path. |
| TreeRender.OrderedChildren | tree_summary/main.py:28-35 | The listing order holds each child name exactly once, puts every directory before every file, and is ascending by code point within each group. |
| TreeRender.HasContentIffStripped | tree_summary/main.py:46 | A summary has content exactly when it is non-empty and `strip()` leaves something of it. |
| Text.StripSpace | tree_summary/main.py:46 | `strip()` leaves no whitespace at either end, and leaves nothing exactly when every character is whitespace. |
| TreeRender.SummaryLines | tree_summary/main.py:45-48 | An empty or all-whitespace summary becomes the single placeholder line. Any other summary is split into newline-free lines that join back to the summary. |
| TreeRender.RenderDir | tree_summary/main.py:37-50 | Every printed line starts with the level's prefix. A directory prints nothing exactly when it is empty. |
| TreeRender.RenderItems | tree_summary/main.py:37-50 | The loop from position i on prints lines that all start with the prefix, and prints nothing exactly when no child is left. |
| TreeRender.ChildLines | tree_summary/main.py:41-50 | Every line printed below a child starts with that child's prefix. |
| TreeRender.RenderHeaders | tree_summary/main.py:37-40 | The lines that carry a connector at a level's prefix are exactly one per child, in listing order, with the end connector on the last child only. |
| TreeRender.RenderItemsHeaders | tree_summary/main.py:37-43 | For any suffix of the listing, the connector lines are those of its names, in order. |
| TreeRender.RenderIndents | tree_summary/main.py:37-43 | Every line before the last child's connector line continues an open branch (a middle connector or the `│` indent). Every line after it is indented with plain spaces. |
| TreeRender.IndentedHaveNoHeaders | tree_summary/main.py:41-43 | Lines printed under a child's prefix never look like connector lines of the parent level. |
| TreeRender.HeadersAppend | tree_summary/main.py:37-50 | Connector lines of consecutive blocks are the connector lines of each block, concatenated. |
| TreeRender.PrintSummariesTree | tree_summary/main.py:53-59 | An empty mapping prints only the "No summaries to display." line. Otherwise the banner is printed, followed by the rendered tree, or the builder raises after the banner. A tree that builds adds at least one line. |
| TreeRender.BuildNonEmpty | tree_summary/main.py:53-58 | A non-empty mapping that builds gives a non-empty root. |
| TreeRenderAsWritten.Subscript | tree_summary/main.py:29 | `d[key]` finds a value exactly when the key is a name of the dictionary, and returns that child. It raises TypeError exactly when the key is a pair holding a dictionary (unhashable); otherwise it raises KeyError. |
| TreeRenderAsWritten.FilterByName | tree_summary/main.py:28-33 | Subscripted by the child's name, a comprehension never raises. It keeps exactly the pairs of `.items()` whose value is a directory (or, for the files filter, is not one). |
| TreeRenderAsWritten.FirstPairRaises | tree_summary/main.py:28-33 | Subscripted by the whole pair, a comprehension raises on its first pair: TypeError when that value is a directory, KeyError when it is a file. |
| TreeRenderAsWritten.AsWrittenRaises | tree_summary/main.py:28-33 | For every non-empty directory and every order of `.items()`, the directories filter as written raises TypeError or KeyError on the first pair, so the printer raises. The intended listing prints one connector line per child. |
| TreeRenderAsWritten.AsWrittenRaisesOnOneFile | tree_summary/main.py:28-33 | On the mapping {"b.py": "s1"}, the code as written raises, and the intended output is the two lines "└── b.py" and "    s1". |
| TreeRenderAsWritten.OneFile | tree_summary/main.py:37-50 | A directory holding one file with a one-line summary prints the end connector and the name, then the summary under four spaces. |
| Text.JoinSplit | tree_summary/main.py:14 | Joining the pieces of a split gives back the string it came from. |
| Text.SplitJoin | tree_summary/main.py:48 | Splitting a join of separator-free pieces gives back the pieces. |
| Text.SortedNames | tree_summary/main.py:28-33 | `sorted` on a set of names holds each name once and is strictly ascending. |
| Text.BelowTotal | tree_summary/main.py:28-33 | Python's string order is total on distinct strings. |
| Text.BelowTransitive | tree_summary/main.py:28-33 | Python's string order is transitive. |
| Text.LastPiece | index_scraper/main.py:100 | The last piece of a split contains no separator and is a suffix of the string. When it is not the whole string, a separator stands just before it. |
| Text.JoinEndsWithLast | index_scraper/main.py:100 | A join ends with its last piece, and when there are several pieces a separator stands just before it. |
| Text.ParseDecimalOfDecimal | index_scraper/main.py:129 | The decimal rendering of a counter parses back to that counter. |
| IndexScraper.Unquote | index_scraper/main.py:13 | A string without `%` is unchanged. Decoding never lengthens the string, and every new character is an ASCII one. |
| IndexScraper.UnquotePercentEncode | index_scraper/main.py:13 | Decoding undoes percent-encoding of every ASCII character outside the unreserved set of section 2.3 of RFC 3986, for every string. |
| IndexScraper.ReplaceInvalid | index_scraper/main.py:15 | Position by position, an allowed character (word character, `.`, `-`, `_`) is kept and any other character becomes `_`. |
| IndexScraper.Collapse | index_scraper/main.py:17 | No double underscore is left. The first character stays, an underscore remains iff one was there, and a string without doubles is unchanged. |
| IndexScraper.CollapseAround | index_scraper/main.py:17 | Collapsing works separately on either side of a character other than `_`: no run crosses it. |
| IndexScraper.CollapseRun | index_scraper/main.py:17 | A run of one or more underscores becomes exactly one underscore. |
| IndexScraper.CollapseKeepsOthers | index_scraper/main.py:17 | The non-underscore characters survive collapsing, in order. |
| IndexScraper.Strip | index_scraper/main.py:19 | The result neither starts nor ends with `.`, `_` or a space. It contains only characters of the input, keeps the no-double-underscore property, leaves a trimmed string unchanged, and is empty when every character is stripped. |
| IndexScraper.SanitizeFilename | index_scraper/main.py:9-20 | An empty name gives the default name. Otherwise the result holds only word characters, `.` and `-` (no `%`, no space), has no double underscore, and does not start or end with `.`, `_` or a space. |
| IndexScraper.DefaultNameIsClean | index_scraper/main.py:9-11 | The default name itself satisfies every property of a cleaned name. |
| IndexScraper.SanitizeFixedPoints | index_scraper/main.py:9-20 | A non-empty name is left unchanged by the cleaner exactly when it is already clean. |
| IndexScraper.SanitizeIdempotent | index_scraper/main.py:9-20 | Cleaning twice equals cleaning once, except that a name cleaned to nothing becomes the default name on the second pass. |
| IndexScraper.AllReplacedIsEmpty | index_scraper/main.py:13-19 | A non-empty name whose decoded characters are all stripped or all invalid is cleaned to the empty string, not to the default name. |
| IndexScraper.EncodedSpaceIsEmpty | index_scraper/main.py:9-20 | The name "%20" is cleaned to the empty string. |
| IndexScraper.UnderscoresAreEmpty | index_scraper/main.py:9-20 | The name "__" is cleaned to the empty string. |
| IndexScraper.Extension | index_scraper/main.py:100 | The extension compared against the wanted set is the lower-cased tail of the href after its last dot (or the whole href when it has no dot). It has no dot and no ASCII capital letter. |
| IndexScraper.ClassifyLink | index_scraper/main.py:77-102 | A link passes the skip guards exactly when it has a non-empty href, its text is not a listing header, the href starts with no sort query, `#` or (case-insensitively) `javascript:`, and its lower-cased last dot piece is a wanted extension. |
| IndexScraper.UpperCaseExtensionInert | index_scraper/main.py:100 | An extension given with an ASCII capital letter can never match, so removing it from the set changes no verdict. |
| IndexScraper.LastIndex | index_scraper/main.py:125 | The result is the position of the last occurrence of the character, or -1 when it does not occur. |
| IndexScraper.SplitExt | index_scraper/main.py:125 | The base and the extension concatenate back to the name. A non-empty extension starts with its only dot, lies within the last path component, and has a non-dot character before it in that component. Conversely, a dot preceded by a non-dot character in the last component always gives a non-empty extension. |
| IndexScraper.Numbered | index_scraper/main.py:127-130 | The alternative name is the base, `_`, the decimal digits of the counter, then the extension; the digits parse back to the counter. |
| IndexScraper.NumberedInjective | index_scraper/main.py:127-130 | Different counters give different alternative names. |
| IndexScraper.ChooseOutputName | index_scraper/main.py:123-131 | The chosen name is free. It is the cleaned name when that name is free. Otherwise it is `base_k.ext` for the least counter k ≥ 1 whose name is free. |

## Left out

- The `__main__` blocks of both programs are not modelled:
  - argument parsing;
  - the ollama calls that produce the summaries;
  - the HTTP requests, their error handling, and BeautifulSoup parsing;
  - writing the downloaded file in chunks;
  - every progress `print` of the scraper. They are I/O.
- Scraper lines 106-110 are not modelled: `urljoin`, `urlparse` and the check that the download URL's scheme is http or https. They are URL library code. So a link that passes the guards of `IndexScraper.ClassifyLink` can still be skipped there.
- The order in which `.items()` yields a directory's pairs is a parameter of `TreeRenderAsWritten.AsWrittenRaises`: the result holds for every order.
- Scraper lines 117-120 are not modelled: `os.path.basename` of the URL path and the `index.html` fallback. The naming model starts from the name that `sanitize_filename` returns.
- `os.path.exists` is modelled as membership in a set of names already present. The set stays fixed during the loop, because nothing else writes the directory concurrently.
- The link text is a given string. `get_text(strip=True)` on the anchor is BeautifulSoup behaviour and is not part of this model.
- IndexScraper.Unquote: leaves escapes `%XX` with a value of 0x80 or more undecoded. Python decodes such bytes as UTF-8 and substitutes U+FFFD for invalid sequences, and that decoding is not modelled.
- IndexScraper.WordClass: Unicode's `\w` is fixed only on ASCII. Beyond ASCII the class is a parameter, so every property holds for any choice of the non-ASCII word characters.
- Text.Lower: lower-cases ASCII letters only. Python's `str.lower` also maps non-ASCII capitals.
- TreeBuild.Sep: the path separator is fixed to `/`, as on POSIX.
- TreeBuild.BuildFileTree: the builder's walk mutates nested dictionaries through a shared cursor. Here the walk is the pure function `Insert`, so aliasing between the cursor and the tree is not modelled.
- TreeRender.PrintSummariesTree: in the source, a builder error propagates out of the function as an exception. The model returns a flag after the banner line instead.
- TreeRender.PrintSummariesTree: renders with the corrected listing order. The listing code as written is `TreeRenderAsWritten.RenderAsWritten`, and it always raises (see Findings).

## Findings

| source | as written | input that shows it | evidently intended | confidence | as-written member | corrected member |
|---|---|---|---|---|---|---|
| tree_summary/main.py:28-33 | The filters subscript the node with the whole `(name, value)` pair from `items()`. A pair holding a string is hashable but is not a key (KeyError); a pair holding a dict is unhashable (TypeError). So every non-empty tree raises before any line is printed. | the mapping {"b.py": "s1"} | Classify each child by its value: directories first, then files, each group sorted by name. This prints "└── b.py" and "    s1". | high, not executed | TreeRenderAsWritten.RenderAsWritten (with TreeRenderAsWritten.FirstPairRaises and TreeRenderAsWritten.AsWrittenRaises) | TreeRender.RenderDir (with TreeRender.OrderedChildren and TreeRender.RenderHeaders) |
