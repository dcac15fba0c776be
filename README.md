# Code extraction, IronPython compile verdicts and archive trees, in Dafny

This project models three small pieces of a Revit tooling repository and
proves what they promise.

- **`clean_code`** takes a language model's Markdown reply and extracts the
  code from it. The code comes from the first ```` ```python ```` block if there
  is one, otherwise from the first bare ```` ``` ```` block, otherwise it is the
  whole reply. The result is always stripped of surrounding whitespace.
  `src/pycode.py` and `src/codecheck.py` both define this function, with the
  same body; module `CodeFence` models both.
- **The verdict of `try_ironpy_compile`** is computed once the IronPython
  process has finished. It is either `True` or a message. Error keywords in
  stderr win over the return code. A failing return code gives the stripped
  stderr, or a message naming the code when stderr is empty. Module
  `CompileCheck` models this.
- **`build_archive_tree`** in `folder_search.py` draws a `tree`-style listing
  of the folders and `.rvt` files under an archive folder. Folders come first,
  then files, each group in lower-cased name order. The last entry of a folder
  gets `└──` and the others get `├──`. A folder's subtree is indented with
  `    ` or `│   `. A folder that cannot be read lists nothing. Module
  `ArchiveTree` models this. The directory tree is an in-memory `Entry` value.
  The `lines` list that `walk` shares through its closure is the field of
  class `TreeBuilder`. `TreeBuilder.Walk` is the imperative `walk`, proved
  against the functional specification `WalkLines`.

Module `PyStr` gives the Python string operations these rely on their CPython
meaning:

- `str.find`;
- `str.strip()` over `str.isspace`;
- `str.lower()` for ASCII;
- `<` on strings;
- `str(int)`.

Files: `pystr.dfy`, `code_fence.dfy`, `compile_check.dfy`, `archive_tree.dfy`.

## Model

| member | source | states |
|---|---|---|
| PyStr.Find | src/pycode.py:126 | `s.find(sub, start)`: -1 exactly when no occurrence starts at or after `start`, otherwise the first such occurrence |
| PyStr.IsSpace | src/pycode.py:84 | `str.isspace` for one character: the ASCII whitespace and separator controls, and the Unicode space and line and paragraph separators; `Strip` and its lemmas state what `strip()` does with them |
| PyStr.Strip | src/pycode.py:157 | `s.strip()`: the result has no whitespace at either end, is a slice of `s` preceded only by the leading whitespace and followed only by whitespace |
| PyStr.StripFrames | src/pycode.py:139 | a stripped text framed by whitespace on both sides strips to exactly that text |
| PyStr.StripStripped | src/codecheck.py:66 | stripping an already stripped text leaves it unchanged |
| PyStr.StripKeepsAbsent | src/codecheck.py:48 | stripping cannot create an occurrence of a substring |
| PyStr.Lower | folder_search.py:36 | `lower()` keeps the length and lower-cases each ASCII letter |
| PyStr.LexLess | folder_search.py:38 | `<` on strings: code point by code point, a proper prefix first; `LexLessIrreflexive`, `LexLessTransitive` and `LexLessTotal` show it is a strict total order |
| PyStr.LexLessIrreflexive | folder_search.py:38 | Python's string `<` is irreflexive |
| PyStr.LexLessTransitive | folder_search.py:38 | Python's string `<` is transitive |
| PyStr.LexLessTotal | folder_search.py:38 | any two distinct strings are ordered one way or the other |
| PyStr.NatDigits | src/pycode.py:105-107 | the decimal digits of a natural number: non-empty, all digits, no leading zero |
| PyStr.Decimal | src/pycode.py:105-107 | `str(n)`: non-empty, starting with `-` exactly for negative `n` |
| PyStr.DecimalRoundTrip | src/pycode.py:105-107 | `str(n)` reads back as `n` |
| CodeFence.CodeStart | src/pycode.py:130-135 | the code starts just past the opening marker, and one character further when that character is a newline (`CodeBeginsAt`); never past the end |
| CodeFence.ExtractBlock | src/pycode.py:130-141 | the block of a marker, as both branches of `clean_code` cut it: always stripped; `ExtractBlockBounds` gives its exact bounds and `ExtractBlockUnfenced` shows it holds no ```` ``` ```` |
| CodeFence.CleanCode | src/pycode.py:112-157 | `clean_code`: the result is always stripped |
| CodeFence.PythonMarkerIsFence | src/pycode.py:125-127 | every ```` ```python ```` marker also opens with ```` ``` ```` |
| CodeFence.ExtractBlockBounds | src/pycode.py:135-141 | the block is cut after the marker plus at most one newline, and before the first ```` ``` ```` from there or at the end of the reply |
| CodeFence.PythonFenceBlock | src/pycode.py:126-141 | with a ```` ```python ```` fence present, the result is the stripped text between its first occurrence (plus one newline) and the next ```` ``` ````, or the end |
| CodeFence.BareFenceBlock | src/pycode.py:143-156 | without a ```` ```python ```` fence, the same rule applies to the first bare ```` ``` ```` |
| CodeFence.NoFence | src/pycode.py:157 | without any fence the result is the stripped reply |
| CodeFence.ExtractBlockUnfenced | src/codecheck.py:59-65 | an extracted block never contains ```` ``` ```` |
| CodeFence.CleanCodeOutput | src/codecheck.py:21-66 | for every reply the result is stripped and contains no ```` ``` ```` |
| CodeFence.CleanCodeIdempotent | src/codecheck.py:21-66 | cleaning twice is cleaning once |
| CodeFence.PythonFenceOutranksEarlierBareFence | src/codecheck.py:34-52 | for the replies ```` "```\n```python\n" + code + "\n```" ````, with `code` stripped and free of backticks, the python block wins over the bare fence before it; the general rule is `PythonFenceBlock`, whose preconditions say nothing about bare fences |
| CodeFence.ExampleBounds | src/codecheck.py:38-45 | where the fences of that example reply lie, and where its code begins and ends |
| CompileCheck.MentionsError | src/pycode.py:86-97 | some keyword of `error_keywords` occurs in the stripped stderr; `ClassifyProcessResult`'s loop with its flag and `break` is proved to compute it |
| CompileCheck.NoStderrMessage | src/pycode.py:104-107 | the message for a failed run that wrote nothing to stderr; `NoStderrMessageNamesCode` shows it carries the return code in decimal |
| CompileCheck.ClassifyProcessResult | src/pycode.py:84-109 | a keyword in stripped stderr gives that stderr, even for return code 0; a nonzero code gives stripped stderr, or the message naming the code when it is empty; `True` exactly for code 0 and no keyword |
| CompileCheck.NoStderrMessageNamesCode | src/pycode.py:104-107 | the message for a silent failure carries the return code in decimal, and that text reads back as the code |
| ArchiveTree.JoinPath | folder_search.py:46 | `str(directory / name)` starts with the folder path and ends with the name |
| ArchiveTree.ListDir | folder_search.py:26-30 | `safe_iterdir` yields only children, and nothing for a folder that cannot be read |
| ArchiveTree.LastDot | folder_search.py:36 | `rfind('.')`: the last dot, or -1 |
| ArchiveTree.Suffix | folder_search.py:36 | `PurePath.suffix`: empty, or a tail of the name shorter than the name, of at least two characters, starting with its only dot |
| ArchiveTree.IsRvt | folder_search.py:36 | `entry.suffix.lower() == ".rvt"`; `RvtSuffixRule` states which names pass |
| ArchiveTree.Qualifies | folder_search.py:36 | the filter of the comprehension: a folder, or an `.rvt` file; `QualifyingMembers` shows it is what the filter keeps |
| ArchiveTree.RvtSuffixRule | folder_search.py:36 | `suffix.lower() == ".rvt"` holds exactly for names of at least five characters ending in `.rvt` in any case |
| ArchiveTree.Qualifying | folder_search.py:33-37 | the filter keeps only entries it was given |
| ArchiveTree.QualifyingMembers | folder_search.py:33-37 | the filter keeps exactly the folders and `.rvt` files |
| ArchiveTree.QualifyingConcat | folder_search.py:33-37 | the filter distributes over concatenation, so it keeps the original order |
| ArchiveTree.KeyLess | folder_search.py:38 | the order of the key `(not p.is_dir(), p.name.lower())`: folders first, then lower-cased names by `<`; `KeyLessIrreflexive` and `KeyLessTransitive` show it is a strict order |
| ArchiveTree.KeyLessIrreflexive | folder_search.py:38 | no entry's sort key is less than its own |
| ArchiveTree.KeyLessTransitive | folder_search.py:38 | the sort key order is transitive |
| ArchiveTree.Arrange | folder_search.py:38 | `entries.sort(key=...)` as a stable insertion sort; `ArrangePermutes` and `ArrangeOrdered` state that it is a permutation into key order |
| ArchiveTree.InsertPermutes | folder_search.py:38 | inserting adds exactly the inserted entry |
| ArchiveTree.InsertArranged | folder_search.py:38 | inserting into a sorted list keeps it sorted |
| ArchiveTree.ArrangePermutes | folder_search.py:38 | `entries.sort(...)` is a permutation: same multiset and same members |
| ArchiveTree.ArrangeOrdered | folder_search.py:38 | after sorting, folders come before files, and within each group lower-cased names are in order |
| ArchiveTree.Entries | folder_search.py:33-38 | a folder's listed entries are among its children |
| ArchiveTree.EntriesAreQualifying | folder_search.py:26-37 | a folder lists exactly its folders and `.rvt` files, each as often as it holds it, and nothing when unreadable |
| ArchiveTree.Connector | folder_search.py:40 | `└──` for the last entry of a folder, `├──` for the others |
| ArchiveTree.Extension | folder_search.py:43 | what a folder's subtree prefix gains: as wide as the connector and the space after it, so the subtree lines up under the folder's name |
| ArchiveTree.Label | folder_search.py:42-46 | how a line names its entry: a folder as its name and `/`, a file as its full path, starting with the folder path and ending with the name |
| ArchiveTree.EntryLine | folder_search.py:40-46 | the line appended for an entry: prefix, connector, a space, the label; `EntryLineAtLevel` states its shape |
| ArchiveTree.EntryLines | folder_search.py:41-46 | what the loop appends for one entry: its line, then for a folder the recursive `walk` of it; `EntryLinesCount` and `EntryLinesIndented` state its size and shape |
| ArchiveTree.RenderPrefix | folder_search.py:39-46 | what the loop has appended after its first `n` iterations; `RenderPrefixCount`, `RenderPrefixIndented` and `RenderPrefixLevel` state its size, indentation and level |
| ArchiveTree.WalkLines | folder_search.py:32-46 | what `walk(directory, prefix)` appends; `WalkLinesCount`, `WalkLinesIndented`, `WalkLevel` and `NonRvtFileIgnored` state its properties, and `TreeBuilder.Walk` is proved to append exactly it |
| ArchiveTree.EntryLinesCount | folder_search.py:41-46 | an entry accounts for its own line plus, for a folder, the lines of its subtree |
| ArchiveTree.RenderPrefixCount | folder_search.py:39-46 | the first `n` entries produce as many lines as they account for |
| ArchiveTree.WalkLinesCount | folder_search.py:32-46 | `walk` appends one line per entry listed anywhere beneath the folder, and none for an unreadable folder |
| ArchiveTree.SumWeightsArrange | folder_search.py:38 | sorting does not change how many lines the entries account for |
| ArchiveTree.ArchiveTreeShape | folder_search.py:24-50 | an existing folder gives the header, then either the "no folders or .rvt files" notice or 1 + (number of listed entries) lines |
| ArchiveTree.EntryLineAtLevel | folder_search.py:40-46 | an entry's line is its prefix, then a connector |
| ArchiveTree.DeeperLines | folder_search.py:43-44 | lines indented by `prefix + extension` extend `prefix` but are not at its level |
| ArchiveTree.EntryLinesIndented | folder_search.py:41-46 | all lines of an entry extend the prefix, and the entry's own line is the only one at that level |
| ArchiveTree.RenderPrefixIndented | folder_search.py:39-46 | all lines of the first `n` entries extend the prefix |
| ArchiveTree.WalkLinesIndented | folder_search.py:32-46 | every line `walk(d, prefix)` appends starts with `prefix` and goes on past it |
| ArchiveTree.RenderPrefixLevelStep | folder_search.py:39-46 | entry `n` adds exactly its own line to the lines at the folder's level |
| ArchiveTree.RenderPrefixLevel | folder_search.py:39-46 | the level lines of the first `n` entries name exactly those entries |
| ArchiveTree.NamingLinesIndex | folder_search.py:40-46 | the `i`-th naming line is entry `i`'s line |
| ArchiveTree.WalkLevel | folder_search.py:39-46 | `walk`'s lines at the folder's level are one per listed entry, in sorted order: `└──` for the last entry, `├──` for the others, folders as `name/`, files by full path |
| ArchiveTree.RenderPrefixSameEntries | folder_search.py:39-46 | the rendering depends on the listed entries alone |
| ArchiveTree.NonRvtFileIgnored | folder_search.py:33-37 | a file that is not an `.rvt` file changes no line, wherever it sits in a folder |
| ArchiveTree.ArchiveTree | folder_search.py:18-51 | the answer of `build_archive_tree`: the "not found" line exactly for a missing root, `NotADirectoryError` exactly for a root that is a file, and otherwise the header followed by at least one line |
| ArchiveTree.TreeBuilder.constructor | folder_search.py:20-24 | the list starts with the header line |
| ArchiveTree.TreeBuilder.Walk | folder_search.py:32-46 | `walk` appends exactly `WalkLines` of the folder to the shared list |
| ArchiveTree.BuildArchiveTree | folder_search.py:18-51 | `build_archive_tree` returns `ArchiveTree`: a single "not found" line exactly when the root is missing, and otherwise for a folder the header followed by at least one line |

## Left out

- The launch of IronPython is left out as I/O: the temporary file, the search for the interpreter and the `subprocess.run` call with its exceptions (src/pycode.py:21-82). `ClassifyProcessResult` starts from the stderr text and the return code.
- ClassifyProcessResult: a `None` stderr is not modelled separately; the source turns it into `""`, which is the empty `stderr` here.
- `check_syntax` in both files is left out: it calls Python's own compiler.
- The scanning script is left out as file-system I/O and printing: the year and project loop and the report file (folder_search.py:54-113).
- The web server, the AI client, the logger and the pyRevit button scripts are left out.
- Lower: only ASCII letters are lower-cased. This is exact for the `.rvt` test. Python also lower-cases non-ASCII capitals, so the sort order of such names can differ from the model's.
- Arrange: it is a stable insertion sort, as Python's `list.sort` is stable, but stability is not stated as a lemma. The contracts state the permutation and the key order.
- Arrange: `entries.sort` sorts the list in place. The model computes the sorted list as a value, and `Walk` reassigns its local.
- JoinPath: the separator is fixed to `\`, and the name is appended with one separator unless the folder path already ends with one. `pathlib` normalisation (drive-relative paths, forward slashes, repeated separators) is not modelled; `root` is taken as already normalised text. A root of `.` or `Path("")` would give bare child names in `pathlib` (`b.rvt`) but `.\b.rvt` here; the script always passes an absolute root.
- The directory tree is a finite `Entry` value. Symbolic-link cycles, listing errors other than `PermissionError`, and the tree changing during the walk are not modelled.
- A root that exists but is a file makes `iterdir` raise `NotADirectoryError`, which the source does not catch. The model returns the value `NotADirectoryError` instead.
- Find: only a non-negative start is modelled; the source never passes a negative one.
