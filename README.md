# Directory scanners and INI value inference, modelled in Dafny

The repository is a small set of scripts:

- Two scripts list the files with a given extension in each of several
  directories.
  - `filesindir_flat.py` looks only in each directory itself.
  - `filesindir_recursive.py` takes a depth per directory:
    - `0` means the directory itself;
    - `-1` means unlimited recursion, through `rglob`;
    - any other `N` means a hand-written walk `collect_files` that goes `N`
      levels deep and tolerates permission errors.
- In both scripts, each request goes through two decorators (`validate_path`,
  then `validate_extension` with its fixed set of fourteen extensions). A
  request that passes reports the names and stems of what was found.
  `scan_directories` runs every combination of directory and extension,
  taken from `itertools.product`.
- `cfp2json.py` converts an INI file into JSON. Its `infer_type` turns each
  value into a boolean, an integer, a float or the stripped string.

The model has these parts:

- **File system** (`fs_tree.dfy`, module `FsTree`):
  - The scanned file system is a finite tree. Each directory carries a
    `denied` flag, meaning that listing it raises a permission error, and its
    entries in enumeration order.
  - A found path is a `Route`: the index of each directory from the root down,
    ending with the index of the entry in its own directory.
  - `glob("*" + ext)` is `Glob`.
  - pathlib's `name` is `NameAt` and its `stem` is `Stem`.
- **Requests** (`requests.dfy`, module `Requests`): the two decorators, their
  order, and the names/stems report. Both scanners share these.
- **Depth-controlled scanner** (`files_in_dir_recursive.dfy`, module
  `FilesInDirRecursive`):
  - `collect_files` is a method, `CollectFiles`, that appends to the shared
    result list. It is proved equal to the function `Collect`.
  - Most of what is proved is about `Collect`: exactly which entries it
    finds, pre-order, the depth bound, monotonicity in the depth, saturation
    at the tree's height, and that a permission error is contained to its
    sub-tree.
  - The three depth cases of `get_files_by_extension`, the decorated request
    and `scan_directories` are methods on top of it.
- **Flat scanner** (`files_in_dir_flat.dfy`, module `FilesInDirFlat`): the
  flat script's functions, and its relation to depth 0 of the other scanner.
- **INI converter** (`cfp2json.dfy`, module `Cfp2Json`): `infer_type` and the
  loop that builds one dictionary per section.
- **Helpers**: `ascii.dfy` and `sequences.dfy` hold character classes,
  subsequences and the Cartesian product.

## Model

| member | source | states |
|---|---|---|
| Requests.Guard | filesindir_recursive.py:5-31 | The request runs exactly when the path is a directory and the lower-cased extension is known. A missing path is rejected as not existing, and an existing non-directory as not a directory. An unknown extension is rejected only for a directory. |
| Requests.PathCheckedFirst | filesindir_recursive.py:69-70 | For a path that is not a directory, the verdict does not depend on the extension: the extension check never runs. |
| Requests.KnownExtensionsArePlain | filesindir_recursive.py:20-23 | Every known extension is a dot followed by dot-free text, and is already lower case. |
| Requests.AcceptedExtensionIsPlain | filesindir_recursive.py:27 | An extension accepted in any letter case has the plain `.xyz` shape. Its lower-case spelling is accepted too. |
| Requests.ExtensionExamples | filesindir_flat.py:70 | `.pyx` is rejected. `.TXT` and `.Pdf` are accepted, because the check lower-cases. |
| Requests.Report | filesindir_recursive.py:74-75 | The report keeps the found files. It has one name and one stem per file: name `i` is the name of file `i`, and stem `i` is the stem of that name. |
| FsTree.NameAt | filesindir_recursive.py:74 | A file has a name only if its route starts at an entry of the root and, when it goes deeper, passes through a sub-directory. |
| FsTree.Stem | filesindir_recursive.py:75 | The stem is a prefix of the name. It is either the whole name or the part before a dot that is neither the first nor the last character and has no dot after it. |
| FsTree.Glob | filesindir_recursive.py:44 | Globbing a denied directory yields nothing. |
| FsTree.GlobMembers | filesindir_recursive.py:55 | Glob yields exactly the entries of the directory whose name ends with the extension, files and sub-directories alike. Each appears once, in enumeration order. |
| FsTree.GlobSorted | filesindir_recursive.py:55 | Glob's result is in pre-order. |
| FsTree.GlobSameNames | filesindir_recursive.py:44 | Glob depends only on the denial flag and the entry names, not on what the sub-directories contain. |
| FsTree.SortedUnique | filesindir_recursive.py:52-64 | Two pre-ordered listings of the same set of routes are equal. |
| FsTree.StemDropsExtension | filesindir_recursive.py:75 | For a plain extension, the stem of a longer name carrying it is the name with the extension cut off. A name that is only the extension is its own stem. |
| FilesInDirRecursive.Collect | filesindir_recursive.py:52-64 | A denied directory contributes nothing. At the depth limit, a directory contributes only its own glob. |
| FilesInDirRecursive.CollectMembers | filesindir_recursive.py:52-64 | `collect_files` finds exactly those matches whose directory is reachable within the limit: the route extends the prefix and `Reach` holds of the rest. |
| FilesInDirRecursive.DescendMembers | filesindir_recursive.py:59-61 | The loop over the first `n` entries finds exactly the reachable matches inside the sub-directories among them. |
| FilesInDirRecursive.VisitMembers | filesindir_recursive.py:60-61 | One entry contributes the reachable matches below it if it is a directory, and nothing if it is a file. |
| FilesInDirRecursive.CollectSorted | filesindir_recursive.py:55-61 | The result is in pre-order: a directory's own matches first, then each sub-directory's results in enumeration order. |
| FilesInDirRecursive.DescendBeforeVisit | filesindir_recursive.py:59-61 | Everything found in earlier entries comes before what a later entry contributes. |
| FilesInDirRecursive.CollectIsThePreorderListing | filesindir_recursive.py:52-64 | Any pre-ordered listing of exactly the reachable matches equals the walk's result. |
| FilesInDirRecursive.ReachDepth | filesindir_recursive.py:58 | A reachable match lies in a directory at most `maxDepth` levels below the start. |
| FilesInDirRecursive.DepthBound | filesindir_recursive.py:58-61 | Every entry returned for limit `maxDepth` lies in a directory at level at most `maxDepth` (level 0 for a limit of 0 or less). |
| FilesInDirRecursive.NonPositiveLimitIsRootOnly | filesindir_recursive.py:58 | When the level has reached the limit (any limit of 0 or below at the root), the walk yields just the directory's own glob. |
| FilesInDirRecursive.CollectIgnoresBelowLimit | filesindir_recursive.py:58-61 | Cutting the tree below the limit changes nothing: deeper directories are never visited. |
| FilesInDirRecursive.DescendIgnoresBelowLimit | filesindir_recursive.py:59-61 | The same holds for the loop over the entries. |
| FilesInDirRecursive.CollectMonotone | filesindir_recursive.py:58-61 | Raising the limit by one only inserts entries: the old result is a subsequence of the new one. |
| FilesInDirRecursive.DescendMonotone | filesindir_recursive.py:59-61 | The same holds for the loop over the entries. |
| FilesInDirRecursive.HeightAbove | filesindir_recursive.py:59-61 | A sub-directory is at least one level lower than its parent's height. |
| FilesInDirRecursive.ReachIsReachAny | filesindir_recursive.py:45-61 | Every match the limited walk reaches is also a match of the unlimited search. |
| FilesInDirRecursive.ReachAnyIsReach | filesindir_recursive.py:45-61 | With at least the tree's height left to go, the limited walk reaches every match of the unlimited search. |
| FilesInDirRecursive.Saturation | filesindir_recursive.py:45-61 | Once the limit reaches the tree's height, the walk finds exactly the matches of the unlimited search. |
| FilesInDirRecursive.DenialIsContained | filesindir_recursive.py:53-64 | Making one sub-directory unreadable removes exactly the results below it. Everything else, its siblings included, is found unchanged and in the same order. |
| FilesInDirRecursive.DescendDenied | filesindir_recursive.py:59-64 | The same holds for the loop over the entries. |
| FilesInDirRecursive.VisitDenied | filesindir_recursive.py:59-64 | The unreadable sub-directory contributes nothing. Everything it contributed before lay below it. |
| FilesInDirRecursive.VisitBesideDenied | filesindir_recursive.py:59-61 | Every other entry contributes as before, and nothing it contributes lies below the unreadable sub-directory. |
| FilesInDirRecursive.ReachAnyNamed | filesindir_recursive.py:47 | Every match, at any depth, is named with the extension. |
| FilesInDirRecursive.CollectFiles | filesindir_recursive.py:52-64 | The recursive walk appends exactly `Collect` to the list it is given. On a denied directory it keeps that directory's glob and skips its sub-directories. |
| FilesInDirRecursive.GetFilesByExtension | filesindir_recursive.py:40-67 | The result fits `FilesFor`: the root's glob for depth 0; for -1, every match at any depth exactly once; otherwise the walk with that limit. |
| FilesInDirRecursive.RootOnlyListing | filesindir_recursive.py:42-44 | Depth 0 gives exactly the root's own entries that match, once each, in enumeration order. |
| FilesInDirRecursive.LimitedListing | filesindir_recursive.py:48-67 | Any depth other than -1 gives the pre-ordered listing of exactly the reachable matches, within the depth bound. A depth of 0 or less gives the root's glob. |
| FilesInDirRecursive.DepthMonotone | filesindir_recursive.py:48-67 | For `N >= 0`, the result for `N` is a subsequence of the result for `N + 1`. |
| FilesInDirRecursive.DepthSaturates | filesindir_recursive.py:45-67 | For `N` at least the tree's height, the result for `N` has exactly the entries of the result for -1. |
| FilesInDirRecursive.FilesAreMatches | filesindir_recursive.py:40-67 | At every depth, each returned entry is a match of the unlimited search and is named with the extension. |
| FilesInDirRecursive.UnlimitedCoversLimited | filesindir_recursive.py:40-67 | The result for -1 contains the result for every other depth, in particular for 0. |
| FilesInDirRecursive.ProcessFiles | filesindir_recursive.py:69-75 | A rejected request is skipped with the decorators' reason. An accepted one lists the files for the requested depth, with their names and stems. |
| FilesInDirRecursive.ListedNamesAndStems | filesindir_recursive.py:73-75 | In a listing, name `i` is the name of file `i` and ends with the extension. Stem `i` plus the extension is name `i`, except for a name that is only the extension. |
| FilesInDirRecursive.ScanDirectories | filesindir_recursive.py:87-90 | There is one outcome per element of the product of (directory, depth) pairs and extensions. Outcome `k` is an admissible outcome of request `k`, in the product's order. |
| FilesInDirRecursive.ScanOrder | filesindir_recursive.py:89-90 | The order is directory-major: outcome `i * |exts| + j` is admissible for pair `i` (directory and depth) and extension `j`. |
| Sequences.Product | filesindir_recursive.py:89 | The product has `|xs| * |ys|` elements. |
| Sequences.ProductAt | filesindir_recursive.py:89 | Element `i * |ys| + j` of the product is `(xs[i], ys[j])`. |
| FilesInDirFlat.GetFilesByExtension | filesindir_flat.py:42-44 | The result is exactly the root's matching entries, once each, in enumeration order. |
| FilesInDirFlat.ProcessFiles | filesindir_flat.py:46-52 | Path checks come first, then the extension. An accepted request lists the root's glob, with name `i` the name of file `i` and stem `i` the stem of that name. |
| FilesInDirFlat.ScanDirectories | filesindir_flat.py:58-61 | There is one outcome per combination. |
| FilesInDirFlat.ScanOrder | filesindir_flat.py:60 | Outcome `i * |exts| + j` is the request for directory `i` and extension `j`. |
| FilesInDirFlat.FlatIsDepthZero | filesindir_flat.py:42-52 | The flat scanner's listing and outcome are those of the depth-controlled scanner at depth 0. |
| FilesInDirFlat.PyxRequestsSkipped | filesindir_flat.py:70-73 | With the script's four extensions, every fourth request (the one for `.pyx`) is skipped, whatever the directory. For three directories, that is three of the twelve requests. |
| Cfp2Json.Strip | cfp2json.py:6 | Neither end of the stripped text is white space, and it is no longer than the input. |
| Cfp2Json.StripTrimmed | cfp2json.py:6 | Stripping text whose ends are not white space leaves it unchanged. |
| Cfp2Json.StripIdempotent | cfp2json.py:6 | Stripping twice is stripping once. |
| Cfp2Json.StripBlank | cfp2json.py:6 | Text made only of white space strips to the empty string. |
| Cfp2Json.StripPadded | cfp2json.py:6 | White space before and after trimmed, non-empty text, in any amount on each side, is removed, and nothing else is. |
| Cfp2Json.LeadingDigits | cfp2json.py:12-14 | Gives the length of the longest digit prefix. |
| Cfp2Json.FloatTextIsPattern | cfp2json.py:14 | The scanning test accepts exactly the texts of the form one or more digits, a dot, any digits. |
| Cfp2Json.IsInteger | cfp2json.py:12 | A text matches `\d+` exactly when it is non-empty and its leading digits are all of it. |
| Cfp2Json.IsFloatText | cfp2json.py:14 | A text matching `\d+\.\d*` contains only digits and dots. |
| Cfp2Json.DecimalValue | cfp2json.py:13 | The value `int` reads from `n` digits is below `10^n`. It is zero exactly when every digit is `0`. |
| Cfp2Json.DecimalRoundTrip | cfp2json.py:12-13 | A number's decimal rendering is an integer text that reads back as the number. |
| Cfp2Json.LeadingZeros | cfp2json.py:13 | Leading zeros do not change the value `int` reads. |
| Cfp2Json.InferType | cfp2json.py:5-16 | A boolean result means the lower-cased stripped text is one of the words. An integer result means the stripped text is all digits, with the integer being its value. A float result means the stripped text has the float pattern. A string result is the stripped text. |
| Cfp2Json.WordsAreNotNumeric | cfp2json.py:8-12 | No boolean word starts with a digit. |
| Cfp2Json.InferTypeCases | cfp2json.py:5-16 | Each outcome holds if and only if its condition holds and the earlier checks failed. |
| Cfp2Json.InferDecimal | cfp2json.py:12-13 | The decimal rendering of every natural number is inferred as that integer. |
| Cfp2Json.InferPaddedDecimal | cfp2json.py:6-13 | Leading zeros, and any white space before and after, do not change the inferred integer. |
| Cfp2Json.NumbersStartWithDigit | cfp2json.py:12-16 | Stripped text that is empty or does not start with a digit is a boolean word or a string. |
| Cfp2Json.NumbersAreDigitsAndDot | cfp2json.py:12-15 | A character other than a digit or a dot rules out both numeric results. |
| Cfp2Json.BlankIsEmptyString | cfp2json.py:6-16 | Empty or blank input is inferred as the empty string. |
| Cfp2Json.StrIsFixedPoint | cfp2json.py:6-16 | Inferring the type of a string result again gives the same string. |
| Cfp2Json.FloatExamples | cfp2json.py:14-15 | `1.`, with no digits after the dot, is a float literal. |
| Cfp2Json.PaddedFloatExample | cfp2json.py:6-15 | `3.25` with any white space before and any after is the float literal `3.25`. |
| Cfp2Json.StringExamples | cfp2json.py:12-16 | `.5`, `-1` and `+2` stay strings. |
| Cfp2Json.ExponentExample | cfp2json.py:14-16 | `1e3` stays a string. |
| Cfp2Json.InferIgnoresPadding | cfp2json.py:6 | A value and its stripped form are inferred alike. |
| Cfp2Json.IntAndWordExamples | cfp2json.py:7-13 | `007` is 7. ` Yes` is true and `OFF` is false, whatever the case. The empty value is the empty string. |
| Cfp2Json.AssocMembers | cfp2json.py:26 | A dictionary filled in order has exactly the keys of the pairs. Each key holds the value of its last pair. |
| Cfp2Json.SectionValuesMembers | cfp2json.py:26 | A section's dictionary has one entry per key, holding the inferred type of that key's last value. |
| Cfp2Json.SectionsMembers | cfp2json.py:22-26 | The dictionary of all sections has exactly the section names as keys. Each name holds the converted items of its last section. |
| Cfp2Json.IniToData | cfp2json.py:22-26 | The loop builds the dictionary of all sections. Its keys are exactly the section names, and each name maps to the converted items of its last section. |

## Left out

- Real file-system access is not modelled. The tree is given as a value, and `exists()` / `is_dir()` are abstracted as the three-way `PathState`.
- Symbolic links, files changing during a scan, and permission errors other than "this directory cannot be listed" are not modelled.
- Globbing a denied directory is taken to yield nothing, because pathlib's glob suppresses the listing error.
- Glob patterns are modelled only as "name ends with the extension". Extensions that contain glob metacharacters are not, and matching is case-sensitive, as on POSIX systems.
- `FilesInDirRecursive.GetFilesByExtension`: for depth -1, the contract fixes only which entries `rglob` returns, each once, not their order, which the library decides. The body produces one admissible order.
- `FsTree.Stem` follows pathlib's long-standing rule: the suffix starts at the last dot, provided that dot is neither the first nor the last character. Version differences in how a name ending in a dot is treated are not modelled.
- Printing is left out: `print_list`, the messages of the decorators and the `depth_desc` text. They are presentation only. A skipped request is an `Outcome` value `Skipped(reason)`.
- The module-level driver code of each script is left out (the directory lists under the home directory and the call of `scan_directories`). `FilesInDirFlat.PyxRequestsSkipped` covers the flat script's extension list.
- `filesindir_simple.py` is not part of this model.
- `validate_path` skips a request for a missing path and returns `None`. The model's outcome is `Skipped(DoesNotExist)`, not an empty listing.
- `configparser` is left out: reading and parsing the file, the DEFAULT section and its merging into every section, the lower-casing of option names, and interpolation. This also covers duplicate names, which `configparser` would reject. The model takes the parsed sections and items as input and gives repeated names the dictionaries' last-one-wins behaviour.
- Writing the JSON file (`json.dump`) is left out.
- `Cfp2Json.IniToData`: Python dictionaries keep insertion order, and `json.dump` writes the sections and keys in that order. The model's `map` values do not keep it; only which keys appear and what they hold is modelled.
- `Cfp2Json.InferType`: CPython's `int(v)` raises `ValueError` for a digit string longer than 4300 characters (`sys.int_info.default_max_str_digits`). The model reads digit strings of any length, so `Cfp2Json.InferDecimal` and `Cfp2Json.InferPaddedDecimal`, which cover every natural number, go beyond what the program accepts.
- `Cfp2Json.InferType`: a float result keeps its text instead of a floating-point number, because floating point is not modelled.
- `Cfp2Json.InferType`: white space, digits and lower-casing cover ASCII only. Python's `str.strip`, `\d` and `str.lower` also act on other Unicode characters.
- The depth-controlled scanner is not modelled for a directory that becomes unreadable midway through `iterdir`. A directory is either fully listable or denied from the start.
