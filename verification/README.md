# WIZ data selection: a verified model

WIZ loads tabular numeric data, lets the user pick two columns and a part of
the rows, and builds plots from the result. This project models the selection
and text logic of its start window (`WIZ.py`, class `InitialWindow`):

- **Slice selection** (`sliceData`): a pair of parallel arrays `(x, y)` is
  cut by index, with the entries truncated toward zero and handed to Python's
  slicing, or by x-value, with both entries turned into positions by numpy's
  left-side `searchsorted`. The same window is taken from both arrays. Python's
  slicing is modelled in full: negative bounds count from the end and bounds
  out of range are clamped (module `PySlice`). `searchsorted` is a binary
  search checked against a left-to-right reference definition of the lower
  bound (module `SearchSorted`). The slice itself is in module `Slicing`.
- **Source-type dispatch** (`loadRawData`, `load`): the extension is
  `path[path.rfind("."):]`, and only `.npy` goes straight to loading without
  chunking. Everything else goes through the preview (module `SourceType`).
- **Column detection for the preview** (`loadRawData`): the first eleven lines
  are kept. The column count is the number of matches of the float-literal
  pattern `[+-]?(\d+(\.\d*)?|\.\d+)([eE][+-]?\d+)?` that `re.findall` finds in
  the first line, or in the second line when the first has none. The pattern
  is modelled twice: as a deterministic scanner, and as a declarative
  description of its language. The lemmas show that the scanner finds exactly
  the leftmost-longest non-overlapping literals (modules `FloatScan` and
  `Preview`).

The values of `x` and `y` are modelled as `real`. They are only compared and
copied, never computed with. The file to preview arrives as its sequence of
lines, and the user's entries arrive as numbers.

Two details of the code, which the model follows:
- every mode other than 0 selects by value;
- a negative index bound counts from the end of the data instead of being clamped.

## Model

| member | source | states |
|---|---|---|
| `PySlice.Slice` | WIZ.py:235 | `s[b:e]` is the contiguous run of `s` that starts at the resolved begin. Its length is `max(0, end - begin)` after resolution, so reversed or out-of-range bounds never fail. |
| `PySlice.SliceNonNegative` | WIZ.py:235 | With non-negative bounds the result has `max(0, min(e,n) - min(b,n))` elements and is `s[min(b,n)..min(e,n)]`. |
| `PySlice.SliceFromEnd` | WIZ.py:104 | A negative bound within range denotes position `len(s) + b`. |
| `SearchSorted.LowerBound` | WIZ.py:238 | The reference lower bound lies in `[0, n]`. Every element before it is `< v`, and the element at it (if any) is `>= v`. |
| `SearchSorted.LowerBoundPartitions` | WIZ.py:238 | On non-decreasing `x`, every element from the lower bound on is `>= v`. |
| `SearchSorted.PartitionIsLowerBound` | WIZ.py:238 | Any index that splits `x` into `< v` and `>= v` is the lower bound, so the split point is unique. |
| `SearchSorted.LowerBoundMonotone` | WIZ.py:238 | On non-decreasing `x`, `v <= w` implies `LowerBound(x, v) <= LowerBound(x, w)`. |
| `SearchSorted.SearchSortedLeft` | WIZ.py:238 | numpy's left-side binary search. For any `x` it returns a boundary `i` in `[0, n]` with `x[i-1] < v <= x[i]`. On non-decreasing `x` it returns the lower bound. |
| `Slicing.Trunc` | WIZ.py:235 | `int(f)` truncates toward zero: the result is within 1 of `f`, on the same side of zero and no further from zero. |
| `Slicing.Window` | WIZ.py:235 | The same slice of `x` and `y`: equal-length inputs give equal-length outputs. |
| `Slicing.Sliced` | WIZ.py:228-240 | Specification of `sliceData`: the result is never longer than the input, and stays paired when the input is. |
| `Slicing.SliceData` | WIZ.py:228-240 | `sliceData` as executed, calling the binary search in value mode. In index mode, and in value mode on non-decreasing `x`, it returns exactly `Sliced`. |
| `Slicing.InRange` | WIZ.py:237-239 | Reference selection: the samples whose x lies in `[lo, hi)`, each with its own y, in order. |
| `Slicing.SlicedKeepsPairs` | WIZ.py:233-239 | In either mode the result is one contiguous run that starts at the same position in `x` and `y`, so pairs stay paired. |
| `Slicing.IndexSliceLength` | WIZ.py:235 | In index mode with non-negative truncated bounds, the result has `max(0, min(e,n) - min(b,n))` samples. |
| `Slicing.ValueBoundsOrdered` | WIZ.py:238 | In value mode on non-decreasing `x`, `begin <= end` implies `newBegin <= newEnd`. |
| `Slicing.Run` | WIZ.py:235 | The in-range form of `Window`: for positions inside the arrays it equals `Window(data, b, e)`, and both halves have `e - b` samples, or none when `b >= e`. |
| `Slicing.InRangeEmpty` | WIZ.py:237-239 | A range with `end < begin` selects no samples. |
| `Slicing.InRangeIsWindow` | WIZ.py:238-239 | On non-decreasing `x`, the samples in `[lo, hi)` are exactly the window between the two lower bounds. |
| `Slicing.ValueSliceSelectsRange` | WIZ.py:237-239 | In value mode on non-decreasing `x`, the result is exactly the samples with `begin <= x < end`, in their original order. |
| `Slicing.DefaultEntries` | WIZ.py:209-211 | The pre-filled start and end entries truncate to position 0 and to the number of samples. |
| `Slicing.DefaultEntriesKeepAll` | WIZ.py:209-211 | The pre-filled entries `"0"` and `str(len(x))`, in the default index mode, give back the whole dataset. |
| `Slicing.IndexPrefixIdempotent` | WIZ.py:235 | Taking the first `k` samples of a result that already holds the first `k` samples changes nothing. |
| `Slicing.ValueAgreesWithIndex` | WIZ.py:234-239 | When every x equals its index, value mode with bounds `b` and `e` selects the same samples as index mode. |
| `SourceType.RFind` | WIZ.py:104 | `rfind` gives the last index holding the character, or -1 when it occurs nowhere. |
| `SourceType.Extension` | WIZ.py:104 | `path[path.rfind("."):]` is a suffix of the path, and a non-empty path has a non-empty extension. `ExtensionFromLastDot` and `ExtensionWithoutDot` pin down which suffix. |
| `SourceType.IsBinary` | WIZ.py:106 | A path counts as binary only when it ends in `.npy`; `BinaryIffNpySuffix` gives the converse. |
| `SourceType.Dispatch` | WIZ.py:101-106 | No path picked means the error label, and only then. The binary route loads without chunking, and the preview starts with chunking checked (WIZ.py:166-173). |
| `SourceType.ExtensionFromLastDot` | WIZ.py:104 | With a `.` in the path, the extension is the tail from the last `.`. It starts with `.`, holds no other `.`, and the path is head + extension. |
| `SourceType.ExtensionWithoutDot` | WIZ.py:104 | Without a `.` in the path, the extension is the path's last character. |
| `SourceType.BinaryIffNpySuffix` | WIZ.py:104-106 | The binary test holds exactly when the path ends in `.npy` (case-sensitive). |
| `SourceType.DispatchByExtension` | WIZ.py:101-173 | A picked path goes straight to loading, unchunked, exactly when it ends in `.npy`. Every other path is previewed with chunked reading pre-selected. |
| `FloatScan.DigitRun` | WIZ.py:119 | `\d+` taken greedily: everything counted is a digit, and what follows is not. |
| `FloatScan.ExpStart` | WIZ.py:119 | The mantissa/exponent split point is the first `e` or `E` (or the end). |
| `FloatScan.MantissaEnd` | WIZ.py:119 | A mantissa match is non-empty and made of digits and points only. |
| `FloatScan.ExponentEnd` | WIZ.py:119 | The optional exponent starts at the match position with an `e` or `E`, or is empty. |
| `FloatScan.MatchAt` | WIZ.py:119 | A match at `p` is non-empty and ends within the line. |
| `FloatScan.MatchTable` | WIZ.py:119 | The pattern's match at every position of the line. Each listed match starts at its position, is non-empty and ends inside the line. |
| `FloatScan.LiteralWithinMatch` | WIZ.py:119 | Every float literal starting at `p` ends no later than the scanner's match there, so a match exists. |
| `FloatScan.MatchIsLongestLiteral` | WIZ.py:119 | The scanner's match is a float literal and the longest one starting there. It holds a digit, and an exponent appears in it only when digits follow the `e`/`E`. |
| `FloatScan.NoMatchNoLiteral` | WIZ.py:119-121 | Where the scanner finds no match, no float literal starts. |
| `FloatScan.MatchIsLiteral` | WIZ.py:119 | The scanner's match is a float literal of the pattern's language. |
| `FloatScan.MatchHasDigit` | WIZ.py:119 | The scanner's match holds at least one digit. |
| `FindAll.Scan` | WIZ.py:121 | findall's spans, for any table of non-empty matches, lie from the start position to the end of the text, are non-empty, run left to right and do not overlap. |
| `FindAll.ScanSpanIsMatch` | WIZ.py:121 | Each span findall reports is the table's match at the span's start. |
| `FindAll.ScanSkipsOnlyNonMatches` | WIZ.py:121 | A position that no reported span covers starts no match in the table. |
| `FindAll.ScanIsFindAll` | WIZ.py:121 | Both together: every span is the match at its start, and no uncovered position starts a match, so no match is skipped. |
| `FloatScan.FindFloats` | WIZ.py:121 | `re.findall` on a line: the spans are non-empty, inside the line, left to right and non-overlapping. |
| `FloatScan.FoundFloatsAreLiterals` | WIZ.py:119-121 | Every match findall reports is a longest float literal and holds at least one digit. |
| `FloatScan.FindFloatsSkipsNoLiteral` | WIZ.py:119-121 | A position that no reported match covers starts no float literal, so findall misses none. |
| `FloatScan.CountFloats` | WIZ.py:127 | `len(numbers)`: every match takes at least one character, so a line never has more columns than characters. |
| `FloatScan.CountFloatsPositiveIffLiteral` | WIZ.py:121-138 | A line has a column count above zero exactly when some float literal occurs in it. |
| `Preview.CollectPreview` | WIZ.py:109-118 | The preview keeps the first `min(11, n)` lines in file order (the label says ten) and remembers the first and second lines when they exist. |
| `Preview.DetectColumnsAsWritten` | WIZ.py:119-132 | Column detection as the source has it: the error label exactly when there is no first line. Otherwise it counts the first line's literals, or the second line's when the first has none; the remaining case (no literal, no second line) is the crash. |
| `Preview.DetectColumns` | WIZ.py:119-132 | Corrected column detection never crashes. It shows the error label exactly when there is no first line, or when the first line has no literal and there is no second line. Otherwise it counts the first line's literals, or the second line's when the first has none. |
| `Preview.AsWrittenDiffersOnlyInHandler` | WIZ.py:126-132 | As written, the source crashes exactly when the first line has no literal and there is no second line. Everywhere else it agrees with the corrected detection. |
| `Preview.HeaderOnlyFileCrashes` | WIZ.py:126-131 | The one-line file `"t\n"` makes the source raise, where the corrected detection shows the error label. |
| `Preview.PreviewFile` | WIZ.py:107-138 | The text branch, with the error handler at WIZ.py:130-131 corrected, keeps the first `min(11, n)` lines and never crashes. It shows the error label exactly for an empty file, or a one-line file without a literal. Otherwise the count is that of the first line, or of the second line when the first has none. |

## Findings

| source | as written | input that shows it | evidently intended | confidence | as-written member | corrected member |
|---|---|---|---|---|---|---|
| WIZ.py:130-131 | The handler for a missing second line calls `self.eror.pack()`. No such attribute exists, so an AttributeError escapes the Tk callback. | A file whose only line holds no number, e.g. the lone header `"t\n"` | `self.error.pack()`: show the "Invalid selection" label and return, as the first-line handler does (WIZ.py:123-125) | high, not executed | `Preview.DetectColumnsAsWritten`, shown by `Preview.HeaderOnlyFileCrashes` | `Preview.DetectColumns`, used by `Preview.PreviewFile` |

## Left out

- All Tk widgets, dialogs, message boxes, progress bars, the preview table and `mainloop`: these are user interface. The file dialog's result becomes the `path` parameter.
- Reading the file: the preview takes the file's lines as input. The `print` statements are left out.
- Settings file read and write and template unpickling (`__init__`, `createFromTemplate`), and loading projects (`loadProject`): file I/O and deserialisation.
- `applyTemplate`, `createMain` and `createBlankProject`: they drive the expression-chain and window classes, which are not part of this model. `callFunc`, which receives the slice result, is left out for the same reason.
- `MainWindow.loadData` (chunked reading, column selection, header skip, cleaning) and `Graph`: they are called from here, but their code is not part of this model.
- Parsing of the entry texts with `float(...)` and `int(...)`: the entries arrive as numbers. NaN, infinities and the OverflowError of `int(inf)` are not modelled, because values are `real`.
- The per-line values shown in the preview table (`re.findall` on each kept line): only the column count and the match spans are modelled.
- `Slicing.SliceData`: on x that is not non-decreasing it promises only that the result is no longer than the input. numpy's search for several keys reuses the previous key's result, which changes positions only on such unsorted data; that shortcut is not modelled.
- All of `GraphWindow.py`: plotting and window management, curve fitting through `getCurveFit`, and `addSlice`, which repeats the `searchsorted` step modelled here.
