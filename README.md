# mget core in Dafny

A model of `mget/core.py`, the core of `mget`, a small wget clone. The model
covers the three parts of `download(url, output_name)`:

- **File name.** It takes the last segment of the URL path (`filenameFromUrl`).
  The extension is what follows the last dot. When there is no dot, the
  extension comes from the first `/word` of the `content-type` header
  (`getFileExtension`).
- **Collision avoidance.** When an entry of the working directory starts with
  `name.ext` (`isExist`), the name becomes `name (N).ext`, where N is one more
  than the largest ` (N)` counter found in the listing (`fixFileExists`).
- **Streaming loop.** Before each chunk it clamps a display counter to the
  announced size and draws the progress bar for it (`progressBar`). It then
  advances that counter by the chunk size, whatever the length of the chunk
  actually received, and writes the chunk. When the counter has reached the
  announced size, it draws one last, full bar.

Modules:

- `Base` holds results that carry the Python exception.
- `Strings` holds the pieces of `str` behaviour the code relies on:
  - `rsplit('.', 1)`
  - `replace(name, '')`
  - `strip`
  - `%d`
  - `int()` of digits
- `Naming` holds `filenameFromUrl`, `getFileExtension`, `isExist`,
  `fixFileExists` and the name resolution of `download`.
- `Progress` holds `progressBar` with `decimals=0`.
- `Transfer` holds the loop and `download`.

Several things the program would normally get from the outside world are
parameters instead:

- The directory listing (`os.listdir(DIRNAME)`) is a `seq<string>`.
- The server reply is a `Response` value. It carries:
  - the status
  - the size from the `content-length` header, after `int`
  - the `content-type` header
  - the chunks `iter_content` yields
- The written file and the terminal are the out-parameters `data` (bytes) and
  `renders` (the lines written to stdout).

Integers are unbounded, as in Python. Python's `round` and `'{:.0f}'` are
modelled on the exact quotient, rounding half to even; "## Left out" says where the floating-point result can differ.

Where the code's behaviour is surprising, the model follows the code:

- **Listing directory.** The listing that `isExist` and `fixFileExists`
  consult is that of `DIRNAME`, the working directory when the program
  started. It is not the output directory.
- **Two different tests.** `isExist` tests the full `name.ext`.
  `fixFileExists` collects counters from entries that start with the bare
  `name`.
- **No guarantee of a fresh name.** The docstring of `fixFileExists`
  (`mget/core.py:70-71`) promises a name that does not exist yet. The chosen
  ` (N)` name is not always absent from the listing:
  - `Naming.FixFileExistsCanCollide`: the name `)` with `).pdf` and `) (1).pdf`
    present yields `) (1).pdf` again.
  - `Naming.FixFileExistsEmptyCounter`: the name `1` makes `int('')` raise.
  - `Naming.FixFileExistsFresh`: freshness does hold whenever the name has a
    character other than space, parentheses and digits, and the extension has
    no dot.
- **Zero size.** A size of 0 with at least one chunk is a ZeroDivisionError in
  the first `progressBar` call. It does not fall back to another rendering. The
  `except Exception` around the loop catches it, so the file stays empty and
  nothing is drawn.
- **Eleven renders.** A 10 MiB reply read in ten 1 MiB chunks draws eleven
  lines (`Transfer.TenChunks`):
  - one line before each chunk, starting at 0%
  - the final full bar.
- **Unused option.** The `--chunk_size` command-line option is parsed but not
  used. The loop always uses `defaults["chunk_size"]`, 1 MiB.

## Model

| member | source | states |
|---|---|---|
| Base.Min | mget/core.py:137 | `min(chunk_size, total_size)` is at most both arguments and is one of them |
| Strings.LastIndexOf | mget/core.py:119 | None exactly when the character is absent; otherwise the index holds it and no later position does |
| Strings.RSplitDot | mget/core.py:119 | `rsplit('.', 1)` gives one part exactly when there is no dot; otherwise the parts rejoin with a dot to the input and the tail has no dot |
| Strings.RSplitDotJoin | mget/core.py:119 | splitting `a + "." + b` at the last dot gives back `(a, b)` when `b` has no dot |
| Strings.DeleteAll | mget/core.py:77 | `replace(p, '')` never lengthens the string |
| Strings.DeleteAllLeading | mget/core.py:77 | a leading copy of the pattern is deleted and the scan continues after it |
| Strings.DeleteAllKeep | mget/core.py:77 | a first character that differs from a one-character pattern is kept and the scan moves on |
| Strings.DeleteAllAbsent | mget/core.py:77 | a pattern holding a character the string lacks is never found, so the string is unchanged |
| Strings.TrimStart | mget/core.py:45 | `lstrip` removes exactly a prefix of stripped characters and stops at a kept one |
| Strings.TrimEnd | mget/core.py:45 | `rstrip` removes exactly a suffix of stripped characters and stops at a kept one |
| Strings.StripEmpty | mget/core.py:45 | `strip` leaves nothing exactly when every character is one of the stripped set |
| Strings.Strip | mget/core.py:45 | `strip` never lengthens the string, leaves no stripped character at either end, and leaves alone a string whose ends are both kept |
| Strings.Repeat | mget/core.py:94 | `c * n` has `max(n, 0)` characters, all equal to `c` |
| Strings.DigitChar | mget/core.py:83 | a digit value becomes a digit character |
| Strings.DigitValue | mget/core.py:79 | a digit character has a value below 10 that maps back to it |
| Strings.ParseDecimal | mget/core.py:79 | `int()` of a one-digit string is below 10, and of several digits with no leading zero at least 10 |
| Strings.NatToDecimal | mget/core.py:83 | `%d` is a non-empty digit string, with no leading zero unless the value is 0, that `int()` reads back as the value |
| Strings.DecimalRoundTrip | mget/core.py:79-83 | a digit string without a leading zero, as `int()` reads it, is written back by `%d` as the same string |
| Naming.Basename | mget/core.py:44 | the basename has no slash, is a suffix of the path and is preceded by a slash when shorter than it |
| Naming.BasenameOfJoin | mget/core.py:44 | the basename of `dir + "/" + seg` is `seg` when `seg` has no slash |
| Naming.FilenameFromUrl | mget/core.py:41-47 | None exactly when the last segment consists only of spaces, newlines, tabs and dots; otherwise that segment |
| Naming.FirstSlashWord | mget/core.py:54-55 | the search finds a position where `\/\w` starts, at or after the start, and none earlier |
| Naming.WordRun | mget/core.py:54-58 | the group `(\w+)` is the maximal run of word characters |
| Naming.GetFileExtension | mget/core.py:50-58 | ValueError exactly when no `/` is followed by a word character; otherwise a non-empty run of word characters without a dot |
| Naming.GetFileExtensionMatch | mget/core.py:54-58 | the result is the word run after the first `/` that a word character follows |
| Naming.GetFileExtensionZip | mget/core.py:50-58 | `application/zip` gives `zip` |
| Naming.GetFileExtensionHtml | mget/core.py:50-58 | `text/html; charset=x` gives `html` |
| Naming.SplitName | mget/core.py:118-124 | a name with a dot splits at its last dot, without reading the header; otherwise a missing `content-type` is a KeyError and the extension comes from `getFileExtension`; the extension never has a dot |
| Naming.SplitNameLastDot | mget/core.py:119 | `name.ext` splits back into `(name, ext)` when `ext` has no dot |
| Naming.Matching | mget/core.py:65 | the comprehension keeps exactly the entries that start with the prefix |
| Naming.IsExist | mget/core.py:61-66 | true exactly when some listing entry starts with the full name |
| Naming.StripExtension | mget/core.py:76 | `rsplit('.', 1)[0]` cuts off a dot-free extension, and is the entry itself when it has no dot |
| Naming.CounterText | mget/core.py:78 | the slice `x[2:-1]` is taken exactly when the remainder starts with ` (` and ends with `)`, and is what lies between them |
| Naming.EntryCounter | mget/core.py:75-79 | an entry that does not start with the name carries no counter: the first comprehension drops it |
| Naming.Counters | mget/core.py:75-78 | one counter per entry of the listing |
| Naming.CountersAt | mget/core.py:75-78 | the counter at position i is that of entry i: the comprehensions act entry by entry |
| Naming.CountersCons | mget/core.py:75-78 | the counters of a listing are those of its first entry followed by those of the rest |
| Naming.ParsedCounters | mget/core.py:79 | ValueError exactly when some counter text is empty; otherwise the parsed counters, no more and no fewer |
| Naming.Max | mget/core.py:81-82 | `sorted(indexes)[-1]` is an element that bounds all others |
| Naming.IsNextIndexUnique | mget/core.py:80-82 | being above every counter and either 1 or one above an existing counter (`IsNextIndex`) fixes the index: two indexes that both meet it are equal |
| Naming.Decorated | mget/core.py:83 | `'%s (%d).%s'` starts with the name and ` (` and ends with `).` and the extension |
| Naming.FixFileExists | mget/core.py:69-83 | ValueError exactly when some counter is empty (both directions); otherwise `name (N).ext`, with N one above every counter and either 1 or one above an existing counter |
| Naming.FixFileExistsFails | mget/core.py:75-79 | the failure happens exactly when some listing entry's counter text is empty |
| Naming.NextIndexOf | mget/core.py:80-82 | `1 + sorted(indexes)[-1]`, or 1 for no indexes, is above every counter and next to the largest |
| Naming.EntryCounterOfDecorated | mget/core.py:75-79 | the name `name (N).ext` that fixFileExists writes reads back as counter N, when the name has a character outside space, parentheses and digits and the extension has no dot |
| Naming.StripDecorated | mget/core.py:76 | cutting the extension of `name (d).ext` leaves `name (d)` |
| Naming.DeleteLeadingName | mget/core.py:77 | deleting the name from `name (d)` leaves ` (d)` under the same condition on the name |
| Naming.FixFileExistsFresh | mget/core.py:69-83 | under that condition the chosen name is not in the listing |
| Naming.PairCounters | mget/core.py:75-78 | a two-entry listing has the two entries' counters |
| Naming.FixFileExistsPair | mget/core.py:80-83 | with one unnumbered and one numbered entry N, the result is `name (N+1).ext` |
| Naming.FixFileExistsReport | mget/core.py:69-83 | with `report.pdf` and `report (1).pdf` present the name is `report (2).pdf` |
| Naming.ReportPlain | mget/core.py:76-78 | `report.pdf` carries no counter |
| Naming.ReportNumbered | mget/core.py:76-79 | `report (1).pdf` carries counter 1 |
| Naming.ReportHasNameChar | mget/core.py:69-83 | `report` has a character that cannot occur in a counter suffix |
| Naming.FixFileExistsCanCollide | mget/core.py:69-83 | for the name `)` the result `) (1).pdf` is already in the listing |
| Naming.ParenPlain | mget/core.py:75-78 | `).pdf` carries no counter for the name `)` |
| Naming.ParenNumbered | mget/core.py:75-78 | `) (1).pdf` carries no counter for the name `)`, because its closing parenthesis is deleted too |
| Naming.FixFileExistsEmptyCounter | mget/core.py:79 | for the name `1`, `1 (1).pdf` leaves `()` and `int('')` raises |
| Naming.OneNumbered | mget/core.py:75-79 | `1 (1).pdf` leaves an empty counter for the name `1` |
| Naming.Disambiguate | mget/core.py:128-131 | `name.ext` is kept exactly when no entry starts with it; otherwise fixFileExists decides; the result is fresh when kept, or when the name has a non-counter character and the extension no dot; the only failure is the empty counter |
| Naming.NameTarget | mget/core.py:119-131 | a failure of the split is passed on unchanged; after a successful split, a failure of the collision step is passed on unchanged and its success gives the target; the only failures are the missing `content-type`, the ValueError of getFileExtension and the empty counter |
| Naming.ResolveTarget | mget/core.py:117-131 | AttributeError exactly when the URL gives no file name; otherwise exactly what NameTarget gives for that file name, so every failure of the split or of fixFileExists is passed on; on success the name and extension are the split of the file name and the full name is what Disambiguate gives for them, which is `name.ext` exactly when no entry starts with it, and then it is not in the listing |
| Progress.RoundHalfEven | mget/core.py:93 | `round(p / q)` is within one half of the quotient, and even on a tie |
| Progress.NearestPair | mget/core.py:93 | two integers within one half of a quotient are equal or both exactly one half away |
| Progress.RoundHalfEvenUnique | mget/core.py:93 | any integer within one half that is even on ties is the rounded quotient |
| Progress.RoundHalfEvenMonotone | mget/core.py:93 | a larger numerator never rounds lower |
| Progress.RoundHalfEvenExact | mget/core.py:93 | an exact multiple rounds to itself |
| Progress.RoundQuotient | mget/core.py:93 | `round(p / float(q))` for either sign of `q` is within one half of the quotient, and even on a tie |
| Progress.FilledCells | mget/core.py:93 | for a position in `[0, total]` the number of filled cells lies in `[0, b]` |
| Progress.PercentText | mget/core.py:92 | the percentage is non-empty, starts with `-` or a digit and has only digits after that; it starts with `-` exactly when the float quotient is negative (including `-0` for a zero position and negative total); its value is pinned only for a non-negative position and a positive total, where it is `%d` of the rounded `100 * curr / total` |
| Progress.Bar | mget/core.py:94 | for a filled count in `[0, b]` the bar has `b` cells, the first `filled` of them full and the rest empty |
| Progress.ProgressBar | mget/core.py:86-96 | ZeroDivisionError exactly when the total is 0; otherwise a line starting with `\r`, the prefix and ` \|`, and ending with `% ` and the suffix |
| Progress.RoundScaledInRange | mget/core.py:93 | for a position in `[0, total]`, `round(b * curr / total)` lies in `[0, b]` |
| Progress.ProgressBarInRange | mget/core.py:91-96 | for a position in `[0, total]` the bar has exactly `b` cells, the first `round(b * curr / total)` filled and the rest empty, and the percentage is the decimal digits of a value in `[0, 100]` |
| Progress.ProgressMonotone | mget/core.py:92-93 | with a positive total, a later position never has fewer filled cells or a lower percentage |
| Progress.ProgressBarComplete | mget/core.py:152-157 | `progressBar(100, 100, b)` is a completely filled bar at `100%` |
| Transfer.Frame | mget/core.py:139-144 | the in-loop call fails exactly when the size is 0 |
| Transfer.FullFrame | mget/core.py:151-158 | the closing line is `\r`, the prefix, ` \|`, 80 filled cells, `\| 100% ` and the suffix |
| Transfer.Shown | mget/core.py:137 | the value drawn before chunk k is `min(k * C, total)`: at most both and equal to one of them, and non-negative for a non-negative size |
| Transfer.Counter | mget/core.py:137-148 | clamping the counter after n chunks gives the value drawn before chunk n |
| Transfer.LoopRenders | mget/core.py:136-146 | the loop draws one line per chunk |
| Transfer.ExpectedRenders | mget/core.py:136-158 | n chunks draw n lines, plus one when `n * C >= total` |
| Transfer.ConcatAppend | mget/core.py:136-149 | writing two runs of chunks writes the bytes of the first run, then those of the second |
| Transfer.ConcatAt | mget/core.py:149 | chunk i lies in the written bytes right after the bytes of the chunks before it and right before those after it |
| Transfer.CounterReachesTotal | mget/core.py:148-151 | the final test `chunk_size >= total_size` holds exactly when `n * C >= total` |
| Transfer.TransferChunks | mget/core.py:134-163 | a zero size with chunks raises before anything is written or drawn; otherwise the file holds all chunks in order, the lines are one bar per chunk for the clamped counter followed by the full bar exactly when `n * C >= total`, and the counter ends at `min((n-1) * C, total) + C` |
| Transfer.Save | mget/core.py:134-163 | the `with open` block writes to the given path what TransferChunks states |
| Transfer.ShownInRange | mget/core.py:137 | with a non-negative size the drawn value stays in `[0, total]` and never decreases |
| Transfer.LoopRenderAt | mget/core.py:137-145 | the k-th line of the loop is the bar for `min(k * C, total)` |
| Transfer.LoopRendersProgress | mget/core.py:137-145 | with a positive size every loop line is an 80-cell bar with a percentage in `[0, 100]`, and filled cells and percentage never decrease from line to line |
| Transfer.LastRenderFull | mget/core.py:151-158 | when `n * C >= total` there are `n + 1` lines and the last is the full bar |
| Transfer.ConcatFull | mget/core.py:136-149 | k full chunks write `k * C` bytes |
| Transfer.ShownTracksBytes | mget/core.py:136-149 | while chunks are full, the drawn value is the number of bytes written so far, capped at the size |
| Transfer.TenChunks | mget/core.py:134-158 | a 10 MiB reply in ten chunks draws 11 lines, the first an empty bar at `0%` and the last the full bar |
| Transfer.Download | mget/core.py:109-166 | a missing `content-length` is a KeyError, raised first; then any failure of the name resolution; a 200 reply writes to `output/fullname` what TransferChunks states; a 4xx or 5xx reply raises exactly an HTTPError with that status; another reply is skipped with its own status and writes nothing |

## Left out

- Network access (`requests.get`, `iter_content`, `close`) is replaced by the `Response` value. `download` has no `finally`, so `r.close()` is skipped when an exception escapes it; this is not modelled.
- `urlparse`: `Naming.FilenameFromUrl` takes the path part of the URL directly.
- Header parsing: `int(r.headers["content-length"])` is given as an integer. A non-numeric header (ValueError) is not modelled.
- `os.getcwd`, `os.listdir` and `os.path.abspath` are replaced by parameters: the listing and the absolute output directory.
- The file system: opening the file is modelled as the `Written` outcome. Errors of `open` or `write` that `except Exception` would also catch are not modelled.
- The console: `sys.stdout.write`, `flush` and the `print` of the caught error are the `renders` sequence and the `completed` flag. The message text is not modelled.
- `Transfer.TransferChunks`: only the ZeroDivisionError of a zero size is modelled as escaping the loop. For sizes beyond the range of a `float`, `float(total)` in `progressBar` raises OverflowError, which `except Exception` would also catch; that case is not modelled.
- `Naming.GetFileExtension`: `\w` is modelled for ASCII only. Python 3 also matches non-ASCII letters and digits.
- `Progress.PercentText`, `Progress.ProgressBar`: the percentage is rounded from the exact `100 * curr / total`, half to even. `100 * (curr / float(total))` rounds twice, once at the division and once at the multiplication, so wherever the exact value is `k + 1/2` the float can fall on either side of the half, at any size. For example, 109 MiB of 200 MiB gives `55` in Python and `54` in the model. The lines of `Transfer.LoopRendersProgress`, `Transfer.TransferChunks` and `Transfer.Download` carry this difference.
- `Progress.FilledCells`, `Progress.RoundQuotient`: the filled count is rounded from the exact `b * curr / total`. `b_length * curr / float(total)` rounds only at the division, which is correctly rounded, so a result at or near a half can differ only with large operands (`b * curr` from 2^52 on, or `total` beyond 2^53).
- `convertBytes` is not used by `download`, so it is not modelled.
- The `cli` command and its option parsing are not modelled. `mget/consoleUtil.py` and `setup.py` are not part of this model.
- `status_code is 200` is modelled as equality. CPython caches small integers, so the identity test agrees for 200.
