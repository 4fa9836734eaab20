# omi-gs-tracker core, modelled in Dafny

The tracker fills a spreadsheet with each contestant's progress on a chosen
subset of a Codeforces contest's problems. This project models its core, all
of it in `main.py`:

- **the problem-selection tokenizer** at the top of `gather_data`. It scans a
  selection such as `"AB10"` from the end. Each digit is glued to the
  character before it, and the list is reversed, giving `A`, `B`, `10`.
  (`tokenizer.dfy`)
- **the standings aggregation** in `gather_data`. It takes the contest's
  problem indices, its standings rows and the requested users, and builds a
  False template for the selected problems. The sentinel `"AK"` selects
  every problem. Team rows are skipped. Each individual's record is keyed by
  the lowercased handle and its slots are marked by contest position. Absent
  users get the template, and each record's `solved` count is filled in.
  `standings.dfy` states this as functions and proves what they guarantee;
  `gather.dfy` holds the loops of the source as methods, each proved equal to
  those functions.
- **`find_intermediate_color`**: per-channel linear interpolation between two
  colours, truncated and then clamped, with a ValueError outside [0, 1]
  (`colormap.dfy`). Also the completion fraction `solved / len(problems)`
  that `main` feeds it (`report.dfy`).
- **the contest-cell parsing** in `main`, which takes the contest id and the
  selection out of a `=HYPERLINK("…/contest/1234","ABC")` formula
  (`cells.dfy`).

`py.dfy` holds the Python semantics the model needs: its exceptions, as a
`Result` datatype, and its slice rule (negative bounds count from the end,
bounds are clamped).

Behaviour of the code worth knowing, which the model keeps:

- `find_intermediate_color` truncates before it clamps.
- A leading digit is not reported as an ambiguity. When the scan reaches it
  on its own (it is not the first half of a digit pair), it produces an empty
  token, or the whole string when the string is that one digit. "12A" glues
  it into "12"; "112" glues "12" and then yields "" for the first "1".
- The template has one slot per *selected* problem, while its slots are
  written by contest position. See "## Findings".

## Model

| member | source | states |
|---|---|---|
| `Tokenizer.ParseProblems` | main.py:28-37 | the backward scan with its final reversal yields exactly `Parse(raw)`, the tokens in left-to-right order |
| `Tokenizer.ScanStep` | main.py:31-35 | the token emitted at index `x` is the digit pair `raw[x-1:x+1]` (Python's slice, so `raw[-1:1]` at index 0) or the lone non-digit, and it is the last token of the first `x+1` characters |
| `Tokenizer.ParsePartitions` | main.py:28-37 | for a selection not starting with a digit the tokens written back to back give the selection, and each token is one non-digit or a character followed by one digit |
| `Tokenizer.ParseLeadingDigit` | main.py:31-33 | for a selection starting with a digit: when the scan reaches that digit on its own, the first token is the whole string if it is the only character and otherwise empty, dropping the digit; when the digit is the first half of a pair, the pair is the first token and the tokens give back the selection |
| `Tokenizer.ParseExamples` | main.py:28-37 | "AB10" gives A, B, 10; "B12" gives B, 12; "AK" gives A, K; "AC" gives A, C; "5" gives 5; "1A" gives "", A; "12A" gives 12, A; "112" gives "", 12 |
| `ColorMap.Trunc` | main.py:18 | `int()` truncates toward zero: the result is within one of the value, on the zero side |
| `ColorMap.Clamp` | main.py:18 | `max(0, min(255, v))` is in [0, 255], is the identity inside it and saturates outside it |
| `ColorMap.FindIntermediateColor` | main.py:11-21 | ValueError exactly when the percentage is below 0 or above 1; otherwise three channels, each in [0, 255], equal to `Interpolate` |
| `ColorMap.InterpolateSpec` | main.py:12-21 | for RGB endpoints: ValueError exactly outside [0, 1], a valid colour inside, the first colour at 0 and the second at 1 |
| `ColorMap.ChannelMonotone` | main.py:18 | a channel never decreases with the percentage when heading to a larger value, and never increases when heading to a smaller one |
| `ColorMap.ChannelBetween` | main.py:18 | with both endpoint channels in [0, 255] the channel lies between them |
| `ColorMap.InterpolateBetween` | main.py:15-19 | every channel of the result lies between the endpoints' channels and moves monotonically from one to the other |
| `Standings.TargetedCountBounds` | main.py:50-53 | the template length is at most the number of contest problems; it equals it exactly when every index is selected and is 0 exactly when none is |
| `Standings.TemplateSize` | main.py:47-57 | the template is all False, one slot per contest position whose index is selected, and under "AK" one per contest problem |
| `Standings.AkIsEveryProblem` | main.py:55-57 | under "AK" the selection is the full contest index list and the template is what the generic rule builds for it |
| `Standings.MarkSpec` | main.py:67-71 | marking a record raises IndexError exactly when a scored, selected result lies at a position past the record's end; otherwise the length is kept, no slot reverts to False, and a slot turns True only at such a result |
| `Standings.TeamRowStep` | main.py:60-61 | a row with more than one member leaves every record and key as it was |
| `Standings.SoloRowStep` | main.py:63-71 | a single-member row raises IndexError exactly when it scores a selected problem at a position past the template. Otherwise its lowered handle's record, taken from the dictionary or copied from the template, gains exactly that row's hits, and no other record changes |
| `Standings.ApplyRowsSpec` | main.py:59-71 | the row loop raises IndexError exactly when some single-member row overflows the template. Otherwise the keys are exactly the lowered handles of single-member rows, team rows create nothing, every record has the template's length, and slot i is True exactly when some row of that handle scored the selected problem at position i |
| `Standings.CountTrueBounds` | main.py:77-81 | the solve count is at most the record length, 0 exactly when no slot is True, and the length exactly when all are |
| `Standings.AggregateSpec` | main.py:59-81 | over any all-False template: the row-loop guarantees above, plus an entry for every requested user; `solved` equals the number of True slots and is at most the template length; an unseen requested user gets the template with 0 solved |
| `Standings.GatherSpec` | main.py:47-83 | the guarantees of `AggregateSpec` for the selection's own targets and template |
| `Standings.SubsetExampleRaises` | main.py:50-71 | contest A, B, C with selection "AC" and alice scoring on A and C raises IndexError (the template has 2 slots; C writes slot 2) |
| `Standings.GatherIntendedSpec` | main.py:47-83 | with one slot per contest problem the aggregation never raises. Records are aligned with the contest. Unselected slots are always False, and `solved` is at most the number of selected problems |
| `Standings.SubsetExampleIntended` | main.py:59-81 | on the same example the corrected template credits alice with [True, False, True], 2 solved |
| `GatherData.BuildTemplate` | main.py:47-53 | the loop builds one False per selected contest problem, and the full index list |
| `GatherData.ProcessRows` | main.py:59-71 | the nested row and result loops compute `ApplyRows`, IndexError included |
| `GatherData.AddUsers` | main.py:73-75 | the users loop gives each requested user missing from the dictionary the template and changes nothing else |
| `GatherData.CountSolved` | main.py:77-81 | the accumulator loops give every record its count of True slots |
| `GatherData.Gather` | main.py:27-83 | `gather_data` after the fetch computes `Standings.Gather`, whose guarantees `GatherSpec` states |
| `Report.FractionInRange` | main.py:144 | `solved / len(problems)` raises ZeroDivisionError exactly for an empty record; otherwise it is in [0, 1] and the colour is defined |
| `Report.GatherColors` | main.py:141-145 | for every record `gather_data` returns, the fraction fails exactly when the selection names no contest problem; otherwise the colour is defined |
| `Report.GatherIntendedColors` | main.py:141-145 | with the corrected template the fraction fails only for a contest without problems |
| `ContestCells.RemoveSpaces` | main.py:113 | the result holds no space and is no longer than the input |
| `ContestCells.RemoveSpacesChars` | main.py:113 | the result holds exactly the characters of the input that are not spaces |
| `ContestCells.RemoveSpacesAppend` | main.py:113 | removing spaces distributes over concatenation, so the kept characters keep their order |
| `ContestCells.RemoveSpacesOnly` | main.py:113 | a string of spaces vanishes |
| `ContestCells.ParseCells` | main.py:112-114 | the loop succeeds exactly when every cell parses (IndexError otherwise) and gives each cell's pair in order |
| `ContestCells.ParseCellFails` | main.py:113-114 | a cell raises IndexError exactly when it has no comma once spaces are removed |
| `ContestCells.SplitCount` | main.py:113 | `split(",")` yields a second part exactly when the separator occurs |
| `ContestCells.AfterLastOf` | main.py:114 | `rsplit("/", 1)[-1]` gives what follows the last slash |
| `ContestCells.ParseHyperlink` | main.py:112-114 | any cell that reads `=HYPERLINK("<base>/<id>","<name>")` once its spaces are removed gives back `(id, name)` when no part holds a comma and the id holds no slash |
| `ContestCells.ParseSpacedHyperlink` | main.py:112-114 | the form with a space after the comma, `=HYPERLINK("<base>/<id>", "<name>")`, gives back `(id, name)` as well |

## Left out

- The standings fetch through aiohttp and the cforces client (main.py:41-45) is network I/O. The contest's problem indices and its rows are parameters instead.
- `asyncio.run` and the async structure (main.py:27, 128) add nothing to the logic.
- All spreadsheet access is I/O: authentication, the header search, reading users and cells, and writing cells back (main.py:87-110, 116-123, 130-159).
- The SPARKLINE string, the `full_contests` tally and the count written to column 3 (main.py:134-159) are output formatting for the sheet.
- `webcolors.hex_to_rgb` and `rgb_to_hex` (main.py:140-143) are a library. The two endpoint colours of main.py:24 appear already decoded as `PENDING` and `DONE`.
- The environment-variable lookup (main.py:88) is I/O.
- Floating point is not modelled. The percentage and the points are exact reals, and a falsy `points` (0 or absent) is 0.
- `Standings.Lower`: handles are lowered for ASCII letters only. Python's `str.lower()` also covers other Unicode letters.
- Dictionaries are Dafny maps, so the insertion order of `data` is not kept.
- Lists mutated in place are sequence values. The template shared without a copy by absent users (main.py:75) is therefore not an alias. This is harmless because nothing mutates it after main.py:57.
- `ContestCells.ParseCells`: the source overwrites each list element with its pair. The model builds a new list of pairs, since the element type changes.
- `GatherData.Gather`: requires every row to have a member and every single-member row to have no more results than the contest has problems. main.py:63 raises IndexError for an empty party, and main.py:70 for a scored result past the contest's problems. A longer row whose extra results are all zero is accepted by the source but excluded here. Codeforces standings always have one result per contest problem.
- `ColorMap.FindIntermediateColor`: requires both colours to have at least three channels. The source would raise IndexError on shorter tuples, but its callers always pass RGB triples.

## Findings

| source | as written | input that shows it | evidently intended | confidence | as-written member | corrected member |
|---|---|---|---|---|---|---|
| main.py:50-53, 67-71 | the template gets one slot per *selected* contest problem, but slots are written by *contest* position, so a selected problem past the template's length raises IndexError (and in range, a slot can stand for a different problem) | contest A, B, C; selection "AC"; one row for alice with points 3, 0, 5 | one slot per contest problem, unselected slots left False, since main.py:70-71 looks up `indexes[id]` and writes slot `id`, both by contest position: alice gets [True, False, True] and 2 solved | high; not executed | `Standings.SubsetExampleRaises` | `Standings.GatherIntendedSpec` |
