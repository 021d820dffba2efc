# build_explorer: a Dafny model of the extraction core

`build_explorer.py` merges two single-page HTML explorers into one page:
- an EIA grid story, which has the historic `viz2`..`viz7` charts;
- a 3D grid view, which has the hourly charts.

It reads both pages. It cuts out the data blobs, the inlined chart libraries, the tile-map table and two runs of JavaScript functions. It renames the historic functions so the two runs do not clash. Then it wraps the hourly code in a function expression that runs at once. That wrapper is meant to rebuild the shared `REGIONS` table in the field format the hourly code expects, and it hands a single function, `hvInit`, back to the page. As written it reads the table from `window`, where it never is, so the rebuilt table is always empty (see "## Findings").

This project models the extraction and rename steps on the page text and proves what each one delivers. It also models the wrapper's scope behaviour on a small model of JavaScript's global scope.

Modules:
- `PyText` (`pytext.dfy`): the Python string operations the build uses. These are `strip` (Python's whitespace set), `startswith`, `in`, `count`, ASCII `lower` and `s[:n]`. The module also holds `FindFrom`, the forward search that the models of the `re.findall` and `re.search` matchers scan with; the build itself never calls `str.find`.
- `LineScan` (`linescan.dfy`): the first-line search behind the data-blob lookup and the historic capture loop.
  - Both loops are methods.
  - Each is proved equal to a function, `FirstFrom` or `Region`, whose properties are proved as lemmas.
- `Rename` (`rename.dfy`): the rename chain.
  - `re.sub(r'\bname\b', …)` is modelled as a left-to-right scanner. It is proved equal to replacing the matching tokens of a word/non-word tokenisation.
  - `str.replace` is modelled as a non-overlapping left-to-right replace.
- `HourlyCapture` (`hourly.dfy`): the hourly capture loop with its skip list and brace counter.
  - One loop iteration is the function `Step`, over a `Rules` record holding the literal lists. `Source` is the build's own instance.
  - `PicksFrom` folds `Step` over the lines.
  - The method `CaptureHourly` is proved equal to that fold.
- `TileMap` (`tiles.dfy`): `re.search(r"const T=(\{[^;]+\});")`. It is modelled as a leftmost search with a per-position matcher. The matcher is proved sound and complete against the pattern.
- `HeadScripts` (`scripts.dfy`):
  - `split("<style>")[0]`;
  - non-greedy `re.findall` of `<script>` blocks;
  - the classification loop, in which the last block of each kind wins.
- `Isolation` (`isolation.dfy`): the `REGIONS` field adapter and the single export, over a model of a classic script's global scope. That model keeps a declarative record for `const`/`let` and the `window` object for `var`.
- `Wrappers` (`wrappers.dfy`): `Option`.

The build tolerates missing or malformed input rather than aborting:
- A missing marker does not abort the build. The blob lookup yields `""`, the tile table yields `"{}"`, and a capture with no start line yields nothing.
- The dotted renames (`DATA.annual`, `window.onSlider2`, …) are plain `str.replace`, not boundary-aware.
- A dropped function whose braces never close is not an error: skipping simply continues to the end of the capture.

## Model

| member | source | states |
|---|---|---|
| PyText.StripSpec | build_explorer.py:40 | `strip()` leaves no whitespace at either end, and its result sits inside the line with only whitespace on each side of it |
| PyText.LStripSpec | build_explorer.py:40 | removing leading whitespace drops exactly a whitespace prefix and stops at a non-space character |
| PyText.RStripSpec | build_explorer.py:40 | removing trailing whitespace drops exactly a whitespace suffix and stops at a non-space character |
| PyText.StripStripped | build_explorer.py:60 | stripping is idempotent, so stripping a block once is enough |
| PyText.Contains | build_explorer.py:61 | `p in s` holds exactly when `p` occurs at some position of `s` |
| PyText.FindFrom | build_explorer.py:55 | the search returns the first occurrence at or after the start, or the length when there is none |
| PyText.CountChar | build_explorer.py:165 | `count(c)` is the number of occurrences of `c` (its multiplicity in the line), which the brace depth adds and subtracts; it is at most the length and zero exactly when `c` does not occur |
| LineScan.FirstFrom | build_explorer.py:39-42 | the first line at or after `from` that passes the test, and no earlier one passes; the length when none does |
| LineScan.FindMarkerLine | build_explorer.py:38-48 | the blob lookup returns the stripped first line whose stripped text starts with the marker, and, for a non-empty marker, `""` exactly when no line does |
| LineScan.FirstFromShift | build_explorer.py:39-42 | lines placed in front only shift the first match |
| LineScan.FirstFromSkip | build_explorer.py:39-42 | searching from 0 or from a point before which nothing matches finds the same line |
| LineScan.FirstAfterPreamble | build_explorer.py:39-42 | a preamble without a match shifts the first match by its length |
| LineScan.Region | build_explorer.py:77-89 | the captured run starts at the first start line, contains no stop line, is a contiguous unmodified slice, and ends at the first stop line or at the end of the page |
| LineScan.RegionIgnoresPreamble | build_explorer.py:77-89 | lines before the first start line, stop lines among them, do not change the capture |
| LineScan.Viz2IsNotStop | build_explorer.py:83-87 | the `viz2` line is never a stop line, so the capture always holds that line when it exists |
| LineScan.HistoricRegionEmpty | build_explorer.py:77-91 | the historic capture is empty exactly when no line starts `function viz2(` |
| LineScan.CaptureHistoric | build_explorer.py:77-89 | the capture loop returns exactly the historic region |
| Rename.RenameWord | build_explorer.py:94-101 | `re.sub(r'\bname\b', repl, s)` as a left-to-right scanner; characterised by `RenameWordIsTokenMap`, `NoWholeWordLeft` and `RenameWordAbsent` |
| Rename.WordRun | build_explorer.py:94 | the word-character run at the start of a text is maximal |
| Rename.TokensSpec | build_explorer.py:94 | tokenising into word runs and single other characters loses nothing, and no two word runs touch |
| Rename.TokensOfConcat | build_explorer.py:94 | tokenising a well-formed token sequence gives it back |
| Rename.MapTokens | build_explorer.py:94 | every token equal to the name becomes the replacement, and every other token is kept |
| Rename.RenameWordIsTokenMap | build_explorer.py:94-101 | `re.sub(r'\bname\b', repl, s)` equals renaming exactly the tokens equal to `name` |
| Rename.WholeWordIffToken | build_explorer.py:94-101 | `\bname\b` matches somewhere exactly when `name` is one of the tokens |
| Rename.NoWholeWordLeft | build_explorer.py:94-101 | after renaming to a different identifier, `\bname\b` matches nowhere |
| Rename.RenameWordAbsent | build_explorer.py:94-101 | text without a whole-word occurrence of the name is unchanged |
| Rename.NameReplaced | build_explorer.py:94-101 | a whole word equal to the name is replaced |
| Rename.OtherWordKept | build_explorer.py:94-101 | any other whole word is kept, including a longer one that contains the name |
| Rename.OtherCharKept | build_explorer.py:94-101 | a non-word character is copied |
| Rename.LongerIdentifierKept | build_explorer.py:94 | `viz20` passes the `viz2` step unchanged |
| Rename.Replace | build_explorer.py:103-110 | `str.replace`: non-overlapping occurrences, left to right; characterised by `ReplaceAbsent`, `PrefixedEverywhere` and `DataStepsCommute` |
| Rename.ReplaceAbsent | build_explorer.py:103-110 | `replace` leaves text without the pattern unchanged |
| Rename.ReplacedNotAtStart | build_explorer.py:103-104 | after `replace(pat, pre + pat)`, the result does not start with `pat` |
| Rename.PrefixedEverywhere | build_explorer.py:103-104 | after `replace(pat, pre + pat)`, every occurrence of `pat` is preceded by `pre` |
| Rename.DataFieldsPrefixed | build_explorer.py:103-104 | after each of those steps, on any text, every occurrence of its field reads `GS_DATA.…` |
| Rename.DataStepsCommute | build_explorer.py:103-104 | the `DATA.annual` and `DATA.monthly` steps commute: neither creates nor destroys an occurrence of the other's pattern |
| Rename.DataStepsPrefixed | build_explorer.py:103-104 | after both steps in the chain's order, every `DATA.annual` and every `DATA.monthly` reads `GS_DATA.…` |
| Rename.VizStepsComplete | build_explorer.py:94-96 | the `viz2`, `viz3` and `viz4` steps each leave no whole-word occurrence of the name they rename |
| Rename.VizStepsCompleteLate | build_explorer.py:97-99 | the `viz5`, `viz6` and `viz7` steps each leave no whole-word occurrence of the name they rename |
| Rename.WordStepsComplete | build_explorer.py:101-106 | the `setupCanvas` and `animFrames` steps each leave no whole-word occurrence of the name they rename |
| Rename.RenameHistoric | build_explorer.py:93-110 | the chain of thirteen steps in the build's order; characterised by `RenameHistoricUnchanged` and the per-step lemmas above |
| Rename.RenameHistoricUnchanged | build_explorer.py:93-110 | code that mentions none of the renamed names passes the whole chain unchanged |
| HourlyCapture.FindSkipSig | build_explorer.py:157-162 | the inner loop finds a skip signature exactly when the stripped line contains `function ` followed by one of them |
| HourlyCapture.Step | build_explorer.py:130-171 | one iteration of the capture loop, its tests in the source's order; characterised by `EmitIff`, `EmitOnlyAppendable`, `StopLineHalts`, `CaptureFlag` and the skip lemmas below |
| HourlyCapture.ScanLine | build_explorer.py:130-171 | one iteration of the capture loop computes exactly the action and new scan state of `Step` |
| HourlyCapture.CaptureHourly | build_explorer.py:124-173 | the capture loop returns exactly the lines `PicksFrom` selects from the start state |
| HourlyCapture.PicksFrom | build_explorer.py:128-171 | the selected indices are in range and strictly increasing, so the output keeps the page's order |
| HourlyCapture.Select | build_explorer.py:171 | the output lines are the page's lines at the selected indices, unmodified |
| HourlyCapture.PicksStep | build_explorer.py:128-171 | one fold step appends the line exactly on `Emit`, stops on `Halt`, and passes it over on `Drop` |
| HourlyCapture.EmitOnlyAppendable | build_explorer.py:136-171 | a line is appended only when capture is on and no function is being skipped, and only when it is no stop line, no dropped declaration and no skipped function's opening line |
| HourlyCapture.EmitWhenAppendable | build_explorer.py:136-171 | conversely, an appendable line read with capture on and no skip pending is appended, and capture carries on with the same depth |
| HourlyCapture.EmitIff | build_explorer.py:133-171 | with capture on or switched on by the line, and no stop fragment, a line is appended exactly when no skip is pending and it is appendable |
| HourlyCapture.CaptureFlag | build_explorer.py:133-137 | after any line, capture is on exactly when it was on before or the line is a `COL` line |
| HourlyCapture.IdleBeforeCol | build_explorer.py:133-137 | before the first `const COL` line nothing happens |
| HourlyCapture.StopLineHalts | build_explorer.py:139-144 | once capture is on, the loop stops exactly on a scroll-listener or `DOMContentLoaded` line, inside a skipped function too |
| HourlyCapture.DeclDroppedKeepsSkip | build_explorer.py:146-154 | a `const REGIONS`/`RCOL`/`ACTIVE` or `let selReg=` line is dropped without touching the skip state or the brace depth |
| HourlyCapture.SkipEntryResetsDepth | build_explorer.py:157-165 | entering a skipped function resets the depth, so it becomes that line's brace balance |
| HourlyCapture.OneLineFunctionDropped | build_explorer.py:157-169 | a skipped function written on one balanced line is dropped, and capture resumes on the next line |
| HourlyCapture.BracelessLineKeepsSkipping | build_explorer.py:164-169 | inside a skipped function a line without braces never ends the skip |
| HourlyCapture.SkipEndsWhenClosed | build_explorer.py:164-169 | the skip ends exactly when the depth drops to zero or below on a line that had something to close |
| HourlyCapture.PicksAppendable | build_explorer.py:128-171 | every appended line is appendable |
| HourlyCapture.PicksBeforeStop | build_explorer.py:139-144 | with capture on, nothing at or after the first stop line is appended |
| HourlyCapture.PicksFromColLine | build_explorer.py:133-144 | from the line that switches capture on, nothing at or after the first stop line is appended |
| HourlyCapture.PicksInWindow | build_explorer.py:133-144 | nothing before the first `COL` line is appended, and nothing at or after the first stop line after it |
| HourlyCapture.RegionWithSpec | build_explorer.py:124-173 | the hourly code is an in-order subsequence of unmodified page lines, each appendable, all between the first `COL` line and the first stop line after it; it is empty when there is no `COL` line |
| HourlyCapture.IdleUntilCol | build_explorer.py:133-137 | up to the first `COL` line the loop's state is its start state |
| HourlyCapture.CaptureOnAfterCol | build_explorer.py:133-137 | after the first `COL` line capture is on |
| HourlyCapture.PicksMember | build_explorer.py:128-171 | with no halt before line `j`, line `j` is appended exactly when the loop emits it in the state the earlier lines leave |
| HourlyCapture.NoHaltInWindow | build_explorer.py:139-144 | no line before the first stop line after the `COL` line ends the loop |
| HourlyCapture.CaptureIff | build_explorer.py:124-173 | a page line is in the hourly code exactly when it lies between the first `COL` line and the first stop line after it, no skipped function is open when it is read, and it is appendable |
| TileMap.GroupAt | build_explorer.py:70 | the pattern `const T=(\{[^;]+\});` tried at one position; characterised by `GroupAtSound` and `GroupAtComplete` |
| TileMap.GroupAtSound | build_explorer.py:70 | every group the matcher returns at a position is a match of `const T=(\{[^;]+\});` there |
| TileMap.GroupAtComplete | build_explorer.py:70 | every match of the pattern at a position is the one the matcher returns |
| TileMap.Search | build_explorer.py:70 | `re.search`: the matcher tried at each position from the left; characterised by `SearchSpec` |
| TileMap.SearchSpec | build_explorer.py:70 | the search returns the group of the leftmost match, and nothing exactly when there is no match |
| TileMap.TilePaths | build_explorer.py:70-71 | the match's group or `"{}"`; characterised by `TilePathsSpec` and `TilePathsRoundTrip` |
| TileMap.TilePathsSpec | build_explorer.py:70-71 | `tile_paths` is `"{}"` exactly when the pattern matches nowhere; otherwise it is the leftmost match's group |
| TileMap.TilePathsRoundTrip | build_explorer.py:70-71 | writing `const T=` + table + `;` in front of any text gives the table back |
| HeadScripts.BeforeSpec | build_explorer.py:54 | `split(sep)[0]` is a prefix without `sep`, and the text continues with `sep` when it is shorter |
| HeadScripts.BeforeRoundTrip | build_explorer.py:54 | splitting `x + sep + rest` gives `x` back when `x` has no `sep` |
| HeadScripts.BlocksBetween | build_explorer.py:55 | non-greedy matching: no extracted script block contains `</script>` |
| HeadScripts.BlocksRoundTrip | build_explorer.py:55 | extracting the blocks of a run of `<script>…</script>` blocks gives the blocks back |
| HeadScripts.ScriptTagsBorderFree | build_explorer.py:54-55 | neither `<style>` nor `</script>` can overlap itself, which the round trips need |
| HeadScripts.Classify | build_explorer.py:61-64 | the if/elif that sorts a stripped block into the core library, the Sankey module or neither; characterised by `ClassifyEmpty` and `LastOfKindSpec` |
| HeadScripts.ClassifyEmpty | build_explorer.py:61-64 | an empty block is neither library |
| HeadScripts.LastWhereSpec | build_explorer.py:59-64 | last wins: the result is the stripped text of the last block that passes, and `""` exactly when none does |
| HeadScripts.LastOfKindSpec | build_explorer.py:57-64 | for Highcharts and for the Sankey module, the result is the last block of that kind, stripped, and `""` exactly when there is none |
| HeadScripts.LastOfKindSnoc | build_explorer.py:59-64 | one more block replaces the answer exactly when it is of the kind |
| HeadScripts.HeadLibraries | build_explorer.py:54-64 | the classification loop returns, for each library, the last block of that kind in the head's script blocks |
| Isolation.AdapterAsWritten | build_explorer.py:870-873 | the adapter as emitted, reading `window.REGIONS`; characterised by `AsWrittenLosesRegions` and `AdaptersAgreeOnWindow` |
| Isolation.Adapter | build_explorer.py:870-873 | the adapter as intended, reading the page's shared table; characterised by `AdapterKeepsRegions` and `ForEachAdapts` |
| Isolation.Adapt | build_explorer.py:870-873 | the adapted table has exactly the shared table's keys |
| Isolation.RestoreAdapt | build_explorer.py:870-873 | mapping `n`/`d` back to `name`/`desc` gives the shared table back, so no key or field is lost |
| Isolation.AdaptFields | build_explorer.py:870-873 | each key is kept, with `n == name` and `d == desc` |
| Isolation.ForEachAdapts | build_explorer.py:870-873 | the `Object.entries(…).forEach` assignments into an empty table build exactly the adapted table |
| Isolation.Resolve | build_explorer.py:867-873 | a bare global name means its `const`/`let` binding when there is one, and otherwise the `window` property |
| Isolation.AsWrittenLosesRegions | build_explorer.py:577 | reading `window.REGIONS` while the shared table is a top-level `const` yields an empty local table, unlike the intended adapter |
| Isolation.AdapterKeepsRegions | build_explorer.py:870-873 | reading the page's shared table gives the hourly code every shared region, converted; the local table then needs a name other than `REGIONS`, which would shadow the shared one |
| Isolation.AdaptersAgreeOnWindow | build_explorer.py:871 | the two readings agree whenever the shared table is not a lexical declaration |
| Isolation.RunWrapperFrame | build_explorer.py:928-932 | a global name that the wrapper does not assign without declaring keeps its meaning |
| Isolation.OnlyHvInitExported | build_explorer.py:867-932 | when the wrapper does not declare `hvInit` itself and the captured code assigns only names the wrapper declares, running it changes the page's global scope only at `hvInit`, which then holds a function |
| Isolation.PageExportsHvInit | build_explorer.py:867-932 | on the page, under the same hypotheses, the export becomes the `window.hvInit` property and the shared `REGIONS` is untouched |
| Isolation.HvInit | build_explorer.py:928-932 | the exported `hvInit(rk)`; characterised by `HvInitGuard` |
| Isolation.HvInitGuard | build_explorer.py:929-932 | `hvInit(rk)` leaves the state alone exactly when `RDATA[rk]` is missing or falsy; otherwise it selects `rk` and builds its story once |

## Left out

- Reading the two pages, the preferred-then-fallback path discovery, the `print` diagnostics and writing the output file are not modelled. The model works on the pages' text and lines as values.
- The HTML/CSS template and the literal JavaScript the build appends are presentational text and are not modelled. The exceptions are the `REGIONS` adapter, the `hvInit` export and the `const REGIONS` declaration they depend on.
- The runtime behaviour of the generated page is not modelled beyond those three: charts, event listeners, and the `buildStory` and `selectRegion` bodies. `HvInit` records the `buildStory(rk)` call in a list instead of running it.
- `\b` and `str.lower()` are modelled on ASCII only. Python 3's `re` and `lower` are Unicode-aware on `str`, so non-ASCII letters next to a renamed name, or in a block's first 200 characters, are outside the model.
- `strip()` uses Python's whitespace set as written out in `PyText.IsSpace`.
- There is no general regex engine. Each of the three patterns (`\bname\b`, `<script>(.*?)</script>` with DOTALL, and `const T=(\{[^;]+\});`) is modelled by its own matcher.
- HourlyCapture.StopLineHalts, HourlyCapture.DeclDroppedKeepsSkip, HourlyCapture.OneLineFunctionDropped and the other `Step` lemmas are stated for any `Rules` record. The proofs are not repeated on the build's literal lists in `Source`, and literal lines such as `function buildMap(){}` are not evaluated; they are covered through the lemmas' hypotheses.
- HourlyCapture.RegionWithSpec is likewise stated for any `Rules`. `HourlyRegion` is its instance at `Source`.
- Isolation.HvInit: `RDATA` is modelled as the set of keys whose entry is truthy; the values themselves are not modelled.
- Isolation.EntriesOr: `window.REGIONS || {}` is modelled for a region table, a function and a missing or `undefined` value only. Other truthy values are not modelled.
- Isolation.OnlyHvInitExported takes the wrapper's local declarations and the captured hourly code's assignments to names as parameters. The captured hourly functions are not enumerated. The lemma requires that none of the declarations is named `hvInit` and that every captured assignment targets a declared name. The captured code is thereby assumed to assign no undeclared name; its `window.x = …` property writes are not modelled, so it is also assumed to make none.
- Rename.RenameHistoric: the `window.onSlider2`, `window.onSlider4` and `window.onSlider6` replacements have no property of their own beyond `ReplaceAbsent`; that no `window.onSlider2` is left after its step is not proved.
- Rename.RenameHistoric: apart from the two `DATA` steps (`DataStepsPrefixed`), the chain's properties are proved step by step. There are no cross-step statements about later steps re-matching earlier replacements; `gsViz2` does not contain `viz2` as a whole word.
- The line numbers printed by the loops (`ln = i + 1`) are not used and are not modelled.

## Findings

| source | as written | input that shows it | evidently intended | confidence | as-written member | corrected member |
|---|---|---|---|---|---|---|
| build_explorer.py:871 | The wrapper builds its local table from `window.REGIONS \|\| {}`. But the shared table is declared at line 577 as a top-level `const REGIONS`, and such a binding lives in the global declarative record, not on `window` (ECMAScript, "Global Environment Records"). So `window.REGIONS` is `undefined` and the local table is always empty. | A page whose `const REGIONS` holds one or more regions (`PageEnv(regions)` with `regions != []`) | The wrapper receives the shared `REGIONS`: the local table has the same keys, with `n`/`d` taken from `name`/`desc`. The local table must then be named otherwise, since a local `const REGIONS` shadows the shared one | not executed | Isolation.AsWrittenLosesRegions | Isolation.AdapterKeepsRegions |
