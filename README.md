# Userscript cores, modelled and verified in Dafny

This project models the logic of three browser userscripts and proves properties of it.

- **Firefox extension troubleshooter** (`FirefoxExtensionsToggle.js`). It works on the
  `about:addons` page. It records which add-on cards are enabled. It then bisects over them
  with a human verdict per round ("the issue is still persisting" or not) to find one faulty
  extension. Separate sweeps disable every extension and later re-enable those that were not
  already disabled; the names of the already-disabled ones travel in a `disabledExtensions`
  cookie.
  - `CookieNote` models the cookie note.
  - `ExtensionSearch` models the bisection on values.
  - `AddonsPage` models the page: a `Page` class whose toggle array the handlers flip in place.
- **PassMark table sorter** (`ComputerBenchmarks.js`). Arrow indicators in the chart headers
  sort the rows of the visible chart by one column, ascending or descending. A second click on
  the same arrow clears the sort and restores the order captured when the chart was first shown.
  - `TableSort` models the cell values, the numeric parsing, the comparator, the sort and the
    restore order.
  - `SortEngine` models the script's state. `Engine` is a class holding the sort column, the
    sort order, the active table and the captured orders. `ChartList` is the `ul.chartlist`
    whose `appendChild` moves rows.
- **Reddit image snapping** (`reddit-snapping.js`). Arrow keys jump between the expanded images
  of a page. When the last image is passed, the page is scrolled to load more, and the next
  refresh resumes at the skipped index.
  - `ImageSnapping` models it as step functions over a `Snap` state.
  - The `Snapper` class updates its fields as the script's closure variables do.

`JsBuiltins` states the JavaScript built-ins these scripts rely on:
- `trim`;
- `indexOf` on strings and on arrays;
- `replace` with a string pattern;
- `split` and `join` with a one-character separator;
- `filter`.

Array.prototype.sort is modelled by `TableSort.SortBy`, a stable insertion sort that takes the
comparator as a parameter. Locale collation (`localeCompare`) is a parameter too. Its
antisymmetry and transitivity are stated by `TableSort.IsCollation` wherever a proof needs them.

Inputs that come from the browser are parameters:
- the page's toggle states and headings;
- the `document.cookie` string, which the model decodes as `decodeURIComponent` does;
- the chart rows;
- the verdicts a person gives;
- the images a refresh finds and the element marked `.current-image`;
- the entries an IntersectionObserver delivers.

The functions that define the behaviour carry no contract of their own. The lemmas in the
table state their properties:
- `ExtensionSearch.Search` (FirefoxExtensionsToggle.js:106-153): `SearchStep`,
  `SearchStaysInWindow`, `SearchWithinBudget`, `SearchTerminates`, `WorstCaseRounds`,
  `EmptyListNeverIsolates`.
- `ExtensionSearch.FixedSearch`, the corrected search: `FixedSearchIsolates`,
  `FixedHonestRounds`, `FixedSearchEmpty`.
- `ExtensionSearch.AfterRound` (FirefoxExtensionsToggle.js:135-152): `PersistingRoundRestores`,
  `ResolvedRoundFlipsWindow`.
- `ExtensionSearch.EnabledExcept` (FirefoxExtensionsToggle.js:23-41): `ReenableIdempotent`,
  `NoClicksWhenEnabled`, `AddonsPage.Page.ReenableAllExcept`.
- `CookieNote.Assignment` (FirefoxExtensionsToggle.js:43-46): `StoredNote`,
  `WrittenNoteReadsBack`.
- `CookieNote.Lookup` (FirefoxExtensionsToggle.js:51-61): `FirstNoteSpec`, `NoteReadsBack`,
  `OtherCookiesAreSkipped`, `NotesBeforeSkipped`, `LeadingSpaceSkipped`.
- `CookieNote.DecodeUri` (FirefoxExtensionsToggle.js:50): `DecodePlain`, `DecodeConcat`,
  `DecodeEncode`, `PercentNameFails`.
- `CookieNote.ReadCookie` (FirefoxExtensionsToggle.js:48-62): `Load`, `WrittenNoteReadsBack`,
  `EncodedNoteReadsBack`, `NotePairReadsBack`, `OthersSkipped`, `AddonsPage.Page.EnableAllFromCookie`.
- `TableSort.CellValue` (ComputerBenchmarks.js:110-115): `PriceCell`, and `JsBuiltins.TrimStart`
  and `TrimEnd` for the trim.
- `TableSort.ParseFloat` (ComputerBenchmarks.js:122): `DigitRun`, `ParseDigits`,
  `NoDigitsNoNumber`.
- `TableSort.SortBy` (ComputerBenchmarks.js:107-141): `SortByPermutes`, `SortBySorted`,
  `SortByStable`, `SortByStableOnTies`, `SortKeepsTrailingGroup`.
- `TableSort.Arranged` (ComputerBenchmarks.js:98-146): `ArrangedSpec`, `RestoresOriginal`,
  `SortThenRestore`.
- `SortEngine.AfterClick` (ComputerBenchmarks.js:57-81): `SameArrowAlternates`,
  `ClickSortsUnlessActive`.
- `SortEngine.IndicatorFor` (ComputerBenchmarks.js:149-170): `IndicatorsShowState`.
- `ImageSnapping.KeyStep` (reddit-snapping.js:135-164): `KeyIgnoredWhenIdle`, `KeyMovesByOne`,
  `DownThenUp`, `UpThenDown`, `StepsKeepValid`.
- `ImageSnapping.RefreshStep` (reddit-snapping.js:79-108): `RefreshResumesSkipped`,
  `SameCountKeepsList`, `RefreshFollowsMarker`, `SkippedImageResumes`, `DisabledIsInert`.
- `ImageSnapping.EntriesStep` (reddit-snapping.js:61-72): `EntriesKeepValid`, `LastVisibleWins`.
- `ImageSnapping.ToggleStep` (reddit-snapping.js:174-178): `ToggleTwice`.

## Model

| member | source | states |
|---|---|---|
| JsBuiltins.TrimStart | ComputerBenchmarks.js:114-115 | the result is a suffix of the input that starts with no white space, and everything dropped was white space |
| JsBuiltins.TrimEnd | ComputerBenchmarks.js:114-115 | the result is a prefix of the input that ends with no white space, and everything dropped was white space |
| JsBuiltins.IndexOfFromIsFirst | FirefoxExtensionsToggle.js:57 | the position `indexOf` reports is the first occurrence at or after the start, and -1 means there is none |
| JsBuiltins.IndexOfSubZero | FirefoxExtensionsToggle.js:57 | `indexOf(name) === 0` holds exactly when the entry starts with the name |
| JsBuiltins.IndexOf | reddit-snapping.js:94 | `images.indexOf(x)` is -1 exactly when x is absent, and otherwise the first position holding x |
| JsBuiltins.FilterSpec | ComputerBenchmarks.js:98-100 | the filtered list keeps exactly the elements satisfying the predicate and is no longer than the input |
| JsBuiltins.FilterPartition | ComputerBenchmarks.js:98-100 | the rows with a link and the rows without one together hold every row, as a multiset |
| JsBuiltins.JoinSplit | FirefoxExtensionsToggle.js:51 | splitting the cookie string on `;` loses nothing: joining the pieces gives it back |
| JsBuiltins.SplitJoin | FirefoxExtensionsToggle.js:51 | `;`-free entries joined with `;` split back into the same entries |
| JsBuiltins.SplitConcat | FirefoxExtensionsToggle.js:51 | splitting two texts joined by `;` gives the entries of the first, then those of the second |
| CookieNote.TrimLeadingSpacesSpec | FirefoxExtensionsToggle.js:54-56 | the loop drops exactly the leading U+0020 spaces, and the rest starts with a non-space |
| CookieNote.FirstNoteSpec | FirefoxExtensionsToggle.js:52-61 | a note is found exactly when some entry is one; the payload is what follows the name in the first such entry |
| CookieNote.FindNote | FirefoxExtensionsToggle.js:52-61 | the reader's loop returns the first note's payload, or none |
| CookieNote.Load | FirefoxExtensionsToggle.js:48-62 | a cookie string that does not decode ends in a URIError; otherwise loading returns what the lookup rule gives for the decoded string |
| CookieNote.WrittenNoteReadsBack | FirefoxExtensionsToggle.js:43-62 | wherever the browser lists the note's stored pair, with cookies before it that decode and hold no note and cookies after it that decode, a payload without `;` or `%` reads back unchanged |
| CookieNote.NotePairReadsBack | FirefoxExtensionsToggle.js:48-62 | a getter string holding a pair that decodes to the note's name and payload, after other cookies that hold no note, reads back as that payload |
| CookieNote.OthersSkipped | FirefoxExtensionsToggle.js:50-60 | cookies without a note listed before the rest decode on their own and leave the lookup to the rest |
| CookieNote.NotesBeforeSkipped | FirefoxExtensionsToggle.js:51-60 | a text none of whose entries is a note, followed by `;`, reads as what follows it |
| CookieNote.LeadingSpaceSkipped | FirefoxExtensionsToggle.js:54-56 | the space the getter puts after each `;` is dropped before the entry is tested |
| CookieNote.FirstNoteSkips | FirefoxExtensionsToggle.js:52-60 | entries that are not notes, listed first, do not change which note is found |
| CookieNote.CookieStringAppend | FirefoxExtensionsToggle.js:50 | the getter string of two groups of pairs is the first group's, "; ", then the second's |
| CookieNote.DecodeSeparated | FirefoxExtensionsToggle.js:50 | two decodable texts joined by "; " decode each on its own |
| CookieNote.JarLookup | FirefoxExtensionsToggle.js:50-58 | the decoded getter string's first entry is the note, so the lookup gives its payload |
| CookieNote.StoredNote | FirefoxExtensionsToggle.js:44 | the pair the browser keeps from the writer's assignment is the note's name followed by the payload |
| CookieNote.DecodePlain | FirefoxExtensionsToggle.js:50 | text without `%` decodes to itself |
| CookieNote.DecodeConcat | FirefoxExtensionsToggle.js:50 | decoding a well-formed text followed by more text decodes the two parts one after the other |
| CookieNote.DecodeJoined | FirefoxExtensionsToggle.js:50 | the getter string decodes pair by pair, the `; ` separators staying as they are |
| CookieNote.DecodeEncode | FirefoxExtensionsToggle.js:50 | percent-decoding undoes `encodeURIComponent` on ASCII text, and the encoded text holds no `;` |
| CookieNote.PercentNameFails | FirefoxExtensionsToggle.js:44-50 | a saved list naming "100% Dark" makes the stored note unreadable: decoding throws a URIError |
| CookieNote.EncodedNoteReadsBack | FirefoxExtensionsToggle.js:44-58 | with the payload encoded before it is written, any ASCII payload without `;` reads back unchanged, `%` included, wherever its pair is listed among other well-formed cookies |
| CookieNote.NoteReadsBack | FirefoxExtensionsToggle.js:48-62 | an entry made of the note's name, a `;`-free payload and attributes after a `;` reads back as exactly that payload |
| CookieNote.OtherCookiesAreSkipped | FirefoxExtensionsToggle.js:52-60 | a cookie entry before the note that is not the note does not change what is read |
| ExtensionSearch.FlipTwice | FirefoxExtensionsToggle.js:15-20 | a toggle click flips, so clicking the same toggles twice restores them |
| ExtensionSearch.FlipUnion | FirefoxExtensionsToggle.js:119-121 | flipping two disjoint groups of toggles one after the other flips their union |
| ExtensionSearch.FlippedAt | FirefoxExtensionsToggle.js:15-20 | clicking a group of toggles flips each toggle of the group and leaves every other toggle as it was |
| ExtensionSearch.SpanMember | FirefoxExtensionsToggle.js:119-121 | on a list without repeats, a card is clicked by the window's loop exactly when its index lies between the loop's bounds |
| ExtensionSearch.ReenableIdempotent | FirefoxExtensionsToggle.js:23-41 | re-enabling all but the problematic extension twice is re-enabling once, and the second pass clicks nothing |
| ExtensionSearch.NoClicksWhenEnabled | FirefoxExtensionsToggle.js:23-41 | the re-enable pass clicks nothing when every starting-enabled card other than the problematic one is enabled |
| ExtensionSearch.MidSplits | FirefoxExtensionsToggle.js:116 | for a window of two or more, both halves around `Math.floor((start + end) / 2)` are non-empty and of the sizes the status text reports |
| ExtensionSearch.SearchStep | FirefoxExtensionsToggle.js:135-152 | one answered round: the search goes on over the half the verdict picks, from the toggles the round leaves, with one verdict more used |
| ExtensionSearch.SearchStaysInWindow | FirefoxExtensionsToggle.js:106-153 | the search uses at most one verdict per round, isolates only an index of its window, and leaves verdicts unused only when it isolates |
| ExtensionSearch.SearchWithinBudget | FirefoxExtensionsToggle.js:106-153 | on a non-empty window the search uses at most ceil(log2 N) verdicts, and given that many it isolates an index |
| ExtensionSearch.SearchTerminates | FirefoxExtensionsToggle.js:106-153 | on a non-empty list the search uses at most ceil(log2 N) verdicts; given that many it always isolates an index of its window; it stops early only for want of a verdict |
| ExtensionSearch.WorstCaseRounds | FirefoxExtensionsToggle.js:144-152 | answering "not persisting" every time takes exactly ceil(log2 N) rounds, so the bound is reached |
| ExtensionSearch.SpanSplit | FirefoxExtensionsToggle.js:119-121 | a window of distinct cards is the disjoint union of its two halves |
| ExtensionSearch.PersistingRoundRestores | FirefoxExtensionsToggle.js:135-143 | a "persisting" verdict flips the probed half back, so the search moves on to the second half from the toggles it started the round with |
| ExtensionSearch.ResolvedRoundFlipsWindow | FirefoxExtensionsToggle.js:144-152 | a "not persisting" verdict leaves the whole window flipped when the search moves on to the first half |
| ExtensionSearch.EmptyListNeverIsolates | FirefoxExtensionsToggle.js:106-153 | with no extension enabled at load, the window [0, -1] never closes: every verdict is consumed and nothing is isolated |
| ExtensionSearch.HonestStep | FirefoxExtensionsToggle.js:116-152 | an honest operator answers "persisting" exactly when the faulty card is still enabled after the probe, and the next answers come from the half that verdict picks |
| ExtensionSearch.AsWrittenVerdicts | FirefoxExtensionsToggle.js:116-152 | three enabled extensions, the first faulty: the honest verdicts are "not persisting", then "persisting" |
| ExtensionSearch.AsWrittenSearch | FirefoxExtensionsToggle.js:135-152 | on three extensions, the verdicts "not persisting" then "persisting" isolate the second |
| ExtensionSearch.AsWrittenMisisolates | FirefoxExtensionsToggle.js:144-152 | three enabled extensions, the first faulty, honest verdicts: the search as written isolates the second |
| ExtensionSearch.FixedSearchIsolates | FirefoxExtensionsToggle.js:106-153 | when each probe is undone whatever the verdict, honest verdicts isolate the faulty extension within ceil(log2 N) rounds and re-enable all the others |
| ExtensionSearch.FixedHonestRounds | FirefoxExtensionsToggle.js:106-153 | when each probe is undone whatever the verdict, an honest operator is asked at most ceil(log2 N) questions |
| ExtensionSearch.FixedSearchEmpty | FirefoxExtensionsToggle.js:236 | the corrected search reports an empty list at once and changes no toggle |
| AddonsPage.EnabledFromSpec | FirefoxExtensionsToggle.js:7 | the captured list holds exactly the enabled cards, each once, in page order |
| AddonsPage.DisabledNamesSpec | FirefoxExtensionsToggle.js:86-97 | a name is saved exactly when it is non-empty and some unpressed toggle carries it |
| AddonsPage.SweepsRestore | FirefoxExtensionsToggle.js:74-103 | disabling all, then enabling all with the saved list, restores every toggle, provided the names are distinct and non-empty |
| AddonsPage.Page.constructor | FirefoxExtensionsToggle.js:6-10 | the starting-enabled list is the cards enabled at load, in page order, each once; no verdict and no problematic extension yet |
| AddonsPage.Page.Toggle | FirefoxExtensionsToggle.js:15-20 | one click flips exactly that card's toggle |
| AddonsPage.Page.ToggleRange | FirefoxExtensionsToggle.js:119-121 | the loop flips exactly the toggles of the window's cards |
| AddonsPage.Page.ReenableAllExcept | FirefoxExtensionsToggle.js:23-41 | afterwards every starting-enabled card except the problematic one is enabled, nothing else changed, and exactly the unpressed ones were clicked |
| AddonsPage.Page.Isolate | FirefoxExtensionsToggle.js:107-113 | the search's base case blames the window's card and re-enables every other starting-enabled card |
| AddonsPage.Page.Resolve | FirefoxExtensionsToggle.js:135-151 | after a verdict the probed half is flipped back when the issue persists, the second half is flipped otherwise, and the verdict is cleared |
| AddonsPage.Page.DisableAll | FirefoxExtensionsToggle.js:86-103 | the saved list is the names of the toggles unpressed beforehand, and afterwards every toggle is unpressed |
| AddonsPage.Page.EnableAll | FirefoxExtensionsToggle.js:74-84 | a toggle ends up pressed exactly when it was pressed or its name is not in the loaded list |
| AddonsPage.Page.EnableAllFromCookie | FirefoxExtensionsToggle.js:68-84 | the sweep runs exactly when the cookie reads without a URIError, with the parsed payload or `[]`; after a URIError no toggle changes |
| AddonsPage.Page.BinarySearch | FirefoxExtensionsToggle.js:106-153 | the toggles, the outcome and the number of verdicts used are those of the search; an isolated index lies in the window and becomes the problematic extension |
| AddonsPage.Page.StartTroubleshooting | FirefoxExtensionsToggle.js:229-237 | the start button runs the search over the whole starting-enabled list; an isolated index is one of its cards and becomes the problematic extension, and any verdict used is cleared |
| TableSort.Clean | ComputerBenchmarks.js:122-123 | the cleaned text keeps exactly the digits, `.` and `-` of the cell |
| TableSort.CleanConcat | ComputerBenchmarks.js:122 | cleaning works piece by piece: the cleaning of a concatenation is the concatenation of the cleanings |
| TableSort.CleanChar | ComputerBenchmarks.js:122 | one character is kept exactly when it is a digit, `.` or `-`, and dropped otherwise |
| TableSort.DigitRun | ComputerBenchmarks.js:122-123 | the run of digits parseFloat reads is the longest digit prefix |
| TableSort.ParseDigits | ComputerBenchmarks.js:122-123 | parseFloat of a digit string, with or without a leading `-`, is its decimal value |
| TableSort.NoDigitsNoNumber | ComputerBenchmarks.js:122-126 | text without a digit parses to NaN, so its cell is compared as text |
| TableSort.Compare | ComputerBenchmarks.js:117-119 | a row whose cell is "NA" compares after any row; otherwise a row compares before one whose cell is "NA" |
| TableSort.DescMirrorsAsc | ComputerBenchmarks.js:128-140 | between two numeric cells descending is exactly the negation of ascending; between text cells the sign flips when the collation is antisymmetric |
| TableSort.CompareNumbers | ComputerBenchmarks.js:121-130 | two numeric cells compare by the difference of their values, in the direction of the order |
| TableSort.CompareTexts | ComputerBenchmarks.js:131-140 | two cells, neither "NA", of which at least one is not numeric, compare by the collation, in the direction of the order |
| TableSort.InsertPermutes | ComputerBenchmarks.js:109-141 | inserting a row adds exactly that row to the multiset of rows |
| TableSort.SortByPermutes | ComputerBenchmarks.js:109-141 | the sort is a permutation of its input |
| TableSort.SortBySorted | ComputerBenchmarks.js:109-141 | with a comparator that is antisymmetric and transitive on the rows, the result is sorted by it |
| TableSort.InsertAt | ComputerBenchmarks.js:109-141 | one insertion step puts the new row at a single position, in front of rows it compares below only |
| TableSort.InsertKeepsOrder | ComputerBenchmarks.js:109-141 | an insertion step keeps the relative order of the rows already sorted |
| TableSort.InsertAfter | ComputerBenchmarks.js:109-141 | an inserted row goes after every row it does not compare below |
| TableSort.SortByKeepsOrder | ComputerBenchmarks.js:109-141 | for any comparator, a later row that does not compare below an earlier one ends up after it |
| TableSort.SortByStable | ComputerBenchmarks.js:109-141 | on distinct rows, a later row that does not compare below an earlier one is found after it in the sorted list |
| TableSort.SortByStableOnTies | ComputerBenchmarks.js:109-141 | under a consistent comparator, distinct rows that compare equal keep their input order |
| TableSort.SortKeepsTrailingGroup | ComputerBenchmarks.js:117-119 | rows the comparator always puts last end up as a block at the end, in their input order, and nothing else is in that block |
| TableSort.NaRowsLast | ComputerBenchmarks.js:117-119 | whatever the column and order, the "NA" rows end up last, in their input order |
| TableSort.NaComparesLast | ComputerBenchmarks.js:117-119 | in either direction, the column comparator places a row whose cell reads "NA" at or after any row, and any other row before it |
| TableSort.NumericColumnSorted | ComputerBenchmarks.js:121-130 | a column of numeric cells ends up ordered by value: non-decreasing ascending, non-increasing descending |
| TableSort.TextColumnSorted | ComputerBenchmarks.js:131-140 | a column of text cells ends up ordered by the collation, in the direction of the order |
| TableSort.IndexOfDistinct | ComputerBenchmarks.js:107 | in a captured order without repeats, `indexOf` finds each row at its own position |
| TableSort.RestoresCapturedOrder | ComputerBenchmarks.js:105-107 | sorting by captured position puts the rows in the order they appear in the captured list |
| TableSort.ArrangedSpec | ComputerBenchmarks.js:98-146 | the arranged list is a permutation of the rows: the linked rows first, then the unlinked rows in their previous order |
| TableSort.RestoresOriginal | ComputerBenchmarks.js:98-146 | clearing the sort puts the linked rows back in captured order, followed by the unlinked rows |
| TableSort.SortThenRestore | ComputerBenchmarks.js:98-146 | sorting by any comparator and then clearing the sort gives back the captured table |
| TableSort.DollarAmount | ComputerBenchmarks.js:121-126 | a cell `$` followed by digits is numeric, with the value of the digits |
| TableSort.ThousandsSeparated | ComputerBenchmarks.js:121-126 | a cell with a thousands comma is numeric, with the value of the digits without the comma |
| TableSort.CleanSeparated | ComputerBenchmarks.js:122 | cleaning removes the thousands comma and keeps the digits |
| TableSort.SeparatedLooksNumeric | ComputerBenchmarks.js:125-126 | a comma-separated digit cell matches the numeric pattern |
| TableSort.PriceCell | ComputerBenchmarks.js:114-126 | a price row's first cell reads as its dollar text and parses to its amount |
| TableSort.PriceRowsCompare | ComputerBenchmarks.js:117-130 | ascending, the cheaper price compares before the dearer one, and both compare before "NA" |
| TableSort.BeforeNa | ComputerBenchmarks.js:119 | any row without "NA" compares before a row with "NA" |
| TableSort.PricesAscending | ComputerBenchmarks.js:109-141 | an "NA" row, a dearer and a cheaper price sort ascending as cheaper, dearer, "NA" |
| SortEngine.AppendedDistinct | ComputerBenchmarks.js:145-146 | appending distinct rows moves them to the end, in order, and leaves the other items in place |
| SortEngine.AppendPermutation | ComputerBenchmarks.js:145-146 | appending the linked rows and then the unlinked rows of a list leaves exactly that sequence |
| SortEngine.ChartList.AppendChild | ComputerBenchmarks.js:145 | `appendChild` moves the row to the end, removing it from where it was |
| SortEngine.ChartList.AppendAll | ComputerBenchmarks.js:145-146 | the list after the `forEach` appends is the old list with each row moved to the end in turn |
| SortEngine.SameArrowAlternates | ComputerBenchmarks.js:57-81 | clicking the same arrow twice alternates between sorting by that column and clearing the sort |
| SortEngine.ClickSortsUnlessActive | ComputerBenchmarks.js:57-68 | a click clears the sort exactly when its arrow is the active column and order |
| SortEngine.IndicatorsShowState | ComputerBenchmarks.js:149-170 | the up arrow is green exactly for the ascending column, the down arrow red exactly for the descending one, all others black |
| SortEngine.Engine.constructor | ComputerBenchmarks.js:35-38 | no column, order 'none', no active table, no captured order |
| SortEngine.Engine.UpdateHeaderIndicators | ComputerBenchmarks.js:149-170 | every header's indicators show the state for the given column |
| SortEngine.Engine.SortTable | ComputerBenchmarks.js:83-147 | no table: nothing changes; clearing the sort without a captured order: no reorder; otherwise the list becomes the linked rows sorted, then the unlinked rows, and the indicators show the state |
| SortEngine.Engine.UpIndicatorClick | ComputerBenchmarks.js:57-68 | the state steps as an up-arrow click, then the table is sorted by the new state |
| SortEngine.Engine.DownIndicatorClick | ComputerBenchmarks.js:70-81 | the state steps as a down-arrow click, then the table is sorted by the new state |
| SortEngine.Engine.StoreOriginalOrder | ComputerBenchmarks.js:172-181 | the rows are captured for the active table only when none were captured before, and no other capture changes |
| SortEngine.Engine.Initialize | ComputerBenchmarks.js:183-222 | a visible container becomes the active table and its first captured order is kept; without one nothing changes |
| ImageSnapping.StepsKeepValid | reddit-snapping.js:61-178 | every handler keeps the current index within the list or at -1 |
| ImageSnapping.EntriesKeepValid | reddit-snapping.js:61-72 | the observer callback changes only the current index, which stays valid |
| ImageSnapping.KeyIgnoredWhenIdle | reddit-snapping.js:135-139 | when disabled or with no current image a key does nothing and the default scrolling is not prevented |
| ImageSnapping.KeyMovesByOne | reddit-snapping.js:141-163 | a key moves the current index by at most one, keeps the list, and marks only the index just past the end as skipped |
| ImageSnapping.DownThenUp | reddit-snapping.js:141-163 | down then up returns to the same state, scrolling to the next image and back |
| ImageSnapping.UpThenDown | reddit-snapping.js:155-162 | up then down returns to the same state |
| ImageSnapping.SkippedImageResumes | reddit-snapping.js:101-154 | past the last image the page is scrolled; a refresh that finds more images scrolls to the skipped one and makes it current |
| ImageSnapping.RefreshResumesSkipped | reddit-snapping.js:101-106 | a refresh resumes at a pending skipped index exactly when it lies in the refreshed list: it scrolls there, makes it current and clears it; otherwise the skipped index stays and nothing scrolls |
| ImageSnapping.SameCountKeepsList | reddit-snapping.js:82-90 | a refresh that finds as many images as before keeps the old list |
| ImageSnapping.RefreshFollowsMarker | reddit-snapping.js:79-99 | with no skipped image pending in range, the current index after a refresh is the marked image's position in the refreshed list (the found images when the count changed, the kept list otherwise), or -1 |
| ImageSnapping.DisabledIsInert | reddit-snapping.js:61-80 | while disabled, refreshes and observer callbacks change nothing |
| ImageSnapping.ToggleTwice | reddit-snapping.js:174-178 | the toggle button flips the enabled flag, and two clicks restore the state |
| ImageSnapping.LastVisibleWins | reddit-snapping.js:61-72 | the last intersecting entry of a batch decides the current index |
| ImageSnapping.Snapper.constructor | reddit-snapping.js:45-49 | no images, no current or skipped index, enabled, observer inactive |
| ImageSnapping.Snapper.KeyDown | reddit-snapping.js:135-164 | the new state and the key's effect are those of the key step |
| ImageSnapping.Snapper.Refresh | reddit-snapping.js:79-108 | the new state and the scroll are those of the refresh step |
| ImageSnapping.Snapper.OnIntersection | reddit-snapping.js:61-72 | the loop over the entries leaves the state of the entries step |
| ImageSnapping.Snapper.Toggle | reddit-snapping.js:174-178 | the new state is the toggle step of the old one |

## Left out

- Console logging, the status text box, button creation, CSS and styling in all three scripts are left out: they do not affect the modelled state.
- `setInterval` polling for `issuePersisting` is left out. The verdicts are a parameter, one per round, and a missing verdict ends the run as "awaiting".
- `JSON.stringify` and `JSON.parse` are opaque. The note's payload is a string, and the saved list is handed to `EnableAll` directly.
- CookieNote.DecodeUri: models `decodeURIComponent` for escapes of ASCII bytes only. An escape of a byte 0x80 or above, which starts a UTF-8 sequence, is reported as a URIError even where the sequence is valid.
- CookieNote.WrittenNoteReadsBack: promises the round trip only for payloads without `%` (and without `;`). The writer does not URI-encode the JSON it stores, but the reader decodes the whole cookie string, so a `%` in an extension name breaks or alters the read; see the findings.
- The cookie jar is modelled by the getter string alone: the browser keeps the pair before the first `;` (section 5.2 of RFC 6265) and returns the stored pairs joined by "; ". Expiry and paths are left out.
- The promise of `loadElementsFromLocalStorage` is modelled only by its outcome: `AddonsPage.Page.EnableAllFromCookie` sweeps after a successful read and does nothing after a URIError, which rejects the promise. The `saveElementsToLocalStorage` alias is left out; it only forwards to the cookie writer.
- The null checks on a missing `moz-toggle` button are not modelled: every card is assumed to have a toggle.
- AddonsPage.Page.Valid: does not state that each name is `AddonName` of its heading. The constructor ensures it, and no handler changes either field.
- The heading text read when an extension is isolated is left out. The model reports the index.
- TableSort.ParseFloat: models exact decimal values and not IEEE-754 rounding. The same holds for the differences the comparator returns.
- TableSort.SortBy: models Array.prototype.sort as a stable insertion sort. For comparators the script makes inconsistent (two "NA" cells each compare after the other), the engine's order is implementation-defined. The model fixes one order, so the input order of the "NA" rows that `TableSort.NaRowsLast` states is this model's order; in a browser their relative order depends on the order in which the engine calls the comparator.
- `localeCompare(..., { numeric: true })` is a parameter. Its properties are assumed only through `IsCollation`, where a proof needs them.
- The chart, its DOM queries and `querySelector('a')` are abstracted to a `Row` with an optional list of span texts. Only the linked rows have spans.
- `addHeaderEventListeners`, the header `innerHTML` rewrite and the MutationObserver that re-runs `initialize` are left out. They only wire handlers.
- `addNewColumn` is left out. The constant `ADD_CUSTOM_COLUMN` is false, so it never runs.
- `row.dataset.originalIndex` is left out. Nothing reads it.
- The container-visibility check of `initialize` (computed style, id, not "notes") is a parameter: the visible container's id, or none.
- SortEngine.Engine.SortTable: when the sort is cleared and no order was captured, the source throws inside the comparator. That happens only when there are at least two linked rows. The model reports `OriginalOrderMissing` and leaves the list unchanged.
- Scrolling (`scrollIntoView`, `window.scrollBy`), the refresh timers and the retry interval are left out. They become the `Scroll` effect that each step returns.
- The `current-image` class bookkeeping is left out. The element a refresh finds marked is a parameter.
- `observer.observe` is left out. The model records only the `observerActive` flag.
- The toggle button's label text is left out.
- The other scripts of the repository (the item price checker, the summarizer, the YouTube remover) are not part of this model.

## Findings

| source | as written | input that shows it | evidently intended | confidence | as-written member | corrected member |
|---|---|---|---|---|---|---|
| FirefoxExtensionsToggle.js:144-152 | on "no longer persisting" the second half is clicked, although the probe left it enabled, so it becomes disabled and later probes run with it off | three enabled extensions, the first faulty, honest verdicts "not persisting" then "persisting": the second extension is isolated | undo the probe whatever the verdict, so every probe starts from the same toggles and the faulty extension is isolated | not executed | ExtensionSearch.AsWrittenMisisolates | ExtensionSearch.FixedSearchIsolates |
| FirefoxExtensionsToggle.js:44-50 | the note is written with `JSON.stringify` alone but read through `decodeURIComponent`, so a `%` in an extension name is taken for an escape | a disabled add-on named "100% Dark": reading the cookie throws a URIError, so "Enable all Extensions" clicks nothing while the status box reports that all extensions are enabled; a name holding "%41" would read back as "A" | encode the JSON with `encodeURIComponent` when writing, so decoding gives back exactly what was written | not executed | CookieNote.PercentNameFails | CookieNote.EncodedNoteReadsBack |
| FirefoxExtensionsToggle.js:236 | the search starts with start 0 and end -1 when no extension is enabled; `start === end` never holds, so it waits for verdicts forever | no enabled extension at load, any verdicts | report that there is nothing to search | not executed | ExtensionSearch.EmptyListNeverIsolates | ExtensionSearch.FixedSearchEmpty |
