# cardmarket-bulk-import: the CSV-to-listing reconciliation core in Dafny

This project models the part of the cardmarket-bulk-import browser extension that turns the
rows of a user's CSV inventory into entries on the marketplace's bulk-listing form. The model covers:

- **Parsing.** Every CSV record becomes a parsed row: id, name, quantity, price, enabled, and the
  variant's extra fields. Numbers are coerced with a 0 default. Foil keywords are recognised. A row is
  enabled when its name is on the page and, for the set-aware variants, when its set belongs to the
  page's expansion.
- **Reference data.** The set table is built from the public sets CSV. The set lookup turns a CSV set
  cell into a canonical code and a marketplace edition id.
- **Language matching.** The seventeen-entry language catalog, the languages the page offers, and the
  matcher that resolves a CSV language cell against them.
- **Selection.** The row-selection form: which rows are offered and what is selected by default. It
  also covers the batch buttons, the checkbox toggle and what is submitted.
- **Filling.** Each submitted row is looked up by normalised name in a snapshot of the page's rows.
  When the matching row already holds a quantity, the row is duplicated and the copy, inserted just
  before it, receives the writes. Otherwise the row itself is written. The fill reports how many rows
  it filled.
- **Manager choice.** Which game manager serves a page path.
- **Batch filler.** The oldest filler, which pages through the raw records 100 at a time.

The repository holds several iterations of the same subsystem. Each iteration has its own module:

- `LegacyImport`: `utils/parse.ts`.
- `SetImport`: `parse.ts`.
- `GenericManager` and `MtgManager`: the game managers.
- `BatchFill`: the oldest batch filler.

All of them share one fill protocol (`Fill`). They differ only in how much of a fresh copy they
reset and whether they write the foil box.

Host behaviour the verifier cannot compute is not assumed. Each of these is a function field of a
`Js.Runtime` value that every operation receives:

- Unicode decomposition with diacritic stripping and lower-casing;
- `toLowerCase`;
- `Number(...)`;
- number printing and `toFixed(2)`.

The page is a sequence of `Page.Group`s: a row of the snapshot taken before the fill, preceded by
the copies the copy button has inserted in front of it. `Page.Flatten` recovers document order.

Some behaviour of the code is easy to misread; the model follows the code:

- **Language matching** tries the catalog entries one by one. Each entry is tested against its number,
  its labels and its extra spellings, and the first entry passing any test wins. The three criteria are
  not tried in priority order across all entries. There is no substring fallback.
- **Set table.** A sets row whose `mcmId` cell is empty is kept with edition id 0, because `Number("")`
  is 0 and 0 is finite. The filter's own comment (`mtgjson.ts:16`) says rows without a set id are
  dropped.
- **Copy reset.** Only the first two importers reset quantity, price and foil of a copy. The managers
  reset quantity and price. The batch filler resets nothing.
- **Foil.** The batch filler clicks the foil box instead of checking it, so a foil row written into
  the copy of a foil row unchecks the box.
- **Manager dispatch** compares the whole path with the English Magic bulk-listing path. Any other
  locale, and any other game, gets the generic manager.

## Model

| member | source | states |
|---|---|---|
| Js.OrZero | src/entrypoints/injectedButton.content/utils/parse.ts:27 | `n \|\| 0` is never NaN, is truthy exactly when `n` is, and then equals `n`; otherwise it is 0 |
| Js.CellText | src/entrypoints/injectedButton.content/utils/parse.ts:23 | `String(row[col])` is the cell when the record carries the column and the text "undefined" when it does not |
| Js.CellNumber | src/entrypoints/injectedButton.content/utils/parse.ts:27 | `Number(row[col])` is the host's coercion of the cell when the record carries the column, and NaN when it does not |
| Js.Slice | src/utils/usePaginatedArray.ts:47-50 | with non-negative indices `slice` is the subsequence between them, each clamped to the array's length, and empty when the end does not pass the start; never longer than the array |
| Js.SliceLength | src/utils/usePaginatedArray.ts:47-50 | a slice is never longer than the distance between its two indices, negative indices included |
| Js.SliceNegativeIndices | src/utils/usePaginatedArray.ts:47-50 | a negative index counts from the end of the array; one reaching before its start stands for 0 as a start and gives an empty slice as an end |
| Strings.Normalize | src/entrypoints/injectedButton.content/utils/index.ts:1-4 | an absent or empty string normalises to "", and anything else to the host's fold of it |
| Strings.CompareIsEquivalence | src/entrypoints/injectedButton.content/utils/index.ts:6-8 | both name comparisons, guarded and unguarded, are reflexive, symmetric and transitive whatever the fold does |
| Strings.NormalizeAgreement | src/entrypoints/injected-button.content/components/utils.ts:3-9 | the batch filler's unguarded normalisation agrees with the guarded one on every non-empty string; the guarded one answers "" for "" and for `undefined` |
| Strings.Without | src/entrypoints/injectedButton.content/utils/index.ts:17 | the filter removes `v` and keeps every other element, and it is the identity when `v` is absent |
| Strings.SetInArray | src/entrypoints/injectedButton.content/utils/index.ts:10-18 | afterwards `v` is a member exactly when `setAs` holds; adding appends once and only if absent; removing deletes every occurrence; no other element is gained or lost |
| Strings.WithoutAppend | src/entrypoints/injectedButton.content/utils/index.ts:17 | removal distributes over concatenation, so the other elements keep their relative order |
| Strings.WithoutCount | src/entrypoints/injectedButton.content/utils/index.ts:17 | removal deletes exactly the occurrences of `v`: as multisets, the result is the input with `v`'s count set to 0 |
| Strings.SetInArrayIdempotent | src/entrypoints/injectedButton.content/utils/index.ts:10-18 | toggling to the same state twice is the same as once |
| Pagination.TotalPages | src/utils/usePaginatedArray.ts:40 | at least one page; the pages hold every element, and with more than one page the last is non-empty |
| Pagination.IndexArr | src/utils/usePaginatedArray.ts:41 | the page numbers `1..totalPages` in order |
| Pagination.GetPage | src/utils/usePaginatedArray.ts:42-50 | at most `perPage` elements, and for page 1 onwards exactly the elements from `(page-1)*perPage`, clipped to the array |
| Pagination.PagesUpToIsPrefix | src/utils/usePaginatedArray.ts:42-50 | pages `1..k` laid end to end are the array's prefix of length `k*perPage`, clipped |
| Pagination.PagesCoverArray | src/utils/usePaginatedArray.ts:40-50 | pages `1..totalPages` concatenate back to the whole array, so no element is skipped or repeated |
| Pagination.PagesBeforeLastAreFull | src/utils/usePaginatedArray.ts:40-50 | every page before page `totalPages` holds exactly `perPage` elements |
| Pagination.ClampPage | src/utils/usePaginatedArray.ts:66-68 | the stored page lies in `1..totalPages`; an in-range page is kept, a page below 1 becomes 1 and a too-large one becomes the last page |
| Pagination.BuildIndexArr | src/utils/usePaginatedArray.ts:3-37 | short case: all pages. Otherwise the bar starts with 1 and ends with `totalPages` and its numbers are 1, the middle run and the last page; each ellipsis appears exactly when a gap precedes or follows the run, which is never longer than `maxPages - 2` |
| Pagination.AppendRun | src/utils/usePaginatedArray.ts:26-28 | the loop appends exactly the pages `start..end`, in order |
| Pagination.LayoutNumbers | src/utils/usePaginatedArray.ts:21-34 | the bar's numeric entries are 1, the run and the last page, and its ellipses are exactly those of the head and the tail |
| Pagination.WindowIsOrdered | src/utils/usePaginatedArray.ts:12-19 | outside the short case the page numbers shown increase strictly and lie in `1..totalPages` |
| Pagination.WindowShowsCurrentPage | src/utils/usePaginatedArray.ts:12-19 | with room for a middle page, the run is exactly `maxPages - 2` long and the current page is always shown |
| Pagination.UsePaginatedArray | src/utils/usePaginatedArray.ts:60-81 | the view reports the stored page and shows `getPage` of it; empty slots plus shown rows fill the page size. Without `maxPages` the bar is the plain index array; with it, the bar is all pages when they fit and otherwise runs from 1 to `totalPages` through the window around the stored page, its numbers strictly increasing |
| SetTable.MatchKeys | src/entrypoints/background/utils/mtgjson.ts:20-22 | the keys are the filter-and-print of the seven candidates `code, codeV3, id, mcmId, mcmName, mtgoCode, name`, in that order: at most seven, the set code first when non-empty |
| SetTable.PresentKeysMembership | src/entrypoints/background/utils/mtgjson.ts:21-22 | a string survives `filter(v => !!v).map(v => v.toString())` exactly when some truthy candidate prints as it |
| SetTable.PresentKeysAppend | src/entrypoints/background/utils/mtgjson.ts:21-22 | the filter keeps the candidates' order: it distributes over concatenation |
| SetTable.MatchKeysMembership | src/entrypoints/background/utils/mtgjson.ts:20-22 | a string is a key exactly when it is the non-empty code, a present non-empty `codeV3`, `id`, `mcmName`, `mtgoCode` or `name`, or the printed id when the id is non-zero |
| SetTable.MatchKeysNonEmpty | src/entrypoints/background/utils/mtgjson.ts:20-22 | no key is empty when number printing never prints a non-zero number as "" or "0" |
| SetTable.BuildSetTable | src/entrypoints/background/utils/mtgjson.ts:13-25 | one entry per row with a finite `mcmId`, so never more entries than rows |
| SetTable.TableEntriesWellFormed | src/entrypoints/background/utils/mtgjson.ts:13-25 | every entry is the entry of some retained row; its keys are non-empty when number printing never prints a non-zero number as "" or "0" |
| SetTable.TableInRowOrder | src/entrypoints/background/utils/mtgjson.ts:13-25 | rows are processed independently and in order: the table of `xs + ys` is the table of `xs` followed by that of `ys` |
| SetTable.SingleRowEntry | src/entrypoints/background/utils/mtgjson.ts:15-24 | a row yields an entry exactly when its `mcmId` is finite; the entry carries that id and the row's code, and an id of 0 is not a key |
| SetTable.EmptyMcmIdIsKept | src/entrypoints/background/utils/mtgjson.ts:15-17 | a row whose `mcmId` cell is empty is kept, with edition id 0 |
| SetTable.MatchSet | src/entrypoints/injectedButton.content/game-manager/managers/mtg.ts:17-22 | null exactly when no entry has a key equal to the cell up to normalisation; otherwise the code and id of the first entry that has one |
| Languages.CatalogValues | src/entrypoints/injectedButton.content/game-manager/utils/language.tsx:49-169 | the catalog has seventeen entries with option values 1..17 in order, so no two share a value |
| Languages.FindByValue | src/entrypoints/injectedButton.content/game-manager/utils/language.tsx:177 | the entry found has exactly the option's number, and nothing is found exactly when no entry has it |
| Languages.HeadLanguage | src/entrypoints/injectedButton.content/game-manager/utils/language.tsx:176-178 | one option yields at most one catalog entry, whose number is the option's |
| Languages.HeadLanguageFinds | src/entrypoints/injectedButton.content/game-manager/utils/language.tsx:176-178 | an option whose number is that of a catalog entry yields exactly that entry |
| Languages.AvailableFrom | src/entrypoints/injectedButton.content/game-manager/utils/language.tsx:174-180 | at most one language per option, all from the catalog |
| Languages.AvailableLanguages | src/entrypoints/injectedButton.content/game-manager/utils/language.tsx:171-181 | no select or no options gives no languages; otherwise at most one per option, all from the catalog |
| Languages.AvailableMembership | src/entrypoints/injectedButton.content/game-manager/utils/language.tsx:171-181 | a language is offered exactly when it is in the catalog and some option value coerces to its number |
| Languages.AvailableInOptionOrder | src/entrypoints/injectedButton.content/game-manager/utils/language.tsx:174-180 | options are read in page order: two runs of options give the first run's languages followed by the second's |
| Languages.FirstMatch | src/entrypoints/injectedButton.content/game-manager/utils/language.tsx:192-197 | the entry found passes the per-entry test and no earlier one does; nothing is found exactly when no entry passes |
| Languages.MatchLanguage | src/entrypoints/injectedButton.content/game-manager/utils/language.tsx:185-202 | matched exactly when the input is non-empty and some offered entry passes the test. A match is the first such entry; no match gives the first offered language, or English when none is offered. The answer is always a catalog entry |
| Languages.MatchIsNeverEmpty | src/entrypoints/injectedButton.content/game-manager/utils/language.tsx:185-191 | whatever the page offers the answer is a catalog entry, and with no language select it is English, unmatched |
| Languages.RegionalCodeResolves | src/entrypoints/injectedButton.content/game-manager/utils/language.tsx:192-197 | "zh_TW" picks Traditional over Simplified Chinese when the page offers both |
| Rows.NumberField | src/entrypoints/injectedButton.content/utils/parse.ts:27 | the field is the coerced cell when the column is mapped and the coercion is neither 0 nor NaN, and 0 otherwise, in particular for a missing cell |
| Rows.FindName | src/entrypoints/injectedButton.content/game-manager/managers/generic.ts:37 | the first page row whose name compares equal; none exactly when no page row does |
| Rows.MatchedName | src/entrypoints/injectedButton.content/game-manager/managers/mtg.ts:51-53 | the `matchedName` the base `parseRow` is taken to report: a page-row text exactly when the name is on the page, and one comparing equal to it |
| MtgManager.MatchedNameDecidesEnabled | src/entrypoints/injectedButton.content/game-manager/managers/mtg.ts:51-64 | with that `matchedName`, a Magic row is enabled only when its name is on the page, and with no set to check a name on the page under a non-empty text enables it |
| Rows.SetCell | src/entrypoints/injectedButton.content/parse.ts:48 | an unmapped set column reads "", a mapped one reads the cell, and a missing cell reads "undefined" |
| Rows.ExpansionId | src/entrypoints/injectedButton.content/parse.ts:39 | a missing `idExpansion` parameter reads as 0; a present one is coerced |
| Rows.ResolveSet | src/entrypoints/injectedButton.content/parse.ts:48-58 | an empty or unknown set is cleared and leaves `enabled` alone. A known set becomes its canonical code, and the row stays enabled exactly when its edition is the page's. The rule never enables a row |
| Rows.ResolvedSetComesFromTable | src/entrypoints/injectedButton.content/parse.ts:48-58 | a non-empty resolved set is the code of a table entry holding a key equal to the cell, and an enabled row with one belongs to the page's expansion |
| Page.Names | src/entrypoints/injectedButton.content/game-manager/managers/generic.ts:34 | the lookup snapshot lists the page rows' names in page order |
| Page.ApplyWrite | src/entrypoints/injectedButton.content/utils/parse.ts:73-76 | a write changes exactly the inputs it carries: checking sets the box, clicking toggles it, and name and defaults never change |
| Page.ResetCopy | src/entrypoints/injectedButton.content/utils/parse.ts:64-70 | a reset copy shows its controls' defaults, as far as the variant resets, and keeps the rest |
| Page.FillRow | src/entrypoints/injectedButton.content/utils/parse.ts:58-76 | the writes go to a new copy exactly when the row already holds a quantity. The row itself is then untouched, the earlier copies stay, and the copy is the reset row with the writes. Otherwise the row itself receives the writes |
| Page.CopyInsertedBeforeTarget | src/entrypoints/injectedButton.content/utils/parse.ts:60-63 | in document order a duplication inserts exactly one row, the written copy, immediately before the row it copies, and moves nothing else |
| Fill.WriteFor | src/entrypoints/injectedButton.content/utils/parse.ts:73-76 | quantity and price are written only when non-zero, printed and with two decimals; the foil box is only ever checked, and only by foil-writing variants |
| Fill.Step | src/entrypoints/injectedButton.content/utils/parse.ts:50-78 | a row whose name is not on the page changes nothing; otherwise the count grows by one and only the first matching group changes |
| Fill.Matched | src/entrypoints/injectedButton.content/game-manager/managers/generic.ts:36-38 | the rows kept are rows of the input whose names are on the page |
| Fill.MatchedMembership | src/entrypoints/injectedButton.content/utils/parse.ts:51-52 | a row is filled exactly when it is one of the rows and its name is on the page |
| Fill.MatchedAppend | src/entrypoints/injectedButton.content/utils/parse.ts:50-52 | the rows filled keep their relative order: the filter distributes over concatenation |
| Fill.FillFrom | src/entrypoints/injectedButton.content/utils/parse.ts:47-80 | the count is the number of rows whose name is on the page. Names never change, a row that held a quantity is never overwritten, no foil box is unchecked, and copies are only appended |
| Fill.StepGrows | src/entrypoints/injectedButton.content/utils/parse.ts:58-77 | one iteration only lets groups grow: the names stay, a filled row stays, a checked box stays checked and copies are appended |
| Fill.FillPage | src/entrypoints/injectedButton.content/utils/parse.ts:47-80 | the same guarantees for a whole fill from the open page |
| Fill.FillFromAppend | src/entrypoints/injectedButton.content/utils/parse.ts:50 | the loop is a fold: filling `xs + ys` is filling `xs` and then `ys` |
| Fill.UnmatchedRowsChangeNothing | src/entrypoints/injectedButton.content/utils/parse.ts:51-52 | dropping the rows whose name is not on the page beforehand changes neither the page nor the count |
| Fill.RepeatedNameAddsCopy | src/entrypoints/injectedButton.content/utils/parse.ts:48-63 | two rows with the same name land on the same snapshot row. When the first writes a quantity, the second finds the row filled and gets a copy of its own, so one or two copies are added and earlier copies stay |
| Fill.AllOnPageAllMatched | src/entrypoints/injectedButton.content/utils/parse.ts:51-52 | when every row's name is on the page every row is filled |
| LegacyImport.ParseRecord | src/entrypoints/injectedButton.content/utils/parse.ts:22-33 | id is the record number and name the cell text; quantity and price follow the coercion rule; foil exactly when the lower-cased cell is a foil keyword; enabled exactly when the name is on the page |
| LegacyImport.ParseCsv | src/entrypoints/injectedButton.content/utils/parse.ts:15-36 | one parsed row per record, in record order, the i-th with id i |
| LegacyImport.FillPage | src/entrypoints/injectedButton.content/utils/parse.ts:47-80 | the count is the number of rows whose name is on the page; filled rows are never overwritten and foil boxes never unchecked |
| LegacyImport.EnabledRowsAreFilled | src/entrypoints/injectedButton.content/utils/parse.ts:32 | parse and fill agree: a row is enabled exactly when its name is on the page, and any choice of enabled rows is filled completely |
| LegacyImport.CopyIsResetThenWritten | src/entrypoints/injectedButton.content/utils/parse.ts:60-76 | a row aimed at a filled row writes into a copy whose three controls start from their defaults; the foil box is checked in addition only for a foil row |
| SetImport.ParseRecord | src/entrypoints/injectedButton.content/parse.ts:44-70 | the common fields as in the first importer. An empty or unknown set is cleared and leaves the row enabled by name. A known set becomes its code, and the row is enabled exactly when its name is on the page and its edition is the page's |
| SetImport.ParseCsv | src/entrypoints/injectedButton.content/parse.ts:35-74 | one parsed row per record, in order, all against the page's `idExpansion` |
| SetImport.MissingExpansionDisablesResolvedSets | src/entrypoints/injectedButton.content/parse.ts:39 | without `idExpansion` every row whose set resolves to a non-zero edition is disabled |
| SetImport.FillPage | src/entrypoints/injectedButton.content/parse.ts:85-118 | the fill counts the rows whose name is on the page, never overwrites a filled row and never unchecks a box |
| SetImport.FillIgnoresSet | src/entrypoints/injectedButton.content/parse.ts:85-118 | the fill looks at names only: a row's set and enabled flag do not change what it writes |
| GenericManager.ParseRecord | src/entrypoints/injectedButton.content/game-manager/managers/generic.ts:20-29 | id, name, quantity and price as in the importers, no foil, and enabled exactly when the name is on the page |
| GenericManager.ParseCsv | src/entrypoints/injectedButton.content/game-manager/managers/generic.ts:16-32 | one parsed row per record, in order |
| GenericManager.FillPage | src/entrypoints/injectedButton.content/game-manager/managers/generic.ts:33-60 | resolves to the number of rows whose name is on the page; filled rows are never overwritten |
| GenericManager.FoilUntouched | src/entrypoints/injectedButton.content/game-manager/managers/generic.ts:43-56 | the generic loop leaves every snapshot foil box as it found it, and every copy shows the state of the row it copies |
| GenericManager.FillPageKeepsFoil | src/entrypoints/injectedButton.content/game-manager/managers/generic.ts:33-60 | after a generic fill every row, copies included, shows its snapshot row's original foil state |
| GenericManager.CopyResetsQuantityAndPrice | src/entrypoints/injectedButton.content/game-manager/managers/generic.ts:44-56 | a row aimed at a filled row writes into a copy whose quantity and price start from their defaults while its foil box keeps the copied state |
| MtgManager.ParseRow | src/entrypoints/injectedButton.content/game-manager/managers/mtg.ts:40-73 | the base fields pass through and foil follows the keyword rule. An enabled row always has a matched name. An unmapped, empty or unknown set is cleared and leaves the row enabled by name. A known set becomes its code, and the row is enabled exactly when it has a matched name and its edition is the page's |
| MtgManager.MissingSetCellIsLookedUp | src/entrypoints/injectedButton.content/game-manager/managers/mtg.ts:52 | a mapped set column missing from the record is looked up as "undefined" and, when unknown, cleared |
| MtgManager.CheckResolvedFoil | src/entrypoints/injectedButton.content/game-manager/managers/mtg.ts:79-81 | only the foil box of the row the base fill resolved to is checked; every other row stays as it was |
| MtgManager.MtgFillRow | src/entrypoints/injectedButton.content/game-manager/managers/mtg.ts:75-83 | the writes go to a copy exactly when the row held a quantity. The resolved row ends foil exactly when the CSV row is foil or the base fill left it foil, and a non-foil row is the base fill alone |
| MtgManager.MtgFillRowIsFoilAwareFill | src/entrypoints/injectedButton.content/game-manager/managers/mtg.ts:75-83 | the base fill followed by the foil check equals the shared protocol with the foil write switched on |
| MtgManager.MtgFillFrom | src/entrypoints/injectedButton.content/game-manager/managers/mtg.ts:75-83 | the manager's loop computes the same page and count as the shared fold with foil writes |
| MtgManager.FillPage | src/entrypoints/injectedButton.content/game-manager/index.ts:61-68 | the Magic fill counts the rows whose name is on the page, never overwrites a filled row and never unchecks a box |
| Managers.CurrentManager | src/entrypoints/injectedButton.content/game-manager/index.ts:91-99 | the Magic manager exactly for the English Magic bulk-listing path, the generic manager for every other path |
| Managers.OtherLocalesGetGeneric | src/entrypoints/injectedButton.content/game-manager/index.ts:92-97 | the Magic bulk-listing page in any other interface language gets the generic manager |
| Managers.FillPage | src/entrypoints/injectedButton.content/game-manager/index.ts:61-68 | whichever manager fills, the result is the number of rows filled and filled rows are never overwritten |
| Managers.FillCountsFilledRows | src/entrypoints/injectedButton.content/game-manager/index.ts:61-68 | for either manager, rows whose name is not on the page can be dropped without changing anything, and the count is the number of the others |
| Selection.EnabledRows | src/entrypoints/injectedButton.content/components/SelectRowsForm.tsx:34 | only enabled rows are offered, never more than there are rows |
| Selection.EnabledRowsMembership | src/entrypoints/injectedButton.content/components/SelectRowsForm.tsx:34 | a row is offered exactly when it is one of the rows and enabled |
| Selection.DefaultSelection | src/entrypoints/injectedButton.content/components/SelectRowsForm.tsx:45 | the ids of the first `min(n, 100)` enabled rows, in order |
| Selection.DefaultSelectionValid | src/entrypoints/injectedButton.content/components/SelectRowsForm.tsx:19-24 | the default selection passes the form's 1..100 validation exactly when some row is enabled |
| Selection.Submit | src/entrypoints/injectedButton.content/components/SelectRowsForm.tsx:47-49 | only rows whose id is selected are submitted |
| Selection.SubmitMembership | src/entrypoints/injectedButton.content/components/SelectRowsForm.tsx:48 | a row is submitted exactly when it is one of the rows and its id is selected |
| Selection.SubmitIgnoresSelectionOrder | src/entrypoints/injectedButton.content/components/SelectRowsForm.tsx:48 | two selections with the same ids submit the same rows |
| Selection.SubmitInRowOrder | src/entrypoints/injectedButton.content/components/SelectRowsForm.tsx:48 | submission keeps the order of the rows: it distributes over concatenation |
| Selection.VisibleRows | src/entrypoints/injectedButton.content/components/SelectRowsForm.tsx:53-58 | all rows with `showDisabled`; otherwise only rows that are enabled or selected |
| Selection.VisibleRowsMembership | src/entrypoints/injectedButton.content/components/SelectRowsForm.tsx:56 | with `showDisabled` off a row is listed exactly when it is enabled or selected |
| Selection.BatchSelection | src/entrypoints/injectedButton.content/components/SelectRowsForm.tsx:96-98 | a batch button for `[start, end]` selects exactly the ids of enabled rows `start..end` |
| Selection.Toggle | src/entrypoints/injectedButton.content/components/SelectRowsForm.tsx:168-170 | after a checkbox change the id is selected exactly when the box is checked, and no other id changes |
| Selection.ToggleSize | src/entrypoints/injectedButton.content/components/SelectRowsForm.tsx:168-170 | unchecking never grows the selection; checking an unselected id grows it by one; checking a selected one changes nothing |
| Selection.SplitIntoBatches | src/entrypoints/injectedButton.content/components/SelectRowsForm.tsx:93 | consecutive 1-based inclusive ranges covering `1..total` exactly, none when `total` is 0; every range but the last holds exactly 100 positions and the last at most 100 |
| Selection.BatchSelectionsAreValid | src/entrypoints/injectedButton.content/components/SelectRowsForm.tsx:93-99 | every batch button selects between 1 and 100 enabled rows, those at its range |
| Selection.SplitExample | src/entrypoints/injectedButton.content/components/SelectRowsForm.tsx:93 | 250 rows give the ranges 1..100, 101..200 and 201..250 |
| BatchFill.FindStrict | src/entrypoints/injected-button.content/components/utils.ts:73 | the first page row comparing equal under the unguarded comparison; none exactly when no row does |
| BatchFill.CellValue | src/entrypoints/injected-button.content/components/utils.ts:91 | `Number(cell) \|\| 0`: the coerced cell when truthy, 0 otherwise and for a missing cell |
| BatchFill.Taking | src/entrypoints/injected-button.content/components/utils.ts:71-74 | only records with a non-empty name found on the page take part, in order |
| BatchFill.TakingMembership | src/entrypoints/injected-button.content/components/utils.ts:71-74 | a record takes part exactly when it is one of the records, its name cell is non-empty and a page row carries that name |
| BatchFill.TakingAppend | src/entrypoints/injected-button.content/components/utils.ts:68-74 | the records taking part keep their relative order |
| BatchFill.RecordWrite | src/entrypoints/injected-button.content/components/utils.ts:90-108 | quantity is written as `toString()` and price as `toFixed(2)` of the coerced cell, each only when truthy; a foil record clicks the box |
| BatchFill.FoilTestAsWritten | src/entrypoints/injected-button.content/components/utils.ts:97 | the foil test throws exactly when the record lacks the foil column; otherwise it is the keyword test |
| BatchFill.StepAsWritten | src/entrypoints/injected-button.content/components/utils.ts:68-112 | a record that does not take part changes nothing; one that takes part rejects the fill exactly when its foil cell is missing, and a step that completes is exactly the corrected step |
| BatchFill.RejectionLeavesPartialWrites | src/entrypoints/injected-button.content/components/utils.ts:80-97 | a rejected step leaves its writes so far: the quantity has gone into the row, or into an unreset copy inserted before it when the row held a quantity, with price and foil untouched and every other row as it was |
| BatchFill.UnmappedFoilColumnRejects | src/entrypoints/injected-button.content/components/utils.ts:97 | as written, when no record carries the foil column, any batch in which some record takes part rejects |
| BatchFill.UnmappedFoilColumnExample | src/entrypoints/injected-button.content/App.tsx:17-25 | no foil column chosen, one record naming the page's only row: the fill rejects |
| BatchFill.Step | src/entrypoints/injected-button.content/components/utils.ts:68-112 | a record that takes part adds exactly its result and writes into its first strict match, or into an unreset copy of it when the match held a quantity; one that does not changes nothing; names never change |
| BatchFill.FillFrom | src/entrypoints/injected-button.content/components/utils.ts:68-112 | the loop appends one result per record that takes part |
| BatchFill.TakenResultsInOrder | src/entrypoints/injected-button.content/components/utils.ts:111 | the results are those of the records that take part, in record order |
| BatchFill.FillFromKeepsNames | src/entrypoints/injected-button.content/components/utils.ts:68-112 | the loop never changes a page row's name |
| BatchFill.FillFromExtends | src/entrypoints/injected-button.content/components/utils.ts:78-86 | the loop only extends the page: a row that held a quantity is never written, and copies are only ever appended |
| BatchFill.FillBatch | src/entrypoints/injected-button.content/components/utils.ts:62-115 | the corrected fill always completes, with one result per record of the chosen batch that takes part, in order, never more than 100; rows keep their names and a row that held a quantity is never written |
| BatchFill.CorrectionAgreesWithFoilColumn | src/entrypoints/injected-button.content/components/utils.ts:97 | when every record carries the foil column the fill as written completes with exactly the corrected fill's page and results |
| BatchFill.ClickUnchecksCopiedFoil | src/entrypoints/injected-button.content/components/utils.ts:80-101 | a foil record aimed at a filled, foil row writes into a copy that keeps the checked box, and the click then unchecks it |

## Left out

- Reading files, parsing CSV text, DOM queries and mutations, messaging between extension contexts,
  the network fetch of the sets CSV and `memoize`. They are I/O. Their results (records, the page
  snapshot, the set table, the option values, the `idExpansion` parameter) are inputs.
- The React rendering of the selection form, the import form and the result views. They are
  presentation; only the form's pure rules are modelled.
- Unicode decomposition, diacritic stripping, `toLowerCase`, `Number(...)`, number printing and
  `toFixed(2)` are host functions. They are `Js.Runtime` parameters, and nothing is assumed about them
  except where a lemma states it as a precondition. In particular, idempotence of the normalisation
  is not claimed.
- Numbers are opaque `Js.Num` values. Floating-point arithmetic does not occur in the core.
- The class-based generic manager that `MtgGameManager` extends (its `parseCsv` loop, `parseRow` and
  `fillRow`) is not part of this model. The shown `generic.ts` is an object literal.
  - `MtgManager.ParseRow` therefore takes the base row as input.
  - The base `fillRow` is taken to be the generic per-row protocol.
  - The base `fillPage` loop is taken to be the generic manager's loop: a snapshot of the page rows,
    the guarded name comparison and a count of the rows filled. `MtgManager.MtgFillFrom` and
    `MtgManager.FillPage` rest on this.
- Rows.MatchedName: models the `matchedName` the base `parseRow` is taken to report.
  `MtgManager.ParseRow` itself accepts any `matchedName`; `MtgManager.MatchedNameDecidesEnabled`
  states what follows when it is this one.
- `src/utils/index.ts` is not part of this model. The set importer, both managers, language
  matching and the selection form import `compareNormalized`, `setInArray` and `splitIntoBatches`
  from it.
  - `compareNormalized` and `setInArray` are taken to be those of the shown
    `injectedButton.content/utils/index.ts`, which the first importer uses.
  - `Selection.SplitIntoBatches` follows the documented behaviour of `splitIntoBatches`.
- The language field of parsed rows is not modelled: it would be filled by the base `parseRow`.
  `Languages.MatchLanguage` is modelled on its own.
- The copy button is taken to insert an exact copy of the row, before the row. The page's own
  behaviour is outside the code.
- Missing page elements are not modelled: the source asserts every selector with `!`.
  `textContent` is taken as the row's name text.
- Legacy name column: the importers' `columnMapping['name']!` is taken as a present column name.
- Sets CSV `code` column: taken as present, as `set.code!` asserts.
- `nameMatched` of the common row type is not produced by any shown parser and is not modelled.
- Pagination.TotalPages: requires a positive page size, as `UsePaginatedArray` does.
- Pagination.UsePaginatedArray: requires a positive `rowsPer`. With 0 the source divides by zero, and
  no caller passes 0.
- Pagination.GetPage: states the page contents only for page numbers from 1. Lower page numbers are
  not used by any caller.

## Findings

| source | as written | input that shows it | evidently intended | confidence | as-written member | corrected member |
|---|---|---|---|---|---|---|
| src/entrypoints/injected-button.content/components/utils.ts:97 | with no foil column chosen, the caller passes `''` as the foil column, so `row['']` is `undefined` and the unguarded `normalizeString` reads `.normalize` of `undefined`: a TypeError that rejects `fillPage`, after the first matching record's copy and quantity write were already made | page row "Island"; one record `{Name: "Island", Qty: "2"}`; columns name "Name", quantity "Qty", foil and price ''; batch 1 | a missing foil cell means "not foil" and the fill completes | high, not executed | BatchFill.UnmappedFoilColumnRejects | BatchFill.FillBatch |
