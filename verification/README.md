# Inventory report tool: verified model of the table logic

The tool is a desktop program that builds an inventory report for a folder.
Dropping a folder on its window does four things:

- It lists the folder and computes a CRC-32 checksum, size and timestamp for
  every file.
- It finds the project's spreadsheet.
- It reads two things from that spreadsheet: the control sheet ("Лист
  управления") and the author pairs on the contents sheet ("Содержание").
- It shows the results in three editable tables: files, control grid and
  authors.

Rendering fills a document template with a `RenderData` payload built from
those tables.

This project models the deterministic logic under that glue and proves what
it does:

- `Moves` (main.go) covers `moveFile` and `moveAuthor`: one algorithm over two
  row types, written once and generic in the row type. `Moved` is the
  specification. `Move` shifts a backing array in place as the code does, and
  is proved equal to `Moved`. Around them are lemmas for the wrap-arounds, the
  neighbour swap, the permutation property and the delete splice `Deleted`.
- `Layouts` (main.go) holds the state the table layouts keep, as classes:
  - `FileTable` has the rows behind the file table and the row its selection
    remembers. It has the up and down buttons and `Update`, which models
    `updateFileTable`.
  - `AuthorTable` has the author rows, the title options and the selection.
    It has the up, down and delete buttons, and the two ways the rows are
    loaded.
  - `Scan` is the specification of the all-or-nothing folder rescan.
- `Titles` (main.go, drop handler) covers the distinct-title list in
  first-seen order with the two extra titles appended, and the half/half
  title overwrite.
- `ControlGrid` (main.go, `CreateControlTable`) covers the control table's
  dimensions (longest row) and its cell lookup ("" past a short row).
- `Report` (utils.go) covers:
  - the checksum and size strings of `calculateChecksum`: upper-case
    hexadecimal without padding, and decimal;
  - the `RenderData` payload of `renderTemplate`, with the control map keyed
    by 1-based cell names and the author fields swapped.
- `Workbook` (excel_utils.go) covers the control sheet pass-through and
  `extractAuthorData`:
  - the range list `"D5:E23,F5:G23"` is split, converted to 0-based ranges,
    and the ranges are sliced;
  - the end row is exclusive, so the declared ranges give 2 × 18 = 36 pairs;
  - the case where a workbook cannot be opened.
- `Formats` holds the textual encodings used by the above. Each comes with its
  inverse and a round-trip lemma:
  - splitting on a separator;
  - base-10 and base-16 rendering;
  - A1 cell names: column letters then the decimal row.

The outside world becomes inputs:

- A directory listing is a `Result` of entries. Each entry carries a `Probe`:
  the outcome of opening, reading and stat-ing it, with the CRC-32 value and
  the already formatted modification time.
- A workbook is a map from sheet names to row grids, or an open error.
- The cell-naming call used by the payload is a function parameter. Facts
  about it are proved only under an explicit injectivity premise
  (`Report.InjectiveNaming`), and separately for the model's own A1 naming.
- The range list's cell names are read with the model's own A1 parser
  (`Formats.ParseCellName`).

The code slices the end row exclusively. Each author range therefore yields
18 rows (sheet rows 5 to 22), and the author list holds 36 pairs rather than
the 38 that reading "D5:E23" as an inclusive range would give. The model
follows the code.

## Model

| member | source | states |
|---|---|---|
| Moves.Move | main.go:135-154 | The in-place algorithm (wrap cases building new slices, otherwise two overlapping copies and a store at dst) returns exactly `Moved(s, src, dst)`. |
| Moves.ShiftTowardFront | main.go:148 | `copy(slice[src:], slice[src+1:])`: each slot from `src` on takes its right neighbour's value; the others are unchanged. |
| Moves.ShiftTowardBack | main.go:151 | `copy(slice[dst+1:], slice[dst:])` with overlap: each slot after `dst` takes its left neighbour's old value; the others are unchanged. |
| Moves.MoveIsRelocation | main.go:156-175 | Every allowed move, both wrap-arounds included, takes out the row at `src` and puts it back at one landing index (n-1 for the up-wrap, 0 for the down-wrap, dst otherwise). The other rows keep their relative order. |
| Moves.MovePermutes | main.go:135-175 | A move keeps the length and the multiset of rows: nothing is lost, duplicated or invented. |
| Moves.MoveToNeighbourSwaps | main.go:148-153 | Moving to `src±1` inside the table swaps the two neighbours and leaves every other index unchanged. |
| Moves.DeleteRemovesOne | main.go:382 | Deleting row `r` shortens the table by one and keeps rows before `r` in place. Later rows shift up by one. Exactly one copy of `s[r]` is gone. |
| Layouts.SelectionFollowsMovedRow | main.go:222-245 | For any selected row both buttons are safe. The row re-selected by each handler (`r-1` or `n-1` for up, `r+1` or `0` for down) is the moved row's landing index, and holds that row. |
| Layouts.UpWrapExample | main.go:138-147 | Up from row 0 of [r0, r1, r2] gives [r1, r2, r0] with row 2 selected. Down from row 2 gives [r2, r0, r1] with row 0 selected. |
| Layouts.DeleteExample | main.go:378-383 | Deleting row 1 of [a, b, c] gives [a, c]; with row -1 selected nothing changes. |
| Layouts.ScanSucceedsIff | main.go:388-405 | The rescan succeeds exactly when no entry's checksum fails. |
| Layouts.ScanRows | main.go:393-399 | A successful rescan has one `[name, checksum, size, created]` row per entry, in listing order. |
| Layouts.ScanFailsAtFirst | main.go:394-397 | A failed rescan returns the error of the first entry whose checksum fails; all entries before it succeeded. |
| Layouts.ScanFailurePersists | main.go:394-397 | Once a prefix of the listing fails, the whole rescan fails with that same error. |
| Layouts.FileTable.constructor | main.go:218 | The file table starts empty with its selection at row 0, the zero cell. |
| Layouts.FileTable.OnSelected | main.go:219-221 | Selecting a cell stores its row and changes nothing else. |
| Layouts.FileTable.MoveUp | main.go:222-233 | The up button moves the selected row up (the first row wraps to the end). It needs a selected row inside the table, else `slice[src]` panics. The new selection holds the moved row. |
| Layouts.FileTable.MoveDown | main.go:234-245 | The down button moves the selected row down (the last row wraps to the front). It needs a selected row inside the table. The new selection holds the moved row. |
| Layouts.FileTable.Update | main.go:388-405 | A listing error or any failing checksum returns that error and leaves the rows untouched. Otherwise the rows become exactly `Scan` of the listing. The selection is not touched. |
| Layouts.AuthorTable.constructor | main.go:347 | The author table starts empty with no selection (row -1). |
| Layouts.AuthorTable.OnSelected | main.go:348-353 | Selecting a cell stores its row. |
| Layouts.AuthorTable.MoveUp | main.go:354-365 | As for the file table, over author rows; the title options are unchanged. |
| Layouts.AuthorTable.MoveDown | main.go:366-377 | As for the file table, over author rows; the title options are unchanged. |
| Layouts.AuthorTable.Delete | main.go:378-384 | With a negative selection nothing changes. Otherwise exactly the selected row is spliced out. The selection is kept. The selected row must be below the row count, or the slice panics. |
| Layouts.AuthorTable.Reload | main.go:460-464 | The control-sheet picker replaces the author rows with the extracted ones as they are. |
| Layouts.AuthorTable.Load | main.go:516-537 | The drop handler's author block sets the title options to the distinct extracted titles plus the two extras. Each extracted row keeps its name and takes the half/half title. Every resulting title is one of the options. |
| Titles.FirstIndex | main.go:519-526 | The index returned is the first occurrence of the value. |
| Titles.FirstOccurrencesElements | main.go:519-526 | The distinct list holds exactly the values of the title column. |
| Titles.FirstOccurrencesDistinct | main.go:519-526 | The distinct list has no duplicates. |
| Titles.FirstOccurrencesOrder | main.go:519-526 | The distinct list is in first-seen order. |
| Titles.DistinctTitlesExample | main.go:519-526 | ["Checked", "Checked", "Designed"] gives ["Checked", "Designed"]. |
| Titles.CollectTitles | main.go:517-529 | The loop with its `seen` set builds the first-occurrence list of column 0, then appends both extra titles unconditionally. |
| Titles.AssignTitles | main.go:530-537 | The row count and every name are unchanged. A row with index < len/2 (integer division) gets "Разраб."; the others get "Проверил". |
| ControlGrid.Dimensions | main.go:251-264 | An empty grid gives (0, 0). Otherwise the result is the row count and the longest row's length: no row is longer, and some row reaches it. |
| ControlGrid.CellText | main.go:269-276 | A cell inside its row reads as the stored text; a cell past the end of a short row reads as "". |
| ControlGrid.ViewOfRowIsPaddedRow | main.go:269-276 | Across the table width, a row seen through the lookup is the stored row followed by "" padding, so no stored text is hidden or altered. |
| Report.CalculateChecksum | utils.go:35-60 | Open, read or stat failure gives three empty strings and the error. Success gives the CRC in upper-case hexadecimal without padding: 1 to 8 digits from 0-9A-F with no leading zero, parsing back to the CRC; a zero CRC is exactly "0". The size is in decimal without padding and parses back to the byte count; a zero size is exactly "0". The timestamp is passed through. |
| Report.RowIntoFacts | utils.go:79-85 | Filling one grid row adds one key per stored cell and keeps the other keys. Under injective naming each new key maps to its cell's text. |
| Report.ControlMapKeys | utils.go:77-86 | Every key of the control map is the name of a stored cell's 1-based coordinate. |
| Report.ControlMapCells | utils.go:77-86 | Under injective naming, (col, row) has a key exactly when the cell is stored, with no key past a short row's end. The value is the text of cell (row-1, col-1). |
| Report.A1ControlMap | utils.go:77-86 | With A1 names ("A1", "B3", ...) the control map holds, for each stored cell, what the control table's cell lookup shows. |
| Report.BuildRenderData | utils.go:67-92 | `Items` has one entry per file row, in order, from fields 0 to 3. `Excel` comes only from the four strings passed for it. `Control` is the control map. `Authors` has one entry per author row with `Title` from column 0 and `Name` from column 1. |
| Formats.Split | excel_utils.go:37 | No piece contains the separator, and there is at least one piece. |
| Formats.JoinSplit | excel_utils.go:37 | Joining the pieces with the separator gives the input back. |
| Formats.SplitAtFirstSeparator | excel_utils.go:37-40 | The text before the first separator is the first piece. |
| Formats.SplitWithoutSeparator | excel_utils.go:40 | Text without the separator is a single piece. |
| Formats.Render | utils.go:59 | The rendering is non-empty and made of digits of the base. |
| Formats.RenderRoundTrip | utils.go:59 | Parsing the rendering gives the number back. |
| Formats.RenderNoLeadingZero | utils.go:59 | The rendering starts with '0' only for 0, which renders as "0": there is no padding. |
| Formats.RenderLengthBound | utils.go:59 | A number below base^k has at most k digits. |
| Formats.HexOfUint32Length | utils.go:53-59 | A 32-bit checksum renders as 1 to 8 hexadecimal digits. |
| Formats.ColumnLettersRoundTrip | excel_utils.go:41-45 | Column letters (A..Z, AA, ...) read back as the column number. |
| Formats.CellNameRoundTrip | excel_utils.go:41-45 | An A1 name of a 1-based (col, row) parses back to that coordinate. |
| Formats.CellNameInjective | utils.go:80 | Distinct 1-based coordinates have distinct A1 names. |
| Formats.CellNameExamples | utils.go:80 | (1, 1) is "A1", (2, 3) is "B3", and "B3" parses to (2, 3). |
| Workbook.ExtractControlData | excel_utils.go:22-29 | Returns the control sheet's rows unchanged, or nothing when the sheet is missing. |
| Workbook.RangesOf | excel_utils.go:36-52 | One 0-based range per comma-separated piece, in declaration order. |
| Workbook.ParseRanges | excel_utils.go:36-52 | The parsing loop yields exactly `RangesOf` of the list. |
| Workbook.DeclaredRangesParsed | excel_utils.go:36-51 | "D5:E23,F5:G23" is well formed and parses to [(row 4, col 3)–(row 22, col 4), (row 4, col 5)–(row 22, col 6)]: each 1-based coordinate minus one. |
| Workbook.NamedRangeParsed | excel_utils.go:40-51 | "start:end" written with two A1 names parses to the two coordinates, each lowered by one. |
| Workbook.SliceRanges | excel_utils.go:54-60 | The slicing loops give exactly `Pairs`: the ranges in declaration order, each top to bottom from its start row up to but excluding its end row. Each pair is the two cells at startCol and startCol+1. |
| Workbook.RangePairs | excel_utils.go:56-57 | A range yields endRow - startRow pairs. |
| Workbook.PairsLength | excel_utils.go:54-60 | The output length is the sum of endRow - startRow over the ranges. |
| Workbook.DeclaredPairs | excel_utils.go:36-60 | With the declared ranges the output is 36 pairs. Pairs 0-17 come from columns D,E of sheet rows 5-22, and pairs 18-35 from columns F,G of the same rows. Row 23 is never read. |
| Workbook.DeclaredRangesFit | excel_utils.go:56-57 | With slice bounds taken as row lengths, the slicing does not panic exactly when the author sheet has at least 22 rows and rows 4-21 (0-based) have at least 7 cells. |
| Workbook.MissingAuthorSheetCannotBeSliced | excel_utils.go:32-35 | A missing author sheet is only logged. The nil rows fit no declared range, so the slicing would panic. |
| Workbook.ExtractAuthorData | excel_utils.go:31-61 | Looks up the author sheet, continuing with no rows on error. Then parses the declared list and returns `Pairs` of the sheet over `DeclaredRanges`. |
| Workbook.ExtractExcelFileData | excel_utils.go:63-71 | A workbook that cannot be opened gives (nothing, nothing). Otherwise the result is the control grid and the author pairs. |

## Left out

- Fyne GUI code is not modelled: windows, tabs, dialogs, labels, column widths, the title drop-down and entry edit callbacks, `CreateFileDataTable` and the author table's cell callbacks. The reason is that these are presentation with no logic of their own.
- Layouts.FileTable.MoveUp, MoveDown and the author table's handlers keep only the selected row. The remembered column and the author table's redirect of a selection to column 2 are not modelled, because no row or selection result depends on them. Fyne's `Select` is modelled as always calling `OnSelected` with the new row. It returns early without the callback on its bounds check, which cannot fire because the proved landing index is always in range, and when the target cell is already selected. The latter happens only when the landing index equals the old row (a one-row table), where the remembered row is the same either way.
- File-system I/O is not modelled: `os.ReadDir`, `os.Open`, `io.Copy` and `Stat`. Their outcomes are inputs (`Result` listing, `Probe`).
- The CRC-32 computation is not modelled. It is the hash/crc32 library, so the 32-bit value is an input.
- Timestamp formatting with the "2006.01.02_15:04" layout is not modelled. The formatted string is an input.
- Report.CalculateChecksum: the size is modelled as a natural number, because a file size is never negative. `FormatInt`'s sign for negative values is not modelled.
- Report.CalculateChecksum: the deferred close-error assignment is not modelled. The results are unnamed, so it cannot change what is returned.
- The spreadsheet library's internals are not modelled: `OpenFile`, `GetRows` and cell naming. A workbook is a map from sheet name to rows.
- Formats.ParseCellName is the model's own A1 reader. It stands in for the library's `CellNameToCoordinates` and is applied only to the constant range list. Lower-case letters, `$` anchors and the library's maximum row and column counts are not modelled.
- Report.BuildRenderData takes the cell-naming call as a parameter. Its error branch is not modelled: the library rejects coordinates past its maximum row or column, and the code then logs and stores under "". Properties of the control map are proved under an explicit injectivity premise, or for the model's own A1 names.
- Workbook.ParseRanges requires a well-formed list. The code's path for a malformed range is not modelled: it logs and continues with the library's fallback coordinates, and `cells[1]` panics on a piece without ':'. The only list ever parsed is the constant, which is proved well formed.
- Workbook.SliceRanges checks a Go slice expression's upper bound against the slice's length, while Go checks it against the capacity. The model assumes that each row `GetRows` returns has equal length and capacity. Nothing in this code shows that. Where a row's capacity exceeds its length, Go reads cells past the row's end instead of panicking, and the model does not capture that.
- Workbook.DeclaredRangesFit: its "exactly when" rests on the same length-equals-capacity assumption. A row shorter than 7 cells whose capacity reaches column G would be sliced by Go but fails `Fits`.
- Workbook.ExtractAuthorData: its precondition (`Fits` of the author rows) is the no-panic condition under the same length-equals-capacity assumption. It excludes short rows that Go could slice through spare capacity.
- Workbook.ExtractExcelFileData: its precondition on an opened workbook is `ExtractAuthorData`'s, so it rests on the same length-equals-capacity assumption.
- Moves.Move does not model the empty row appended as a placeholder in the general case. That slot is always overwritten before the result is returned.
- Moves.Move and Layouts.AuthorTable.Delete do not model aliasing. In the code, `append` and `copy` reuse the caller's backing array. The model works on sequence values, and the caller always replaces its slice with the result.
- `searchExcel` is not modelled. It is a file-system walk.
- The drop handler's glue is not modelled: the URI count check, `Stat`, the directory check and the spreadsheet's own checksum call. These are dialog and I/O glue; the table effects they lead to are modelled (`FileTable.Update`, `AuthorTable.Load`).
- The control grid assignment in the drop handler and the control-sheet picker is not modelled separately. It is `ExtractExcelFileData`'s control result stored as is.
- Opening, rendering and saving the document template is not modelled, and neither are the `log.Fatal` exits. These are external library calls.
