/**
 * The report side of utils.go: the strings `calculateChecksum` produces for
 * one file, and the payload `renderTemplate` hands to the document template
 * (`RenderData` with its `Items`, `Excel`, `Control` and `Authors`).
 *
 * Opening, reading and stat-ing the file are collaborators: their outcome for
 * one file is a `Probe`. The CRC-32 value arrives already computed, and the
 * modification time already formatted. The spreadsheet library's cell-naming
 * call is the `cellName` parameter.
 */
module Report {
  import opened Common
  import opened Formats
  import ControlGrid

  /** One row of the report's file list. */
  datatype CheckedFile = CheckedFile(fileName: string, checksum: string, fileSize: string, createdAt: string)

  /** One author of the report; note the field order differs from the stored row's (title, name). */
  datatype Author = Author(name: string, title: string)

  /** The payload given to the document template. */
  datatype RenderData = RenderData(
    items: seq<CheckedFile>,
    excel: CheckedFile,
    control: map<string, string>,
    authors: seq<Author>)

  /** The range of a CRC-32 sum. */
  type Uint32 = x: nat | x < 0x1_0000_0000

  /**
   * What the file system and the CRC-32 pass report for one file: the first
   * failing step (open, read through the hasher, stat), or the checksum, the
   * byte size and the formatted modification time.
   */
  datatype Probe =
    | OpenFailed(error: IoError)
    | ReadFailed(error: IoError)
    | StatFailed(error: IoError)
    | Probed(crc: Uint32, size: nat, modTime: string)

  /** `calculateChecksum`'s four results: checksum, size, timestamp, and the error, if any. */
  datatype Checksummed = Checksummed(checksum: string, size: string, createdAt: string, error: Option<IoError>)

  /**
   * On any failure the three strings are empty and the error is returned.
   * Otherwise the checksum is the CRC in upper-case hexadecimal without
   * padding (1 to 8 digits `0`-`9`, `A`-`F`, reading back as the CRC) and the
   * size is the byte count in decimal without padding, reading back as the byte
   * count; a zero CRC or size is the single digit "0".
   */
  function CalculateChecksum(probe: Probe): (r: Checksummed)
    ensures !probe.Probed? ==> r == Checksummed("", "", "", Some(probe.error))
    ensures probe.Probed? ==> r.error == None && r.createdAt == probe.modTime
    ensures probe.Probed? ==> ParseDigits(r.checksum, 16) == Some(probe.crc as nat)
    ensures probe.Probed? ==> 1 <= |r.checksum| <= 8
    ensures probe.Probed? ==> forall i :: 0 <= i < |r.checksum| ==> DigitValue(r.checksum[i]) < 16
    ensures probe.Probed? ==> (r.checksum[0] == '0' <==> probe.crc == 0)
    ensures probe.Probed? ==> ParseDigits(r.size, 10) == Some(probe.size)
    ensures probe.Probed? ==> (r.size[0] == '0' <==> probe.size == 0)
    ensures probe.Probed? && probe.crc == 0 ==> r.checksum == "0"
    ensures probe.Probed? && probe.size == 0 ==> r.size == "0"
  {
    match probe
    case Probed(crc, size, modTime) =>
      RenderRoundTrip(crc, 16);
      HexOfUint32Length(crc);
      RenderNoLeadingZero(crc, 16);
      RenderRoundTrip(size, 10);
      RenderNoLeadingZero(size, 10);
      Checksummed(Render(crc, 16), Render(size, 10), modTime, None)
    case _ =>
      Checksummed("", "", "", Some(probe.error))
  }

  // ---------------------------------------------------------------------------
  // The control map

  /**
   * `m` after storing the cells of `row`, which is sheet row `sheetRow`
   * (1-based), left to right under the names of their 1-based coordinates.
   */
  function RowInto(m: map<string, string>, row: seq<string>, sheetRow: nat, cellName: (nat, nat) -> string): map<string, string>
    decreases |row|
  {
    if |row| == 0 then m
    else RowInto(m, row[..|row| - 1], sheetRow, cellName)[cellName(|row|, sheetRow) := row[|row| - 1]]
  }

  /** The control map after every cell of the grid has been stored, row by row; a later write under the same name wins. */
  function ControlMap(grid: Grid, cellName: (nat, nat) -> string): map<string, string>
    decreases |grid|
  {
    if |grid| == 0 then map[]
    else RowInto(ControlMap(grid[..|grid| - 1], cellName), grid[|grid| - 1], |grid|, cellName)
  }

  /** The names `cellName` gives the first `width` columns of sheet row `sheetRow`. */
  ghost function RowKeys(width: nat, sheetRow: nat, cellName: (nat, nat) -> string): set<string>
  {
    set col | 1 <= col <= width :: cellName(col, sheetRow)
  }

  /** Different 1-based coordinates get different names (an assumption about the naming function, not a library guarantee). */
  ghost predicate InjectiveNaming(cellName: (nat, nat) -> string)
  {
    forall c1, r1, c2, r2 ::
      c1 >= 1 && r1 >= 1 && c2 >= 1 && r2 >= 1 && cellName(c1, r1) == cellName(c2, r2) ==> c1 == c2 && r1 == r2
  }

  lemma {:induction false} RowIntoFacts(m: map<string, string>, row: seq<string>, sheetRow: nat, cellName: (nat, nat) -> string)
    requires sheetRow >= 1
    ensures RowInto(m, row, sheetRow, cellName).Keys == m.Keys + RowKeys(|row|, sheetRow, cellName)
    ensures forall k :: k in m && k !in RowKeys(|row|, sheetRow, cellName) ==> RowInto(m, row, sheetRow, cellName)[k] == m[k]
    ensures InjectiveNaming(cellName) ==> forall col :: 1 <= col <= |row| ==>
      RowInto(m, row, sheetRow, cellName)[cellName(col, sheetRow)] == row[col - 1]
    decreases |row|
  {
    if |row| > 0 {
      var init := row[..|row| - 1];
      RowIntoFacts(m, init, sheetRow, cellName);
      assert RowKeys(|row|, sheetRow, cellName) == RowKeys(|init|, sheetRow, cellName) + {cellName(|row|, sheetRow)};
    } else {
      assert RowKeys(0, sheetRow, cellName) == {};
    }
  }

  /** Every entry of the control map is the text of some stored cell, under the name of that cell's 1-based coordinates. */
  lemma {:induction false} ControlMapKeys(grid: Grid, cellName: (nat, nat) -> string)
    ensures forall k :: k in ControlMap(grid, cellName) ==>
      exists row, col :: 1 <= row <= |grid| && 1 <= col <= |grid[row - 1]| && k == cellName(col, row)
    decreases |grid|
  {
    if |grid| > 0 {
      var init := grid[..|grid| - 1];
      var last := grid[|grid| - 1];
      ControlMapKeys(init, cellName);
      RowIntoFacts(ControlMap(init, cellName), last, |grid|, cellName);
      forall k | k in ControlMap(grid, cellName)
        ensures exists row, col :: 1 <= row <= |grid| && 1 <= col <= |grid[row - 1]| && k == cellName(col, row)
      {
        if k in ControlMap(init, cellName) {
          var row, col :| 1 <= row <= |init| && 1 <= col <= |init[row - 1]| && k == cellName(col, row);
          assert grid[row - 1] == init[row - 1];
        } else {
          var col :| 1 <= col <= |last| && k == cellName(col, |grid|);
          assert grid[|grid| - 1] == last;
        }
      }
    }
  }

  /**
   * With an injective naming the control map has a key for the 1-based
   * coordinate (col, row) exactly when that cell is stored (positions past the
   * end of a short row get no key), and its value is the cell's text.
   */
  lemma ControlMapCells(grid: Grid, cellName: (nat, nat) -> string)
    requires InjectiveNaming(cellName)
    ensures forall row, col :: 1 <= row <= |grid| && 1 <= col ==>
      (cellName(col, row) in ControlMap(grid, cellName) <==> col <= |grid[row - 1]|)
    ensures forall row, col :: 1 <= row <= |grid| && 1 <= col <= |grid[row - 1]| ==>
      ControlMap(grid, cellName)[cellName(col, row)] == grid[row - 1][col - 1]
  {
    forall row, col | 1 <= row <= |grid| && 1 <= col
      ensures cellName(col, row) in ControlMap(grid, cellName) <==> col <= |grid[row - 1]|
      ensures col <= |grid[row - 1]| ==> ControlMap(grid, cellName)[cellName(col, row)] == grid[row - 1][col - 1]
    {
      ControlMapCell(grid, cellName, row, col);
    }
  }

  /** `ControlMapCells` for one coordinate, by induction on the rows above it. */
  lemma {:induction false} ControlMapCell(grid: Grid, cellName: (nat, nat) -> string, row: nat, col: nat)
    requires InjectiveNaming(cellName)
    requires 1 <= row <= |grid| && 1 <= col
    ensures cellName(col, row) in ControlMap(grid, cellName) <==> col <= |grid[row - 1]|
    ensures col <= |grid[row - 1]| ==> ControlMap(grid, cellName)[cellName(col, row)] == grid[row - 1][col - 1]
    decreases |grid|
  {
    var n := |grid|;
    var init := grid[..n - 1];
    var last := grid[n - 1];
    var before := ControlMap(init, cellName);
    var k := cellName(col, row);
    RowIntoFacts(before, last, n, cellName);
    if row < n {
      ControlMapCell(init, cellName, row, col);
      assert grid[row - 1] == init[row - 1];
      assert k !in RowKeys(|last|, n, cellName);
    } else {
      ControlMapKeys(init, cellName);
      forall r', c' | 1 <= r' <= |init| && 1 <= c' <= |init[r' - 1]|
        ensures k != cellName(c', r')
      {
      }
      assert k !in before;
      if col > |last| {
        assert k !in RowKeys(|last|, n, cellName);
      }
    }
  }

  /** The A1 naming meets the assumption, so the control map is keyed by "A1"-style names cell for cell. */
  lemma A1ControlMap(grid: Grid)
    ensures forall row, col :: 1 <= row <= |grid| && 1 <= col ==>
      (CellName(col, row) in ControlMap(grid, CellName) <==> col <= |grid[row - 1]|)
    ensures forall row, col :: 1 <= row <= |grid| && 1 <= col <= |grid[row - 1]| ==>
      ControlMap(grid, CellName)[CellName(col, row)] == ControlGrid.CellText(grid, row - 1, col - 1)
  {
    forall c1, r1, c2, r2 | c1 >= 1 && r1 >= 1 && c2 >= 1 && r2 >= 1 && CellName(c1, r1) == CellName(c2, r2)
      ensures c1 == c2 && r1 == r2
    {
      CellNameInjective(c1, r1, c2, r2);
    }
    ControlMapCells(grid, CellName);
  }

  // ---------------------------------------------------------------------------
  // The payload

  /**
   * The payload construction of `renderTemplate`: one `CheckedFile` per file
   * row from its fields 0 to 3, the spreadsheet's own entry from the four
   * strings passed for it, the control map, and one `Author` per author row
   * with the title and the name exchanged into the payload's field order.
   */
  method BuildRenderData(
    files: Grid, controlData: Grid, authorsData: seq<AuthorRow>,
    excelFileName: string, excelCheck: string, excelSize: string, excelCreatedAt: string,
    cellName: (nat, nat) -> string)
    returns (data: RenderData)
    requires forall i :: 0 <= i < |files| ==> |files[i]| >= 4
    ensures |data.items| == |files|
    ensures forall i :: 0 <= i < |files| ==>
      data.items[i] == CheckedFile(files[i][0], files[i][1], files[i][2], files[i][3])
    ensures data.excel == CheckedFile(excelFileName, excelCheck, excelSize, excelCreatedAt)
    ensures data.control == ControlMap(controlData, cellName)
    ensures |data.authors| == |authorsData|
    ensures forall i :: 0 <= i < |authorsData| ==>
      data.authors[i] == Author(authorsData[i].name, authorsData[i].title)
  {
    var items: seq<CheckedFile> := [];
    var i := 0;
    while i < |files|
      invariant 0 <= i <= |files|
      invariant |items| == i
      invariant forall k :: 0 <= k < i ==> items[k] == CheckedFile(files[k][0], files[k][1], files[k][2], files[k][3])
    {
      var file := files[i];
      items := items + [CheckedFile(file[0], file[1], file[2], file[3])];
      i := i + 1;
    }
    var excel := CheckedFile(excelFileName, excelCheck, excelSize, excelCreatedAt);
    var control: map<string, string> := map[];
    var rowNum := 0;
    while rowNum < |controlData|
      invariant 0 <= rowNum <= |controlData|
      invariant control == ControlMap(controlData[..rowNum], cellName)
    {
      var controlRow := controlData[rowNum];
      ghost var before := control;
      var colNum := 0;
      while colNum < |controlRow|
        invariant 0 <= colNum <= |controlRow|
        invariant control == RowInto(before, controlRow[..colNum], rowNum + 1, cellName)
      {
        // A naming error is only logged; the name returned is used as it is.
        var name := cellName(colNum + 1, rowNum + 1);
        assert controlRow[..colNum + 1][..colNum] == controlRow[..colNum];
        control := control[name := controlRow[colNum]];
        colNum := colNum + 1;
      }
      assert controlRow[..colNum] == controlRow;
      assert controlData[..rowNum + 1][..rowNum] == controlData[..rowNum];
      rowNum := rowNum + 1;
    }
    assert controlData[..rowNum] == controlData;
    var authors: seq<Author> := [];
    var j := 0;
    while j < |authorsData|
      invariant 0 <= j <= |authorsData|
      invariant |authors| == j
      invariant forall k :: 0 <= k < j ==> authors[k] == Author(authorsData[k].name, authorsData[k].title)
    {
      authors := authors + [Author(authorsData[j].name, authorsData[j].title)];
      j := j + 1;
    }
    data := RenderData(items, excel, control, authors);
  }
}
