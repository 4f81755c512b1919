/**
 * Spreadsheet extraction (excel_utils.go): the control sheet is passed on as
 * it is; the author sheet is cut into (title, name) pairs along the declared
 * range list "D5:E23,F5:G23".
 *
 * A workbook is modelled by what the spreadsheet library's GetRows returns for
 * each sheet name: the sheet's rows of cell texts, or an error for a sheet that
 * does not exist. Cell names are read with the A1 definitions of `Formats`.
 */
module Workbook {
  import opened Common
  import opened Formats

  const ControlSheetName: string := "Лист управления"
  const AuthorSheetName: string := "Содержание"

  /** The hard-coded author ranges, in spreadsheet notation. */
  const AuthorRangeList: string := "D5:E23,F5:G23"

  /** What `AuthorRangeList` parses to (see `DeclaredRangesParsed`). */
  const DeclaredRanges: seq<CellRange> := [CellRange(4, 3, 22, 4), CellRange(4, 5, 22, 6)]

  /** A declared range converted to 0-based bounds. */
  datatype CellRange = CellRange(startRow: int, startCol: int, endRow: int, endCol: int)

  /** The sheets of an opened workbook, by name. */
  type Sheets = map<string, Grid>

  /** GetRows: the sheet's rows, or an error when the workbook has no sheet of that name. */
  function GetRows(sheets: Sheets, name: string): Result<Grid>
  {
    if name in sheets then Ok(sheets[name]) else Err(IoError("sheet " + name + " does not exist"))
  }

  /** `rows` after the author sheet lookup: the sheet's rows, or nil (empty) after the error is logged. */
  function AuthorSheetRows(sheets: Sheets): Grid
  {
    match GetRows(sheets, AuthorSheetName)
    case Ok(rows) => rows
    case Err(_) => []
  }

  /** `extractControlData`: the control sheet's rows unchanged, or nil (empty) when the sheet is missing. */
  function ExtractControlData(sheets: Sheets): (rows: Grid)
    ensures ControlSheetName in sheets ==> rows == sheets[ControlSheetName]
    ensures ControlSheetName !in sheets ==> rows == []
  {
    match GetRows(sheets, ControlSheetName)
    case Ok(rows) => rows
    case Err(_) => []
  }

  // ---------------------------------------------------------------------------
  // Parsing the range list

  /** A range `start:end` whose two cell names parse. */
  predicate WellFormedRange(range: string)
  {
    var cells := Split(range, ':');
    |cells| >= 2 && ParseCellName(cells[0]).Some? && ParseCellName(cells[1]).Some?
  }

  predicate WellFormedRangeList(list: string)
  {
    forall i :: 0 <= i < |Split(list, ',')| ==> WellFormedRange(Split(list, ',')[i])
  }

  /** A range's 1-based start and end coordinates, each lowered by one. */
  function ZeroBased(range: string): CellRange
    requires WellFormedRange(range)
  {
    var cells := Split(range, ':');
    var start := ParseCellName(cells[0]).value;
    var end := ParseCellName(cells[1]).value;
    CellRange(start.row - 1, start.col - 1, end.row - 1, end.col - 1)
  }

  /** The ranges of a list, in declaration order. */
  function RangesOf(list: string): (ranges: seq<CellRange>)
    requires WellFormedRangeList(list)
    ensures |ranges| == |Split(list, ',')|
    ensures forall i :: 0 <= i < |ranges| ==> ranges[i] == ZeroBased(Split(list, ',')[i])
  {
    var parts := Split(list, ',');
    seq(|parts|, i requires 0 <= i < |parts| => ZeroBased(parts[i]))
  }

  /** The range-list loop of `extractAuthorData`: split on `,`, split each range on `:`, convert to 0-based. */
  method ParseRanges(list: string) returns (ranges: seq<CellRange>)
    requires WellFormedRangeList(list)
    ensures ranges == RangesOf(list)
  {
    var cellRanges := Split(list, ',');
    ranges := [];
    var i := 0;
    while i < |cellRanges|
      invariant 0 <= i <= |cellRanges|
      invariant ranges == RangesOf(list)[..i]
    {
      var cells := Split(cellRanges[i], ':');
      var start := ParseCellName(cells[0]).value;
      var end := ParseCellName(cells[1]).value;
      ranges := ranges + [CellRange(start.row - 1, start.col - 1, end.row - 1, end.col - 1)];
      i := i + 1;
    }
  }

  /** An A1 name holds no ':' (it is letters, then decimal digits). */
  lemma NoColonInCellName(col: nat, row: nat)
    ensures ':' !in CellName(col, row)
  {
    var letters := ColumnLetters(col);
    var digits := Render(row, 10);
    assert CellName(col, row) == letters + digits;
    assert ':' !in letters;
    assert DigitValue(':') == 16;
    assert ':' !in digits;
  }

  /** "start:end" written with two A1 names is well formed and converts each coordinate to 0-based. */
  lemma NamedRangeParsed(c1: nat, r1: nat, c2: nat, r2: nat)
    requires c1 >= 1 && r1 >= 1 && c2 >= 1 && r2 >= 1
    ensures WellFormedRange(CellName(c1, r1) + [':'] + CellName(c2, r2))
    ensures ZeroBased(CellName(c1, r1) + [':'] + CellName(c2, r2)) == CellRange(r1 - 1, c1 - 1, r2 - 1, c2 - 1)
  {
    NoColonInCellName(c1, r1);
    NoColonInCellName(c2, r2);
    SplitTwo(CellName(c1, r1), ':', CellName(c2, r2));
    CellNameRoundTrip(c1, r1);
    CellNameRoundTrip(c2, r2);
  }

  /** The two declared ranges in A1 names: D5 is (col 4, row 5), E23 is (col 5, row 23), and so on. */
  lemma DeclaredRangeNames()
    ensures "D5:E23" == CellName(4, 5) + [':'] + CellName(5, 23)
    ensures "F5:G23" == CellName(6, 5) + [':'] + CellName(7, 23)
  {
    assert CellName(4, 5) == "D5";
    assert Render(2, 10) == "2";
    assert Render(23, 10) == Render(2, 10) + [Digit(3)];
    assert CellName(5, 23) == "E23";
  }

  /** Two separator-free pieces joined by the separator split back into those two pieces. */
  lemma SplitTwo(a: string, sep: char, b: string)
    requires sep !in a && sep !in b
    ensures Split(a + [sep] + b, sep) == [a, b]
  {
    SplitAtFirstSeparator(a, sep, b);
    SplitWithoutSeparator(b, sep);
  }

  /** The declared list splits on commas into its two ranges. */
  lemma DeclaredListSplit()
    ensures Split(AuthorRangeList, ',') == ["D5:E23", "F5:G23"]
  {
    var first := "D5:E23";
    var second := "F5:G23";
    assert AuthorRangeList == first + [','] + second;
    SplitTwo(first, ',', second);
  }

  /** A list that splits into two ranges written as A1 names parses to `DeclaredRanges`. */
  lemma NamedPiecesParsed(list: string)
    requires Split(list, ',') == [CellName(4, 5) + [':'] + CellName(5, 23), CellName(6, 5) + [':'] + CellName(7, 23)]
    ensures WellFormedRangeList(list)
    ensures RangesOf(list) == DeclaredRanges
  {
    NamedRangeParsed(4, 5, 5, 23);
    NamedRangeParsed(6, 5, 7, 23);
  }

  /** The declared list is well formed and parses to the two 0-based ranges of `DeclaredRanges`. */
  lemma DeclaredRangesParsed()
    ensures WellFormedRangeList(AuthorRangeList)
    ensures RangesOf(AuthorRangeList) == DeclaredRanges
  {
    DeclaredListSplit();
    DeclaredRangeNames();
    NamedPiecesParsed(AuthorRangeList);
  }

  // ---------------------------------------------------------------------------
  // Slicing the author sheet

  /**
   * `rows[startRow:endRow]` and, in each of those rows,
   * `[2]string(row[startCol:endCol+1])` run without a panic, taking each
   * row's capacity to be its length (an assumption about the rows `GetRows`
   * returns).
   */
  predicate RangeFits(rows: Grid, range: CellRange)
  {
    && 0 <= range.startRow <= range.endRow <= |rows|
    && 0 <= range.startCol && range.endCol + 1 - range.startCol >= 2
    && forall i :: range.startRow <= i < range.endRow ==> range.endCol + 1 <= |rows[i]|
  }

  predicate Fits(rows: Grid, ranges: seq<CellRange>)
  {
    forall k :: 0 <= k < |ranges| ==> RangeFits(rows, ranges[k])
  }

  /** The pairs one range contributes: rows startRow up to but excluding endRow, top to bottom. */
  function RangePairs(rows: Grid, range: CellRange): (pairs: seq<AuthorRow>)
    requires RangeFits(rows, range)
    ensures |pairs| == range.endRow - range.startRow
  {
    seq(range.endRow - range.startRow, j requires 0 <= j < range.endRow - range.startRow =>
      AuthorRow(rows[range.startRow + j][range.startCol], rows[range.startRow + j][range.startCol + 1]))
  }

  /** The pairs of all ranges, concatenated in declaration order. */
  function Pairs(rows: Grid, ranges: seq<CellRange>): seq<AuthorRow>
    requires Fits(rows, ranges)
    decreases |ranges|
  {
    if |ranges| == 0 then []
    else Pairs(rows, ranges[..|ranges| - 1]) + RangePairs(rows, ranges[|ranges| - 1])
  }

  /** The number of rows the ranges span, end rows excluded. */
  function Height(ranges: seq<CellRange>): int
    decreases |ranges|
  {
    if |ranges| == 0 then 0
    else Height(ranges[..|ranges| - 1]) + (ranges[|ranges| - 1].endRow - ranges[|ranges| - 1].startRow)
  }

  /** The slicing loops of `extractAuthorData`. */
  method SliceRanges(rows: Grid, ranges: seq<CellRange>) returns (data: seq<AuthorRow>)
    requires Fits(rows, ranges)
    ensures data == Pairs(rows, ranges)
  {
    data := [];
    var k := 0;
    while k < |ranges|
      invariant 0 <= k <= |ranges|
      invariant data == Pairs(rows, ranges[..k])
    {
      var range := ranges[k];
      assert ranges[..k + 1][..k] == ranges[..k];
      ghost var before := data;
      var i := range.startRow;
      while i < range.endRow
        invariant range.startRow <= i <= range.endRow
        invariant data == before + RangePairs(rows, range)[..i - range.startRow]
      {
        var row := rows[i];
        data := data + [AuthorRow(row[range.startCol], row[range.startCol + 1])];
        i := i + 1;
      }
      k := k + 1;
    }
    assert ranges[..|ranges|] == ranges;
  }

  /** The output has one pair per spanned row: its length is the sum of endRow - startRow. */
  lemma {:induction false} PairsLength(rows: Grid, ranges: seq<CellRange>)
    requires Fits(rows, ranges)
    ensures |Pairs(rows, ranges)| == Height(ranges)
    decreases |ranges|
  {
    if |ranges| > 0 {
      PairsLength(rows, ranges[..|ranges| - 1]);
    }
  }

  /**
   * With the declared ranges the result is 36 pairs, 18 per range: sheet rows
   * 5 to 22 (0-based 4 to 21) of columns D,E and then of columns F,G. Sheet row
   * 23, though named as the end of both ranges, is never read.
   */
  lemma DeclaredPairs(rows: Grid)
    requires Fits(rows, DeclaredRanges)
    ensures |Pairs(rows, DeclaredRanges)| == 36
    ensures forall k :: 0 <= k < 18 ==>
      Pairs(rows, DeclaredRanges)[k] == AuthorRow(rows[4 + k][3], rows[4 + k][4])
    ensures forall k :: 18 <= k < 36 ==>
      Pairs(rows, DeclaredRanges)[k] == AuthorRow(rows[k - 14][5], rows[k - 14][6])
  {
    var first := DeclaredRanges[..1];
    assert first[..0] == [];
    assert Pairs(rows, first) == RangePairs(rows, DeclaredRanges[0]);
    assert DeclaredRanges[..1] == first;
  }

  /**
   * With capacities taken as lengths (see `RangeFits`), the declared ranges
   * can be sliced exactly when the author sheet has at
   * least 22 rows and each of its rows 4 to 21 (0-based) has at least 7 cells
   * (through column G).
   */
  lemma DeclaredRangesFit(rows: Grid)
    ensures Fits(rows, DeclaredRanges) <==>
      |rows| >= 22 && forall i :: 4 <= i < 22 ==> |rows[i]| >= 7
  {
    if Fits(rows, DeclaredRanges) {
      assert RangeFits(rows, DeclaredRanges[1]);
    }
  }

  /** A missing author sheet leaves `rows` nil, which no declared range fits: the slicing would panic. */
  lemma MissingAuthorSheetCannotBeSliced(sheets: Sheets)
    requires AuthorSheetName !in sheets
    ensures !Fits(AuthorSheetRows(sheets), DeclaredRanges)
  {
    assert !RangeFits([], DeclaredRanges[0]);
  }

  /**
   * `extractAuthorData`: look up the author sheet (logging a failure and
   * going on with nil rows), parse the declared range list, slice.
   */
  method ExtractAuthorData(sheets: Sheets) returns (data: seq<AuthorRow>)
    requires Fits(AuthorSheetRows(sheets), DeclaredRanges)
    ensures data == Pairs(AuthorSheetRows(sheets), DeclaredRanges)
  {
    var rows: Grid := [];
    var lookup := GetRows(sheets, AuthorSheetName);
    if lookup.Ok? {
      rows := lookup.value;
    }
    DeclaredRangesParsed();
    var ranges := ParseRanges(AuthorRangeList);
    data := SliceRanges(rows, ranges);
  }

  /**
   * `ExtractExcelFileData`: nothing (nil, nil) when the workbook cannot be
   * opened; otherwise the control grid and the author pairs.
   */
  method ExtractExcelFileData(book: Result<Sheets>) returns (control: Grid, authors: seq<AuthorRow>)
    requires book.Ok? ==> Fits(AuthorSheetRows(book.value), DeclaredRanges)
    ensures book.Err? ==> control == [] && authors == []
    ensures book.Ok? ==> control == ExtractControlData(book.value)
    ensures book.Ok? ==> authors == Pairs(AuthorSheetRows(book.value), DeclaredRanges)
  {
    if book.Err? {
      return [], [];
    }
    control := ExtractControlData(book.value);
    authors := ExtractAuthorData(book.value);
  }
}
