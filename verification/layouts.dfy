/**
 * The state behind the file and author tables of main.go: the rows a table
 * shows and the row its `selectedCell` remembers, with the up, down and
 * delete buttons, the folder rescan of `updateFileTable`, and the author
 * reload of the drop handler.
 *
 * `table.Select(id)` is modelled as `OnSelected` called with the new row.
 * The table skips its `OnSelected` callback when `id` is out of bounds, which
 * the landing index never is, or already selected, which only happens when the
 * landing index is the old row; the remembered row is the same either way.
 */
module Layouts {
  import opened Common
  import opened Moves
  import Titles
  import Report

  /** The selection an up press leaves: the row above, or the last row after the first row wraps to the end. */
  function UpSelection(n: int, row: int): int
  {
    if row < n && row > 0 then row - 1 else n - 1
  }

  /** The selection a down press leaves: the row below, or the first row after the last row wraps to the front. */
  function DownSelection(n: int, row: int): int
  {
    if row < n - 1 && row > -1 then row + 1 else 0
  }

  /**
   * For any selected row both buttons are safe, the table keeps its length,
   * and the row each handler re-selects is the row that was moved, so the
   * selection follows the row.
   */
  lemma SelectionFollowsMovedRow<T>(s: seq<T>, row: int)
    requires 0 <= row < |s|
    ensures MoveAllowed(|s|, row, row - 1) && MoveAllowed(|s|, row, row + 1)
    ensures UpSelection(|s|, row) == Landing(|s|, row, row - 1)
    ensures DownSelection(|s|, row) == Landing(|s|, row, row + 1)
    ensures 0 <= UpSelection(|s|, row) < |Moved(s, row, row - 1)| == |s|
    ensures 0 <= DownSelection(|s|, row) < |Moved(s, row, row + 1)| == |s|
    ensures Moved(s, row, row - 1)[UpSelection(|s|, row)] == s[row]
    ensures Moved(s, row, row + 1)[DownSelection(|s|, row)] == s[row]
  {
    MoveIsRelocation(s, row, row - 1);
    MoveIsRelocation(s, row, row + 1);
  }

  /**
   * Up from row 0 of a 3-row table wraps that row to the end and selects row 2;
   * down from row 2 wraps it to the front and selects row 0.
   */
  lemma UpWrapExample<T>(r0: T, r1: T, r2: T)
    ensures Moved([r0, r1, r2], 0, -1) == [r1, r2, r0]
    ensures UpSelection(3, 0) == 2
    ensures Moved([r0, r1, r2], 2, 3) == [r2, r0, r1]
    ensures DownSelection(3, 2) == 0
  {
    assert [r0, r1, r2][1..] == [r1, r2];
    assert [r0, r1, r2][..2] == [r0, r1];
  }

  /** Deleting row 1 of [a, b, c] gives [a, c]; with no selection (-1) nothing changes. */
  lemma DeleteExample<T>(a: T, b: T, c: T)
    ensures Deleted([a, b, c], 1) == [a, c]
    ensures Deleted([a, b, c], -1) == [a, b, c]
  {
    assert [a, b, c][..1] == [a];
    assert [a, b, c][2..] == [c];
  }

  // ---------------------------------------------------------------------------
  // The folder rescan

  /** A directory entry: its name and what opening, reading and stat-ing it gave. */
  datatype DirEntry = DirEntry(name: string, probe: Report.Probe)

  /** The file-table row of an entry whose checksum succeeded: name, checksum, size, creation time. */
  function FileRow(entry: DirEntry): seq<string>
  {
    var c := Report.CalculateChecksum(entry.probe);
    [entry.name, c.checksum, c.size, c.createdAt]
  }

  /** Whether the checksum of an entry fails: opening, reading or stat-ing it gave an error. */
  predicate Fails(entry: DirEntry)
  {
    !entry.probe.Probed?
  }

  /**
   * The rows the scan builds from a listing: one row per entry in listing
   * order, or the error of the first entry whose checksum fails.
   */
  function Scan(entries: seq<DirEntry>): Result<Grid>
    decreases |entries|
  {
    if |entries| == 0 then Ok([])
    else
      match Scan(entries[..|entries| - 1])
      case Err(e) => Err(e)
      case Ok(rows) =>
        var last := entries[|entries| - 1];
        if Fails(last) then Err(last.probe.error) else Ok(rows + [FileRow(last)])
  }

  /** Entry `k` is the first entry whose checksum fails. */
  predicate FirstFailure(entries: seq<DirEntry>, k: int)
  {
    && 0 <= k < |entries| && Fails(entries[k])
    && forall i :: 0 <= i < k ==> !Fails(entries[i])
  }

  /** The scan succeeds exactly when no entry's checksum fails. */
  lemma {:induction false} ScanSucceedsIff(entries: seq<DirEntry>)
    ensures Scan(entries).Ok? <==> forall i :: 0 <= i < |entries| ==> !Fails(entries[i])
    decreases |entries|
  {
    if |entries| > 0 {
      var init := entries[..|entries| - 1];
      ScanSucceedsIff(init);
      assert forall i :: 0 <= i < |init| ==> init[i] == entries[i];
    }
  }

  /** A successful scan gives one four-field row per entry, in listing order. */
  lemma {:induction false} ScanRows(entries: seq<DirEntry>)
    requires Scan(entries).Ok?
    ensures |Scan(entries).value| == |entries|
    ensures forall i :: 0 <= i < |entries| ==> Scan(entries).value[i] == FileRow(entries[i])
    ensures forall i :: 0 <= i < |entries| ==> |Scan(entries).value[i]| == 4
    decreases |entries|
  {
    if |entries| > 0 {
      var init := entries[..|entries| - 1];
      var last := entries[|entries| - 1];
      ScanRows(init);
      var rows := Scan(init).value;
      var all := Scan(entries).value;
      assert all == rows + [FileRow(last)];
      forall i | 0 <= i < |entries|
        ensures all[i] == FileRow(entries[i])
      {
        if i < |init| {
          assert all[i] == rows[i] && init[i] == entries[i];
        }
      }
    }
  }

  /** A failed scan reports the error of the first entry whose checksum fails; the entries before it succeeded. */
  lemma {:induction false} ScanFailsAtFirst(entries: seq<DirEntry>)
    requires Scan(entries).Err?
    ensures exists k ::
      FirstFailure(entries, k) && Scan(entries).error == entries[k].probe.error
    decreases |entries|
  {
    var init := entries[..|entries| - 1];
    var last := entries[|entries| - 1];
    assert forall i :: 0 <= i < |init| ==> init[i] == entries[i];
    if Scan(init).Err? {
      ScanFailsAtFirst(init);
      var k :| FirstFailure(init, k)
        && Scan(init).error == init[k].probe.error;
      assert FirstFailure(entries, k);
    } else {
      ScanSucceedsIff(init);
      assert FirstFailure(entries, |entries| - 1);
    }
  }

  // ---------------------------------------------------------------------------
  // The file table

  /** The file table's rows (`*fileData`) and its remembered selection. */
  class FileTable {
    var rows: Grid
    var selectedRow: int

    /** An empty table; the selection starts at the zero cell, row 0. */
    constructor ()
      ensures rows == [] && selectedRow == 0
    {
      rows := [];
      selectedRow := 0;
    }

    /** The table's `OnSelected` callback: remember the selected row. */
    method OnSelected(row: int)
      modifies this
      ensures selectedRow == row && rows == old(rows)
    {
      selectedRow := row;
    }

    /** The up button: move the selected row up (the first row wraps to the end) and select it again. */
    method MoveUp()
      requires 0 <= selectedRow < |rows|
      modifies this
      ensures rows == Moved(old(rows), old(selectedRow), old(selectedRow) - 1)
      ensures selectedRow == UpSelection(|old(rows)|, old(selectedRow))
      ensures 0 <= selectedRow < |rows| && rows[selectedRow] == old(rows)[old(selectedRow)]
    {
      SelectionFollowsMovedRow(rows, selectedRow);
      var row := selectedRow;
      if row < |rows| && row > 0 {
        rows := Move(rows, row, row - 1);
        OnSelected(row - 1);
      } else {
        rows := Move(rows, row, row - 1);
        OnSelected(|rows| - 1);
      }
    }

    /** The down button: move the selected row down (the last row wraps to the front) and select it again. */
    method MoveDown()
      requires 0 <= selectedRow < |rows|
      modifies this
      ensures rows == Moved(old(rows), old(selectedRow), old(selectedRow) + 1)
      ensures selectedRow == DownSelection(|old(rows)|, old(selectedRow))
      ensures 0 <= selectedRow < |rows| && rows[selectedRow] == old(rows)[old(selectedRow)]
    {
      SelectionFollowsMovedRow(rows, selectedRow);
      var row := selectedRow;
      if row < |rows| - 1 && row > -1 {
        rows := Move(rows, row, row + 1);
        OnSelected(row + 1);
      } else {
        rows := Move(rows, row, row + 1);
        OnSelected(0);
      }
    }

    /**
     * `updateFileTable`: list the folder and checksum every entry into a
     * fresh table, which replaces the rows only when every step succeeded.
     */
    method Update(listing: Result<seq<DirEntry>>) returns (err: Option<IoError>)
      modifies this
      ensures listing.Err? ==> err == Some(listing.error) && rows == old(rows)
      ensures listing.Ok? && Scan(listing.value).Ok? ==> err == None && rows == Scan(listing.value).value
      ensures listing.Ok? && Scan(listing.value).Err? ==> err == Some(Scan(listing.value).error) && rows == old(rows)
      ensures selectedRow == old(selectedRow)
    {
      if listing.Err? {
        return Some(listing.error);
      }
      var files := listing.value;
      var newFileData: Grid := [];
      var i := 0;
      while i < |files|
        invariant 0 <= i <= |files|
        invariant Scan(files[..i]) == Ok(newFileData)
      {
        assert files[..i + 1][..i] == files[..i];
        var checked := Report.CalculateChecksum(files[i].probe);
        if checked.error.Some? {
          ScanFailurePersists(files, i + 1);
          return checked.error;
        }
        newFileData := newFileData + [[files[i].name, checked.checksum, checked.size, checked.createdAt]];
        i := i + 1;
      }
      assert files[..|files|] == files;
      rows := newFileData;
      err := None;
    }
  }

  /** Once the scan of a prefix fails, the scan of the whole listing fails with the same error. */
  lemma {:induction false} ScanFailurePersists(entries: seq<DirEntry>, k: int)
    requires 0 <= k <= |entries| && Scan(entries[..k]).Err?
    ensures Scan(entries) == Scan(entries[..k])
    decreases |entries| - k
  {
    if k < |entries| {
      assert entries[..k + 1][..k] == entries[..k];
      ScanFailurePersists(entries, k + 1);
    } else {
      assert entries[..k] == entries;
    }
  }

  // ---------------------------------------------------------------------------
  // The author table

  /** The author table's rows (`*authorsData`), its title options (`distinctAuthors`) and its remembered selection. */
  class AuthorTable {
    var rows: seq<AuthorRow>
    var titles: seq<string>
    var selectedRow: int

    /** An empty table with nothing selected (row -1). */
    constructor ()
      ensures rows == [] && titles == [] && selectedRow == -1
    {
      rows := [];
      titles := [];
      selectedRow := -1;
    }

    /** The table's `OnSelected` callback: remember the selected row (the column redirect is not modelled). */
    method OnSelected(row: int)
      modifies this
      ensures selectedRow == row && rows == old(rows) && titles == old(titles)
    {
      selectedRow := row;
    }

    /** The up button: as for the file table. */
    method MoveUp()
      requires 0 <= selectedRow < |rows|
      modifies this
      ensures rows == Moved(old(rows), old(selectedRow), old(selectedRow) - 1)
      ensures selectedRow == UpSelection(|old(rows)|, old(selectedRow))
      ensures 0 <= selectedRow < |rows| && rows[selectedRow] == old(rows)[old(selectedRow)]
      ensures titles == old(titles)
    {
      SelectionFollowsMovedRow(rows, selectedRow);
      var row := selectedRow;
      if row < |rows| && row > 0 {
        rows := Move(rows, row, row - 1);
        OnSelected(row - 1);
      } else {
        rows := Move(rows, row, row - 1);
        OnSelected(|rows| - 1);
      }
    }

    /** The down button: as for the file table. */
    method MoveDown()
      requires 0 <= selectedRow < |rows|
      modifies this
      ensures rows == Moved(old(rows), old(selectedRow), old(selectedRow) + 1)
      ensures selectedRow == DownSelection(|old(rows)|, old(selectedRow))
      ensures 0 <= selectedRow < |rows| && rows[selectedRow] == old(rows)[old(selectedRow)]
      ensures titles == old(titles)
    {
      SelectionFollowsMovedRow(rows, selectedRow);
      var row := selectedRow;
      if row < |rows| - 1 && row > -1 {
        rows := Move(rows, row, row + 1);
        OnSelected(row + 1);
      } else {
        rows := Move(rows, row, row + 1);
        OnSelected(0);
      }
    }

    /** The delete button: nothing without a selection, else splice the selected row out; the selection is kept. */
    method Delete()
      requires selectedRow < |rows|
      modifies this
      ensures rows == Deleted(old(rows), old(selectedRow))
      ensures selectedRow == old(selectedRow) && titles == old(titles)
    {
      if selectedRow < 0 {
        return;
      }
      rows := rows[..selectedRow] + rows[selectedRow + 1..];
    }

    /** The control-sheet picker: the extracted author rows replace the table's rows as they are. */
    method Reload(extracted: seq<AuthorRow>)
      modifies this
      ensures rows == extracted
      ensures titles == old(titles) && selectedRow == old(selectedRow)
    {
      rows := extracted;
    }

    /**
     * The drop handler's author block: the title options become the distinct
     * extracted titles followed by the two extra titles, and the rows become
     * the extracted rows with the half/half titles. Every title a row ends
     * up with is one of the options.
     */
    method Load(extracted: seq<AuthorRow>)
      modifies this
      ensures titles == Titles.FirstOccurrences(Titles.TitlesOf(extracted)) + Titles.ExtraAuthorTitles
      ensures |rows| == |extracted|
      ensures forall i :: 0 <= i < |rows| ==>
        rows[i] == AuthorRow(Titles.HalfTitle(i, |extracted|), extracted[i].name)
      ensures forall i :: 0 <= i < |rows| ==> rows[i].title in titles
      ensures selectedRow == old(selectedRow)
    {
      rows := extracted;
      titles := Titles.CollectTitles(rows);
      rows := Titles.AssignTitles(rows);
    }
  }
}
