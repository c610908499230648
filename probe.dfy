/** The check `export_sheet_to_csv` makes on the reloaded, value-only copy
    of the export sheet before choosing how to read it: is there an empty
    cell in its first rows, other than the header cells A1, B1 and C1? */
module StalenessProbe {
  import opened Cells

  /** At most this many rows from the top are probed. */
  const ProbeRows: nat := 10

  /** The last row probed: `min(10, max_row)`. */
  function LastProbedRow(sheet: Sheet): (last: nat)
    ensures last <= ProbeRows && last <= sheet.maxRow
    ensures last == ProbeRows || last == sheet.maxRow
  {
    if sheet.maxRow < ProbeRows then sheet.maxRow else ProbeRows
  }

  /** c is one of the cells `iter_rows` visits: rows 1 to the last probed
      row, columns 1 to `max_column`. */
  predicate InProbe(sheet: Sheet, c: Coord) {
    1 <= c.row <= LastProbedRow(sheet) && 1 <= c.col <= sheet.maxCol
  }

  /** The probe raises its flag for c: a visited cell whose value is None and
      whose name is not A1, B1 or C1. */
  predicate IsProbedBlank(sheet: Sheet, c: Coord)
    ensures IsProbedBlank(sheet, c) ==> ReadCell(sheet, c) == Empty
    ensures IsProbedBlank(sheet, c) ==> 1 <= c.row <= ProbeRows && 1 <= c.col <= sheet.maxCol
  {
    && InProbe(sheet, c)
    && ValueOf(ReadCell(sheet, c)) == Blank
    && CoordName(c) !in ["A1", "B1", "C1"]
  }

  /** The name test is the same as skipping the first three cells of row 1. */
  lemma ProbedBlankByPosition(sheet: Sheet, c: Coord)
    ensures IsProbedBlank(sheet, c) <==>
      && InProbe(sheet, c)
      && ReadCell(sheet, c) == Empty
      && !(c.row == 1 && c.col <= 3)
  {
    if InProbe(sheet, c) {
      HeaderNames(c);
    }
  }

  /** The nested loop over `iter_rows(min_row=1, max_row=min(10, max_row))`
      with the `has_none_values` flag and its two breaks. The flag is raised
      exactly when some visited cell is a probed blank; the ghost result
      records the cell where the loops stopped, which is the first such
      cell in row-major order. */
  method HasNoneValues(sheet: Sheet) returns (hasNone: bool, ghost stoppedAt: Option<Coord>)
    ensures hasNone <==> exists c :: IsProbedBlank(sheet, c)
    ensures hasNone <==> stoppedAt.Some?
    ensures stoppedAt.Some? ==> IsProbedBlank(sheet, stoppedAt.value)
    ensures stoppedAt.Some? ==> forall d :: IsProbedBlank(sheet, d) ==> !Before(d, stoppedAt.value)
  {
    hasNone := false;
    stoppedAt := None;
    var lastRow := LastProbedRow(sheet);
    var row := 1;
    while row <= lastRow
      invariant 1 <= row <= lastRow + 1
      invariant !hasNone && stoppedAt == None
      invariant forall d :: IsProbedBlank(sheet, d) ==> d.row >= row
    {
      var col := 1;
      while col <= sheet.maxCol
        invariant 1 <= col <= sheet.maxCol + 1
        invariant !hasNone && stoppedAt == None
        invariant forall d :: IsProbedBlank(sheet, d) ==> d.row > row || (d.row == row && d.col >= col)
      {
        var c := Coord(row, col);
        var value := ValueOf(ReadCell(sheet, c));
        if value == Blank && CoordName(c) in ["A1", "B1", "C1"] {
          col := col + 1;
          continue;
        } else if value == Blank {
          hasNone, stoppedAt := true, Some(c);
          break;
        }
        col := col + 1;
      }
      if hasNone {
        break;
      }
      row := row + 1;
    }
    if hasNone {
      assert IsProbedBlank(sheet, stoppedAt.value);
    }
  }

  /** Two sheets that agree on the probed window give the same answer: only
      the cells of the first min(10, max_row) rows and the extent matter. */
  lemma ProbeDependsOnWindowOnly(s1: Sheet, s2: Sheet)
    requires LastProbedRow(s1) == LastProbedRow(s2) && s1.maxCol == s2.maxCol
    requires forall c :: InProbe(s1, c) ==> ReadCell(s1, c) == ReadCell(s2, c)
    ensures forall c :: IsProbedBlank(s1, c) <==> IsProbedBlank(s2, c)
  {
    forall c ensures IsProbedBlank(s1, c) <==> IsProbedBlank(s2, c) {
      assert InProbe(s1, c) <==> InProbe(s2, c);
    }
  }

  /** Writing a cell below row 10, inside the columns the sheet already
      has, never changes the answer once the sheet has 10 rows. */
  lemma ProbeIgnoresRowsBelowTen(sheet: Sheet, c: Coord, v: Value)
    requires sheet.maxRow >= ProbeRows
    requires c.row > ProbeRows && 1 <= c.col <= sheet.maxCol
    ensures forall d :: IsProbedBlank(sheet, d) <==> IsProbedBlank(SetCell(sheet, c, v), d)
  {
    ProbeDependsOnWindowOnly(sheet, SetCell(sheet, c, v));
  }

  /** On a sheet with fewer than 10 rows, a write below row 10 extends the
      extent and so the window: the first row past the old extent was not
      probed before and is probed, as an empty cell, afterwards. */
  lemma ProbeWindowGrows(sheet: Sheet, c: Coord, v: Value)
    requires sheet.WellFormed() && sheet.maxRow < ProbeRows
    requires c.row > ProbeRows && c.col >= 1
    ensures !InProbe(sheet, Coord(sheet.maxRow + 1, 1))
    ensures IsProbedBlank(SetCell(sheet, c, v), Coord(sheet.maxRow + 1, 1))
  {
    var s, d := SetCell(sheet, c, v), Coord(sheet.maxRow + 1, 1);
    assert LastProbedRow(s) == ProbeRows;
    assert d != c && d !in sheet.cells;
    ProbedBlankByPosition(s, d);
  }
}
