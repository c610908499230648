/** The formula diagnostics of the "Export" sheet: a row-major scan that
    collects every formula mentioning the price cells, and the summary that
    lists the first ten of them and counts the rest. */
module FormulaDiagnostics {
  import opened Strings
  import opened Cells

  /** One entry of `formulas_found`: the cell, its formula text, and its
      current value (the formula text again, in a workbook opened with
      formulas). */
  datatype FormulaRef = FormulaRef(at: Coord, formula: string, currentValue: Value)

  /** The formula could depend on the price cells: it contains "Prices!" or
      one of "D4", "D5", "D6", "D7" as a plain substring (so "D40" counts). */
  predicate MentionsPrices(formula: string)
    ensures MentionsPrices(formula) ==> 'P' in formula || 'D' in formula
  {
    ContainsFirstChar(formula, "Prices!");
    ContainsFirstChar(formula, "D4");
    ContainsFirstChar(formula, "D5");
    ContainsFirstChar(formula, "D6");
    ContainsFirstChar(formula, "D7");
    || Contains(formula, "Prices!")
    || Contains(formula, "D4") || Contains(formula, "D5")
    || Contains(formula, "D6") || Contains(formula, "D7")
  }

  /** A cell the scan keeps: a formula cell (`data_type == 'f'`) with a
      non-empty value whose text mentions the price cells. */
  predicate IsPriceFormula(cell: Cell)
    ensures IsPriceFormula(cell) ==> cell.Formula? && ValueOf(cell) == Text(cell.text) && MentionsPrices(cell.text)
  {
    cell.Formula? && cell.text != "" && MentionsPrices(cell.text)
  }

  /** What the scan appends for the cell at c: one entry, or nothing. */
  function RefAt(sheet: Sheet, c: Coord): (refs: seq<FormulaRef>)
    ensures |refs| <= 1
    ensures refs != [] <==> IsPriceFormula(ReadCell(sheet, c))
    ensures refs != [] ==> refs[0].at == c
  {
    var cell := ReadCell(sheet, c);
    if IsPriceFormula(cell) then [FormulaRef(c, cell.text, ValueOf(cell))] else []
  }

  /** The entries for columns 1 to cols of one row, left to right. */
  function RowRefs(sheet: Sheet, row: nat, cols: nat): seq<FormulaRef> {
    if cols == 0 then [] else RowRefs(sheet, row, cols - 1) + RefAt(sheet, Coord(row, cols))
  }

  /** The entries for rows 1 to rows, top to bottom. */
  function RefsThrough(sheet: Sheet, rows: nat): seq<FormulaRef> {
    if rows == 0 then [] else RefsThrough(sheet, rows - 1) + RowRefs(sheet, rows, sheet.maxCol)
  }

  /** Everything the scan over `iter_rows()` collects from the sheet. */
  function ReferencingFormulas(sheet: Sheet): seq<FormulaRef> {
    RefsThrough(sheet, sheet.maxRow)
  }

  /** The loop over `export_sheet.iter_rows()` appending to `formulas_found`. */
  method ScanFormulaReferences(sheet: Sheet) returns (found: seq<FormulaRef>)
    ensures found == ReferencingFormulas(sheet)
  {
    found := [];
    var row := 1;
    while row <= sheet.maxRow
      invariant 1 <= row <= sheet.maxRow + 1
      invariant found == RefsThrough(sheet, row - 1)
    {
      var col := 1;
      while col <= sheet.maxCol
        invariant 1 <= col <= sheet.maxCol + 1
        invariant found == RefsThrough(sheet, row - 1) + RowRefs(sheet, row, col - 1)
      {
        RowRefsStep(sheet, row, col);
        var cell := ReadCell(sheet, Coord(row, col));
        if cell.Formula? && cell.text != "" {
          var formula := cell.text;
          if MentionsPrices(formula) {
            found := found + [FormulaRef(Coord(row, col), formula, ValueOf(cell))];
          }
        }
        col := col + 1;
      }
      row := row + 1;
    }
  }

  /** One more column adds the entry for that cell, if the scan keeps it. */
  lemma RowRefsStep(sheet: Sheet, row: nat, col: nat)
    requires col >= 1
    ensures var cell := ReadCell(sheet, Coord(row, col));
      RowRefs(sheet, row, col) == RowRefs(sheet, row, col - 1) +
        (if IsPriceFormula(cell) then [FormulaRef(Coord(row, col), cell.text, ValueOf(cell))] else [])
  {
  }

  /** r is the entry the scan makes for a kept cell of the sheet. */
  predicate IsEntryFor(sheet: Sheet, r: FormulaRef) {
    var cell := ReadCell(sheet, r.at);
    && 1 <= r.at.row <= sheet.maxRow && 1 <= r.at.col <= sheet.maxCol
    && IsPriceFormula(cell)
    && r.formula == cell.text && r.currentValue == Text(cell.text)
  }

  lemma {:induction false} RowRefsMembers(sheet: Sheet, row: nat, cols: nat)
    ensures forall r :: r in RowRefs(sheet, row, cols) <==>
      && r.at.row == row && 1 <= r.at.col <= cols
      && IsPriceFormula(ReadCell(sheet, r.at))
      && r.formula == ReadCell(sheet, r.at).text && r.currentValue == Text(r.formula)
  {
    if cols > 0 {
      RowRefsMembers(sheet, row, cols - 1);
    }
  }

  lemma {:induction false} RefsThroughMembers(sheet: Sheet, rows: nat)
    ensures forall r :: r in RefsThrough(sheet, rows) <==>
      && 1 <= r.at.row <= rows && 1 <= r.at.col <= sheet.maxCol
      && IsPriceFormula(ReadCell(sheet, r.at))
      && r.formula == ReadCell(sheet, r.at).text && r.currentValue == Text(r.formula)
  {
    if rows > 0 {
      RefsThroughMembers(sheet, rows - 1);
      RowRefsMembers(sheet, rows, sheet.maxCol);
    }
  }

  /** The scan keeps exactly the kept cells of the sheet, nothing else. */
  lemma ScanKeepsExactly(sheet: Sheet)
    ensures forall r :: r in ReferencingFormulas(sheet) <==> IsEntryFor(sheet, r)
  {
    RefsThroughMembers(sheet, sheet.maxRow);
  }

  /** Entries appear in strict row-major order. */
  predicate RowMajor(refs: seq<FormulaRef>) {
    forall i, j :: 0 <= i < j < |refs| ==> Before(refs[i].at, refs[j].at)
  }

  lemma {:induction false} RowRefsOrdered(sheet: Sheet, row: nat, cols: nat)
    ensures RowMajor(RowRefs(sheet, row, cols))
    ensures forall r :: r in RowRefs(sheet, row, cols) ==> r.at.row == row && 1 <= r.at.col <= cols
  {
    if cols > 0 {
      RowRefsOrdered(sheet, row, cols - 1);
      var front, last := RowRefs(sheet, row, cols - 1), RefAt(sheet, Coord(row, cols));
      var all := RowRefs(sheet, row, cols);
      assert all == front + last;
      forall i, j | 0 <= i < j < |all|
        ensures Before(all[i].at, all[j].at)
      {
        if j >= |front| {
          assert all[i] in front;
        }
      }
    }
  }

  lemma {:induction false} RefsThroughOrdered(sheet: Sheet, rows: nat)
    ensures RowMajor(RefsThrough(sheet, rows))
    ensures forall r :: r in RefsThrough(sheet, rows) ==> 1 <= r.at.row <= rows
  {
    if rows > 0 {
      RefsThroughOrdered(sheet, rows - 1);
      RowRefsOrdered(sheet, rows, sheet.maxCol);
      var front, last := RefsThrough(sheet, rows - 1), RowRefs(sheet, rows, sheet.maxCol);
      var all := RefsThrough(sheet, rows);
      assert all == front + last;
      forall i, j | 0 <= i < j < |all|
        ensures Before(all[i].at, all[j].at)
      {
        if i >= |front| {
          assert all[i] == last[i - |front|];
          assert all[j] == last[j - |front|];
        } else if j >= |front| {
          assert all[i] in front;
          assert all[j] in last;
        }
      }
    }
  }

  /** The scan's entries come in strict row-major order, so no cell appears twice. */
  lemma ScanIsRowMajor(sheet: Sheet)
    ensures RowMajor(ReferencingFormulas(sheet))
  {
    RefsThroughOrdered(sheet, sheet.maxRow);
  }

  /** How many entries the diagnostics list by name. */
  const ShownLimit: nat := 10

  /** What the diagnostics display: a warning when nothing was found, or
      the first entries together with the number not shown (0 when there
      is no "... and N more formulas" line). */
  datatype Report = NoReferences | Listed(shown: seq<FormulaRef>, more: nat)

  function Summarize(found: seq<FormulaRef>): (r: Report)
    ensures r.NoReferences? <==> found == []
    ensures r.Listed? ==> r.shown <= found
    ensures r.Listed? ==> |r.shown| == Min(ShownLimit, |found|)
    ensures r.Listed? ==> |r.shown| + r.more == |found|
    ensures r.Listed? ==> (r.more > 0 <==> |found| > ShownLimit)
  {
    if found == [] then NoReferences
    else if |found| <= ShownLimit then Listed(found, 0)
    else Listed(found[..ShownLimit], |found| - ShownLimit)
  }

  /** Every formula listed by name comes before every formula only counted. */
  lemma ShownBeforeHidden(sheet: Sheet)
    ensures var found := ReferencingFormulas(sheet);
      var report := Summarize(found);
      report.Listed? ==> forall i, j :: 0 <= i < |report.shown| <= j < |found| ==>
        Before(report.shown[i].at, found[j].at)
  {
    ScanIsRowMajor(sheet);
  }

  /** The substring test is plain: "D40" mentions D4, and a sheet-qualified
      reference to any cell of "Prices" counts. */
  lemma MentionsPricesExamples()
    ensures MentionsPrices("=D40*2")
    ensures MentionsPrices("=Prices!A1")
    ensures !MentionsPrices("=A1+B2")
  {
    assert OccursAt("=D40*2", "D4", 1);
    assert OccursAt("=Prices!A1", "Prices!", 1);
    var plain := "=A1+B2";
    assert 'P' !in plain && 'D' !in plain;
  }
}
