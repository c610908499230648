/** The four price cells D4 to D7 of the sheet named "Prices": reading them
    (`get_current_prices`), writing them (`update_prices`), and turning the
    four edited form fields into the values written. */
module PriceSheet {
  import opened Strings
  import opened Cells
  import opened Workbooks
  import opened Coercion

  /** The sheet the editor reads and writes, matched by exact name. */
  const PricesSheet: string := "Prices"

  /** The edited cells by name: column D, rows 4 to 7. */
  const PriceCoords: map<string, Coord> :=
    map["D4" := Coord(4, 4), "D5" := Coord(5, 4), "D6" := Coord(6, 4), "D7" := Coord(7, 4)]

  /** c is one of the edited cells: column D, rows 4 to 7. */
  predicate IsPriceCell(c: Coord) {
    c.col == 4 && 4 <= c.row <= 7
  }

  /** Each key of PriceCoords is the A1-style name of its coordinate, and
      the coordinates are exactly the price cells. */
  lemma PriceCoordNames()
    ensures PriceCoords.Keys == {"D4", "D5", "D6", "D7"}
    ensures forall k :: k in PriceCoords ==> CoordName(PriceCoords[k]) == k
    ensures forall c :: c in PriceCoords.Values <==> IsPriceCell(c)
  {
    forall c | IsPriceCell(c) ensures c in PriceCoords.Values {
      if c.row == 4 { assert PriceCoords["D4"] == c; }
      else if c.row == 5 { assert PriceCoords["D5"] == c; }
      else if c.row == 6 { assert PriceCoords["D6"] == c; }
      else { assert PriceCoords["D7"] == c; }
    }
    assert ColumnLetters(4) == "D";
    assert NatToDigits(4) == "4" && NatToDigits(5) == "5";
    assert NatToDigits(6) == "6" && NatToDigits(7) == "7";
  }

  /** The values of D4 to D7 of a sheet, Blank for an empty cell: the
      dictionary `get_current_prices` builds. */
  function PricesOf(sheet: Sheet): (prices: map<string, Value>)
    ensures prices.Keys == PriceCoords.Keys
    ensures forall k :: k in prices ==> prices[k] == ValueOf(ReadCell(sheet, PriceCoords[k]))
  {
    map["D4" := ValueOf(ReadCell(sheet, Coord(4, 4))),
        "D5" := ValueOf(ReadCell(sheet, Coord(5, 4))),
        "D6" := ValueOf(ReadCell(sheet, Coord(6, 4))),
        "D7" := ValueOf(ReadCell(sheet, Coord(7, 4)))]
  }

  /** `get_current_prices`: None when the workbook has no sheet named
      "Prices", otherwise the values of its cells D4 to D7. */
  function GetCurrentPrices(wb: Workbook): (r: Option<map<string, Value>>)
    reads wb
    requires wb.Valid()
    ensures r.None? <==> PricesSheet !in wb.sheetNames
    ensures r.Some? ==> PricesSheet in wb.sheets && r.value.Keys == {"D4", "D5", "D6", "D7"}
    ensures r.Some? ==> forall k :: k in r.value ==>
              r.value[k] == ValueOf(ReadCell(wb.sheets[PricesSheet], PriceCoords[k]))
  {
    if PricesSheet !in wb.sheetNames then None
    else Some(PricesOf(wb.sheets[PricesSheet]))
  }

  /** The part of new_prices that is written: its entries for D4 to D7. */
  function Written(newPrices: map<string, Value>): (w: map<string, Value>)
    requires PriceCoords.Keys <= newPrices.Keys
    ensures w.Keys == PriceCoords.Keys
    ensures forall k :: k in w ==> w[k] == newPrices[k]
  {
    map["D4" := newPrices["D4"], "D5" := newPrices["D5"],
        "D6" := newPrices["D6"], "D7" := newPrices["D7"]]
  }

  /** The four assignments `prices_sheet['D4'] = new_prices['D4']` to
      `prices_sheet['D7'] = new_prices['D7']`, in that order. */
  function WritePrices(sheet: Sheet, newPrices: map<string, Value>): (r: Sheet)
    requires PriceCoords.Keys <= newPrices.Keys
    ensures ValueOf(ReadCell(r, Coord(4, 4))) == newPrices["D4"]
    ensures ValueOf(ReadCell(r, Coord(5, 4))) == newPrices["D5"]
    ensures ValueOf(ReadCell(r, Coord(6, 4))) == newPrices["D6"]
    ensures ValueOf(ReadCell(r, Coord(7, 4))) == newPrices["D7"]
    ensures forall c :: !IsPriceCell(c) ==> ReadCell(r, c) == ReadCell(sheet, c)
    ensures r.maxRow == Max(sheet.maxRow, 7) && r.maxCol == Max(sheet.maxCol, 4)
    ensures sheet.WellFormed() ==> r.WellFormed()
    ensures sheet.ExtentAttained() ==> r.ExtentAttained()
  {
    var s4 := SetCell(sheet, Coord(4, 4), newPrices["D4"]);
    var s5 := SetCell(s4, Coord(5, 4), newPrices["D5"]);
    var s6 := SetCell(s5, Coord(6, 4), newPrices["D6"]);
    SetCell(s6, Coord(7, 4), newPrices["D7"])
  }

  /** Reading the price cells after writing them gives back what was written. */
  lemma ReadAfterWrite(sheet: Sheet, newPrices: map<string, Value>)
    requires PriceCoords.Keys <= newPrices.Keys
    ensures PricesOf(WritePrices(sheet, newPrices)) == Written(newPrices)
  {
  }

  /** Writing the same prices a second time changes nothing. */
  lemma WritePricesIdempotent(sheet: Sheet, newPrices: map<string, Value>)
    requires PriceCoords.Keys <= newPrices.Keys
    ensures WritePrices(WritePrices(sheet, newPrices), newPrices) == WritePrices(sheet, newPrices)
  {
    var once := WritePrices(sheet, newPrices);
    var b4, b5, b6, b7 := Bind(newPrices["D4"]), Bind(newPrices["D5"]), Bind(newPrices["D6"]), Bind(newPrices["D7"]);
    var m := sheet.cells[Coord(4, 4) := b4][Coord(5, 4) := b5][Coord(6, 4) := b6][Coord(7, 4) := b7];
    assert once.cells == m;
    var m' := once.cells[Coord(4, 4) := b4][Coord(5, 4) := b5][Coord(6, 4) := b6][Coord(7, 4) := b7];
    assert WritePrices(once, newPrices).cells == m';
    PriceUpdatesAbsorb(sheet.cells, b4, b5, b6, b7);
  }

  /** Storing the same four cells again over a map that already holds them
      gives the same map. */
  lemma PriceUpdatesAbsorb(m: map<Coord, Cell>, b4: Cell, b5: Cell, b6: Cell, b7: Cell)
    ensures var once := m[Coord(4, 4) := b4][Coord(5, 4) := b5][Coord(6, 4) := b6][Coord(7, 4) := b7];
      once[Coord(4, 4) := b4][Coord(5, 4) := b5][Coord(6, 4) := b6][Coord(7, 4) := b7] == once
  {
  }

  /** `update_prices`: False with the workbook untouched when it has no
      "Prices" sheet; otherwise D4 to D7 of that sheet take the new values,
      the calculation mode becomes automatic, and nothing else changes. */
  method UpdatePrices(wb: Workbook, newPrices: map<string, Value>) returns (ok: bool)
    requires wb.Valid()
    requires PricesSheet in wb.sheetNames ==> PriceCoords.Keys <= newPrices.Keys
    modifies wb
    ensures wb.Valid()
    ensures ok <==> PricesSheet in old(wb.sheetNames)
    ensures !ok ==> unchanged(wb)
    ensures ok ==> && wb.sheetNames == old(wb.sheetNames)
                   && wb.sheets == old(wb.sheets)[PricesSheet := WritePrices(old(wb.sheets)[PricesSheet], newPrices)]
                   && wb.calcMode == Auto
    ensures ok ==> GetCurrentPrices(wb) == Some(Written(newPrices))
  {
    if PricesSheet !in wb.sheetNames {
      return false;
    }
    var pricesSheet := wb.sheets[PricesSheet];
    pricesSheet := SetCell(pricesSheet, Coord(4, 4), newPrices["D4"]);
    pricesSheet := SetCell(pricesSheet, Coord(5, 4), newPrices["D5"]);
    pricesSheet := SetCell(pricesSheet, Coord(6, 4), newPrices["D6"]);
    pricesSheet := SetCell(pricesSheet, Coord(7, 4), newPrices["D7"]);
    assert pricesSheet == WritePrices(old(wb.sheets)[PricesSheet], newPrices);
    wb.sheets := wb.sheets[PricesSheet := pricesSheet];
    wb.calcMode := Auto;
    ReadAfterWrite(old(wb.sheets)[PricesSheet], newPrices);
    return true;
  }

  /** Applying the same update twice leaves the sheets as one application does.
      With the postcondition of UpdatePrices (names kept, mode set to Auto,
      the "Prices" sheet replaced by its written version), two calls of
      UpdatePrices with the same prices leave the workbook as one call does. */
  lemma UpdateIdempotent(sheets: map<string, Sheet>, newPrices: map<string, Value>)
    requires PricesSheet in sheets && PriceCoords.Keys <= newPrices.Keys
    ensures var once := sheets[PricesSheet := WritePrices(sheets[PricesSheet], newPrices)];
      once[PricesSheet := WritePrices(once[PricesSheet], newPrices)] == once
  {
    WritePricesIdempotent(sheets[PricesSheet], newPrices);
  }

  /** The coercion loop of the price form: each of the four fields, paired
      with its cell name, is coerced and stored under that name. */
  method CollectNewPrices(d4: string, d5: string, d6: string, d7: string)
    returns (newPrices: map<string, Value>)
    ensures newPrices.Keys == PriceCoords.Keys
    ensures newPrices["D4"] == Coerce(d4) && newPrices["D5"] == Coerce(d5)
    ensures newPrices["D6"] == Coerce(d6) && newPrices["D7"] == Coerce(d7)
  {
    var fields := [("D4", d4), ("D5", d5), ("D6", d6), ("D7", d7)];
    newPrices := map[];
    for i := 0 to |fields|
      invariant newPrices.Keys <= PriceCoords.Keys
      invariant forall j :: 0 <= j < i ==> fields[j].0 in newPrices && newPrices[fields[j].0] == Coerce(fields[j].1)
    {
      var (cell, value) := fields[i];
      newPrices := newPrices[cell := Coerce(value)];
    }
    assert fields[0].0 == "D4" && fields[1].0 == "D5" && fields[2].0 == "D6" && fields[3].0 == "D7";
  }

  /** Submitting the form: the four fields are coerced and written; when
      the "Prices" sheet exists, reading the prices back gives the coerced
      fields. */
  method SubmitPrices(wb: Workbook, d4: string, d5: string, d6: string, d7: string) returns (ok: bool)
    requires wb.Valid()
    modifies wb
    ensures wb.Valid()
    ensures ok <==> PricesSheet in old(wb.sheetNames)
    ensures !ok ==> unchanged(wb)
    ensures ok ==> && wb.sheetNames == old(wb.sheetNames)
                   && wb.sheets == old(wb.sheets)[PricesSheet := WritePrices(old(wb.sheets)[PricesSheet],
                        map["D4" := Coerce(d4), "D5" := Coerce(d5), "D6" := Coerce(d6), "D7" := Coerce(d7)])]
                   && wb.calcMode == Auto
    ensures ok ==> GetCurrentPrices(wb).Some?
    ensures ok ==> var prices := GetCurrentPrices(wb).value;
      && prices.Keys == {"D4", "D5", "D6", "D7"}
      && prices["D4"] == Coerce(d4) && prices["D5"] == Coerce(d5)
      && prices["D6"] == Coerce(d6) && prices["D7"] == Coerce(d7)
  {
    var newPrices := CollectNewPrices(d4, d5, d6, d7);
    ok := UpdatePrices(wb, newPrices);
  }
}
