# Price Editor core, modelled in Dafny

The Price Editor is a one-page Streamlit app. It opens an Excel workbook and
lets the user edit four price cells, D4 to D7, of the sheet named `Prices`.
It writes the edited values back, exports the `Export` sheet as CSV, and
lists the formulas of `Export` that appear to depend on the prices. This
project models the four pieces of logic inside the app, over an abstract
workbook. Each piece has proved properties.

- **Cells and sheets** (`cells.dfy`, module `Cells`):
  - A cell is `Empty`, a number, a string or a formula. Numbers are exact
    decimals: `Decimal(mantissa, scale)` stands for mantissa / 10^scale.
  - `ValueOf` is what Python sees as `cell.value`. `Bind` is openpyxl's
    assignment `ws[name] = v`.
  - A sheet is a map from coordinates to cells plus its extent (`max_row`
    by `max_column`).
  - `CoordName` gives A1-style names, with columns in bijective base 26.
- **Workbook** (`workbook.dfy`, module `Workbooks`): a class holding the
  ordered sheet names, the sheet behind each name, and the calculation mode.
- **Price-input coercion** (`coercion.dfy`, module `Coercion`):
  - Each form field becomes `float(value)` when it passes the
    `replace('.', '').replace('-', '').isdigit()` test and `float()`
    accepts it; otherwise it stays exactly the text given.
  - Python's `float()` is modelled on the inputs that reach it.
- **Price cells** (`prices.dfy`, module `PriceSheet`):
  - `get_current_prices` and `update_prices`.
  - The loop that builds `new_prices` from the four fields.
  - The form submission that chains the two.
- **Staleness probe** (`probe.dfy`, module `StalenessProbe`): the nested
  loop with the `has_none_values` flag, run on the value-only reload of the
  export sheet.
- **Formula diagnostics** (`diagnostics.dfy`, module `FormulaDiagnostics`):
  the row-major scan that collects formulas mentioning the prices, and the
  display that lists ten of them and counts the rest.
- **String helpers** (`strings.dfy`, module `Strings`): ASCII digits,
  `str.replace(ch, "")`, `str.isdigit()`, `str.find` and the substring test
  `sub in s`.

The workbook that `load_workbook` returns is a parameter of the model. So
is the sheet the probe inspects. Saving and loading are not modelled.

## Model

| member | source | states |
|---|---|---|
| Cells.ValueOf | streamlit_app.py:30-33 | `cell.value` is None exactly for an empty cell. A formula cell reads as its formula text. |
| Cells.Bind | streamlit_app.py:43-46 | Assigning a value to a cell and reading `cell.value` back gives the same value. The cell is stored as a formula if and only if the value is text longer than one character that starts with '='. |
| Cells.SetCell | streamlit_app.py:43 | After `ws[c] = v`, cell c reads back as v. Every other cell is unchanged. The extent grows to cover c. A well-formed sheet stays well formed, and an extent that is attained stays attained. |
| Cells.ExtentFromCells | streamlit_app.py:87 | For well-formed sheets whose extent is attained, `max_row` and `max_column` are fixed by which coordinates hold stored cells. Two such sheets with the same stored coordinates have the same extent. |
| Cells.HeaderNames | streamlit_app.py:89 | A cell's name is one of "A1", "B1", "C1" exactly when it is in row 1 and column 1, 2 or 3. |
| Cells.ColumnLetters | streamlit_app.py:89 | A column's letters are non-empty capital letters. There is a single letter exactly for columns 1 to 26. |
| Cells.CoordName | streamlit_app.py:89 | `cell.coordinate` has at least two characters. It starts with a capital letter and ends with a digit. |
| Workbooks.Workbook.constructor | streamlit_app.py:14-21 | A workbook is built from distinct sheet names, a well-formed sheet for each name and a calculation mode, and it holds exactly those. |
| Coercion.PassesDigitTest | streamlit_app.py:230 | Text that passes `value and value.replace('.', '').replace('-', '').isdigit()` is non-empty, holds a digit, and holds nothing but digits, '.' and '-'. |
| Coercion.ParseFloat | streamlit_app.py:230 | On ASCII text without whitespace, exponents, underscores, inf or nan, `float()` accepts an optional '+' or '-' followed by unsigned decimal text, and nothing else. A leading '-' gives a mantissa of zero or below. |
| Coercion.Coerce | streamlit_app.py:230-232 | A field is stored either as a number or as exactly the text typed. Converting never alters text. |
| Coercion.DigitTestChars | streamlit_app.py:230 | The test in front of `float()` holds exactly for non-empty text made only of digits, '.' and '-' that has at least one digit. |
| Coercion.ParseUnsignedAccepts | streamlit_app.py:230-232 | On text made of digits and '.', the only unsigned text the digit test lets through, `float()` accepts exactly the text with at most one '.' and at least one digit. |
| Coercion.PlainSplit | streamlit_app.py:230 | Plain decimal text is unsigned decimal text after an optional leading '-'. |
| Coercion.CoerceNumberIff | streamlit_app.py:227-232 | A field becomes a number if and only if it is non-empty, uses only digits, '.' and '-', has '-' only first, has at most one '.', and has at least one digit. Everything else reaches the except branch or fails the test and stays text. |
| Coercion.CoerceUnsigned | streamlit_app.py:230 | Unsigned plain text is stored as what `float()` parses from it. |
| Coercion.CoerceNegative | streamlit_app.py:230 | Text with a leading '-' is stored as the negation of what the rest parses to. |
| Coercion.CoerceValue | streamlit_app.py:230 | The number stored is exact. Its mantissa is the digits left by the test's deletions, negated after a leading '-'. Its scale is the number of characters after the point. |
| Coercion.CoerceValueSigned | streamlit_app.py:230 | For text with a leading '-', the stored number is the negated integer of its digits, at the scale given by the digits after the point. |
| Coercion.RenderRoundTrip | streamlit_app.py:230 | Every decimal written in plain notation is plain decimal text and is stored back as that same decimal. |
| Coercion.ForeignCharKeepsText | streamlit_app.py:230 | Text containing any character other than a digit, '.' or '-' fails the digit test and is kept as it is. |
| Coercion.DigitTestRejectsExamples | streamlit_app.py:230 | "", "1e5", "abc", "-" and "." fail the digit test and are each kept as exactly that text. |
| Coercion.FloatRejectsExamples | streamlit_app.py:230-232 | "1.2.3" and "1-2" pass the digit test. `float()` rejects them, and the except branch keeps each as exactly that text. |
| Coercion.CoerceTrailingZeroExample | streamlit_app.py:230 | "12.50" is stored as 1250 / 10^2. |
| Coercion.CoerceNegativeExample | streamlit_app.py:230 | "-0.5" is stored as -5 / 10^1. |
| PriceSheet.PriceCoordNames | streamlit_app.py:30-33 | The four keys are D4, D5, D6 and D7. Each key is the A1 name of the coordinate it is read from and written to. Those coordinates are exactly column D, rows 4 to 7. |
| PriceSheet.PricesOf | streamlit_app.py:29-34 | The prices of a sheet have exactly the keys D4 to D7. Each holds the value of column D in rows 4 to 7, and Blank (None) for an empty cell. |
| PriceSheet.GetCurrentPrices | streamlit_app.py:23-35 | The result is None if and only if no sheet is named exactly "Prices". Otherwise it has exactly the keys D4 to D7, each holding that cell's value. |
| PriceSheet.WritePrices | streamlit_app.py:43-46 | After the four writes, each price cell reads back as its new value and every other cell is unchanged. The extent grows to at least 7 rows and 4 columns. Well-formedness and an attained extent are kept. |
| PriceSheet.ReadAfterWrite | streamlit_app.py:29-34 | Reading the prices after writing them gives exactly the D4 to D7 entries of new_prices. |
| PriceSheet.WritePricesIdempotent | streamlit_app.py:43-46 | Writing the same prices twice gives the same sheet as writing them once. |
| PriceSheet.UpdatePrices | streamlit_app.py:37-51 | Without a "Prices" sheet the call returns False and the workbook is unchanged. Otherwise it returns True and only the "Prices" sheet is replaced by its written version. Sheet names are kept, the calculation mode becomes automatic, and reading the prices afterwards gives new_prices. |
| PriceSheet.UpdateIdempotent | streamlit_app.py:42-49 | Applying the same update twice leaves the workbook's sheets as one application does. |
| PriceSheet.CollectNewPrices | streamlit_app.py:226-232 | The map built by the loop has exactly the keys D4 to D7. Each holds the coercion of its own field. |
| PriceSheet.SubmitPrices | streamlit_app.py:224-235 | After coercing and updating, the call succeeds exactly when "Prices" exists, and the workbook is untouched otherwise. On success the sheet names are kept, only the "Prices" sheet is replaced by its version with the four coerced fields written, the calculation mode becomes automatic, and reading the prices gives the four coerced fields. |
| StalenessProbe.LastProbedRow | streamlit_app.py:87 | The last row probed is min(10, max_row). |
| StalenessProbe.IsProbedBlank | streamlit_app.py:86-92 | A cell that raises the flag is empty, lies in rows 1 to 10, and lies within `max_column`. |
| StalenessProbe.ProbedBlankByPosition | streamlit_app.py:89-92 | A cell raises the flag exactly when it is in the probed window, it is empty, and it is not one of the first three cells of row 1. |
| StalenessProbe.HasNoneValues | streamlit_app.py:86-95 | The flag is true if and only if some cell in rows 1 to min(10, max_row) and columns 1 to max_column is None and is not named A1, B1 or C1. When true, the loops stop at the first such cell in row-major order. |
| StalenessProbe.ProbeDependsOnWindowOnly | streamlit_app.py:87 | Two sheets with the same window bounds and the same cells in the window give the same answer. |
| StalenessProbe.ProbeIgnoresRowsBelowTen | streamlit_app.py:87 | On a sheet with at least 10 rows, writing a cell below row 10 within the existing columns never changes the answer. |
| StalenessProbe.ProbeWindowGrows | streamlit_app.py:87 | On a well-formed sheet with fewer than 10 rows, any write below row 10 extends the probed window. The first row past the old extent was not probed before. Afterwards it is probed, and its empty first cell raises the flag. |
| FormulaDiagnostics.MentionsPrices | streamlit_app.py:342 | A formula that the substring test keeps contains a 'P' or a 'D'. |
| FormulaDiagnostics.IsPriceFormula | streamlit_app.py:340-342 | A kept cell is a formula cell. Its `cell.value` is its formula text, and that text passes the substring test. |
| FormulaDiagnostics.RefAt | streamlit_app.py:340-347 | A cell contributes one entry exactly when it holds a non-empty formula mentioning "Prices!" or D4 to D7. The entry names that cell. |
| FormulaDiagnostics.ScanFormulaReferences | streamlit_app.py:337-347 | The nested loop over `iter_rows()` returns exactly the entries of the row-major specification. |
| FormulaDiagnostics.RowRefsMembers | streamlit_app.py:339-347 | The entries for one row are exactly the kept cells of that row within its first cols columns, each with its formula and its current value. |
| FormulaDiagnostics.RefsThroughMembers | streamlit_app.py:338-347 | The entries for the first rows are exactly the kept cells of those rows. |
| FormulaDiagnostics.ScanKeepsExactly | streamlit_app.py:337-347 | An entry is in the scan's result if and only if it is the entry for a formula cell of the sheet whose text mentions the prices. |
| FormulaDiagnostics.RowRefsOrdered | streamlit_app.py:339 | Within one row, entries go left to right with no repeats. |
| FormulaDiagnostics.RefsThroughOrdered | streamlit_app.py:338-339 | Across rows, entries go top to bottom with no repeats. |
| FormulaDiagnostics.ScanIsRowMajor | streamlit_app.py:338-347 | The scan's entries are in strict row-major order. |
| FormulaDiagnostics.Summarize | streamlit_app.py:349-354 | With nothing found, the warning is shown. Otherwise the listed entries are a prefix of the scan of length min(10, n). The "more" count is n minus that length, and it is positive exactly when n > 10. |
| FormulaDiagnostics.ShownBeforeHidden | streamlit_app.py:349-354 | Every formula listed comes before every formula that is only counted, in row-major order. |
| FormulaDiagnostics.MentionsPricesExamples | streamlit_app.py:342 | "=D40*2" counts because "D4" is a plain substring. "=Prices!A1" counts. "=A1+B2" does not. |

## Left out

- The Streamlit interface is not modelled: page layout, widgets, the form, messages, `st.rerun`, the download button and the preview table.
- Loading and saving workbooks, temporary files and `os.unlink` are not modelled. Workbooks and the reloaded sheet are parameters.
- The xlwings recalculation step is not modelled; it runs an external Excel process.
- `pd.read_excel`, `to_csv` and the choice between reads after the probe are not modelled. Only the probe's decision is.
- The `str(...)` prefill of the form fields is not modelled; it is IEEE-754 formatting.
- Coercion.Coerce: models ASCII input only. Python's Unicode `isdigit` and `float()` both accept decimal digits of other scripts: the source stores '٣' (Arabic-Indic three) as 3.0, while the model keeps the text.
- Coercion.ParseFloat: models ASCII input only. It rejects non-ASCII decimal digits such as '٣', which Python's `float()` accepts.
- Coercion.Coerce: the number is exact, not the double that `float()` returns.
- Coercion.Coerce: "-0" is stored as zero; the negative zero of floats is not represented.
- Cells.Bind: openpyxl cuts a str longer than 32,767 characters, and raises IllegalCharacterError on control characters. Neither is modelled. In `update_prices` that error would come after earlier cells were already written, and it would escape the form handler.
- Cells.Sheet.WellFormed: the workbook invariant asks only that the extent covers every stored cell. `Cells.Sheet.ExtentAttained` states that the extent is no larger than that. `SetCell` and `WritePrices` are proved to preserve it, and `ExtentFromCells` shows that, with it, the stored cells fix the extent. The workbook invariant does not include it, and the probe and scan lemmas hold for every sheet.
- PriceSheet.GetCurrentPrices: openpyxl creates a cell when one is read. A read can therefore widen the extent; the model does not capture this.
- PriceSheet.UpdatePrices: when "Prices" exists, the model requires new_prices to hold D4 to D7. Python raises KeyError part-way through the writes otherwise.
- Sheets are values held in the workbook's map. Aliasing between worksheet objects is not modelled.
- Cell types other than empty, number, string and formula (booleans, dates, error codes) are not modelled. Chartsheets are not modelled either.
- `iter_rows()` on a sheet with no cells yields nothing in openpyxl. The model scans the 1 x 1 extent instead; the result is the same, since an empty sheet holds no formula.
- FormulaDiagnostics.FormulaRef keeps the cell's coordinate. The `Cell` name the source stores is `CoordName` of it.
