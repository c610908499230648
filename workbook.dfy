/** The in-memory workbook the editor holds between loading and saving: its
    ordered sheet names, the worksheet behind each name, and the workbook's
    calculation mode. Loading and saving are outside the model; a Workbook is
    built from its contents directly. */
module Workbooks {
  import opened Cells

  /** openpyxl's `workbook.calculation.calcMode`. */
  datatype CalcMode = Manual | Auto | AutoNoTable

  /** Sheet names are distinct, name exactly the sheets held, and every
      sheet is well formed. */
  ghost predicate ValidContents(names: seq<string>, sheets: map<string, Sheet>) {
    && (forall i, j :: 0 <= i < j < |names| ==> names[i] != names[j])
    && (forall n :: n in sheets <==> n in names)
    && (forall n :: n in sheets ==> sheets[n].WellFormed())
  }

  class Workbook {
    /** `workbook.sheetnames`, in document order. */
    var sheetNames: seq<string>
    /** The worksheet behind each name (`workbook[name]`). */
    var sheets: map<string, Sheet>
    var calcMode: CalcMode

    ghost predicate Valid()
      reads this
    {
      ValidContents(sheetNames, sheets)
    }

    constructor (names: seq<string>, contents: map<string, Sheet>, mode: CalcMode)
      requires ValidContents(names, contents)
      ensures Valid()
      ensures sheetNames == names && sheets == contents && calcMode == mode
    {
      sheetNames, sheets, calcMode := names, contents, mode;
    }
  }
}
