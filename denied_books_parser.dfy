/**
 * The denied-list reader (literaflow/utils/denied_books_parser.py), on a
 * workbook that has already been decoded: each sheet is its list of columns,
 * and each column the cells below its header row, a missing cell being None.
 */
module DeniedBooksParser {
  import opened Wrappers

  type Cell = Option<string>
  type Column = seq<Cell>
  type Sheet = seq<Column>

  /** The decoded upload; `Unreadable` is content the spreadsheet reader cannot open. */
  datatype Workbook = Unreadable | Workbook(sheets: map<string, Sheet>)

  /** `DeniedBooksDict`. */
  datatype DeniedBooks = DeniedBooks(names: seq<string>, authors: seq<string>)

  datatype ParseError =
    | ReadFailed            // the ValueError raised when the file or a required sheet cannot be read
    | NoFirstColumn         // the IndexError of `iloc[:, 0]` on a sheet without columns

  /** `dropna()` then `tolist()`: the present cells, in their order. */
  function DropMissing(col: Column): (r: seq<string>)
    ensures |r| <= |col|
    ensures forall x :: x in r <==> Some(x) in col
  {
    if col == [] then []
    else if col[0].Some? then [col[0].value] + DropMissing(col[1..])
    else DropMissing(col[1..])
  }

  /** Dropping works cell by cell, so the kept cells stay in their original order. */
  lemma {:induction false} DropMissingAppend(a: Column, b: Column)
    ensures DropMissing(a + b) == DropMissing(a) + DropMissing(b)
  {
    if a == [] {
      assert a + b == b;
    } else {
      assert (a + b)[1..] == a[1..] + b;
      DropMissingAppend(a[1..], b);
    }
  }

  /** A column without missing cells is kept whole. */
  lemma {:induction false} DropMissingAllPresent(col: Column)
    requires forall i :: 0 <= i < |col| ==> col[i].Some?
    ensures |DropMissing(col)| == |col|
    ensures forall i :: 0 <= i < |col| ==> DropMissing(col)[i] == col[i].value
  {
    if col != [] {
      DropMissingAllPresent(col[1..]);
    }
  }

  /** `sheet.iloc[:, 0].dropna()`: fails on a sheet with no column at all. */
  function FirstColumnValues(sheet: Sheet): (r: Result<seq<string>, ParseError>)
    ensures r.Failure? <==> |sheet| == 0
    ensures r.Failure? ==> r.error == NoFirstColumn
    ensures r.Success? ==> r.value == DropMissing(sheet[0])
  {
    if |sheet| == 0 then Failure(NoFirstColumn) else Success(DropMissing(sheet[0]))
  }

  /**
   * `parse_denied_books`: read the `name` and `author` sheets (a failure to
   * read either is a ValueError), then take the first column of each, names
   * first.
   */
  function ParseDeniedBooks(wb: Workbook): (r: Result<DeniedBooks, ParseError>)
    ensures (wb.Unreadable? || "name" !in wb.sheets || "author" !in wb.sheets) ==> r == Failure(ReadFailed)
    ensures r.Success? <==>
      && wb.Workbook? && "name" in wb.sheets && "author" in wb.sheets
      && |wb.sheets["name"]| > 0 && |wb.sheets["author"]| > 0
    ensures r.Success? ==>
      && r.value.names == DropMissing(wb.sheets["name"][0])
      && r.value.authors == DropMissing(wb.sheets["author"][0])
  {
    if wb.Unreadable? || "name" !in wb.sheets || "author" !in wb.sheets then Failure(ReadFailed)
    else
      var names := FirstColumnValues(wb.sheets["name"]);
      if names.Failure? then Failure(names.error)
      else
        var authors := FirstColumnValues(wb.sheets["author"]);
        if authors.Failure? then Failure(authors.error)
        else Success(DeniedBooks(names.value, authors.value))
  }

  /** Two sheets with a header and no data rows give two empty lists. */
  lemma HeaderOnlySheetsParseEmpty(wb: Workbook)
    requires wb.Workbook? && "name" in wb.sheets && "author" in wb.sheets
    requires wb.sheets["name"] == [[]] && wb.sheets["author"] == [[]]
    ensures ParseDeniedBooks(wb) == Success(DeniedBooks([], []))
  {
  }

  /** A required sheet written from an empty frame (no columns) is a failure, whatever the other sheet holds. */
  lemma ColumnlessSheetFails(wb: Workbook, sheet: string)
    requires wb.Workbook? && "name" in wb.sheets && "author" in wb.sheets
    requires sheet == "name" || sheet == "author"
    requires wb.sheets[sheet] == []
    ensures ParseDeniedBooks(wb) == Failure(NoFirstColumn)
  {
  }
}
