/**
 * The table that `generate_table_pdf` in `app/utils/pdf_generator.py` lays
 * out: a header row holding the column names, then one row of cell texts per
 * record, and one equal width per column. Page layout, styling and writing
 * the file are not modelled; the document is the title, the table and the
 * column widths handed to the renderer.
 */
module PdfGenerator {
  import opened PyValues

  /**
   * A record handed to the generator. A dict and an object are looked up
   * the same way (`item.get(col, "")` and `getattr(item, col, "")`), so both
   * are a map from field name to value.
   */
  type Record = map<string, PyValue>

  /** The text of one cell: `str()` of the field's value, "" when the field is missing. */
  function Cell(item: Record, col: string): string {
    if col in item then Str(item[col]) else ""
  }

  /** The cells of one record, one per column, in column order. */
  function Row(item: Record, columns: seq<string>): (row: seq<string>)
    ensures |row| == |columns|
  {
    if columns == [] then [] else [Cell(item, columns[0])] + Row(item, columns[1..])
  }

  /** The data rows, one per record, in record order. */
  function Rows(data: seq<Record>, columns: seq<string>): (rows: seq<seq<string>>)
    ensures |rows| == |data|
  {
    if data == [] then [] else [Row(data[0], columns)] + Rows(data[1..], columns)
  }

  /** The whole table: the header row, then the data rows. */
  function TableData(data: seq<Record>, columns: seq<string>): seq<seq<string>> {
    [columns] + Rows(data, columns)
  }

  /** Cell `j` of a row is the projection of `columns[j]`. */
  lemma {:induction false} RowAt(item: Record, columns: seq<string>, j: nat)
    requires j < |columns|
    ensures Row(item, columns)[j] == Cell(item, columns[j])
  {
    if j > 0 {
      RowAt(item, columns[1..], j - 1);
    }
  }

  /** Data row `i` is the row of record `i`. */
  lemma {:induction false} RowsAt(data: seq<Record>, columns: seq<string>, i: nat)
    requires i < |data|
    ensures Rows(data, columns)[i] == Row(data[i], columns)
  {
    if i > 0 {
      RowsAt(data[1..], columns, i - 1);
    }
  }

  /** Rows keep the order of the records: the rows of a concatenation are the concatenated rows. */
  lemma {:induction false} RowsAppend(d1: seq<Record>, d2: seq<Record>, columns: seq<string>)
    ensures Rows(d1 + d2, columns) == Rows(d1, columns) + Rows(d2, columns)
  {
    if d1 == [] {
      assert d1 + d2 == d2;
    } else {
      assert (d1 + d2)[1..] == d1[1..] + d2;
      RowsAppend(d1[1..], d2, columns);
    }
  }

  /** Adding a column to the end adds that column's cell to the end of the row. */
  lemma {:induction false} RowSnoc(item: Record, columns: seq<string>, col: string)
    ensures Row(item, columns + [col]) == Row(item, columns) + [Cell(item, col)]
  {
    if columns != [] {
      assert (columns + [col])[1..] == columns[1..] + [col];
      RowSnoc(item, columns[1..], col);
    }
  }

  /**
   * The shape of the table: one header row equal to `columns`, then one row
   * per record, each with one cell per column, cell `j` of row `i + 1` being
   * the projection of `columns[j]` from record `i`.
   */
  lemma TableShape(data: seq<Record>, columns: seq<string>, i: nat, j: nat)
    requires i < |data| && j < |columns|
    ensures |TableData(data, columns)| == |data| + 1
    ensures TableData(data, columns)[0] == columns
    ensures |TableData(data, columns)[i + 1]| == |columns|
    ensures TableData(data, columns)[i + 1][j] == Cell(data[i], columns[j])
  {
    RowsAt(data, columns, i);
    RowAt(data[i], columns, j);
  }

  /** No records: the table is the header row alone. */
  lemma EmptyTable(columns: seq<string>)
    ensures TableData([], columns) == [columns]
  {
  }

  /** A missing field gives an empty cell; a field present with None prints "None". */
  lemma MissingIsNotNone(item: Record, col: string)
    ensures col !in item ==> Cell(item, col) == ""
    ensures col in item && item[col] == PyNone ==> Cell(item, col) == "None"
  {
  }

  /**
   * The nested loops that fill `table_data`: start from `[columns]`, and for
   * each record append the row of its cells.
   */
  method BuildTableData(dataList: seq<Record>, columns: seq<string>) returns (table: seq<seq<string>>)
    ensures |table| == |dataList| + 1 && table[0] == columns
    ensures forall i :: 0 <= i < |dataList| ==> table[i + 1] == Row(dataList[i], columns)
    ensures table == TableData(dataList, columns)
  {
    table := [columns];
    for i := 0 to |dataList|
      invariant |table| == i + 1 && table[0] == columns
      invariant forall r :: 0 <= r < i ==> table[r + 1] == Row(dataList[r], columns)
      invariant table == TableData(dataList[..i], columns)
    {
      var item := dataList[i];
      var row := [];
      for j := 0 to |columns|
        invariant row == Row(item, columns[..j])
      {
        RowSnoc(item, columns[..j], columns[j]);
        assert columns[..j + 1] == columns[..j] + [columns[j]];
        row := row + [Cell(item, columns[j])];
      }
      assert columns[..|columns|] == columns;
      RowsAppend(dataList[..i], [item], columns);
      assert dataList[..i + 1] == dataList[..i] + [item];
      table := table + [row];
    }
    assert dataList[..|dataList|] == dataList;
  }

  /** Points per millimetre. */
  const Mm: real := 72.0 / 25.4
  /** The width of an A4 page in points. */
  const A4Width: real := 210.0 * Mm
  /** The table takes 90% of the page width. */
  const TableWidth: real := A4Width * 0.90

  /** `[col_width] * len(columns)` with `col_width = table_width / len(columns)`. */
  function ColumnWidths(n: nat): seq<real>
    requires n > 0
  {
    seq(n, _ => TableWidth / n as real)
  }

  function Sum(xs: seq<real>): real {
    if xs == [] then 0.0 else xs[0] + Sum(xs[1..])
  }

  lemma {:induction false} SumOfEqual(xs: seq<real>, w: real)
    requires forall k :: 0 <= k < |xs| ==> xs[k] == w
    ensures Sum(xs) == |xs| as real * w
  {
    if xs != [] {
      SumOfEqual(xs[1..], w);
    }
  }

  /** One width per column, all equal, together spanning the table width. */
  lemma ColumnWidthsSpan(n: nat)
    requires n > 0
    ensures |ColumnWidths(n)| == n
    ensures forall k, l :: 0 <= k < n && 0 <= l < n ==> ColumnWidths(n)[k] == ColumnWidths(n)[l]
    ensures Sum(ColumnWidths(n)) == TableWidth
  {
    SumOfEqual(ColumnWidths(n), TableWidth / n as real);
  }

  /** What the renderer is given to lay out. */
  datatype Document = Document(title: string, table: seq<seq<string>>, colWidths: seq<real>)

  /** The document written to `path`, or the ZeroDivisionError raised for an empty column list. */
  datatype RenderOutcome = Saved(doc: Document, path: string) | ZeroDivisionError

  /** The title a report gets when its caller names none. */
  const DefaultTitle: string := "Data Report"

  /**
   * `generate_table_pdf`: builds the table, divides the table width among
   * the columns, and returns the path it was given. With no columns the
   * division raises before anything is written.
   */
  method GenerateTablePdf(dataList: seq<Record>, columns: seq<string>, filepath: string, title: string := DefaultTitle)
    returns (r: RenderOutcome)
    ensures r.ZeroDivisionError? <==> |columns| == 0
    ensures r.Saved? ==>
      && r.path == filepath
      && r.doc.title == title
      && r.doc.table == TableData(dataList, columns)
      && r.doc.colWidths == ColumnWidths(|columns|)
  {
    var table := BuildTableData(dataList, columns);
    if |columns| == 0 {
      return ZeroDivisionError;
    }
    var colWidth := TableWidth / |columns| as real;
    var widths := seq(|columns|, _ => colWidth);
    r := Saved(Document(title, table, widths), filepath);
  }
}
