/**
 * The report's default caller in `app/routes/assets.py`: every listed asset
 * is handed to the generator as an object, and the columns are the table's
 * columns minus `serial_number` and `created_at`.
 */
module AssetReport {
  import opened Wrappers
  import opened PyValues
  import opened Crud
  import opened PdfGenerator

  /** The columns of the `assets` table, in declaration order. */
  const AssetColumns: seq<string> := ["id", "name", "category", "purchase_date", "serial_number", "created_at"]

  /** The columns the report leaves out. */
  const ReportExcludes: seq<string> := ["serial_number", "created_at"]

  /** `[c for c in columns if c not in excludes]`. */
  function Without(columns: seq<string>, excludes: seq<string>): seq<string> {
    if columns == [] then []
    else (if columns[0] in excludes then [] else [columns[0]]) + Without(columns[1..], excludes)
  }

  /** A column is kept exactly when it is one of `columns` and not excluded; none is added. */
  lemma {:induction false} WithoutKeeps(columns: seq<string>, excludes: seq<string>, c: string)
    ensures |Without(columns, excludes)| <= |columns|
    ensures c in Without(columns, excludes) <==> c in columns && c !in excludes
  {
    if columns != [] {
      WithoutKeeps(columns[1..], excludes, c);
      assert columns == [columns[0]] + columns[1..];
    }
  }

  /** The report's columns: id, name, category and purchase date, in that order. */
  const ReportColumns: seq<string> := ["id", "name", "category", "purchase_date"]

  /** Leaving out serial_number and created_at keeps exactly the report's columns, in table order. */
  lemma DefaultColumns()
    ensures Without(AssetColumns, ReportExcludes) == ReportColumns
  {
    assert AssetColumns == ReportColumns + ReportExcludes;
    forall c | c in ReportColumns ensures c !in ReportExcludes {
      assert c == "id" || c == "name" || c == "category" || c == "purchase_date";
    }
    WithoutSplit(AssetColumns, ReportColumns, ReportExcludes);
  }

  /** Columns made of kept ones followed by excluded ones filter down to the kept ones. */
  lemma WithoutSplit(columns: seq<string>, kept: seq<string>, excludes: seq<string>)
    requires columns == kept + excludes
    requires forall c :: c in kept ==> c !in excludes
    ensures Without(columns, excludes) == kept
  {
    WithoutAppend(kept, excludes, excludes);
    WithoutAllKept(kept, excludes);
    WithoutAllDropped(excludes, excludes);
  }

  /** Filtering a concatenation filters each part. */
  lemma {:induction false} WithoutAppend(c1: seq<string>, c2: seq<string>, excludes: seq<string>)
    ensures Without(c1 + c2, excludes) == Without(c1, excludes) + Without(c2, excludes)
  {
    if c1 == [] {
      assert c1 + c2 == c2;
    } else {
      assert (c1 + c2)[1..] == c1[1..] + c2;
      WithoutAppend(c1[1..], c2, excludes);
    }
  }

  /** Columns none of which is excluded are all kept, in order. */
  lemma {:induction false} WithoutAllKept(columns: seq<string>, excludes: seq<string>)
    requires forall c :: c in columns ==> c !in excludes
    ensures Without(columns, excludes) == columns
  {
    if columns != [] {
      WithoutAllKept(columns[1..], excludes);
    }
  }

  /** Columns that are all excluded leave nothing. */
  lemma {:induction false} WithoutAllDropped(columns: seq<string>, excludes: seq<string>)
    requires forall c :: c in columns ==> c in excludes
    ensures Without(columns, excludes) == []
  {
    if columns != [] {
      WithoutAllDropped(columns[1..], excludes);
    }
  }

  /** An asset seen through `getattr`: one attribute per column. */
  function AsRecord(a: Asset): Record {
    map[
      "id" := PyInt(a.id),
      "name" := PyStr(a.name),
      "category" := PyStr(a.category),
      "purchase_date" := PyDate(a.purchaseDate),
      "serial_number" := if a.serialNumber.Some? then PyStr(a.serialNumber.value) else PyNone,
      "created_at" := PyDateTime(a.createdAt)]
  }

  /** The report row of an asset: its id in decimal, name, category and purchase date as `YYYY-MM-DD`. */
  lemma AssetRow(a: Asset)
    ensures Row(AsRecord(a), ReportColumns) == ReportRow(a)
  {
    var record := AsRecord(a);
    RowAt(record, ReportColumns, 0);
    RowAt(record, ReportColumns, 1);
    RowAt(record, ReportColumns, 2);
    RowAt(record, ReportColumns, 3);
    assert Cell(record, "id") == IntToDecimal(a.id);
    assert Cell(record, "name") == a.name;
    assert Cell(record, "category") == a.category;
    assert Cell(record, "purchase_date") == DateStr(a.purchaseDate);
  }

  /** An asset's line in the report, as the default columns show it. */
  function ReportRow(a: Asset): seq<string> {
    [IntToDecimal(a.id), a.name, a.category, DateStr(a.purchaseDate)]
  }

  /** Were serial_number selected, an asset without one would print "None", not an empty cell. */
  lemma AbsentSerialPrintsNone(a: Asset)
    requires a.serialNumber.None?
    ensures Cell(AsRecord(a), "serial_number") == "None"
  {
  }

  /** The listed assets as the generator's records. */
  function Records(assets: seq<Asset>): (records: seq<Record>)
    ensures |records| == |assets|
    ensures forall i :: 0 <= i < |assets| ==> records[i] == AsRecord(assets[i])
  {
    seq(|assets|, i requires 0 <= i < |assets| => AsRecord(assets[i]))
  }

  /** The report of `assets` is the header row, then line `i + 1` is the report row of asset `i`. */
  lemma ReportLines(assets: seq<Asset>)
    ensures |TableData(Records(assets), ReportColumns)| == |assets| + 1
    ensures forall i :: 0 <= i < |assets| ==> TableData(Records(assets), ReportColumns)[i + 1] == ReportRow(assets[i])
  {
    var records := Records(assets);
    forall i | 0 <= i < |assets|
      ensures TableData(records, ReportColumns)[i + 1] == ReportRow(assets[i])
    {
      RowsAt(records, ReportColumns, i);
      AssetRow(assets[i]);
    }
  }

  /** Whether `line` is the report row of some row of the table. */
  ghost predicate LineOfSomeRow(rows: map<nat, Asset>, line: seq<string>) {
    exists id :: id in rows && line == ReportRow(rows[id])
  }

  /** Each line of a listing's report is the report row of some row of the table. */
  lemma LinesAreRows(assets: seq<Asset>, rows: map<nat, Asset>, lines: seq<seq<string>>)
    requires forall i :: 0 <= i < |assets| ==> assets[i].id in rows && rows[assets[i].id] == assets[i]
    requires |lines| == |assets| && forall i :: 0 <= i < |assets| ==> lines[i] == ReportRow(assets[i])
    ensures forall i :: 0 <= i < |lines| ==> LineOfSomeRow(rows, lines[i])
  {
    forall i | 0 <= i < |lines|
      ensures LineOfSomeRow(rows, lines[i])
    {
      var id := assets[i].id;
      assert id in rows && lines[i] == ReportRow(rows[id]);
    }
  }

  /** Every row of the table that a listing holds has its report row among the report's lines. */
  lemma RowsHaveLines(assets: seq<Asset>, rows: map<nat, Asset>, lines: seq<seq<string>>)
    requires forall id :: id in rows ==> rows[id] in assets
    requires |lines| == |assets| && forall i :: 0 <= i < |assets| ==> lines[i] == ReportRow(assets[i])
    ensures forall id :: id in rows ==> ReportRow(rows[id]) in lines
  {
    forall id | id in rows
      ensures ReportRow(rows[id]) in lines
    {
      var k :| 0 <= k < |assets| && assets[k] == rows[id];
      assert lines[k] == ReportRow(rows[id]);
    }
  }

  /**
   * `assets_report_pdf`'s work, run in the foreground: list every asset and
   * render them under the default columns to `filepath`.
   */
  method ReportAssets(table: AssetTable, filepath: string, title: string) returns (r: RenderOutcome)
    requires table.Valid()
    ensures r.Saved? && r.path == filepath && r.doc.title == title
    ensures |r.doc.table| == |table.rows| + 1
    ensures r.doc.table[0] == ReportColumns
    ensures forall i :: 1 <= i < |r.doc.table| ==> LineOfSomeRow(table.rows, r.doc.table[i])
    ensures forall id :: id in table.rows ==> ReportRow(table.rows[id]) in r.doc.table[1..]
    ensures |r.doc.colWidths| == 4
  {
    var assets := table.List();
    var columns := Without(AssetColumns, ReportExcludes);
    DefaultColumns();
    r := GenerateTablePdf(Records(assets), columns, filepath, title);
    ReportLines(assets);
    LinesAreRows(assets, table.rows, r.doc.table[1..]);
    RowsHaveLines(assets, table.rows, r.doc.table[1..]);
  }
}
