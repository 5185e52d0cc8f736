# Asset manager: store operations and report table, in Dafny

This project models the two parts of the asset-inventory service that have
behaviour of their own:

- **The asset store** (`app/crud.py`). The `assets` table is a map from id to
  `Asset`, held by the class `Crud.AssetTable`. The class invariant `Valid()`
  says that every row sits under its own id, ids are positive and below the
  auto-increment counter, and no two rows share a non-null serial number (the
  unique index on `serial_number`). One method mirrors each function:
  `Create`, `Get`, `List`, `Update`, `Delete`. Each commit is one atomic map
  update. A rejected commit (the rollback) leaves the rows as they were, and
  returns the `detail` text of the 400 error the source raises. The
  auto-increment counter only moves forward: a rejected insert may still use
  up its id, as MySQL's auto-increment does. `Get`, `Update` and `Delete`
  accept any integer id, so a negative id is simply absent.
  The partial update runs the source's `setattr` loop over the update dict
  (`ApplyUpdate`). It is proved equal to `Merged`: a field is written exactly
  when its key is present with a non-None value.
- **The report table** (`app/utils/pdf_generator.py`). `BuildTableData`
  runs the nested loops that fill `table_data`. It is proved equal to
  `TableData`: the header row, then one row per record, with cell `j` holding
  `str()` of field `columns[j]`, or `""` when the field is missing.
  `GenerateTablePdf` adds the equal column widths and returns the path it was
  given. With an empty column list it returns the division's
  `ZeroDivisionError` instead. `PyValues` gives `str()` of the values an asset
  holds: int, str, date, datetime and None.
- **The report's default caller** (`app/routes/assets.py:49-69`).
  `AssetReport.ReportAssets` lists the table and renders it under the table's
  columns minus `serial_number` and `created_at`. Each asset is seen through
  `getattr` (`AsRecord`).

Modules: `Wrappers` (Option), `PyValues`, `Crud`, `PdfGenerator`,
`AssetReport`, one per file.

Behaviour of the code that is easy to misread:

- An update does not clear a field whose key is present with an explicit
  `None`. The loop at `app/crud.py:46-48` skips every None value. So "set to
  null" behaves like "unset" (`Crud.MergeKeepsSerial`).
- The generic integrity detail reads "Integrity error while updating asset."
  on the create path too (`app/crud.py:26-29`).
- The table takes 90% of the page width, as the code computes
  (`app/utils/pdf_generator.py:70`). The comment beside it says 85%.
- An update whose merge changes no field (an empty dict, only None values,
  or the values the row already holds) flushes no UPDATE statement. Such an
  update always succeeds and returns the row unchanged.

## Model

| member | source | states |
|---|---|---|
| `PyValues.NatToDecimal` | app/utils/pdf_generator.py:65 | `str()` of a non-negative int is a non-empty string of decimal digits, with no leading zero unless the number is 0 |
| `PyValues.DecimalRoundTrip` | app/utils/pdf_generator.py:65 | reading back the digits `str()` prints gives the same number |
| `PyValues.IntToDecimalInjective` | app/utils/pdf_generator.py:65 | two ints with the same `str()` text (including the minus sign) are equal |
| `PyValues.ZeroPadded` | app/utils/pdf_generator.py:65 | zero padding gives a digit string at least `width` long that still reads as the same number |
| `PyValues.DateRoundTrip` | app/utils/pdf_generator.py:65 | `str()` of a valid date is ten characters `YYYY-MM-DD` that parse back to the same date |
| `Crud.MergedField` | app/crud.py:46-48 | after an update, field `k` holds `data[k]` when the key is present with a non-None value, and its old value otherwise; id and created_at never change |
| `Crud.MergeKeepsSerial` | app/crud.py:46-48 | an update never clears a serial number; if it does not write serial_number, the serial is unchanged |
| `Crud.MergeIdempotent` | app/crud.py:46-48 | applying the same update dict twice gives the same record as applying it once |
| `Crud.MergeNothingWritten` | app/crud.py:46-48 | an update dict that is empty, or holds only None values, leaves the record as it was |
| `Crud.MergedStep` | app/crud.py:46-48 | handling one more key does a `setattr` exactly when its value is not None |
| `Crud.ApplyUpdate` | app/crud.py:46-48 | the loop over `data.items()` produces `Merged(a, data)`, whatever order the keys come in |
| `Crud.VerdictMatchesIndex` | app/crud.py:17-20 | while serials are unique, writing a row under an id is rejected as a duplicate exactly when the resulting table would break the unique index on serial_number, and goes through exactly when it keeps the index and no other constraint fires |
| `Crud.UniquenessPreserved` | app/models.py:11 | writing a row whose serial no other row holds keeps non-null serials unique |
| `Crud.DetailClassification` | app/crud.py:19-29 | the duplicate-serial detail names exactly the serial it was built from; the generic detail names none, so the two cases cannot be confused |
| `Crud.UnwrittenSerialNeverDuplicate` | app/crud.py:56-61 | while serials are unique, an update that does not write serial_number is never rejected as a duplicate, so its "'None' already exists" detail cannot occur |
| `Crud.AssetTable.constructor` | app/models.py:5-12 | a new table is empty, satisfies the invariant, and hands out ids from 1 |
| `Crud.AssetTable.Create` | app/crud.py:9-29 | success exactly when the verdict is clean; success adds exactly one row with the supplied fields, created_at `now` and a never-issued id, and changes no other row; rejection leaves every row as before and never moves the id counter back, and its detail names the serial on a duplicate and is the fixed text otherwise |
| `Crud.AssetTable.Get` | app/crud.py:32-33 | for any integer `id`, returns the row stored under it, or None exactly when `id` is absent |
| `Crud.AssetTable.List` | app/crud.py:36-38 | returns every row exactly once: as many entries as rows, each a stored row under its own id, no id twice |
| `Crud.AssetTable.Update` | app/crud.py:41-66 | absent id gives None and no change; a merge that changes nothing returns the row and cannot be rejected; otherwise it commits `Merged(row, data)` under the same id if the verdict is clean, and on rejection keeps every row as before; a detail that names a serial names the one `data` wrote |
| `Crud.AssetTable.Delete` | app/crud.py:70-76 | returns true exactly when `id` was present, and removes exactly that row |
| `Crud.DeleteTwice` | app/crud.py:70-76 | deleting the same id twice: the second delete returns false |
| `PdfGenerator.Row` | app/utils/pdf_generator.py:59-66 | a data row has exactly one cell per column |
| `PdfGenerator.Rows` | app/utils/pdf_generator.py:58-66 | there is exactly one data row per record |
| `PdfGenerator.RowAt` | app/utils/pdf_generator.py:60-65 | cell `j` of a row is the projection of `columns[j]` |
| `PdfGenerator.RowsAt` | app/utils/pdf_generator.py:58-66 | data row `i` is the row of record `i` |
| `PdfGenerator.RowsAppend` | app/utils/pdf_generator.py:58-66 | rows keep the order of the records: the rows of `d1 + d2` are the rows of `d1` followed by those of `d2` |
| `PdfGenerator.RowSnoc` | app/utils/pdf_generator.py:60-65 | appending a column appends that column's cell to the row |
| `PdfGenerator.TableShape` | app/utils/pdf_generator.py:56-66 | the table has `len(data_list) + 1` rows, row 0 is `columns`, and row `i + 1` has one cell per column, cell `j` being the projection of `columns[j]` from record `i` |
| `PdfGenerator.EmptyTable` | app/utils/pdf_generator.py:56-58 | with no records the table is the header row alone |
| `PdfGenerator.MissingIsNotNone` | app/utils/pdf_generator.py:61-65 | a missing field gives `""`; a field present with None gives `"None"` |
| `PdfGenerator.BuildTableData` | app/utils/pdf_generator.py:55-66 | the nested loops produce the header row followed by each record's row in order, equal to `TableData` |
| `PdfGenerator.SumOfEqual` | app/utils/pdf_generator.py:72 | `n` equal widths `w` add up to `n * w` |
| `PdfGenerator.ColumnWidthsSpan` | app/utils/pdf_generator.py:69-72 | exactly `len(columns)` widths, all equal, together spanning the table width |
| `PdfGenerator.GenerateTablePdf` | app/utils/pdf_generator.py:11-102 | an empty column list fails, with ZeroDivisionError; otherwise the document has the given title ("Data Report" when none is given), the table `TableData(data_list, columns)` and the equal widths, and the given path is returned |
| `AssetReport.WithoutKeeps` | app/routes/assets.py:57-58 | the comprehension keeps a column exactly when it is a table column and not excluded, and never yields more columns than the table has |
| `AssetReport.WithoutAppend` | app/routes/assets.py:58 | the comprehension keeps the table's column order: filtering a concatenation filters each part in turn |
| `AssetReport.WithoutSplit` | app/routes/assets.py:57-58 | kept columns followed by excluded columns filter down to exactly the kept columns |
| `AssetReport.DefaultColumns` | app/routes/assets.py:57-58 | the report's columns are id, name, category and purchase_date, in table order |
| `AssetReport.AssetRow` | app/utils/pdf_generator.py:63-65 | an asset's report row is its id in decimal, its name, its category and its purchase date as `YYYY-MM-DD` |
| `AssetReport.AbsentSerialPrintsNone` | app/utils/pdf_generator.py:63-65 | through `getattr`, an asset without a serial number prints "None", not an empty cell |
| `AssetReport.ReportLines` | app/utils/pdf_generator.py:56-66 | the report of a listing is the header row followed by one line per listed asset, line `i + 1` being the report row of asset `i` |
| `AssetReport.LinesAreRows` | app/routes/assets.py:51-67 | when every listed asset is a row of the table, every report line is the report row of some table row |
| `AssetReport.RowsHaveLines` | app/routes/assets.py:51-67 | when every table row is among the listed assets, every table row has its report row among the report lines |
| `AssetReport.ReportAssets` | app/routes/assets.py:49-69 | the report is always written to the given path under the four default columns, with a header row and one line per asset in the table |

## Left out

- Database sessions: `commit`, `refresh`, `rollback`, `await`, and the engine and session factories (`app/database.py`, `app/main.py`). Each operation is one atomic map update.
- The database's id generation is modelled as an auto-increment counter that never reissues an id. `created_at` is the `now` argument of `Create`. The server clock is not part of this model.
- Integrity constraints other than the unique serial number are not modelled. The database's verdict on them is the `otherViolation` argument. When both apply, the duplicate serial is reported.
- The driver's error text is not modelled. The two tests `"Duplicate entry" in str(e.orig) and "serial_number" in str(e.orig)` become the abstract fault `DuplicateSerial`.
- Serial numbers collide only when their texts are equal. The database's collation (MySQL's default compares case-insensitively and ignores some accents) is not modelled, so two serials that differ only in case count as distinct here.
- The `String(255)` length limits on name, category and serial_number (`app/models.py:8-11`) are not modelled. Strings of any length are accepted, and the database's rejection or truncation of longer values is not represented.
- The HTTP layer is not modelled: routing, mapping to 404 and 400, and the response body (`app/routes/assets.py`). Neither is running the report as a background task with no way to report failure. `ReportAssets` runs the report in the foreground.
- Pydantic validation (`app/schemas.py`) is assumed, not modelled. The update dict is a map from the four `AssetUpdate` fields to values of the field's type, or None (`WellTyped`).
- reportlab layout and styling are not modelled, and neither are writing the file or `PyPDF2` (`app/utils/pdf_generator.py:22-53, 74-100`). A cell is the plain text handed to `Paragraph`. `Paragraph` would read markup such as `<b>` or `&` inside that text; that reading is not modelled.
- Floating-point widths are modelled as exact reals: the A4 width is `210 * 72 / 25.4` points. Only the number of widths, their equality and their sum are stated.
- `str(filepath)` is not modelled: the path is taken as a string already, and Python's path normalisation is not applied.
- An object record exposes only its six column attributes. Other Python attributes of an `Asset` instance (such as `metadata`) are not modelled, so naming one as a column gives `""` here.
- `str()` covers only the value kinds an asset row holds. A datetime is printed without microseconds, which a TIMESTAMP column does not store.
- Environment and configuration loading are not modelled, and neither is creating the reports directory (`app/utils/config.py`). The report file name is not modelled either: it is built from the clock at `app/routes/assets.py:54-55`.
