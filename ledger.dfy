/** The attendance ledger of app.py: a table with (at least) the columns `Name` and `Time`,
    loaded from the CSV file with a fall-back to an empty table (`load_attendance`) and
    extended by one row per newly seen name (`mark_attendance`). The CSV text format itself
    is abstract: what a read yields is given as a `CsvRead` value. */
module AttendanceLedger {
  import opened Wrappers

  const NameColumn: string := "Name"
  const TimeColumn: string := "Time"

  /** One row of the table, from column label to cell text. A cell that is empty in the file
      (a NaN in the data frame) has no entry. */
  type Row = map<string, string>

  /** A data frame: its column labels in order and its rows in order. */
  datatype Frame = Frame(columns: seq<string>, rows: seq<Row>)

  /** The outcome of `pd.read_csv` on the ledger file: no file, an exception, or a table. */
  datatype CsvRead = NoFile | ReadError | Parsed(table: Frame)

  /** The outcome of `mark_attendance`: the returned table, and whether it was written to the
      ledger file (the file then holds exactly `table`). */
  datatype Marked = Marked(table: Frame, wrote: bool)

  function Cell(row: Row, column: string): Option<string> {
    if column in row then Some(row[column]) else None
  }

  /** The values of the `Name` column, row by row (`df["Name"].values`). */
  function Names(f: Frame): seq<Option<string>> {
    seq(|f.rows|, i requires 0 <= i < |f.rows| => Cell(f.rows[i], NameColumn))
  }

  /** `name in df["Name"].values`. */
  predicate Present(name: string, f: Frame)
    ensures Present(name, f) <==>
              exists i :: 0 <= i < |f.rows| && NameColumn in f.rows[i] && f.rows[i][NameColumn] == name
  {
    assert forall i :: 0 <= i < |f.rows| ==> Names(f)[i] == Cell(f.rows[i], NameColumn);
    Some(name) in Names(f)
  }

  predicate HasRequiredColumns(f: Frame) {
    NameColumn in f.columns && TimeColumn in f.columns
  }

  /** `pd.DataFrame(columns=["Name", "Time"])`. */
  function EmptyLedger(): (f: Frame)
    ensures HasRequiredColumns(f) && Names(f) == []
  {
    Frame([NameColumn, TimeColumn], [])
  }

  /** No name occurs in two rows. Rows whose name cell is empty are not compared. */
  predicate DistinctNames(f: Frame) {
    forall i, j :: 0 <= i < j < |Names(f)| && Names(f)[i].Some? ==> Names(f)[i] != Names(f)[j]
  }

  /** `load_attendance`: the parsed table when it has both required columns, otherwise (no
      file, a reader exception, a missing column) a fresh empty ledger. It never fails. */
  function LoadAttendance(read: CsvRead): (f: Frame)
    ensures HasRequiredColumns(f)
    ensures read.Parsed? ==> (f == read.table <==> HasRequiredColumns(read.table))
    ensures !(read.Parsed? && HasRequiredColumns(read.table)) ==> f == EmptyLedger()
  {
    match read
    case Parsed(table) =>
      if NameColumn !in table.columns || TimeColumn !in table.columns then EmptyLedger() else table
    case _ => EmptyLedger()
  }

  /** The one-row frame built for a new attendance entry. */
  function NewRow(name: string, now: string): (row: Row)
    ensures Cell(row, NameColumn) == Some(name) && Cell(row, TimeColumn) == Some(now)
    ensures row.Keys == {NameColumn, TimeColumn}
  {
    map[NameColumn := name, TimeColumn := now]
  }

  /** `mark_attendance(name, df)` at the clock reading `now`. A name already in the `Name`
      column leaves the table alone and nothing is written; otherwise one row is appended
      (`pd.concat` keeps the table's columns and adds `Time` if it was missing) and the new table
      is written out. The source indexes `df["Name"]`, so the column must exist. */
  function MarkAttendance(name: string, now: string, f: Frame): (r: Marked)
    requires NameColumn in f.columns
    ensures r.wrote <==> !Present(name, f)
    ensures Present(name, r.table)
    ensures !r.wrote ==> r.table == f
    ensures r.wrote ==> r.table.rows == f.rows + [NewRow(name, now)]
    ensures Names(r.table) == Names(f) + (if r.wrote then [Some(name)] else [])
    ensures NameColumn in r.table.columns
    ensures HasRequiredColumns(f) ==> r.table.columns == f.columns
    ensures r.wrote ==> HasRequiredColumns(r.table)
  {
    if Some(name) !in Names(f) then
      var columns := if TimeColumn in f.columns then f.columns else f.columns + [TimeColumn];
      var g := Frame(columns, f.rows + [NewRow(name, now)]);
      assert Names(g) == Names(f) + [Some(name)];
      Marked(g, true)
    else
      Marked(f, false)
  }

  /** Marking the same name twice gives one entry and one write: the second call returns the
      first call's table and writes nothing, whatever its clock reading. */
  lemma MarkIdempotent(name: string, now1: string, now2: string, f: Frame)
    requires NameColumn in f.columns
    ensures MarkAttendance(name, now2, MarkAttendance(name, now1, f).table)
         == Marked(MarkAttendance(name, now1, f).table, false)
  {
  }

  /** A ledger whose names are distinct stays so after any mark. */
  lemma MarkKeepsNamesDistinct(name: string, now: string, f: Frame)
    requires NameColumn in f.columns
    requires DistinctNames(f)
    ensures DistinctNames(MarkAttendance(name, now, f).table)
  {
    var r := MarkAttendance(name, now, f);
    if r.wrote {
      var ns := Names(r.table);
      forall i, j | 0 <= i < j < |ns| && ns[i].Some?
        ensures ns[i] != ns[j]
      {
        if j == |ns| - 1 {
          assert ns[i] == Names(f)[i];
        } else {
          assert ns[i] == Names(f)[i] && ns[j] == Names(f)[j];
        }
      }
    }
  }

  /** A table `mark_attendance` wrote reloads as itself (given a faithful CSV round trip). */
  lemma WrittenLedgerReloads(name: string, now: string, f: Frame)
    requires NameColumn in f.columns
    requires MarkAttendance(name, now, f).wrote
    ensures LoadAttendance(Parsed(MarkAttendance(name, now, f).table)) == MarkAttendance(name, now, f).table
  {
  }
}
