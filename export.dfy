/** The rows the Export action hands to the CSV writer: the tuples of
    `SELECT * FROM Main`, one per record, six fields each. */
module Export {
  import opened Records

  datatype Option<T> = None | Some(value: T)

  /** One field of a `SELECT *` tuple: the integer id or a text column. */
  datatype Cell = Int(n: int) | Text(s: string)

  /** A finished export: the rows written, the count the success message
      reports, and the destination path chosen in the save dialog. */
  datatype Report = Report(rows: seq<seq<Cell>>, rowCount: int, path: string)

  /** The tuple `SELECT * FROM Main` returns for a record, in column order. */
  function Cells(r: Record): seq<Cell>
  {
    [Int(r.id), Text(r.username), Text(r.name), Text(r.phone), Text(r.address), Text(r.status)]
  }

  /** The rows of a whole export, in storage order. */
  function ExportRows(store: seq<Record>): seq<seq<Cell>>
  {
    seq(|store|, k requires 0 <= k < |store| => Cells(store[k]))
  }

  /** Reading a six-field row back as a record; None for any other shape. */
  function RecordOf(row: seq<Cell>): (r: Option<Record>)
    ensures r.Some? ==> Cells(r.value) == row
  {
    if |row| == 6 && row[0].Int? && row[1].Text? && row[2].Text? && row[3].Text?
       && row[4].Text? && row[5].Text?
    then Some(Record(row[0].n, row[1].s, row[2].s, row[3].s, row[4].s, row[5].s))
    else None
  }

  /** Reading every row back; None as soon as one row does not fit. */
  function RecordsOf(rows: seq<seq<Cell>>): Option<seq<Record>>
  {
    if rows == [] then Some([])
    else
      match (RecordOf(rows[0]), RecordsOf(rows[1..]))
      case (Some(r), Some(rest)) => Some([r] + rest)
      case _ => None
  }

  /** Each exported row carries all six fields of its record: the export
      can be read back into exactly the stored records, in order. */
  lemma {:induction false} ExportRoundTrip(store: seq<Record>)
    ensures RecordsOf(ExportRows(store)) == Some(store)
  {
    if store != [] {
      assert ExportRows(store)[1..] == ExportRows(store[1..]);
      ExportRoundTrip(store[1..]);
      assert RecordOf(Cells(store[0])) == Some(store[0]);
      assert [store[0]] + store[1..] == store;
    }
  }
}
