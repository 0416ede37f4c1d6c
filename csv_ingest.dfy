/** Reading one channel's `messages.csv`: every row whose second field is not
    the header label contributes the timestamp parsed from that field, in row
    order. Parsing the ISO text into a timestamp is passed in as `parse`. */
module CsvIngest {
  import opened Timestamps

  /** One CSV row: its fields, as text. */
  type Row = seq<string>

  /** The column that holds a message's timestamp. */
  const TimestampColumn: nat := 1

  /** The value the header row holds in that column. */
  const HeaderLabel: string := "Timestamp"

  /** A row too short to have a timestamp column (in the script, `row[1]`
      raises an IndexError and the run stops there). */
  datatype CsvError = MissingTimestampField(row: nat)

  datatype Result<T> = Success(value: T) | Failure(error: CsvError)

  /** Every row has a timestamp column. */
  predicate AllRowsHaveTimestamp(rows: seq<Row>)
  {
    forall k :: 0 <= k < |rows| ==> |rows[k]| > TimestampColumn
  }

  /** The timestamps one row adds: none for the header row, the parsed field
      for any other row. A row does not know its own position, so the index
      in its error is a placeholder 0; `ReadRows` reports the row's position
      instead. */
  function ReadRow(row: Row, parse: string -> Timestamp): (r: Result<seq<Timestamp>>)
    ensures r.Failure? <==> |row| <= TimestampColumn
    ensures r.Success? ==> (r.value == [] <==> row[TimestampColumn] == HeaderLabel)
    ensures r.Success? && r.value != [] ==> r.value == [parse(row[TimestampColumn])]
  {
    if |row| <= TimestampColumn then Failure(MissingTimestampField(0))
    else if row[TimestampColumn] != HeaderLabel then Success([parse(row[TimestampColumn])])
    else Success([])
  }

  /** The rows of one file, read in order. The first row without a timestamp
      column ends the read with an error naming that row. */
  function ReadRows(rows: seq<Row>, parse: string -> Timestamp): (r: Result<seq<Timestamp>>)
    ensures r.Success? <==> AllRowsHaveTimestamp(rows)
    ensures r.Failure? ==>
              && r.error.row < |rows|
              && |rows[r.error.row]| <= TimestampColumn
              && forall k :: 0 <= k < r.error.row ==> |rows[k]| > TimestampColumn
    ensures r.Success? ==> |r.value| <= |rows|
  {
    if rows == [] then
      Success([])
    else
      match ReadRow(rows[0], parse)
      case Failure(_) => Failure(MissingTimestampField(0))
      case Success(first) =>
        match ReadRows(rows[1..], parse)
        case Failure(e) => Failure(MissingTimestampField(e.row + 1))
        case Success(rest) => Success(first + rest)
  }

  /** Reading two runs of rows one after the other gives the timestamps of
      the first run followed by those of the second. */
  lemma {:induction false} ReadRowsAppend(a: seq<Row>, b: seq<Row>, parse: string -> Timestamp)
    requires AllRowsHaveTimestamp(a) && AllRowsHaveTimestamp(b)
    ensures ReadRows(a + b, parse).Success?
    ensures ReadRows(a + b, parse).value == ReadRows(a, parse).value + ReadRows(b, parse).value
  {
    assert AllRowsHaveTimestamp(a + b);
    if a != [] {
      assert (a + b)[0] == a[0];
      assert (a + b)[1..] == a[1..] + b;
      ReadRowsAppend(a[1..], b, parse);
    } else {
      assert a + b == b;
    }
  }

  /** The rows whose timestamp field is not the header label. */
  function DataFields(rows: seq<Row>): (fields: seq<string>)
    requires AllRowsHaveTimestamp(rows)
    ensures |fields| <= |rows|
    ensures forall k :: 0 <= k < |fields| ==> fields[k] != HeaderLabel
  {
    if rows == [] then []
    else
      (if rows[0][TimestampColumn] != HeaderLabel then [rows[0][TimestampColumn]] else [])
        + DataFields(rows[1..])
  }

  /** A field is kept exactly when some row holds it in the timestamp column
      and it is not the header label. */
  lemma {:induction false} DataFieldsMembership(rows: seq<Row>, x: string)
    requires AllRowsHaveTimestamp(rows)
    ensures x in DataFields(rows) <==>
              x != HeaderLabel && exists k :: 0 <= k < |rows| && rows[k][TimestampColumn] == x
  {
    if rows != [] {
      DataFieldsMembership(rows[1..], x);
      if exists k :: 0 <= k < |rows| && rows[k][TimestampColumn] == x {
        var k :| 0 <= k < |rows| && rows[k][TimestampColumn] == x;
        if k > 0 {
          assert rows[1..][k - 1][TimestampColumn] == x;
        }
      }
      if exists k :: 0 <= k < |rows[1..]| && rows[1..][k][TimestampColumn] == x {
        var k :| 0 <= k < |rows[1..]| && rows[1..][k][TimestampColumn] == x;
        assert rows[k + 1][TimestampColumn] == x;
      }
    }
  }

  /** A successful read yields exactly one parsed timestamp per data row, in
      row order, and nothing for the header rows. */
  lemma {:induction false} ReadRowsParsesDataFields(rows: seq<Row>, parse: string -> Timestamp)
    requires AllRowsHaveTimestamp(rows)
    ensures ReadRows(rows, parse).Success?
    ensures |ReadRows(rows, parse).value| == |DataFields(rows)|
    ensures forall k :: 0 <= k < |DataFields(rows)| ==>
              ReadRows(rows, parse).value[k] == parse(DataFields(rows)[k])
  {
    if rows != [] {
      assert AllRowsHaveTimestamp(rows[1..]) by {
        forall k | 0 <= k < |rows[1..]| ensures |rows[1..][k]| > TimestampColumn {
          assert rows[1..][k] == rows[k + 1];
        }
      }
      ReadRowsParsesDataFields(rows[1..], parse);
    }
  }
}
