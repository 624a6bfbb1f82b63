/** Turning an ordered column list and a sequence of row records into CSV:
    a header record holding the column names, then one record per row with
    each row's values placed by column name. A column the row lacks, and a
    NULL value, give an empty field; keys outside the column list are ignored. */
module Serializer {
  import opened Wrappers
  import opened Values
  import Csv

  /** The field for one column of one row. */
  function Cell(row: Row, column: string): string {
    if column in row then Render(row[column]) else ""
  }

  function RowRecord(columns: seq<string>, row: Row): Csv.Record {
    seq(|columns|, j requires 0 <= j < |columns| => Cell(row, columns[j]))
  }

  /** The header record followed by the data records. */
  function Records(columns: seq<string>, rows: seq<Row>): seq<Csv.Record> {
    [columns] + seq(|rows|, i requires 0 <= i < |rows| => RowRecord(columns, rows[i]))
  }


  /** The records a CSV reader gets back from a serialized row set: the header
      equals the column list, one record follows per row in order, every record
      has as many fields as the header, and each field is that row's value for
      that column. */
  predicate DescribesRowSet(parsed: seq<Csv.Record>, columns: seq<string>, rows: seq<Row>) {
    && |parsed| == |rows| + 1
    && parsed[0] == columns
    && (forall k :: 0 <= k < |parsed| ==> |parsed[k]| == |columns|)
    && (forall k, j :: 1 <= k < |parsed| && 0 <= j < |columns| ==> parsed[k][j] == Cell(rows[k - 1], columns[j]))
  }

  /** The CSV text of a row set. It reads back as the header and one record
      per row, with every field in place. */
  function ToCsv(columns: seq<string>, rows: seq<Row>): (text: string)
    ensures Csv.Parse(text).Some?
    ensures DescribesRowSet(Csv.Parse(text).value, columns, rows)
  {
    var records := Records(columns, rows);
    Csv.ParseOfEncode(records);
    RecordsDescribeRowSet(columns, rows);
    Csv.Encode(records)
  }

  /** The description pins the records down: exactly one list of records
      describes a row set, the one the serializer writes. */
  lemma DescribesExactly(parsed: seq<Csv.Record>, columns: seq<string>, rows: seq<Row>)
    ensures DescribesRowSet(parsed, columns, rows) <==> parsed == Records(columns, rows)
  {
    RecordsDescribeRowSet(columns, rows);
    if DescribesRowSet(parsed, columns, rows) {
      var records := Records(columns, rows);
      forall k | 0 <= k < |parsed|
        ensures parsed[k] == records[k]
      {
        if k > 0 {
          assert forall j :: 0 <= j < |columns| ==> parsed[k][j] == records[k][j];
        }
      }
    }
  }

  lemma RecordsDescribeRowSet(columns: seq<string>, rows: seq<Row>)
    ensures DescribesRowSet(Records(columns, rows), columns, rows)
  {
  }

  /** Integers, NULL and missing columns give the same field a CSV reader
      returns for them: the decimal text, or the empty field. */
  lemma CellOfScalar(row: Row, column: string)
    ensures column !in row ==> Cell(row, column) == ""
    ensures column in row && row[column].Null? ==> Cell(row, column) == ""
    ensures column in row && row[column].Text? ==> Cell(row, column) == row[column].text
    ensures column in row && row[column].Integer? ==>
      IsCanonicalInt(Cell(row, column)) && DecimalToInt(Cell(row, column)) == row[column].n
  {
  }

  /** Zero rows give exactly one record, the header. */
  lemma EmptyRowSetIsHeaderOnly(columns: seq<string>)
    ensures Csv.Parse(ToCsv(columns, [])) == Some([columns])
  {
    assert Records(columns, []) == [columns];
    Csv.ParseOfEncode([columns]);
  }

  /** Only the values under the listed columns reach the output: rows that agree
      on those columns serialize to the same text. */
  lemma ExtraKeysIgnored(columns: seq<string>, rows: seq<Row>, rows': seq<Row>)
    requires |rows| == |rows'|
    requires forall i, j :: 0 <= i < |rows| && 0 <= j < |columns| ==> Cell(rows[i], columns[j]) == Cell(rows'[i], columns[j])
    ensures ToCsv(columns, rows) == ToCsv(columns, rows')
  {
    forall i | 0 <= i < |rows|
      ensures RowRecord(columns, rows[i]) == RowRecord(columns, rows'[i])
    {
    }
    assert Records(columns, rows) == Records(columns, rows');
  }
}
