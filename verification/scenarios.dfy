/** The fixture database and the request scenarios of the export test suite,
    each proved against the model. */
module Scenarios {
  import opened Wrappers
  import opened Values
  import TableName
  import Substrings
  import Csv
  import Serializer
  import opened Export

  const UserColumns: seq<string> := ["id", "name", "email", "age"]

  function UserRow(id: int, name: string, email: string, age: int): Row {
    map["id" := Integer(id), "name" := Text(name), "email" := Text(email), "age" := Integer(age)]
  }

  /** users with Alice and Bob (ids assigned 1 and 2 by the store), and an empty table. */
  function FixtureDb(): Database {
    map[
      "users" := Table(UserColumns, [UserRow(1, "Alice", "alice@example.com", 30), UserRow(2, "Bob", "bob@example.com", 25)]),
      "empty_table" := Table(["id", "name"], [])
    ]
  }

  const InjectionName: string := "users'; DROP TABLE users; --"

  /** The names the suite uses are decided as it expects. */
  lemma TestNamesDecided()
    ensures TableName.IsValid("users")
    ensures TableName.IsValid("empty_table")
    ensures TableName.IsValid("nonexistent_table")
    ensures !TableName.IsValid(InjectionName)
  {
    TableName.MetacharRejected(InjectionName, 5);
  }

  const UsersExpected: seq<Csv.Record> := [
    ["id", "name", "email", "age"],
    ["1", "Alice", "alice@example.com", "30"],
    ["2", "Bob", "bob@example.com", "25"]]

  /** Any users row is written as its id, name, email and age in column
      order, the integers as str() writes them. */
  lemma UserRowRecord(id: int, name: string, email: string, age: int)
    ensures Serializer.RowRecord(UserColumns, UserRow(id, name, email, age)) ==
      [IntToDecimal(id), name, email, IntToDecimal(age)]
  {
  }

  lemma UsersRecords()
    ensures Serializer.Records(UserColumns, FixtureDb()["users"].rows) == UsersExpected
  {
    UserRowRecord(1, "Alice", "alice@example.com", 30);
    UserRowRecord(2, "Bob", "bob@example.com", 25);
    assert NatToDecimal(30) == NatToDecimal(3) + [DigitChar(0)];
    assert NatToDecimal(25) == NatToDecimal(2) + [DigitChar(5)];
    assert IntToDecimal(1) == "1" && IntToDecimal(2) == "2";
    assert IntToDecimal(30) == "30" && IntToDecimal(25) == "25";
  }

  /** GET /api/table/users/export: a users.csv download whose records are the
      header and the two stored rows, values placed by column. */
  lemma ExportUsersTable()
    ensures var r := ExportTable(FixtureDb(), "users");
      IsCsvDownload(r, "users.csv") && Csv.Parse(r.body.text) == Some(UsersExpected)
  {
    UsersExportFrom(FixtureDb());
  }

  /** The users export from any store holding the fixture's users table. */
  lemma UsersExportFrom(db: Database)
    requires "users" in db && db["users"] == FixtureDb()["users"]
    ensures var r := ExportTable(db, "users");
      IsCsvDownload(r, "users.csv") && Csv.Parse(r.body.text) == Some(UsersExpected)
  {
    UsersDownloadFrom(db);
    UsersRecordsFrom(db);
  }

  lemma UsersDownloadFrom(db: Database)
    requires "users" in db
    ensures IsCsvDownload(ExportTable(db, "users"), "users.csv")
  {
    TestNamesDecided();
    assert "users" + ".csv" == "users.csv";
  }

  lemma UsersRecordsFrom(db: Database)
    requires "users" in db && db["users"] == FixtureDb()["users"]
    ensures ExportTable(db, "users").body.CsvBody?
    ensures Csv.Parse(ExportTable(db, "users").body.text) == Some(UsersExpected)
  {
    TestNamesDecided();
    var t := db["users"];
    var r := ExportTable(db, "users");
    assert CarriesRowSet(r, t.columns, t.rows);
    var parsed := Csv.Parse(r.body.text).value;
    Serializer.DescribesExactly(parsed, t.columns, t.rows);
    UsersRecords();
  }

  /** Every record of the users export has as many fields as its header. */
  lemma UsersExportFieldCounts()
    ensures var r := ExportTable(FixtureDb(), "users");
      && Csv.Parse(r.body.text).Some?
      && (forall k :: 0 <= k < |Csv.Parse(r.body.text).value| ==>
            |Csv.Parse(r.body.text).value[k]| == |Csv.Parse(r.body.text).value[0]|)
  {
    TestNamesDecided();
  }

  /** GET /api/table/nonexistent_table/export: 404 mentioning "not found". */
  lemma ExportMissingTable()
    ensures var r := ExportTable(FixtureDb(), "nonexistent_table");
      IsError(r, 404) && Substrings.Mentions(r.body.detail, "not found")
  {
    TestNamesDecided();
  }

  /** The injection attempt is answered 400 mentioning "invalid", although no
      table of that name exists. */
  lemma ExportInjectionAttempt()
    ensures InjectionName !in FixtureDb()
    ensures var r := ExportTable(FixtureDb(), InjectionName);
      IsError(r, 400) && Substrings.Mentions(r.body.detail, "invalid")
  {
    TestNamesDecided();
  }

  /** GET /api/table/empty_table/export: only the header record. */
  lemma ExportEmptyTable()
    ensures var r := ExportTable(FixtureDb(), "empty_table");
      r.status == 200 && r.body.CsvBody? && Csv.Parse(r.body.text) == Some([["id", "name"]])
  {
    TestNamesDecided();
    Serializer.EmptyRowSetIsHeaderOnly(["id", "name"]);
  }

  function QueryRow(id: int, name: string, email: string): Row {
    map["id" := Integer(id), "name" := Text(name), "email" := Text(email)]
  }

  /** "Show me all users": two rows under id, name, email. */
  lemma ExportQuerySuccess()
    ensures var r := ExportQuery(QueryExecutionResult(
        [QueryRow(1, "Alice", "alice@example.com"), QueryRow(2, "Bob", "bob@example.com")],
        ["id", "name", "email"], None));
      && IsCsvDownload(r, "query_results.csv")
      && Csv.Parse(r.body.text).Some?
      && |Csv.Parse(r.body.text).value| == 3
      && Csv.Parse(r.body.text).value[0] == ["id", "name", "email"]
  {
  }

  /** A query with no rows: only the header record. */
  lemma ExportQueryEmpty()
    ensures var r := ExportQuery(QueryExecutionResult([], ["id", "name", "email"], None));
      r.status == 200 && r.body.CsvBody? && Csv.Parse(r.body.text) == Some([["id", "name", "email"]])
  {
    Serializer.EmptyRowSetIsHeaderOnly(["id", "name", "email"]);
  }

  /** An execution error ("Table not found") gives 400 and no CSV. */
  lemma ExportQueryError()
    ensures var r := ExportQuery(QueryExecutionResult([], [], Some("Table not found")));
      IsError(r, 400) && !r.body.CsvBody? && Substrings.IsSubstring("Table not found", r.body.detail)
  {
  }

  /** "Show me user names": every record has the two fields of the header. */
  lemma QueryExportFieldCounts()
    ensures var r := ExportQuery(QueryExecutionResult(
        [map["id" := Integer(1), "name" := Text("Alice")], map["id" := Integer(2), "name" := Text("Bob")]],
        ["id", "name"], None));
      && Csv.Parse(r.body.text).Some?
      && (forall k :: 0 <= k < |Csv.Parse(r.body.text).value| ==> |Csv.Parse(r.body.text).value[k]| == 2)
  {
  }
}
