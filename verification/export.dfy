/** The two CSV export endpoints as pure decisions from their inputs to a response:
    GET /api/table/{table_name}/export and POST /api/query/export. The store is a
    map from table name to its columns and rows; the result of translating and
    running a natural-language query is given as a QueryExecutionResult. */
module Export {
  import opened Wrappers
  import opened Values
  import Substrings
  import TableName
  import Csv
  import Serializer

  const CsvContentType: string := "text/csv; charset=utf-8"
  const JsonContentType: string := "application/json"
  const QueryFilename: string := "query_results.csv"

  datatype Body = CsvBody(text: string) | ErrorBody(detail: string)

  /** Status code, response headers (lower-case names) and body. */
  datatype Response = Response(status: nat, headers: map<string, string>, body: Body)

  /** A stored table: its columns in declaration order and its rows in storage order. */
  datatype Table = Table(columns: seq<string>, rows: seq<Row>)

  type Database = map<string, Table>

  /** The outcome of running the generated SQL; when `error` is present the
      other two fields are not to be used. */
  datatype QueryExecutionResult = QueryExecutionResult(results: seq<Row>, columns: seq<string>, error: Option<string>)

  function Attachment(filename: string): string {
    "attachment; filename=\"" + filename + "\""
  }

  function CsvResponse(filename: string, text: string): Response {
    Response(200, map["content-type" := CsvContentType, "content-disposition" := Attachment(filename)], CsvBody(text))
  }

  function ErrorResponse(status: nat, detail: string): Response {
    Response(status, map["content-type" := JsonContentType], ErrorBody(detail))
  }

  /** A 200 download of `filename` with the CSV content type. */
  predicate IsCsvDownload(r: Response, filename: string) {
    && r.status == 200
    && r.body.CsvBody?
    && "content-type" in r.headers && r.headers["content-type"] == CsvContentType
    && "content-disposition" in r.headers && r.headers["content-disposition"] == Attachment(filename)
  }

  /** The CSV body reads back as the header `columns` followed by one record per row. */
  predicate CarriesRowSet(r: Response, columns: seq<string>, rows: seq<Row>)
    requires r.body.CsvBody?
  {
    var parsed := Csv.Parse(r.body.text);
    parsed.Some? && Serializer.DescribesRowSet(parsed.value, columns, rows)
  }

  /** An error response: a JSON detail and no CSV. */
  predicate IsError(r: Response, status: nat) {
    r.status == status && r.body.ErrorBody?
  }

  const InvalidNameDetail: string := "Invalid table name"

  function NotFoundDetail(name: string): string {
    "Table '" + name + "' " + "not found"
  }

  /** Table export: validate the name, then check that the table exists, then
      serialize all of its columns and rows. Validation comes first, so a name
      that fails it is answered 400 whatever the store holds. */
  function ExportTable(db: Database, name: string): (r: Response)
    ensures !TableName.IsValid(name) ==> IsError(r, 400) && Substrings.Mentions(r.body.detail, "invalid")
    ensures TableName.IsValid(name) && name !in db ==> IsError(r, 404) && Substrings.Mentions(r.body.detail, "not found")
    ensures TableName.IsValid(name) && name in db ==>
      IsCsvDownload(r, name + ".csv") && CarriesRowSet(r, db[name].columns, db[name].rows)
    ensures r.body.CsvBody? <==> r.status == 200
  {
    if !TableName.IsValid(name) then
      Substrings.MentionsPiece("", "Invalid", " table name", "invalid");
      assert "" + "Invalid" + " table name" == InvalidNameDetail;
      ErrorResponse(400, InvalidNameDetail)
    else if name !in db then
      Substrings.MentionsPiece("Table '" + name + "' ", "not found", "", "not found");
      assert "Table '" + name + "' " + "not found" + "" == NotFoundDetail(name);
      ErrorResponse(404, NotFoundDetail(name))
    else
      var t := db[name];
      CsvResponse(name + ".csv", Serializer.ToCsv(t.columns, t.rows))
  }

  /** Query export: a reported execution error is answered 400 with the error
      in the detail and no CSV; otherwise the result's columns and rows are
      serialized as query_results.csv. */
  function ExportQuery(res: QueryExecutionResult): (r: Response)
    ensures res.error.Some? ==> IsError(r, 400) && Substrings.IsSubstring(res.error.value, r.body.detail)
    ensures res.error.None? ==>
      IsCsvDownload(r, QueryFilename) && CarriesRowSet(r, res.columns, res.results)
  {
    match res.error
    case Some(e) =>
      Substrings.SubstringOfConcat("Query execution failed: ", e, "");
      assert "Query execution failed: " + e + "" == "Query execution failed: " + e;
      ErrorResponse(400, "Query execution failed: " + e)
    case None =>
      CsvResponse(QueryFilename, Serializer.ToCsv(res.columns, res.results))
  }

  /** A rejected name never reaches the store: the answer is the same for every database. */
  lemma InvalidNameIgnoresDatabase(db: Database, db': Database, name: string)
    requires !TableName.IsValid(name)
    ensures ExportTable(db, name) == ExportTable(db', name)
  {
  }

  /** The answer for a name depends only on that table, not on the rest of the store. */
  lemma ExportReadsOnlyNamedTable(db: Database, db': Database, name: string)
    requires name in db <==> name in db'
    requires name in db ==> db[name] == db'[name]
    ensures ExportTable(db, name) == ExportTable(db', name)
  {
  }

  /** With an error present, the (unusable) results and columns do not affect the answer. */
  lemma QueryErrorIgnoresPayload(res: QueryExecutionResult, res': QueryExecutionResult)
    requires res.error.Some? && res.error == res'.error
    ensures ExportQuery(res) == ExportQuery(res')
  {
  }

  /** A validated name cannot break out of the quoted filename of the download. */
  lemma DownloadNameStaysQuoted(name: string)
    requires TableName.IsValid(name)
    ensures forall i :: 0 <= i < |name + ".csv"| ==> (name + ".csv")[i] != '"'
  {
  }
}
