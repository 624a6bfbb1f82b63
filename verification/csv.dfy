/** CSV text as section 2 of RFC 4180 describes it: records ended by CRLF,
    fields separated by commas, a field holding a comma, double quote, CR or
    LF enclosed in double quotes with each inner double quote doubled.
    Encode is the writer; Parse is a strict reader of the same format, and
    ParseOfEncode proves that reading back what was written gives the records. */
module Csv {
  import opened Wrappers

  const Comma: char := ','
  const Quote: char := '"'
  const CR: char := '\r'
  const LF: char := '\n'
  const CRLF: string := [CR, LF]

  /** A record is the ordered list of one line's fields. */
  type Record = seq<string>

  /** The characters that force a field to be quoted (rule 6). */
  predicate IsSpecial(c: char) {
    c == Comma || c == Quote || c == CR || c == LF
  }

  predicate NeedsQuoting(f: string) {
    exists i :: 0 <= i < |f| && IsSpecial(f[i])
  }

  /** Doubles every double quote (rule 7). */
  function Escape(f: string): string
    decreases |f|
  {
    if f == [] then []
    else (if f[0] == Quote then [Quote, Quote] else [f[0]]) + Escape(f[1..])
  }

  function EncodeField(f: string): string {
    if NeedsQuoting(f) then [Quote] + Escape(f) + [Quote] else f
  }

  /** Fields separated by commas (rule 4). */
  function JoinFields(fields: Record): string
    decreases |fields|
  {
    if |fields| == 0 then []
    else if |fields| == 1 then EncodeField(fields[0])
    else EncodeField(fields[0]) + [Comma] + JoinFields(fields[1..])
  }

  /** A record made of one empty field is written as a quoted empty field,
      so that it is told apart from a record with no fields (an empty line). */
  function EncodeRecord(fields: Record): string {
    if fields == [""] then [Quote, Quote] else JoinFields(fields)
  }

  /** Every record followed by CRLF (rules 1 and 2). */
  function Encode(records: seq<Record>): (r: string)
    ensures r == [] <==> records == []
    ensures records != [] ==> |r| >= 2 && r[|r| - 2..] == CRLF
    decreases |records|
  {
    if records == [] then [] else EncodeRecord(records[0]) + CRLF + Encode(records[1..])
  }

  // ---------------------------------------------------------------- reader

  /** A parsed value and the text left after it. */
  datatype Parsed<T> = Parsed(value: T, rest: string)

  /** The longest prefix free of special characters: an unquoted field. */
  function ParseBare(s: string): (p: Parsed<string>)
    ensures p.value + p.rest == s
    ensures !NeedsQuoting(p.value)
    ensures p.rest == [] || IsSpecial(p.rest[0])
    decreases |s|
  {
    if s == [] || IsSpecial(s[0]) then Parsed([], s)
    else
      var p := ParseBare(s[1..]);
      assert forall i :: 1 <= i < |[s[0]] + p.value| ==> ([s[0]] + p.value)[i] == p.value[i - 1];
      Parsed([s[0]] + p.value, p.rest)
  }

  /** The inside of a quoted field, its opening quote already read: a doubled
      quote stands for one quote, a single quote closes the field, and text
      that ends before the closing quote is malformed. */
  function ParseQuoted(s: string): (r: Option<Parsed<string>>)
    ensures r.Some? ==> |r.value.rest| < |s|
    decreases |s|
  {
    if s == [] then None
    else if s[0] == Quote then
      if |s| >= 2 && s[1] == Quote then
        match ParseQuoted(s[2..])
        case None => None
        case Some(p) => Some(Parsed([Quote] + p.value, p.rest))
      else Some(Parsed([], s[1..]))
    else
      match ParseQuoted(s[1..])
      case None => None
      case Some(p) => Some(Parsed([s[0]] + p.value, p.rest))
  }

  function ParseField(s: string): (r: Option<Parsed<string>>)
    ensures r.Some? ==> |r.value.rest| <= |s|
  {
    if |s| > 0 && s[0] == Quote then ParseQuoted(s[1..]) else Some(ParseBare(s))
  }

  /** Comma-separated fields, stopping at the first field not followed by a comma. */
  function ParseFields(s: string): (r: Option<Parsed<Record>>)
    ensures r.Some? ==> |r.value.rest| <= |s| && |r.value.value| > 0
    decreases |s|
  {
    match ParseField(s)
    case None => None
    case Some(f) =>
      if |f.rest| > 0 && f.rest[0] == Comma then
        match ParseFields(f.rest[1..])
        case None => None
        case Some(more) => Some(Parsed([f.value] + more.value, more.rest))
      else Some(Parsed([f.value], f.rest))
  }

  /** One record: an empty line is a record with no fields; otherwise fields
      that must end at CRLF or at the end of the text (the last record's line
      break is optional). */
  function ParseRecord(s: string): (r: Option<Parsed<Record>>)
    requires s != []
    ensures r.Some? ==> |r.value.rest| < |s|
  {
    if |s| >= 2 && s[..2] == CRLF then Some(Parsed([], s[2..]))
    else
      match ParseFields(s)
      case None => None
      case Some(p) =>
        if p.rest == [] then Some(p)
        else if |p.rest| >= 2 && p.rest[..2] == CRLF then Some(Parsed(p.value, p.rest[2..]))
        else None
  }

  /** The records of a CSV text, or None when the text is not well-formed.
      Every record takes up at least one character of the text. */
  function Parse(s: string): (r: Option<seq<Record>>)
    ensures r.Some? ==> (r.value == [] <==> s == [])
    ensures r.Some? ==> |r.value| <= |s|
    decreases |s|
  {
    if s == [] then Some([])
    else
      match ParseRecord(s)
      case None => None
      case Some(p) =>
        match Parse(p.rest)
        case None => None
        case Some(more) => Some([p.value] + more)
  }

  // ---------------------------------------------------------------- round trip

  /** What may follow an encoded field: the end of the text, a comma, or a line break. */
  predicate FieldBoundary(rest: string) {
    rest == [] || rest[0] == Comma || rest[0] == CR
  }

  lemma {:induction false} ParseBareOfPlain(f: string, rest: string)
    requires !NeedsQuoting(f)
    requires rest == [] || IsSpecial(rest[0])
    ensures ParseBare(f + rest) == Parsed(f, rest)
    decreases |f|
  {
    if f == [] {
      assert f + rest == rest;
    } else {
      assert !IsSpecial(f[0]);
      assert !NeedsQuoting(f[1..]) by {
        forall i | 0 <= i < |f[1..]|
          ensures !IsSpecial(f[1..][i])
        {
          assert f[1..][i] == f[i + 1];
        }
      }
      assert (f + rest)[1..] == f[1..] + rest;
      ParseBareOfPlain(f[1..], rest);
      assert [f[0]] + f[1..] == f;
    }
  }

  lemma {:induction false} ParseQuotedOfEscaped(f: string, rest: string)
    requires rest == [] || rest[0] != Quote
    ensures ParseQuoted(Escape(f) + [Quote] + rest) == Some(Parsed(f, rest))
    decreases |f|
  {
    if f == [] {
      assert Escape(f) + [Quote] + rest == [Quote] + rest;
    } else {
      ParseQuotedOfEscaped(f[1..], rest);
      var tail := Escape(f[1..]) + [Quote] + rest;
      if f[0] == Quote {
        assert Escape(f) + [Quote] + rest == [Quote, Quote] + tail;
        assert ([Quote, Quote] + tail)[2..] == tail;
      } else {
        assert Escape(f) + [Quote] + rest == [f[0]] + tail;
        assert ([f[0]] + tail)[1..] == tail;
      }
      assert [f[0]] + f[1..] == f;
    }
  }

  lemma ParseFieldOfEncoded(f: string, rest: string)
    requires FieldBoundary(rest)
    ensures ParseField(EncodeField(f) + rest) == Some(Parsed(f, rest))
  {
    if NeedsQuoting(f) {
      var s := [Quote] + Escape(f) + [Quote] + rest;
      assert s == [Quote] + (Escape(f) + [Quote] + rest);
      ParseQuotedOfEscaped(f, rest);
    } else {
      ParseBareOfPlain(f, rest);
      if f != [] {
        assert (f + rest)[0] == f[0];
        assert !IsSpecial(f[0]);
      } else {
        assert f + rest == rest;
      }
    }
  }

  lemma {:induction false} ParseFieldsOfJoined(fields: Record, rest: string)
    requires |fields| > 0
    requires rest == [] || rest[0] == CR
    ensures ParseFields(JoinFields(fields) + rest) == Some(Parsed(fields, rest))
    decreases |fields|
  {
    if |fields| == 1 {
      ParseFieldOfEncoded(fields[0], rest);
      assert [fields[0]] == fields;
    } else {
      var tail := JoinFields(fields[1..]) + rest;
      assert JoinFields(fields) + rest == EncodeField(fields[0]) + ([Comma] + tail);
      ParseFieldOfEncoded(fields[0], [Comma] + tail);
      assert ([Comma] + tail)[1..] == tail;
      ParseFieldsOfJoined(fields[1..], rest);
      assert [fields[0]] + fields[1..] == fields;
    }
  }

  lemma ParseFieldsOfEncodedRecord(fields: Record, rest: string)
    requires |fields| > 0
    requires rest == [] || rest[0] == CR
    ensures ParseFields(EncodeRecord(fields) + rest) == Some(Parsed(fields, rest))
  {
    if fields == [""] {
      assert EncodeRecord(fields) + rest == [Quote] + ([] + [Quote] + rest);
      ParseQuotedOfEscaped("", rest);
    } else {
      ParseFieldsOfJoined(fields, rest);
    }
  }

  /** A non-empty record never encodes to text that starts a line break. */
  lemma EncodedRecordStart(fields: Record)
    requires |fields| > 0
    ensures |EncodeRecord(fields)| > 0 && EncodeRecord(fields)[0] != CR
  {
  }

  lemma ParseRecordOfEncoded(fields: Record, rest: string)
    ensures ParseRecord(EncodeRecord(fields) + CRLF + rest) == Some(Parsed(fields, rest))
  {
    var s := EncodeRecord(fields) + CRLF + rest;
    if fields == [] {
      assert s == CRLF + rest;
      assert s[..2] == CRLF && s[2..] == rest;
    } else {
      EncodedRecordStart(fields);
      assert s[0] == EncodeRecord(fields)[0];
      assert s == EncodeRecord(fields) + (CRLF + rest);
      ParseFieldsOfEncodedRecord(fields, CRLF + rest);
      assert (CRLF + rest)[..2] == CRLF && (CRLF + rest)[2..] == rest;
    }
  }

  /** Reading back what the writer produced yields exactly the records written. */
  lemma {:induction false} ParseOfEncode(records: seq<Record>)
    ensures Parse(Encode(records)) == Some(records)
    decreases |records|
  {
    if records != [] {
      ParseRecordOfEncoded(records[0], Encode(records[1..]));
      ParseOfEncode(records[1..]);
      assert [records[0]] + records[1..] == records;
    }
  }
}
