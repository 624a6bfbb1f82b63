/** Scalar cell values of a row, and their rendering as CSV field text. */
module Values {

  /** A scalar as it comes out of the store: text, an integer, or SQL NULL. */
  datatype Value = Text(text: string) | Integer(n: int) | Null

  /** A row record: column name to scalar. A column may be absent. */
  type Row = map<string, Value>

  predicate IsDigit(c: char) {
    '0' <= c <= '9'
  }

  predicate IsDecimal(s: string) {
    |s| > 0 && forall i :: 0 <= i < |s| ==> IsDigit(s[i])
  }

  function DigitChar(d: nat): (c: char)
    requires d < 10
    ensures IsDigit(c)
  {
    ('0' as int + d) as char
  }

  function DigitValue(c: char): (d: nat)
    requires IsDigit(c)
    ensures d < 10 && DigitChar(d) == c
  {
    (c as int - '0' as int) as nat
  }

  /** The decimal digits of n, most significant first, without leading zeros. */
  function NatToDecimal(n: nat): (s: string)
    ensures IsDecimal(s)
    ensures |s| > 1 ==> s[0] != '0'
    decreases n
  {
    if n < 10 then [DigitChar(n)] else NatToDecimal(n / 10) + [DigitChar(n % 10)]
  }

  /** Reads back a string of decimal digits. */
  function DecimalToNat(s: string): nat
    requires IsDecimal(s)
    decreases |s|
  {
    if |s| == 1 then DigitValue(s[0])
    else DecimalToNat(s[..|s| - 1]) * 10 + DigitValue(s[|s| - 1])
  }

  lemma {:induction false} DecimalRoundTrip(n: nat)
    ensures DecimalToNat(NatToDecimal(n)) == n
    decreases n
  {
    if n >= 10 {
      var s := NatToDecimal(n);
      assert s[..|s| - 1] == NatToDecimal(n / 10);
      DecimalRoundTrip(n / 10);
    }
  }

  /** An optional minus sign followed by at least one digit. */
  predicate IsIntText(s: string) {
    |s| > 0 && if s[0] == '-' then IsDecimal(s[1..]) else IsDecimal(s)
  }

  /** The digits of an integer text, after its sign. */
  function Magnitude(s: string): string
    requires IsIntText(s)
  {
    if s[0] == '-' then s[1..] else s
  }

  /** The one spelling str() gives an integer: no leading zeros and no "-0". */
  predicate IsCanonicalInt(s: string) {
    && IsIntText(s)
    && (|Magnitude(s)| > 1 ==> Magnitude(s)[0] != '0')
    && (s[0] == '-' ==> Magnitude(s) != "0")
  }

  /** An integer the way str() writes it: a minus sign exactly for negatives, then digits. */
  function IntToDecimal(i: int): (s: string)
    ensures IsCanonicalInt(s)
    ensures s[0] == '-' <==> i < 0
  {
    if i < 0 then
      var d := NatToDecimal(-i);
      DecimalRoundTrip(-i);
      assert ("-" + d)[1..] == d;
      "-" + d
    else NatToDecimal(i)
  }

  function DecimalToInt(s: string): int
    requires IsIntText(s)
  {
    if s[0] == '-' then -(DecimalToNat(s[1..]) as int) else DecimalToNat(s)
  }

  lemma IntRoundTrip(i: int)
    ensures IsIntText(IntToDecimal(i)) && DecimalToInt(IntToDecimal(i)) == i
  {
    var s := IntToDecimal(i);
    if i < 0 {
      assert s[1..] == NatToDecimal(-i);
      DecimalRoundTrip(-i);
    } else {
      DecimalRoundTrip(i);
    }
  }

  /** The field text of a value: text as is, integers in decimal, NULL as the empty field. */
  function Render(v: Value): (s: string)
    ensures v.Text? ==> s == v.text
    ensures v.Null? ==> s == ""
    ensures v.Integer? ==> IsCanonicalInt(s) && DecimalToInt(s) == v.n
    ensures v.Integer? ==> (s[0] == '-' <==> v.n < 0)
  {
    match v
    case Text(t) => t
    case Integer(n) => IntRoundTrip(n); IntToDecimal(n)
    case Null => ""
  }
}
