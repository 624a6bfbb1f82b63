/** The allow-list check on the table name taken from the export URL path. */
module TableName {

  /** ASCII letters, digits and the underscore. */
  predicate IsNameChar(c: char) {
    ('a' <= c <= 'z') || ('A' <= c <= 'Z') || ('0' <= c <= '9') || c == '_'
  }

  /** A non-empty name made only of allow-listed characters. */
  predicate IsValid(name: string) {
    |name| > 0 && forall i :: 0 <= i < |name| ==> IsNameChar(name[i])
  }

  /** The character-by-character scan that decides a name before any query is built. */
  method Validate(name: string) returns (ok: bool)
    ensures ok <==> IsValid(name)
    ensures ok ==> forall i :: 0 <= i < |name| ==> !IsSqlMetachar(name[i])
  {
    if |name| == 0 {
      return false;
    }
    var i := 0;
    while i < |name|
      invariant 0 <= i <= |name|
      invariant forall j :: 0 <= j < i ==> IsNameChar(name[j])
    {
      if !IsNameChar(name[i]) {
        return false;
      }
      i := i + 1;
    }
    return true;
  }

  /** Characters that let a name escape an interpolated identifier: SQLite's
      identifier and string quotes (' " ` [ ]), the statement separator, comment
      and operator punctuation, and the ASCII whitespace characters (space, tab,
      LF, VT, FF, CR). */
  predicate IsSqlMetachar(c: char) {
    c in "'\"`[];-/*().,= \t\n\U{000B}\U{000C}\r"
  }

  /** A name that passes validation carries no quote, separator, comment marker or space. */
  lemma ValidNameHasNoMetachar(name: string)
    requires IsValid(name)
    ensures forall i :: 0 <= i < |name| ==> !IsSqlMetachar(name[i])
  {
  }

  /** A name holding any metacharacter is rejected. */
  lemma MetacharRejected(name: string, i: nat)
    requires i < |name| && IsSqlMetachar(name[i])
    ensures !IsValid(name)
  {
  }
}
