/** Case-insensitive substring search, as the checks `"word" in detail.lower()` use it. */
module Substrings {

  /** ASCII lower-casing of one character; other characters are unchanged. */
  function LowerChar(c: char): char {
    if 'A' <= c <= 'Z' then (c as int - 'A' as int + 'a' as int) as char else c
  }

  function Lower(s: string): (t: string)
    ensures |t| == |s|
  {
    seq(|s|, i requires 0 <= i < |s| => LowerChar(s[i]))
  }

  /** `word` occurs in `text` starting at offset k. */
  predicate OccursAt(word: string, text: string, k: int) {
    0 <= k <= |text| - |word| && text[k..k + |word|] == word
  }

  /** `word` occurs in `text` at some offset. */
  predicate IsSubstring(word: string, text: string) {
    exists k :: 0 <= k <= |text| && OccursAt(word, text, k)
  }

  /** `word` occurs in the lower-cased `text`. */
  predicate Mentions(text: string, word: string) {
    IsSubstring(word, Lower(text))
  }

  lemma {:induction false} SubstringOfConcat(prefix: string, word: string, suffix: string)
    ensures IsSubstring(word, prefix + word + suffix)
  {
    var t := prefix + word + suffix;
    assert t[|prefix|..|prefix| + |word|] == word;
    assert OccursAt(word, t, |prefix|);
  }

  /** A text mentions a word when a piece of it lower-cases to that word. */
  lemma {:induction false} MentionsPiece(prefix: string, piece: string, suffix: string, word: string)
    requires Lower(piece) == word
    ensures Mentions(prefix + piece + suffix, word)
  {
    var t := prefix + piece + suffix;
    assert Lower(t) == Lower(prefix) + Lower(piece) + Lower(suffix);
    SubstringOfConcat(Lower(prefix), word, Lower(suffix));
  }
}
