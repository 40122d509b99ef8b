/** ASCII-only case folding, as used for every label comparison (src/nspsl.c:25-42). */
module Ascii {

  /** True iff `c` is an upper-case ASCII letter; neither the label separator nor the terminator is one. */
  predicate IsAlphaUpper(c: char): (r: bool)
    ensures r ==> c != '.' && c != '\0'
  {
    'A' <= c <= 'Z'
  }

  /** Lower-cases exactly the letters 'A'..'Z'; every other character is returned unchanged. */
  function ToLower(c: char): (r: char)
    ensures IsAlphaUpper(c) ==> 'a' <= r <= 'z' && r as int - 'a' as int == c as int - 'A' as int
    ensures !IsAlphaUpper(c) ==> r == c
    ensures !IsAlphaUpper(r)
  {
    if IsAlphaUpper(c) then (c as int + ('a' as int - 'A' as int)) as char else c
  }

  /** The code of each character after folding: what the decoded label is compared with. */
  function Fold(s: seq<char>): (r: seq<int>)
    ensures |r| == |s|
  {
    seq(|s|, i requires 0 <= i < |s| => ToLower(s[i]) as int)
  }

  /** The whole string lower-cased. */
  function Lower(s: seq<char>): (r: seq<char>)
    ensures |r| == |s|
  {
    seq(|s|, i requires 0 <= i < |s| => ToLower(s[i]))
  }

  /** Folding is blind to case: a lower-cased string folds to the same codes. */
  lemma FoldLower(s: seq<char>)
    ensures Fold(Lower(s)) == Fold(s)
  {
  }

  /** Lower-casing keeps the label separator and nothing else turns into it. */
  lemma ToLowerKeepsDot(c: char)
    ensures (ToLower(c) == '.') == (c == '.')
    ensures (ToLower(c) == '\0') == (c == '\0')
  {
  }
}
