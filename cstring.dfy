/**
 * C strings: the text of a `char *` is everything before its first NUL.
 * A Dafny `string` here stands for the characters of a buffer, and `Text`
 * gives the C string those characters hold.
 */
module CString {

  const NUL: char := '\0'

  /** The characters before the first NUL (all of them when there is none). */
  function Text(s: string): (t: string)
    ensures |t| <= |s| && t == s[..|t|]
    ensures NUL !in t
    ensures |t| < |s| ==> s[|t|] == NUL
  {
    if s == [] then []
    else if s[0] == NUL then []
    else [s[0]] + Text(s[1..])
  }

  /** A string with no NUL is its own text. */
  lemma TextOfPlain(s: string)
    requires NUL !in s
    ensures Text(s) == s
  {
  }

  /** When the buffer holds a NUL, the text stops at the first one. */
  lemma TextEnds(s: string)
    requires NUL in s
    ensures |Text(s)| < |s| && s[|Text(s)|] == NUL
    ensures forall j :: 0 <= j < |Text(s)| ==> s[j] != NUL
  {
    var t := Text(s);
    assert forall j :: 0 <= j < |t| ==> s[j] == t[j];
  }

  /** When the first `i` characters hold no NUL and then the buffer ends or a NUL follows, the text is `s[..i]`. */
  lemma TextAt(s: string, i: nat)
    requires i <= |s|
    requires forall j :: 0 <= j < i ==> s[j] != NUL
    requires i == |s| || s[i] == NUL
    ensures Text(s) == s[..i]
  {
    assert NUL !in s[..i];
  }
}
