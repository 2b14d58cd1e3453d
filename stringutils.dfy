/**
 * The string helpers of the common library: suffix and prefix tests,
 * in-place edits of NUL-terminated buffers, substrings, the directory part
 * of a path, decimal digit counts and whitespace-separated words.
 *
 * A C string that is only read is a `string` holding no NUL.  A buffer
 * edited in place is an `array<char>` holding a NUL somewhere; its text is
 * `Text(buf[..])`.
 */
module StringUtils {
  import opened CString
  import opened Wres
  import opened IntUtil

  /** The buffer holds a NUL, so it holds a C string. */
  predicate Terminated(buf: array<char>)
    reads buf
  {
    NUL in buf[..]
  }

  /** `strlen`: the position of the first NUL. */
  method Strlen(buf: array<char>) returns (len: nat)
    requires Terminated(buf)
    ensures len < buf.Length && buf[len] == NUL && len == |Text(buf[..])|
  {
    len := 0;
    while buf[len] != NUL
      invariant len < buf.Length && NUL in buf[len..]
      invariant forall j :: 0 <= j < len ==> buf[j] != NUL
      decreases buf.Length - len
    {
      assert buf[len..] == [buf[len]] + buf[len + 1..];
      len := len + 1;
    }
    TextAt(buf[..], len);
  }

  // ---------------------------------------------------------------- chomp

  /** The text with one trailing newline removed. */
  function Chomped(t: string): string
  {
    if |t| > 0 && t[|t| - 1] == '\n' then t[..|t| - 1] else t
  }

  /** `chomp`: a NUL over the last character when it is a newline. */
  method Chomp(buf: array<char>)
    requires Terminated(buf)
    modifies buf
    ensures var t := Text(old(buf[..]));
      buf[..] == if |t| > 0 && t[|t| - 1] == '\n' then old(buf[..])[|t| - 1 := NUL] else old(buf[..])
    ensures Text(buf[..]) == Chomped(Text(old(buf[..])))
  {
    var len := Strlen(buf);
    if len > 0 && buf[len - 1] == '\n' {
      buf[len - 1] := NUL;
      TextAt(buf[..], len - 1);
    }
  }

  /** Chomping undoes appending one newline, and leaves a text without a final newline alone. */
  lemma ChompInverse(t: string)
    ensures Chomped(t + "\n") == t
    ensures (|t| == 0 || t[|t| - 1] != '\n') ==> Chomped(t) == t
  {
  }

  // ---------------------------------------------------------------- translate_char

  /** How many times `ch` occurs in `t`. */
  function Occurrences(t: string, ch: char): (n: nat)
    ensures n <= |t|
    ensures n == 0 <==> ch !in t
  {
    if t == [] then 0
    else Occurrences(t[..|t| - 1], ch) + (if t[|t| - 1] == ch then 1 else 0)
  }

  /** `t` with every `from` replaced by `to`. */
  function Translated(t: string, from: char, to: char): (r: string)
    ensures |r| == |t|
  {
    seq(|t|, i requires 0 <= i < |t| => if t[i] == from then to else t[i])
  }

  /** `translate_char`: every `from` of the text becomes `to`; the number of replacements is returned. */
  method TranslateChar(buf: array<char>, from: char, to: char) returns (changes: nat)
    requires Terminated(buf)
    modifies buf
    ensures var t := Text(old(buf[..]));
      buf[..] == Translated(t, from, to) + old(buf[..])[|t|..] && changes == Occurrences(t, from)
  {
    TextEnds(buf[..]);
    ghost var t := Text(buf[..]);
    assert t == buf[..][..|t|];
    changes := TranslateRun(buf, from, to, |t|);
  }

  /** The loop of `translate_char` over a text of length `len` ended by a NUL. */
  method TranslateRun(buf: array<char>, from: char, to: char, ghost len: nat) returns (changes: nat)
    requires len < buf.Length && buf[len] == NUL && forall j :: 0 <= j < len ==> buf[j] != NUL
    modifies buf
    ensures buf[..] == Translated(old(buf[..])[..len], from, to) + old(buf[..])[len..]
    ensures changes == Occurrences(old(buf[..])[..len], from)
  {
    ghost var s := buf[..];
    changes := 0;
    var c := 0;
    while buf[c] != NUL
      invariant c <= len
      invariant forall j :: 0 <= j < c ==> buf[j] == if s[j] == from then to else s[j]
      invariant forall j :: c <= j < buf.Length ==> buf[j] == s[j]
      invariant changes == Occurrences(s[..c], from)
      decreases len - c
    {
      OccurrencesStep(s, c, from);
      if buf[c] == from {
        buf[c] := to;
        changes := changes + 1;
      }
      c := c + 1;
    }
    TranslatedJoin(s, buf[..], c, from, to);
  }

  /** Counting over one more character. */
  lemma OccurrencesStep(s: string, c: nat, ch: char)
    requires c < |s|
    ensures Occurrences(s[..c + 1], ch) == Occurrences(s[..c], ch) + if s[c] == ch then 1 else 0
  {
    assert s[..c + 1][..c] == s[..c];
  }

  /** A buffer translated pointwise up to `c` and untouched after it. */
  lemma TranslatedJoin(s: string, b: string, c: nat, from: char, to: char)
    requires c <= |s| == |b|
    requires forall j :: 0 <= j < c ==> b[j] == if s[j] == from then to else s[j]
    requires forall j :: c <= j < |b| ==> b[j] == s[j]
    ensures b == Translated(s[..c], from, to) + s[c..]
  {
  }

  /** After replacing `from` by a different `to`, no `from` is left, and every replaced one is now a `to`. */
  lemma {:induction false} TranslatedCounts(t: string, from: char, to: char)
    requires from != to
    ensures Occurrences(Translated(t, from, to), from) == 0
    ensures Occurrences(Translated(t, from, to), to) == Occurrences(t, to) + Occurrences(t, from)
  {
    if t != [] {
      var p := t[..|t| - 1];
      TranslatedCounts(p, from, to);
      assert Translated(t, from, to)[..|t| - 1] == Translated(p, from, to);
    }
  }

  // ---------------------------------------------------------------- stripping

  /** The length of the longest prefix of `t` made of characters of `chars`. */
  function LeadingRun(t: string, chars: string): (k: nat)
    ensures k <= |t| && (forall i :: 0 <= i < k ==> t[i] in chars) && (k < |t| ==> t[k] !in chars)
  {
    if t == [] || t[0] !in chars then 0 else 1 + LeadingRun(t[1..], chars)
  }

  /** The length of the longest suffix of `t` made of characters of `chars`. */
  function TrailingRun(t: string, chars: string): (k: nat)
    ensures k <= |t| && (forall i :: |t| - k <= i < |t| ==> t[i] in chars) && (k < |t| ==> t[|t| - k - 1] !in chars)
  {
    if t == [] || t[|t| - 1] !in chars then 0 else 1 + TrailingRun(t[..|t| - 1], chars)
  }

  /** The scan of `string_strip_leading`: how many leading characters of the text are in `chars`. */
  method LeadingCount(buf: array<char>, chars: string) returns (a: nat)
    requires Terminated(buf)
    ensures a == LeadingRun(Text(buf[..]), chars) && a <= |Text(buf[..])| < buf.Length
  {
    var len := Strlen(buf);
    ghost var t := Text(buf[..]);
    a := 0;
    while buf[a] != NUL && buf[a] in chars
      invariant a <= len && forall j :: 0 <= j < a ==> t[j] in chars
      decreases len - a
    {
      a := a + 1;
    }
    ghost var k := LeadingRun(t, chars);
    assert a == k;
  }

  /** The copy of `string_strip_leading`: the text from `k` on, its NUL included, moves to the front. */
  method ShiftDown(buf: array<char>, k: nat)
    requires Terminated(buf) && k <= |Text(buf[..])|
    modifies buf
    ensures var t := Text(old(buf[..]));
      buf[..] == t[k..] + [NUL] + old(buf[..])[|t| - k + 1..]
  {
    TextEnds(buf[..]);
    MoveDown(buf, k, |Text(buf[..])|);
  }

  /** The loop of the copy: characters from `k` move down to 0 until the NUL at `len`, which moves too. */
  method MoveDown(buf: array<char>, k: nat, ghost len: nat)
    requires k <= len < buf.Length && buf[len] == NUL && forall j :: 0 <= j < len ==> buf[j] != NUL
    modifies buf
    ensures buf[..] == old(buf[..])[..len][k..] + [NUL] + old(buf[..])[len - k + 1..]
  {
    ghost var s := buf[..];
    var a, b := k, 0;
    while buf[a] != NUL
      invariant k <= a <= len && b == a - k
      invariant forall j :: 0 <= j < b ==> buf[j] == s[j + k]
      invariant forall j :: b <= j < buf.Length ==> buf[j] == s[j]
      decreases len - a
    {
      buf[b] := buf[a];
      b, a := b + 1, a + 1;
    }
    buf[b] := buf[a];
    ShiftedJoin(s, buf[..], len, k);
  }

  /** A buffer whose first `len - k` characters came from `k` places further on, followed by the NUL. */
  lemma ShiftedJoin(s: string, b: string, len: nat, k: nat)
    requires k <= len < |s| == |b| && s[len] == NUL
    requires forall j :: 0 <= j < len - k ==> b[j] == s[j + k]
    requires b[len - k] == NUL
    requires forall j :: len - k < j < |b| ==> b[j] == s[j]
    ensures b == s[..len][k..] + [NUL] + s[len - k + 1..]
  {
  }

  /**
   * `string_strip_leading`: the leading characters found in `stripchars`
   * are dropped by moving the rest of the text, its NUL included, to the
   * front; the count dropped is returned.
   */
  method StripLeading(buf: array<char>, stripchars: string) returns (removed: nat)
    requires Terminated(buf)
    modifies buf
    ensures var t := Text(old(buf[..]));
      var k := LeadingRun(t, Text(stripchars));
      removed == k && buf[..] == t[k..] + [NUL] + old(buf[..])[|t| - k + 1..]
    ensures Text(buf[..]) == Text(old(buf[..]))[LeadingRun(Text(old(buf[..])), Text(stripchars))..]
  {
    ghost var t := Text(buf[..]);
    removed := LeadingCount(buf, Text(stripchars));
    ShiftDown(buf, removed);
    TextAt(buf[..], |t| - removed);
  }

  /** `string_strip_leading_c`: the same with the single character `stripchar`. */
  method StripLeadingChar(buf: array<char>, stripchar: char) returns (removed: nat)
    requires Terminated(buf)
    modifies buf
    ensures var t := Text(old(buf[..]));
      var k := LeadingRun(t, Text([stripchar]));
      removed == k && buf[..] == t[k..] + [NUL] + old(buf[..])[|t| - k + 1..]
  {
    removed := StripLeading(buf, [stripchar]);
  }

  /** The scan of `string_strip_trailing`: how many trailing characters of the text are in `chars`. */
  method TrailingCount(buf: array<char>, chars: string) returns (k: nat)
    requires Terminated(buf)
    ensures k == TrailingRun(Text(buf[..]), chars) && k <= |Text(buf[..])| < buf.Length
  {
    var len := Strlen(buf);
    ghost var t := Text(buf[..]);
    var a := len as int - 1;
    while a >= 0 && buf[a] in chars
      invariant -1 <= a < len && forall j :: a < j < len ==> t[j] in chars
      decreases a
    {
      a := a - 1;
    }
    k := len - 1 - a;
    ghost var run := TrailingRun(t, chars);
    assert k == run;
  }

  /**
   * `string_strip_trailing`: a NUL is written after the last character not
   * found in `stripchars`; the count dropped is returned.
   */
  method StripTrailing(buf: array<char>, stripchars: string) returns (removed: nat)
    requires Terminated(buf)
    modifies buf
    ensures var t := Text(old(buf[..]));
      var k := TrailingRun(t, Text(stripchars));
      removed == k && buf[..] == old(buf[..])[|t| - k := NUL]
    ensures Text(buf[..]) == Text(old(buf[..]))[..|Text(old(buf[..]))| - TrailingRun(Text(old(buf[..])), Text(stripchars))]
  {
    ghost var s := buf[..];
    var len := Strlen(buf);
    removed := TrailingCount(buf, Text(stripchars));
    buf[len - removed] := NUL;
    TextAt(buf[..], len - removed);
    assert buf[..len - removed] == s[..len - removed];
  }

  /** Stripping twice strips nothing more: what is left starts and ends outside the stripped set. */
  lemma StripIdempotent(t: string, chars: string)
    ensures LeadingRun(t[LeadingRun(t, chars)..], chars) == 0
    ensures TrailingRun(t[..|t| - TrailingRun(t, chars)], chars) == 0
  {
  }

  // ---------------------------------------------------------------- prefix and suffix

  /** `ends_with`: the last characters of `str` are `end`. */
  method EndsWith(str: string, end: string) returns (r: bool)
    requires NUL !in str && NUL !in end
    ensures r <==> |end| <= |str| && str[|str| - |end|..] == end
  {
    var diff := |str| - |end|;
    if diff < 0 {
      return false;
    }
    var c := 0;
    while c < |end|
      invariant c <= |end| && str[diff..diff + c] == end[..c]
    {
      if end[c] != str[c + diff] {
        assert str[|str| - |end|..][c] != end[c];
        return false;
      }
      assert str[diff..diff + c + 1] == str[diff..diff + c] + [str[diff + c]];
      c := c + 1;
    }
    assert str[diff..] == str[diff..diff + c];
    return true;
  }

  /** The character at `i` of a C string, the NUL at its end included. */
  function CharAt(s: string, i: nat): char
    requires i <= |s|
  {
    if i < |s| then s[i] else NUL
  }

  /** `starts_with`: the first characters of `str` are `start`. */
  method StartsWith(str: string, start: string) returns (r: bool)
    requires NUL !in str && NUL !in start
    ensures r <==> |start| <= |str| && str[..|start|] == start
  {
    var c := 0;
    while c < |str|
      invariant c <= |str| && c <= |start| && str[..c] == start[..c]
    {
      if str[c] != CharAt(start, c) {
        break;
      }
      assert str[..c + 1] == start[..c + 1];
      c := c + 1;
    }
    r := CharAt(start, c) == NUL;
    if !r && |start| <= |str| {
      assert str[..|start|][c] == str[c] != start[c];
    }
  }

  /** Both tests see the string itself, and the empty string, at either end. */
  lemma AffixesOfItself(str: string)
    ensures |str| <= |str| && str[..|str|] == str && str[|str| - |str|..] == str
    ensures str[..0] == [] && str[|str|..] == []
  {
  }

  // ---------------------------------------------------------------- substring and xdirname

  /**
   * `substring`: a negative position counts from the end; `strndup` then
   * copies at most `end - start` characters, and a negative count, read
   * as a 64-bit `size_t`, means the rest of the string.  A start outside
   * the string is undefined behaviour in C and gives `None`.
   */
  function Substring(buf: string, start: int, end: int): (r: Option<string>)
    ensures var s := if start < 0 then start + |buf| else start;
      r.Some? <==> 0 <= s <= |buf|
    ensures r.Some? ==> |r.value| <= |buf|
  {
    var len := |buf|;
    var s := if start < 0 then start + len else start;
    var e := if end < 0 then end + len else end;
    if s < 0 || s > len then None
    else
      var n := e - s;
      Some(buf[s..if n < 0 || s + n > len then len else s + n])
  }

  /** Within the string, the substring is the slice; and a negative start takes that many characters from the end. */
  lemma SubstringSlice(buf: string, start: int, end: int)
    requires 0 <= start <= end <= |buf|
    ensures Substring(buf, start, end) == Some(buf[start..end])
    ensures 0 < end ==> Substring(buf, -end, |buf|) == Some(buf[|buf| - end..])
  {
    assert buf[|buf| - end..|buf|] == buf[|buf| - end..];
  }

  /** The position of the last `ch` in `s`, or -1. */
  function LastIndexOf(s: string, ch: char): (r: int)
    ensures -1 <= r < |s|
    ensures r >= 0 ==> s[r] == ch && forall j :: r < j < |s| ==> s[j] != ch
    ensures r == -1 <==> ch !in s
  {
    if s == [] then -1
    else if s[|s| - 1] == ch then |s| - 1
    else LastIndexOf(s[..|s| - 1], ch)
  }

  /** `xdirname`: "." without a '/', "/" when the only '/' that counts is the first character, else what precedes the last '/'. */
  function XDirname(path: string): string
  {
    var pos := LastIndexOf(path, '/');
    if pos == -1 then "."
    else if pos == 0 then "/"
    else Substring(path, 0, pos).value
  }

  /** The directory part of `dir/name` is `dir`, of a bare name ".", and of `/name` "/". */
  lemma DirnameOfJoin(dir: string, name: string)
    requires |dir| > 0 && '/' !in name
    ensures XDirname(dir + "/" + name) == dir
    ensures XDirname(name) == "."
    ensures XDirname("/" + name) == "/"
  {
    var path := dir + "/" + name;
    assert path[|dir|] == '/';
    assert forall j :: |dir| < j < |path| ==> path[j] == name[j - |dir| - 1];
    assert LastIndexOf(path, '/') == |dir|;
    assert path[..|dir|] == dir;
    var root := "/" + name;
    assert forall j :: 0 < j < |root| ==> root[j] == name[j - 1];
  }

  // ---------------------------------------------------------------- uintlen

  function Pow10(k: nat): (p: nat)
    ensures p >= 1
  {
    if k == 0 then 1 else 10 * Pow10(k - 1)
  }

  /** `uintlen`: the number of decimal digits of a 64-bit value. */
  method UintLen(value: nat) returns (len: nat)
    requires value <= UInt64Max
    ensures len == |Digits(value)|
  {
    len := 1;
    var v := value;
    while v >= 10
      invariant len >= 1 && len - 1 + |Digits(v)| == |Digits(value)|
    {
      v := v / 10;
      len := len + 1;
    }
  }

  /** `n` has `k` digits exactly when it is below 10^k and, past one digit, at least 10^(k-1). */
  lemma {:induction false} DigitsBounds(n: nat)
    ensures n < Pow10(|Digits(n)|)
    ensures n >= 10 ==> Pow10(|Digits(n)| - 1) <= n
  {
    if n >= 10 {
      DigitsBounds(n / 10);
      assert |Digits(n)| == |Digits(n / 10)| + 1;
      var k := |Digits(n / 10)|;
      assert Pow10(k + 1) == 10 * Pow10(k);
      if n / 10 >= 10 {
        assert Pow10(k) == 10 * Pow10(k - 1);
      }
    }
  }

  // ---------------------------------------------------------------- words

  /** `isspace` in the C locale. */
  predicate IsSpace(ch: char)
  {
    ch == ' ' || ch == '\t' || ch == '\n' || ch == '\U{0B}' || ch == '\U{0C}' || ch == '\r'
  }

  /** The maximal runs of non-space characters of `s`, from left to right. */
  function Words(s: string): (w: seq<string>)
    ensures s != [] && !IsSpace(s[|s| - 1]) ==> |w| > 0
  {
    if s == [] then []
    else
      var p, ch := s[..|s| - 1], s[|s| - 1];
      var w := Words(p);
      if IsSpace(ch) then w
      else if p == [] || IsSpace(p[|p| - 1]) then w + [[ch]]
      else w[..|w| - 1] + [w[|w| - 1] + [ch]]
  }

  /** The text ends inside a word. */
  predicate InWord(p: string)
  {
    p != [] && !IsSpace(p[|p| - 1])
  }

  /** The words of `p` that a space already closed. */
  function Completed(p: string): nat
  {
    |Words(p)| - (if InWord(p) then 1 else 0)
  }

  /** Every word is non-empty and holds no space. */
  lemma {:induction false} WordsClean(s: string)
    ensures forall k :: 0 <= k < |Words(s)| ==> |Words(s)[k]| > 0 && forall i :: 0 <= i < |Words(s)[k]| ==> !IsSpace(Words(s)[k][i])
  {
    if s != [] {
      WordsClean(s[..|s| - 1]);
    }
  }

  /** The words of `s[..c + 1]` from those of `s[..c]`: a space changes nothing, a letter opens or extends a word. */
  lemma WordsStep(s: string, c: nat)
    requires c < |s|
    ensures var w, w1 := Words(s[..c]), Words(s[..c + 1]);
      (IsSpace(s[c]) ==> w1 == w) &&
      (!IsSpace(s[c]) && !InWord(s[..c]) ==> w1 == w + [[s[c]]]) &&
      (!IsSpace(s[c]) && InWord(s[..c]) ==> |w| > 0 && w1 == w[..|w| - 1] + [w[|w| - 1] + [s[c]]])
    ensures InWord(s[..c + 1]) <==> !IsSpace(s[c])
  {
    assert s[..c + 1][..c] == s[..c];
  }

  /** One more character keeps the closed words and closes no fewer. */
  lemma WordsExtend(s: string, c: nat)
    requires c < |s|
    ensures Completed(s[..c]) <= Completed(s[..c + 1])
    ensures forall k :: 0 <= k < Completed(s[..c]) ==> Words(s[..c + 1])[k] == Words(s[..c])[k]
  {
    assert s[..c + 1][..c] == s[..c];
  }

  /** The closed words of a prefix are words of the whole string. */
  lemma {:induction false} WordsStable(s: string, c: nat)
    requires c <= |s|
    ensures Completed(s[..c]) <= |Words(s)|
    ensures forall k :: 0 <= k < Completed(s[..c]) ==> Words(s)[k] == Words(s[..c])[k]
    decreases |s| - c
  {
    if c == |s| {
      assert s[..c] == s;
    } else {
      WordsExtend(s, c);
      WordsStable(s, c + 1);
    }
  }

  /** `word_get_index`: the number of words closed before position `pos`. */
  method WordGetIndex(str: string, pos: int) returns (words: nat)
    requires NUL !in str
    ensures words == Completed(str[..if pos < 0 then 0 else if pos > |str| then |str| else pos])
  {
    var inWord := false;
    words := 0;
    var c := 0;
    while c < |str| && c < pos
      invariant c <= |str| && (c > 0 ==> c <= pos)
      invariant inWord <==> InWord(str[..c])
      invariant words == Completed(str[..c])
    {
      WordsStep(str, c);
      if !inWord && !IsSpace(str[c]) {
        inWord := true;
      }
      if inWord && IsSpace(str[c]) {
        inWord := false;
        words := words + 1;
      }
      c := c + 1;
    }
    assert c == if pos < 0 then 0 else if pos > |str| then |str| else pos;
  }

  /** A letter after a space or at the start opens a word of its own. */
  lemma WordOpens(str: string, c: nat)
    requires c < |str| && !IsSpace(str[c]) && !InWord(str[..c])
    ensures var w, w1 := Words(str[..c]), Words(str[..c + 1]);
      |w1| == |w| + 1 && w1[|w1| - 1] == str[c..c + 1] && InWord(str[..c + 1]) &&
      Completed(str[..c + 1]) == Completed(str[..c])
  {
    WordsStep(str, c);
    assert str[c..c + 1] == [str[c]];
  }

  /** A letter inside a word extends that word. */
  lemma WordGrows(str: string, c: nat, start: nat)
    requires start < c < |str| && !IsSpace(str[c]) && InWord(str[..c])
    requires Words(str[..c])[|Words(str[..c])| - 1] == str[start..c]
    ensures var w, w1 := Words(str[..c]), Words(str[..c + 1]);
      |w1| == |w| && w1[|w1| - 1] == str[start..c + 1] && InWord(str[..c + 1]) &&
      Completed(str[..c + 1]) == Completed(str[..c])
  {
    var w := Words(str[..c]);
    WordsStep(str, c);
    LastReplaced(w, w[|w| - 1] + [str[c]]);
    SliceGrows(str, start, c);
  }

  /** A slice one longer is the slice and the next element. */
  lemma SliceGrows<T>(s: seq<T>, lo: nat, hi: nat)
    requires lo <= hi < |s|
    ensures s[lo..hi + 1] == s[lo..hi] + [s[hi]]
  {
  }

  /** Replacing the last element keeps the length and puts the new one last. */
  lemma LastReplaced<T>(w: seq<T>, x: T)
    requires |w| > 0
    ensures var w1 := w[..|w| - 1] + [x]; |w1| == |w| && w1[|w1| - 1] == x
  {
  }

  /** A space keeps the words and closes the last one. */
  lemma SpaceKeepsWords(str: string, c: nat)
    requires c < |str| && IsSpace(str[c])
    ensures Words(str[..c + 1]) == Words(str[..c]) && !InWord(str[..c + 1])
    ensures Completed(str[..c + 1]) == |Words(str[..c])|
  {
    WordsStep(str, c);
  }

  /** The space at `c` closes the word from `start` on, and when no earlier word reaches `idx` that word is word `idx`. */
  lemma WordClosedAt(str: string, c: nat, start: nat, idx: nat)
    requires start < c < |str| && IsSpace(str[c]) && InWord(str[..c])
    requires Words(str[..c])[|Words(str[..c])| - 1] == str[start..c]
    requires Completed(str[..c]) <= idx < |Words(str[..c])|
    ensures idx < |Words(str)| && Words(str)[idx] == str[start..c]
  {
    SpaceClosesPrefix(str, c);
    PickLast(Words(str[..c]), Words(str), idx, str[start..c]);
  }

  /** The words before a space are the first words of the whole string. */
  lemma SpaceClosesPrefix(str: string, c: nat)
    requires c < |str| && IsSpace(str[c])
    ensures |Words(str[..c])| <= |Words(str)|
    ensures forall k :: 0 <= k < |Words(str[..c])| ==> Words(str)[k] == Words(str[..c])[k]
  {
    SpaceKeepsWords(str, c);
    WordsStable(str, c + 1);
  }

  /** A sequence that starts with `w` has at `|w| - 1` the last element of `w`. */
  lemma PickLast<T>(w: seq<T>, ws: seq<T>, idx: nat, x: T)
    requires |w| - 1 <= idx < |w| && w[|w| - 1] == x
    requires |w| <= |ws| && forall k :: 0 <= k < |w| ==> ws[k] == w[k]
    ensures idx < |ws| && ws[idx] == x
  {
  }

  /** `word_get`: the word at index `idx`, or `None` when there are not that many. */
  method WordGet(str: string, idx: int) returns (r: Option<string>)
    requires NUL !in str
    ensures idx >= 0 ==> r == if idx < |Words(str)| then Some(Words(str)[idx]) else None
  {
    var inWord := false;
    var words: nat := 0;
    var start := -1;
    var c := 0;
    while c < |str|
      invariant c <= |str| && words == |Words(str[..c])|
      invariant inWord <==> InWord(str[..c])
      invariant inWord ==> 0 <= start < c && Words(str[..c])[words - 1] == str[start..c]
      invariant idx >= 0 ==> Completed(str[..c]) <= idx
    {
      if !inWord && !IsSpace(str[c]) {
        WordOpens(str, c);
        words := words + 1;
        start := c;
        inWord := true;
      } else if inWord && !IsSpace(str[c]) {
        WordGrows(str, c, start);
      } else {
        SpaceKeepsWords(str, c);
      }
      if inWord && IsSpace(str[c]) {
        if words > idx {
          SubstringSlice(str, start, c);
          r := Substring(str, start, c);
          if idx >= 0 {
            WordClosedAt(str, c, start, idx);
          }
          return;
        }
        inWord := false;
      }
      c := c + 1;
    }
    assert str[..c] == str;
    if words - 1 == idx {
      return Substring(str, start, c);
    }
    return None;
  }
}
