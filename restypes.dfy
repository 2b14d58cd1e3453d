/**
 * The resource-type name table: `res_type_id_to_string` names a numeric
 * type, `res_type_string_to_id` turns a `--type` name back into "-N".
 */
module ResTypes {
  import opened Wres
  import opened CString
  import opened IntUtil

  /** A table with one entry per resource type. */
  type Table = s: seq<Option<string>> | |s| == TypeCount witness seq(TypeCount, _ => None)

  /** `res_types`: entry id-1 names resource type id. */
  const Names: Table := [
    Some("cursor"), Some("bitmap"), Some("icon"), Some("menu"), Some("dialog"), Some("string"),
    Some("fontdir"), Some("font"), Some("accelerator"), Some("rcdata"), Some("messagelist"),
    Some("group_cursor"), None, Some("group_icon"), None,
    Some("version"), Some("dlginclude"), None, Some("plugplay"), Some("vxd"),
    Some("anicursor"), Some("aniicon")]

  /** `RES_TYPE_COUNT`. */
  const TypeCount: nat := 22

  /** `res_type_ids`: the selector text for each named entry. */
  const Ids: Table := [
    Some("-1"), Some("-2"), Some("-3"), Some("-4"), Some("-5"), Some("-6"), Some("-7"), Some("-8"),
    Some("-9"), Some("-10"), Some("-11"), Some("-12"), None, Some("-14"), None, Some("-16"),
    Some("-17"), None, Some("-19"), Some("-20"), Some("-21"), Some("-22")]

  /** `res_type_id_to_string`. */
  function IdToString(id: int): (r: Option<string>)
    ensures r.Some? ==> id == 241 || 1 <= id <= TypeCount
  {
    if id == 241 then Some("toolbar")
    else if 0 < id <= TypeCount then Names[id - 1]
    else None
  }

  /** The C locale's `tolower`. */
  function Lower(c: char): char
  {
    if 'A' <= c <= 'Z' then (c as int + 32) as char else c
  }

  /** `strcasecmp(a, b) == 0` for the C strings `a` and `b`. */
  predicate SameIgnoringCase(a: string, b: string)
  {
    var s, t := Text(a), Text(b);
    |s| == |t| && forall i :: 0 <= i < |s| ==> Lower(s[i]) == Lower(t[i])
  }

  /** Table entry `k` is named and its name equals `t` ignoring case. */
  predicate NameMatches(t: string, k: nat)
    requires k < TypeCount
  {
    Names[k].Some? && SameIgnoringCase(t, Names[k].value)
  }

  /** Entry `k` is the first entry from `c` on that matches `t`. */
  predicate FirstMatchFrom(t: string, c: nat, k: nat)
    requires c <= k < TypeCount
  {
    NameMatches(t, k) && forall j :: c <= j < k ==> !NameMatches(t, j)
  }

  /** The loop of `res_type_string_to_id` from entry `c` on: nothing when no entry from `c` on matches. */
  function SearchFrom(t: string, c: nat): (r: Option<string>)
    requires c <= TypeCount
    ensures r.None? <==> forall k :: c <= k < TypeCount ==> !NameMatches(t, k)
    decreases TypeCount - c
  {
    if c == TypeCount then None
    else if NameMatches(t, c) then
      NamedId(c);
      Ids[c]
    else SearchFrom(t, c + 1)
  }

  /** A named entry has a selector. */
  lemma NamedId(k: nat)
    requires k < TypeCount && Names[k].Some?
    ensures Ids[k].Some?
  {
  }

  /** The loop stops at the first entry from `c` on that matches and yields its selector. */
  lemma {:induction false} SearchFromFirst(t: string, c: nat, k: nat)
    requires c <= k < TypeCount && FirstMatchFrom(t, c, k)
    ensures SearchFrom(t, c) == Ids[k]
    decreases k - c
  {
    if c < k {
      FirstMatchLater(t, c, k);
      SearchFromSkips(t, c);
      SearchFromFirst(t, c + 1, k);
    } else {
      SearchFromHits(t, c);
    }
  }

  /** An entry that does not match passes the search on to the next one. */
  lemma SearchFromSkips(t: string, c: nat)
    requires c < TypeCount && !NameMatches(t, c)
    ensures SearchFrom(t, c) == SearchFrom(t, c + 1)
  {
  }

  /** An entry that matches ends the search with its selector. */
  lemma SearchFromHits(t: string, c: nat)
    requires c < TypeCount && NameMatches(t, c)
    ensures SearchFrom(t, c) == Ids[c]
  {
  }

  /** A first match after `c` is also the first match after `c + 1`, and entry `c` does not match. */
  lemma FirstMatchLater(t: string, c: nat, k: nat)
    requires c < k < TypeCount && FirstMatchFrom(t, c, k)
    ensures !NameMatches(t, c) && FirstMatchFrom(t, c + 1, k)
  {
  }

  /** `SearchFromFirst` from the start of the table, for every first match. */
  lemma SearchFirst(t: string)
    ensures forall k :: 0 <= k < TypeCount && FirstMatchFrom(t, 0, k) ==> SearchFrom(t, 0) == Ids[k]
  {
    forall k | 0 <= k < TypeCount && FirstMatchFrom(t, 0, k)
      ensures SearchFrom(t, 0) == Ids[k]
    {
      SearchFromFirst(t, 0, k);
    }
  }

  /** `res_type_string_to_id`: NULL stays NULL, a known name becomes "-N", anything else comes back unchanged. */
  function StringToId(t: Option<string>): (r: Option<string>)
    ensures t.None? ==> r.None?
    ensures t.Some? && (forall k :: 0 <= k < TypeCount ==> !NameMatches(t.value, k)) ==> r == t
    ensures t.Some? ==> forall k :: 0 <= k < TypeCount && FirstMatchFrom(t.value, 0, k) ==> r == Ids[k]
  {
    if t.None? then None
    else
      SearchFirst(t.value);
      var found := SearchFrom(t.value, 0);
      if found.Some? then found else t
  }

  /** The decimal rendering of -n for the ids of the table: one digit below ten, a tens digit 1 or 2 above. */
  lemma SmallDecimal(n: int)
    requires 1 <= n <= TypeCount
    ensures n < 10 ==> Decimal(-n) == ['-', DigitChar(n)]
    ensures 10 <= n < 20 ==> Decimal(-n) == ['-', '1', DigitChar(n - 10)]
    ensures 20 <= n ==> Decimal(-n) == ['-', '2', DigitChar(n - 20)]
  {
    if 10 <= n < 20 {
      assert n / 10 == 1 && n % 10 == n - 10;
      assert Digits(n) == Digits(1) + [DigitChar(n - 10)];
    } else if 20 <= n {
      assert n / 10 == 2 && n % 10 == n - 20;
      assert Digits(n) == Digits(2) + [DigitChar(n - 20)];
    }
  }

  /** The named entries are those with a selector; the unnamed ids are 13, 15 and 18. */
  lemma NamedIds()
    ensures forall k :: 0 <= k < TypeCount ==> (Names[k].Some? <==> Ids[k].Some?)
    ensures forall k :: 0 <= k < TypeCount ==> (Names[k].None? <==> k + 1 in {13, 15, 18})
  {
  }

  /** Every selector in the table is "-" and the decimal of its id. */
  lemma IdIsDecimal(k: nat)
    requires k < TypeCount && Ids[k].Some?
    ensures Ids[k].value == Decimal(-(k + 1))
  {
    SmallDecimal(k + 1);
    if k < 9 {
      assert Ids[k].value == ['-', DigitChar(k + 1)];
    } else if k < 19 {
      assert Ids[k].value == ['-', '1', DigitChar(k - 9)];
    } else {
      assert Ids[k].value == ['-', '2', DigitChar(k - 19)];
    }
  }

  /** Length and first letter of each table name. */
  function Key(k: nat): (int, char)
    requires k < TypeCount && Names[k].Some?
  {
    (|Names[k].value|, Names[k].value[0])
  }

  /** No two table names share length and first letter. */
  lemma KeysDistinct()
    ensures forall k, j :: 0 <= k < TypeCount && 0 <= j < TypeCount && Names[k].Some? && Names[j].Some? && k != j ==> Key(k) != Key(j)
  {
  }

  /** The table names are NUL-free and start with a lower-case letter. */
  lemma NamesPlain(k: nat)
    requires k < TypeCount && Names[k].Some?
    ensures NUL !in Names[k].value && |Names[k].value| > 0
    ensures Lower(Names[k].value[0]) == Names[k].value[0]
  {
  }

  /** A name that matches entry k has its length and its first letter, up to case. */
  lemma MatchHasKey(t: string, k: nat)
    requires k < TypeCount && NameMatches(t, k)
    ensures |Text(t)| == Key(k).0 && Lower(Text(t)[0]) == Key(k).1
  {
    NamesPlain(k);
    TextOfPlain(Names[k].value);
  }

  /** The names of the table match only themselves. */
  lemma NamesDistinct(k: nat, j: nat)
    requires k < TypeCount && j < TypeCount && Names[k].Some?
    requires NameMatches(Names[k].value, j)
    ensures j == k
  {
    NamesPlain(k);
    TextOfPlain(Names[k].value);
    MatchHasKey(Names[k].value, j);
    assert Key(j) == Key(k);
    KeysDistinct();
  }

  /** The name table maps 241 to "toolbar", ids 1..22 to their entries and everything else to NULL. */
  lemma IdToStringTable(id: int)
    ensures id == 241 ==> IdToString(id) == Some("toolbar")
    ensures 1 <= id <= 22 ==> IdToString(id) == Names[id - 1]
    ensures id in {13, 15, 18} ==> IdToString(id) == None
    ensures (id <= 0 || 23 <= id <= 240 || id > 241) ==> IdToString(id) == None
  {
  }

  /** Naming a type and translating the name back yields "-" and its decimal id. */
  lemma NameRoundTrip(id: int)
    requires 1 <= id <= TypeCount && IdToString(id).Some?
    ensures StringToId(IdToString(id)) == Some(Decimal(-id))
  {
    NamedIds();
    IdIsDecimal(id - 1);
    var name := IdToString(id).value;
    NamesPlain(id - 1);
    TextOfPlain(name);
    assert NameMatches(name, id - 1);
    forall j | 0 <= j < id - 1
      ensures !NameMatches(name, j)
    {
      if NameMatches(name, j) {
        NamesDistinct(id - 1, j);
      }
    }
  }

  /** "toolbar" is not a table entry, so it comes back unchanged. */
  lemma ToolbarNotTranslated()
    ensures StringToId(Some("toolbar")) == Some("toolbar")
  {
    TextAt("toolbar", 7);
    assert forall k :: 0 <= k < TypeCount && Names[k].Some? ==> Key(k) != (7, 't');
    forall k | 0 <= k < TypeCount
      ensures !NameMatches("toolbar", k)
    {
      if NameMatches("toolbar", k) {
        MatchHasKey("toolbar", k);
      }
    }
  }
}
