/**
 * The strict decimal parsers `parse_int8/16/32/64` and `parse_uint8/16/32/64`,
 * and the decimal rendering that `int32_str` and `"%d"` produce.
 */
module IntUtil {
  import opened Bytes
  import opened CString
  import opened Wres

  const Int8Min: int := -0x80
  const Int8Max: int := 0x7F
  const Int16Min: int := -0x8000
  const Int16Max: int := 0x7FFF
  const Int32Min: int := -0x8000_0000
  const Int32Max: int := 0x7FFF_FFFF
  const Int64Min: int := -0x8000_0000_0000_0000
  const Int64Max: int := 0x7FFF_FFFF_FFFF_FFFF
  const UInt8Max: int := 0xFF
  const UInt16Max: int := 0xFFFF
  const UInt32Max: int := 0xFFFF_FFFF
  const UInt64Max: int := 0xFFFF_FFFF_FFFF_FFFF

  predicate IsDigit(ch: char) { '0' <= ch <= '9' }

  predicate AllDigits(s: string) { forall i :: 0 <= i < |s| ==> IsDigit(s[i]) }

  function DigitValue(ch: char): (d: nat)
    requires IsDigit(ch)
    ensures d <= 9
  {
    ch as int - '0' as int
  }

  function DigitChar(d: nat): (ch: char)
    requires d <= 9
    ensures IsDigit(ch) && DigitValue(ch) == d
  {
    ('0' as int + d) as char
  }

  /** The value of a string of decimal digits, read most significant first. */
  function DecimalValue(s: string): nat
    requires AllDigits(s)
    decreases |s|
  {
    if s == [] then 0 else 10 * DecimalValue(s[..|s| - 1]) + DigitValue(s[|s| - 1])
  }

  /** A prefix of a digit string never has a larger value than the whole. */
  lemma {:induction false} DecimalValuePrefix(s: string, k: nat)
    requires AllDigits(s) && k <= |s|
    ensures DecimalValue(s[..k]) <= DecimalValue(s)
    decreases |s|
  {
    if k < |s| {
      var p := s[..|s| - 1];
      assert p[..k] == s[..k];
      assert DecimalValue(s) == 10 * DecimalValue(p) + DigitValue(s[|s| - 1]);
      DecimalValuePrefix(p, k);
    } else {
      assert s[..k] == s;
    }
  }

  /**
   * What `parse_int*` accepts with bounds `lo..hi`: the text of `s` is an
   * optional '-' and then one or more digits, and the value lies in range.
   */
  function SignedValue(s: string, lo: int, hi: int): Option<int>
  {
    var t := Text(s);
    if |t| > 0 && t[0] == '-' then
      if |t| > 1 && AllDigits(t[1..]) && lo <= 0 - DecimalValue(t[1..]) then Some(0 - DecimalValue(t[1..])) else None
    else if |t| > 0 && AllDigits(t) && DecimalValue(t) <= hi then Some(DecimalValue(t))
    else None
  }

  /** What `parse_uint*` accepts: digits only (none at all reads as 0), value at most `hi`. */
  function UnsignedValue(s: string, hi: int): Option<int>
  {
    var t := Text(s);
    if AllDigits(t) && DecimalValue(t) <= hi then Some(DecimalValue(t)) else None
  }

  /** The overflow test of the negative branch, with C's truncating `/` and `%`. */
  lemma NegativeStepCheck(value: int, c: int, lo: int)
    requires lo < 0 && 0 <= c <= 9
    ensures (value < CDiv(lo, 10) || (value == CDiv(lo, 10) && c > -CMod(lo, 10))) <==> value * 10 - c < lo
  {
    var q, r := (-lo) / 10, (-lo) % 10;
    assert -lo == 10 * q + r;
    assert CDiv(lo, 10) == -q && CMod(lo, 10) == -r;
  }

  /** The overflow test of the positive branch. */
  lemma PositiveStepCheck(value: int, c: int, hi: int)
    requires hi > 0 && 0 <= c <= 9
    ensures (value > CDiv(hi, 10) || (value == CDiv(hi, 10) && c > CMod(hi, 10))) <==> value * 10 + c > hi
  {
    var q, r := hi / 10, hi % 10;
    assert hi == 10 * q + r;
    assert CDiv(hi, 10) == q && CMod(hi, 10) == r;
  }

  /** Text(s) is at least as long as a NUL-free prefix of s. */
  lemma TextCovers(s: string, k: nat)
    requires k <= |s|
    requires forall j :: 0 <= j < k ==> s[j] != NUL
    ensures k <= |Text(s)| && Text(s)[..k] == s[..k]
  {
  }

  /** A non-digit inside the text makes its tail from `start` not all digits. */
  lemma StopsAtNonDigit(t: string, start: nat, i: nat)
    requires start <= i < |t| && !IsDigit(t[i])
    ensures !AllDigits(t[start..])
  {
    assert t[start..][i - start] == t[i];
  }

  /** One more digit: the digits from `start` extend and their value grows by a decimal place. */
  lemma DigitStep(t: string, start: nat, i: nat)
    requires start <= i < |t| && AllDigits(t[start..i]) && IsDigit(t[i])
    ensures AllDigits(t[start..i + 1])
    ensures DecimalValue(t[start..i + 1]) == 10 * DecimalValue(t[start..i]) + DigitValue(t[i])
  {
    assert t[start..i + 1] == t[start..i] + [t[i]];
    DecimalValueAppend(t[start..i], t[i]);
  }

  /** A prefix of the digits whose value passes `hi` makes the whole value pass it, when all are digits. */
  lemma StopsAtOverflow(t: string, start: nat, i: nat, hi: int)
    requires start <= i < |t| && AllDigits(t[start..i + 1]) && DecimalValue(t[start..i + 1]) > hi
    ensures !(AllDigits(t[start..]) && DecimalValue(t[start..]) <= hi)
  {
    if AllDigits(t[start..]) {
      assert t[start..][..i + 1 - start] == t[start..i + 1];
      DecimalValuePrefix(t[start..], i + 1 - start);
    }
  }

  /**
   * The digit loop shared by the positive branch of `parse_int*` and by
   * `parse_uint*`: it accumulates `value*10 + c` from index `start` to the
   * NUL, failing on a non-digit or when the value would pass `hi`.
   */
  method AccumulateDigits(instr: string, start: nat, hi: int) returns (ok: bool, value: int)
    requires start <= |instr| && hi > 0
    requires forall j :: 0 <= j < start ==> instr[j] != NUL
    ensures var t := Text(instr);
      start <= |t| &&
      (ok <==> AllDigits(t[start..]) && DecimalValue(t[start..]) <= hi) &&
      (ok ==> value == DecimalValue(t[start..]))
  {
    ghost var t := Text(instr);
    TextCovers(instr, start);
    assert forall j :: 0 <= j < |t| ==> instr[j] == t[j];
    value := 0;
    var i := start;
    while i < |instr| && instr[i] != NUL
      invariant start <= i <= |t|
      invariant AllDigits(t[start..i])
      invariant value == DecimalValue(t[start..i]) <= hi
    {
      var c := instr[i] as int - '0' as int;
      if c < 0 || c > 9 {
        StopsAtNonDigit(t, start, i);
        return false, 0;
      }
      DigitStep(t, start, i);
      PositiveStepCheck(value, c, hi);
      if value > CDiv(hi, 10) || (value == CDiv(hi, 10) && c > CMod(hi, 10)) {
        StopsAtOverflow(t, start, i, hi);
        return false, 0;
      }
      value := value * 10 + c;
      i := i + 1;
    }
    assert t[start..i] == t[start..];
    return true, value;
  }

  /**
   * The digit loop of the negative branch of `parse_int*`: from index 1 to
   * the NUL it accumulates `value*10 - c`, failing on a non-digit or when
   * the value would pass below `lo`.
   */
  method AccumulateNegative(instr: string, lo: int) returns (ok: bool, value: int)
    requires 1 <= |instr| && instr[0] != NUL && lo < 0
    ensures var t := Text(instr);
      1 <= |t| &&
      (ok <==> AllDigits(t[1..]) && lo <= 0 - DecimalValue(t[1..])) &&
      (ok ==> value == 0 - DecimalValue(t[1..]))
  {
    ghost var t := Text(instr);
    TextCovers(instr, 1);
    assert forall j :: 0 <= j < |t| ==> instr[j] == t[j];
    value := 0;
    var i := 1;
    while i < |instr| && instr[i] != NUL
      invariant 1 <= i <= |t|
      invariant AllDigits(t[1..i])
      invariant value == 0 - DecimalValue(t[1..i]) && lo <= value
    {
      var c := instr[i] as int - '0' as int;
      if c < 0 || c > 9 {
        StopsAtNonDigit(t, 1, i);
        return false, 0;
      }
      DigitStep(t, 1, i);
      NegativeStepCheck(value, c, lo);
      if value < CDiv(lo, 10) || (value == CDiv(lo, 10) && c > -CMod(lo, 10)) {
        StopsAtOverflow(t, 1, i, -lo);
        return false, 0;
      }
      value := value * 10 - c;
      i := i + 1;
    }
    assert t[1..i] == t[1..];
    return true, value;
  }

  /** `parse_int*` with range `lo..hi`; `outint` is the caller's variable, returned unchanged on failure. */
  method ParseSigned(instr: string, lo: int, hi: int, outint: int) returns (ok: bool, result: int)
    requires lo < 0 < hi
    ensures ok <==> SignedValue(instr, lo, hi).Some?
    ensures ok ==> result == SignedValue(instr, lo, hi).value
    ensures !ok ==> result == outint
  {
    var t := Text(instr);
    if 0 < |instr| && instr[0] == '-' {
      if |instr| == 1 || instr[1] == NUL {
        TextAt(instr, 1);
        return false, outint;
      }
      TextCovers(instr, 2);
      var digitsOk, value := AccumulateNegative(instr, lo);
      if !digitsOk {
        return false, outint;
      }
      return true, value;
    } else {
      if |instr| == 0 || instr[0] == NUL {
        TextAt(instr, 0);
        return false, outint;
      }
      TextCovers(instr, 1);
      var digitsOk, value := AccumulateDigits(instr, 0, hi);
      assert t[0..] == t;
      if !digitsOk {
        return false, outint;
      }
      return true, value;
    }
  }

  /** `parse_uint*` with maximum `hi`. */
  method ParseUnsigned(instr: string, hi: int, outint: int) returns (ok: bool, result: int)
    requires hi > 0
    ensures ok <==> UnsignedValue(instr, hi).Some?
    ensures ok ==> result == UnsignedValue(instr, hi).value
    ensures !ok ==> result == outint
  {
    var digitsOk, value := AccumulateDigits(instr, 0, hi);
    assert Text(instr)[0..] == Text(instr);
    if !digitsOk {
      return false, outint;
    }
    return true, value;
  }

  method ParseInt8(instr: string, outint: int) returns (ok: bool, result: int)
    ensures ok <==> SignedValue(instr, Int8Min, Int8Max).Some?
    ensures ok ==> result == SignedValue(instr, Int8Min, Int8Max).value
    ensures !ok ==> result == outint
  {
    ok, result := ParseSigned(instr, Int8Min, Int8Max, outint);
  }

  method ParseInt16(instr: string, outint: int) returns (ok: bool, result: int)
    ensures ok <==> SignedValue(instr, Int16Min, Int16Max).Some?
    ensures ok ==> result == SignedValue(instr, Int16Min, Int16Max).value
    ensures !ok ==> result == outint
  {
    ok, result := ParseSigned(instr, Int16Min, Int16Max, outint);
  }

  method ParseInt32(instr: string, outint: int) returns (ok: bool, result: int)
    ensures ok <==> SignedValue(instr, Int32Min, Int32Max).Some?
    ensures ok ==> result == SignedValue(instr, Int32Min, Int32Max).value
    ensures !ok ==> result == outint
  {
    ok, result := ParseSigned(instr, Int32Min, Int32Max, outint);
  }

  method ParseInt64(instr: string, outint: int) returns (ok: bool, result: int)
    ensures ok <==> SignedValue(instr, Int64Min, Int64Max).Some?
    ensures ok ==> result == SignedValue(instr, Int64Min, Int64Max).value
    ensures !ok ==> result == outint
  {
    ok, result := ParseSigned(instr, Int64Min, Int64Max, outint);
  }

  method ParseUInt8(instr: string, outint: int) returns (ok: bool, result: int)
    ensures ok <==> UnsignedValue(instr, UInt8Max).Some?
    ensures ok ==> result == UnsignedValue(instr, UInt8Max).value
    ensures !ok ==> result == outint
  {
    ok, result := ParseUnsigned(instr, UInt8Max, outint);
  }

  method ParseUInt16(instr: string, outint: int) returns (ok: bool, result: int)
    ensures ok <==> UnsignedValue(instr, UInt16Max).Some?
    ensures ok ==> result == UnsignedValue(instr, UInt16Max).value
    ensures !ok ==> result == outint
  {
    ok, result := ParseUnsigned(instr, UInt16Max, outint);
  }

  method ParseUInt32(instr: string, outint: int) returns (ok: bool, result: int)
    ensures ok <==> UnsignedValue(instr, UInt32Max).Some?
    ensures ok ==> result == UnsignedValue(instr, UInt32Max).value
    ensures !ok ==> result == outint
  {
    ok, result := ParseUnsigned(instr, UInt32Max, outint);
  }

  method ParseUInt64(instr: string, outint: int) returns (ok: bool, result: int)
    ensures ok <==> UnsignedValue(instr, UInt64Max).Some?
    ensures ok ==> result == UnsignedValue(instr, UInt64Max).value
    ensures !ok ==> result == outint
  {
    ok, result := ParseUnsigned(instr, UInt64Max, outint);
  }

  /** The digits of `n` with no leading zero, "0" for zero. */
  function Digits(n: nat): (s: string)
    ensures |s| >= 1 && AllDigits(s) && DecimalValue(s) == n
    ensures s[0] == '0' ==> n == 0
  {
    if n < 10 then [DigitChar(n)]
    else
      var p := Digits(n / 10);
      var s := p + [DigitChar(n % 10)];
      assert s[..|s| - 1] == p;
      s
  }

  /** The `"%d"` rendering of `v`, as `int32_str` and `snprintf` produce it. */
  function Decimal(v: int): (s: string)
    ensures NUL !in s && |s| >= 1
    ensures v < 0 <==> s[0] == '-'
  {
    if v < 0 then "-" + Digits(-v) else Digits(v)
  }

  /** Parsing the decimal rendering of any in-range value gives that value back. */
  lemma ParseDecimal(v: int, lo: int, hi: int)
    requires lo <= v <= hi
    ensures SignedValue(Decimal(v), lo, hi) == Some(v)
  {
    var s := Decimal(v);
    TextOfPlain(s);
    if v < 0 {
      assert s[1..] == Digits(-v);
    }
  }

  /** The unsigned parsers read back the digits of any value up to their maximum. */
  lemma ParseDigits(n: nat, hi: int)
    requires n <= hi
    ensures UnsignedValue(Digits(n), hi) == Some(n)
  {
    TextOfPlain(Digits(n));
  }

  /** Appending a digit multiplies the value by ten and adds the digit. */
  lemma DecimalValueAppend(s: string, c: char)
    requires AllDigits(s) && IsDigit(c)
    ensures AllDigits(s + [c])
    ensures DecimalValue(s + [c]) == 10 * DecimalValue(s) + DigitValue(c)
  {
    assert (s + [c])[..|s|] == s;
  }

  lemma DecimalValueMaxText()
    ensures AllDigits("214748364") && DecimalValue("214748364") == 214748364
  {
    DecimalValueAppend("", '2');
    assert "" + ['2'] == "2";
    DecimalValueAppend("2", '1');
    assert "2" + ['1'] == "21";
    DecimalValueAppend("21", '4');
    assert "21" + ['4'] == "214";
    DecimalValueAppend("214", '7');
    assert "214" + ['7'] == "2147";
    DecimalValueAppend("2147", '4');
    assert "2147" + ['4'] == "21474";
    DecimalValueAppend("21474", '8');
    assert "21474" + ['8'] == "214748";
    DecimalValueAppend("214748", '3');
    assert "214748" + ['3'] == "2147483";
    DecimalValueAppend("2147483", '6');
    assert "2147483" + ['6'] == "21474836";
    DecimalValueAppend("21474836", '4');
    assert "21474836" + ['4'] == "214748364";
  }

  /** The int32 boundary texts: both extremes are accepted, one past the maximum is not. */
  lemma Int32Boundaries()
    ensures SignedValue("2147483647", Int32Min, Int32Max) == Some(Int32Max)
    ensures SignedValue("-2147483648", Int32Min, Int32Max) == Some(Int32Min)
    ensures SignedValue("2147483648", Int32Min, Int32Max) == None
  {
    DecimalValueMaxText();
    DecimalValueAppend("214748364", '7');
    assert "214748364" + ['7'] == "2147483647";
    DecimalValueAppend("214748364", '8');
    assert "214748364" + ['8'] == "2147483648";
    TextOfPlain("2147483647");
    TextOfPlain("-2147483648");
    TextOfPlain("2147483648");
    assert "-2147483648"[1..] == "2147483648";
  }

  /** "", "-", a '+' sign and a non-digit are rejected by every signed parser. */
  lemma SignedRejects(lo: int, hi: int)
    ensures SignedValue("", lo, hi) == None
    ensures SignedValue("-", lo, hi) == None
    ensures SignedValue("+1", lo, hi) == None
    ensures SignedValue("1a", lo, hi) == None
  {
    TextOfPlain("-");
    TextOfPlain("+1");
    TextOfPlain("1a");
    assert !IsDigit("+1"[0]);
    assert !IsDigit("1a"[1]);
  }

  /** The unsigned parsers reject '-' and read the empty string as 0. */
  lemma UnsignedSignAndEmpty(hi: int)
    requires hi >= 0
    ensures UnsignedValue("", hi) == Some(0)
    ensures UnsignedValue("-1", hi) == None
  {
    TextOfPlain("-1");
    assert !IsDigit("-1"[0]);
  }
}
