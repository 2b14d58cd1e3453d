/**
 * The growable string buffer: a heap block `buf` of `capacity` characters
 * whose first `len` characters are the text, followed by a NUL whenever
 * the block is not empty.  Positions given by callers are 32-bit and may
 * be negative, counting from the end.
 */
module StrBufs {
  import opened Bytes
  import opened Wres

  const DefaultCapacity: nat := 16

  /** `mem` written `times` times in a row. */
  function Repeat(mem: string, times: nat): (r: string)
    ensures |r| == |mem| * times
  {
    if times == 0 then [] else Repeat(mem, times - 1) + mem
  }

  /** Character `r` of copy `k` of a repetition is character `r` of `mem`. */
  lemma {:induction false} RepeatAt(mem: string, times: nat, k: nat, r: nat)
    requires k < times && r < |mem|
    ensures |mem| * k + r < |Repeat(mem, times)| && Repeat(mem, times)[|mem| * k + r] == mem[r]
  {
    assert |mem| * times == |mem| * (times - 1) + |mem|;
    if k < times - 1 {
      assert |mem| * (k + 1) <= |mem| * (times - 1);
      RepeatAt(mem, times - 1, k, r);
    }
  }

  lemma MulStep(a: nat, t: nat)
    requires t > 0
    ensures a * t == a * (t - 1) + a
  {
  }

  /** One more copy at the front is one more copy at the back. */
  lemma {:induction false} RepeatFront(mem: string, times: nat)
    ensures mem + Repeat(mem, times) == Repeat(mem, times + 1)
  {
    if times > 0 {
      RepeatFront(mem, times - 1);
    }
  }

  /**
   * `normalize_strbuf_pos` as intended: a position past the end is the end,
   * a negative one counts back from the end (-1 is the end itself) and
   * stops at the start.
   */
  function NormalizePos(len: nat, pos: int): (r: nat)
    ensures r <= len
    ensures pos >= len ==> r == len
    ensures 0 <= pos < len ==> r == pos
    ensures pos < 0 ==> r == if pos + 1 + len >= 0 then pos + 1 + len else 0
  {
    if pos >= len then len
    else if pos >= 0 then pos
    else if pos + 1 + len >= 0 then pos + 1 + len
    else 0
  }

  /** Counting from the end reaches every position, and a position already in range is kept. */
  lemma NormalizeFromEnd(len: nat, p: nat)
    requires p <= len
    ensures NormalizePos(len, p - len - 1) == p
    ensures NormalizePos(len, p) == p
    ensures NormalizePos(len, -1) == len
  {
  }

  /**
   * `normalize_strbuf_pos` as written: `pos >= sb->len` compares the
   * signed 32-bit `pos` with the unsigned 32-bit `len`, so `pos` is first
   * converted to unsigned and a negative one becomes `pos + 2^32`.
   */
  function NormalizePosAsWritten(len: nat, pos: int): (r: int)
    requires len < TwoTo32 && -TwoTo31 <= pos < TwoTo31
    ensures len < TwoTo31 ==> 0 <= r <= len
  {
    if Wrap32(pos) >= len then Int32(len)
    else if pos >= 0 then pos
    else if pos + 1 + len >= 0 then pos + 1 + len
    else 0
  }

  /** As written, every negative position of a buffer shorter than 2^31 is taken as its end. */
  lemma NegativeIsEndAsWritten(len: nat, pos: int)
    requires len < TwoTo31 && -TwoTo31 <= pos < 0
    ensures NormalizePosAsWritten(len, pos) == len
  {
  }

  /** With five characters, position -2 should be 4 but is 5 as written. */
  lemma NormalizeCounterexample()
    ensures NormalizePosAsWritten(5, -2) == 5
    ensures NormalizePos(5, -2) == 4
  {
  }

  /** The two agree on every non-negative position and on -1. */
  lemma NormalizeAgrees(len: nat, pos: int)
    requires len < TwoTo31 && -1 <= pos < TwoTo31
    ensures NormalizePosAsWritten(len, pos) == NormalizePos(len, pos)
  {
  }

  /** A position as callers pass it: an `int32_t`. */
  predicate IsInt32(x: int)
  {
    -TwoTo31 <= x < TwoTo31
  }

  /**
   * The buffer operations below normalise their positions with the code as
   * written (`NormalizePosAsWritten`), for a text shorter than 2^31: every
   * negative position is the end of the text.
   */

  /** The smaller of the normalised positions `sp` and `ep` of a text of `len` characters. */
  function RangeLo(len: nat, sp: int, ep: int): (lo: nat)
    requires len < TwoTo31 && IsInt32(sp) && IsInt32(ep)
    ensures lo <= len
    ensures lo == NormalizePosAsWritten(len, sp) || lo == NormalizePosAsWritten(len, ep)
    ensures lo <= NormalizePosAsWritten(len, sp) && lo <= NormalizePosAsWritten(len, ep)
  {
    var a, b := NormalizePosAsWritten(len, sp), NormalizePosAsWritten(len, ep);
    if a <= b then a else b
  }

  /** The larger of the two. */
  function RangeHi(len: nat, sp: int, ep: int): (hi: nat)
    requires len < TwoTo31 && IsInt32(sp) && IsInt32(ep)
    ensures RangeLo(len, sp, ep) <= hi <= len
    ensures hi == NormalizePosAsWritten(len, sp) || hi == NormalizePosAsWritten(len, ep)
    ensures hi >= NormalizePosAsWritten(len, sp) && hi >= NormalizePosAsWritten(len, ep)
  {
    var a, b := NormalizePosAsWritten(len, sp), NormalizePosAsWritten(len, ep);
    if a <= b then b else a
  }

  /** From -1 up the range is the one the intended normalisation gives. */
  lemma RangeIntended(len: nat, sp: int, ep: int)
    requires len < TwoTo31 && -1 <= sp < TwoTo31 && -1 <= ep < TwoTo31
    ensures var a, b := NormalizePos(len, sp), NormalizePos(len, ep);
      RangeLo(len, sp, ep) == (if a <= b then a else b) && RangeHi(len, sp, ep) == (if a <= b then b else a)
  {
    NormalizeAgrees(len, sp);
    NormalizeAgrees(len, ep);
  }

  /** With a negative end the range runs from the other end, or from the end of the text, up to the end of the text. */
  lemma RangeFromNegative(len: nat, sp: int, ep: int)
    requires len < TwoTo31 && IsInt32(sp) && IsInt32(ep) && sp < 0
    ensures RangeHi(len, sp, ep) == len
    ensures RangeLo(len, sp, ep) == if 0 <= ep < len then ep else len
    ensures RangeLo(len, ep, sp) == RangeLo(len, sp, ep) && RangeHi(len, ep, sp) == len
  {
    NegativeIsEndAsWritten(len, sp);
    if ep < 0 {
      NegativeIsEndAsWritten(len, ep);
    }
  }

  /** The characters of the normalised range `[sp, ep)`, in either order. */
  function SubText(text: string, sp: int, ep: int): string
    requires |text| < TwoTo31 && IsInt32(sp) && IsInt32(ep)
  {
    text[RangeLo(|text|, sp, ep)..RangeHi(|text|, sp, ep)]
  }

  /** As written, `strbuf_substring(sb, -3, -1)` of "hello" is empty, where counting back from the end would give "lo". */
  lemma SubstringCounterexample()
    ensures SubText("hello", -3, -1) == ""
    ensures "hello"[NormalizePos(5, -3)..NormalizePos(5, -1)] == "lo"
  {
    RangeFromNegative(5, -3, -1);
  }

  /** The text after replacing the normalised range `[sp, ep)`, in either order, by `times` copies of `mem`. */
  function Replaced(text: string, sp: int, ep: int, times: nat, mem: string): (r: string)
    requires |text| < TwoTo31 && IsInt32(sp) && IsInt32(ep)
  {
    text[..RangeLo(|text|, sp, ep)] + Repeat(mem, times) + text[RangeHi(|text|, sp, ep)..]
  }

  /** A range replaced by its own characters leaves the text as it was. */
  lemma ReplacedBySelf(text: string, sp: int, ep: int)
    requires |text| < TwoTo31 && IsInt32(sp) && IsInt32(ep)
    ensures Replaced(text, sp, ep, 1, SubText(text, sp, ep)) == text
  {
    var lo, hi := RangeLo(|text|, sp, ep), RangeHi(|text|, sp, ep);
    assert Repeat(text[lo..hi], 1) == text[lo..hi] + Repeat(text[lo..hi], 0);
    assert text == text[..lo] + text[lo..hi] + text[hi..];
  }

  /** The copies written by a replacement read back as the substring that starts where the range started. */
  lemma ReplacedReadsBack(text: string, sp: int, ep: int, times: nat, mem: string)
    requires IsInt32(sp) && IsInt32(ep) && |text| + |mem| * times < TwoTo31
    ensures var lo, r := RangeLo(|text|, sp, ep), Replaced(text, sp, ep, times, mem);
      SubText(r, lo, lo + |mem| * times) == Repeat(mem, times)
  {
    var lo, hi := RangeLo(|text|, sp, ep), RangeHi(|text|, sp, ep);
    var rep := Repeat(mem, times);
    var r := Replaced(text, sp, ep, times, mem);
    assert r == text[..lo] + rep + text[hi..];
    assert |r| <= |text| + |rep|;
    assert NormalizePosAsWritten(|r|, lo) == lo;
    assert NormalizePosAsWritten(|r|, lo + |rep|) == lo + |rep|;
    assert r[lo..lo + |rep|] == rep;
  }

  /** Appending, prepending, setting and deleting, as the header's macros define them through replacement. */
  lemma ReplacedForms(text: string, times: nat, mem: string, sp: int, ep: int)
    requires |text| < TwoTo31 && IsInt32(sp) && IsInt32(ep)
    ensures Replaced(text, -1, -1, times, mem) == text + Repeat(mem, times)
    ensures Replaced(text, 0, 0, times, mem) == Repeat(mem, times) + text
    ensures Replaced(text, 0, -1, times, mem) == Repeat(mem, times)
    ensures Replaced(text, sp, ep, times, mem) == Replaced(text, ep, sp, times, mem)
    ensures var a, b := NormalizePosAsWritten(|text|, sp), NormalizePosAsWritten(|text|, ep);
      |Replaced(text, sp, ep, times, mem)| == |text| - (if a <= b then b - a else a - b) + |mem| * times
  {
    assert text[..|text|] == text;
    assert text[|text|..] == [];
  }

  /** `memmove`: `n` characters from `src` to `dst`, the two ranges allowed to overlap. */
  method Move(a: array<char>, dst: nat, src: nat, n: nat)
    requires dst + n <= a.Length && src + n <= a.Length
    modifies a
    ensures a[..] == old(a[..])[..dst] + old(a[..])[src..src + n] + old(a[..])[dst + n..]
  {
    ghost var s := a[..];
    if dst <= src {
      var i := 0;
      while i < n
        invariant i <= n
        invariant forall j :: dst <= j < dst + i ==> a[j] == s[j - dst + src]
        invariant forall j :: 0 <= j < a.Length && !(dst <= j < dst + i) ==> a[j] == s[j]
      {
        a[dst + i] := a[src + i];
        i := i + 1;
      }
    } else {
      var i := n;
      while i > 0
        invariant 0 <= i <= n
        invariant forall j :: dst + i <= j < dst + n ==> a[j] == s[j - dst + src]
        invariant forall j :: 0 <= j < a.Length && !(dst + i <= j < dst + n) ==> a[j] == s[j]
      {
        i := i - 1;
        a[dst + i] := a[src + i];
      }
    }
    MovedJoin(s, a[..], dst, src, n);
  }

  lemma MovedJoin(s: string, b: string, dst: nat, src: nat, n: nat)
    requires |s| == |b| && dst + n <= |s| && src + n <= |s|
    requires forall j :: dst <= j < dst + n ==> b[j] == s[j - dst + src]
    requires forall j :: 0 <= j < |b| && !(dst <= j < dst + n) ==> b[j] == s[j]
    ensures b == s[..dst] + s[src..src + n] + s[dst + n..]
  {
    var r := s[..dst] + s[src..src + n] + s[dst + n..];
    forall j | 0 <= j < |b|
      ensures b[j] == r[j]
    {
    }
  }

  /** `memcpy` of `src` to position `at`. */
  method CopyIn(a: array<char>, at: nat, src: string)
    requires at + |src| <= a.Length
    modifies a
    ensures a[..] == old(a[..])[..at] + src + old(a[..])[at + |src|..]
  {
    ghost var s := a[..];
    var i := 0;
    while i < |src|
      invariant i <= |src|
      invariant forall j :: at <= j < at + i ==> a[j] == src[j - at]
      invariant forall j :: 0 <= j < a.Length && !(at <= j < at + i) ==> a[j] == s[j]
    {
      a[at + i] := src[i];
      i := i + 1;
    }
    CopiedJoin(s, a[..], at, src);
  }

  lemma CopiedJoin(s: string, b: string, at: nat, src: string)
    requires |s| == |b| && at + |src| <= |s|
    requires forall j :: at <= j < at + |src| ==> b[j] == src[j - at]
    requires forall j :: 0 <= j < |b| && !(at <= j < at + |src|) ==> b[j] == s[j]
    ensures b == s[..at] + src + s[at + |src|..]
  {
    var r := s[..at] + src + s[at + |src|..];
    forall j | 0 <= j < |b|
      ensures b[j] == r[j]
    {
    }
  }

  class StrBuf {
    var buf: array<char>
    var len: nat
    var capacity: nat

    /** The block is `capacity` long, fits 32 bits, and a non-empty block holds the text and its NUL. */
    ghost predicate Valid()
      reads this, buf
    {
      buf.Length == capacity < TwoTo32 &&
      (capacity == 0 ==> len == 0) &&
      (capacity > 0 ==> len < capacity && buf[len] == '\0')
    }

    /** The text held. */
    function Content(): string
      reads this, buf
      requires Valid()
    {
      buf[..len]
    }

    /** `strbuf_new_with_capacity`: an empty buffer with a block of the given size. */
    constructor WithCapacity(cap: nat)
      requires cap < TwoTo32
      ensures Valid() && fresh(buf) && len == 0 && capacity == cap
    {
      buf := new char[cap];
      len := 0;
      capacity := cap;
      new;
      if cap > 0 {
        buf[0] := '\0';
      }
    }

    /** `strbuf_new`: an empty buffer with the default block. */
    constructor ()
      ensures Valid() && fresh(buf) && len == 0 && capacity == DefaultCapacity
    {
      buf := new char[DefaultCapacity];
      len := 0;
      capacity := DefaultCapacity;
      new;
      buf[0] := '\0';
    }

    /**
     * `strbuf_new_from_data_n`: a buffer holding `mem` repeated `times`
     * times, in a block one longer than that.  The copies are written from
     * the last to the first.
     */
    static method FromData(times: nat, mem: string) returns (sb: StrBuf)
      requires |mem| * times + 1 < TwoTo32
      ensures fresh(sb) && fresh(sb.buf) && sb.Valid()
      ensures sb.Content() == Repeat(mem, times) && sb.capacity == |mem| * times + 1
    {
      sb := new StrBuf.WithCapacity(|mem| * times + 1);
      FillCopies(sb.buf, times, mem);
      sb.len := |mem| * times;
      sb.buf[sb.len] := '\0';
      assert sb.buf[..sb.len] == Repeat(mem, times);
    }

    /**
     * `strbuf_ensure_capacity`: a block shorter than `minCapacity` is
     * reallocated to the larger of `minCapacity` and `2 * len + 2`, the
     * latter computed in 32 bits; the text is kept.
     */
    method EnsureCapacity(minCapacity: nat)
      requires Valid() && minCapacity < TwoTo32
      modifies this
      ensures Valid() && len == old(len) && Content() == old(Content())
      ensures capacity == if minCapacity > old(capacity) then Max(minCapacity, Wrap32(2 * old(len) + 2)) else old(capacity)
      ensures capacity >= minCapacity && capacity >= old(capacity)
      ensures buf[..old(capacity)] == old(buf[..])
      ensures minCapacity > old(capacity) ==> fresh(buf)
      ensures minCapacity <= old(capacity) ==> buf == old(buf)
    {
      if minCapacity > capacity {
        var grown := Max(minCapacity, Wrap32(len * 2 + 2));
        var block := new char[grown];
        var i := 0;
        while i < capacity
          invariant i <= capacity && block[..i] == buf[..i]
          modifies block
        {
          block[i] := buf[i];
          i := i + 1;
        }
        assert block[..capacity] == buf[..];
        if len == 0 {
          block[0] := '\0';
        }
        buf, capacity := block, grown;
      }
    }

    /** `strbuf_set_length`: the text becomes `newLength` long and is terminated there. */
    method SetLength(newLength: nat)
      requires Valid() && newLength + 1 < TwoTo32
      modifies this, buf
      ensures Valid() && len == newLength && capacity > newLength && buf[newLength] == '\0'
      ensures newLength <= old(len) ==> Content() == old(Content())[..newLength]
      ensures old(len) <= newLength ==> Content()[..old(len)] == old(Content())
    {
      EnsureCapacity(newLength + 1);
      buf[newLength] := '\0';
      len := newLength;
    }

    /**
     * `strbuf_replace_data_n`: the normalised range `[sp, ep)`, its ends
     * swapped when given backwards, becomes `times` copies of `mem`; the
     * tail, NUL included, is first moved to its new place.
     */
    method ReplaceData(sp: int, ep: int, times: nat, mem: string)
      requires Valid() && len < TwoTo31 && IsInt32(sp) && IsInt32(ep) && len + |mem| * times + 1 < TwoTo32
      modifies this, buf
      ensures Valid() && Content() == Replaced(old(Content()), sp, ep, times, mem)
      ensures len == |Replaced(old(Content()), sp, ep, times, mem)|
    {
      ghost var text := Content();
      var lo: nat, hi: nat := RangeLo(len, sp, ep), RangeHi(len, sp, ep);
      var addlen := |mem| * times;
      MakeRoom(lo, hi, addlen);
      ghost var room := Content();
      assert room[..lo] == text[..lo] && room[lo + addlen..] == text[hi..];
      PutCopies(lo, times, mem);
    }

    /**
     * `strbuf_substring`: a new block holding the characters of the
     * normalised range, in either order, then a NUL; the copy takes the
     * range and the byte after it, which a block of capacity 0 lacks.
     */
    method Substring(sp: int, ep: int) returns (r: string)
      requires Valid() && capacity > 0 && len < TwoTo31 && IsInt32(sp) && IsInt32(ep)
      ensures r == SubText(Content(), sp, ep)
    {
      ghost var text := Content();
      var lo: nat, hi: nat := RangeLo(len, sp, ep), RangeHi(len, sp, ep);
      var str := new char[hi - lo + 1];
      for i := 0 to hi - lo + 1
        invariant forall j :: 0 <= j < i ==> str[j] == buf[lo + j]
      {
        str[i] := buf[lo + i];
      }
      assert forall j :: 0 <= j < hi - lo ==> str[j] == text[lo + j];
      str[hi - lo] := '\0';
      r := str[..hi - lo];
      assert forall j :: 0 <= j < hi - lo ==> r[j] == text[lo..hi][j];
    }

    /**
     * `strbuf_free_to_substring`: the normalised range `[sp, ep)` moves to
     * the front of the block and is terminated there.  The ends are not
     * swapped: with `sp` after `ep` the length `ep - sp` is negative and the
     * copy runs wild (`None` here).
     */
    method FreeToSubstring(sp: int, ep: int) returns (r: Option<string>)
      requires Valid() && capacity > 0 && len < TwoTo31 && IsInt32(sp) && IsInt32(ep)
      modifies buf
      ensures var a, b := NormalizePosAsWritten(old(len), sp), NormalizePosAsWritten(old(len), ep);
        r == if a <= b then Some(SubText(old(Content()), sp, ep)) else None
      ensures r.Some? ==> buf[..|r.value|] == r.value && buf[|r.value|] == '\0'
    {
      ghost var text := Content();
      var a, b := NormalizePosAsWritten(len, sp), NormalizePosAsWritten(len, ep);
      if a > b {
        return None;
      }
      if a != 0 {
        Move(buf, 0, a, b - a);
      }
      assert buf[..b - a] == text[a..b];
      buf[b - a] := '\0';
      assert buf[..b - a] == text[a..b];
      return Some(buf[..b - a]);
    }

    /**
     * The move of `strbuf_replace_data_n`: unless the range keeps its
     * length, the tail from `hi` goes to `lo + addlen` and the length follows.
     */
    method MakeRoom(lo: nat, hi: nat, addlen: nat)
      requires Valid() && lo <= hi <= len && len + addlen + 1 < TwoTo32
      modifies this, buf
      ensures Valid() && len == old(len) - (hi - lo) + addlen && (buf == old(buf) || fresh(buf))
      ensures buf[..lo] == old(Content())[..lo] && buf[lo + addlen..len] == old(Content())[hi..]
    {
      if addlen != hi - lo {
        ghost var text := Content();
        EnsureCapacity(len + 1 - (hi - lo) + addlen);
        ShiftTail(buf, text, len, lo, hi, addlen);
        len := len + addlen - (hi - lo);
      }
    }

    /** The copies of `strbuf_replace_data_n`: `times` copies of `mem` from `lo` on, inside the text. */
    method PutCopies(lo: nat, times: nat, mem: string)
      requires Valid() && lo + |mem| * times <= len
      modifies buf
      ensures Valid() && buf[..] == old(buf[..])[..lo] + Repeat(mem, times) + old(buf[..])[lo + |mem| * times..]
      ensures Content() == old(Content())[..lo] + Repeat(mem, times) + old(Content())[lo + |mem| * times..]
    {
      WriteCopies(buf, lo, times, mem);
      if capacity > 0 {
        assert buf[..][len] == old(buf[..])[len];
      }
      SpliceTake(old(buf[..]), lo, Repeat(mem, times), len);
    }
  }

  /** `times` copies of `mem` written one after another from `lo`. */
  method WriteCopies(a: array<char>, lo: nat, times: nat, mem: string)
    requires lo + |mem| * times <= a.Length
    modifies a
    ensures a[..] == old(a[..])[..lo] + Repeat(mem, times) + old(a[..])[lo + |mem| * times..]
  {
    ghost var s := a[..];
    ghost var end := lo + |mem| * times;
    ghost var done: nat := 0;
    var t: nat, p: nat := times, lo;
    while t > 0
      invariant done + t == times && p <= end && p + |Repeat(mem, t)| == end && |Repeat(mem, done)| == p - lo
      invariant a[..] == s[..lo] + Repeat(mem, done) + s[p..]
    {
      ghost var before := a[..];
      CopyIn(a, p, mem);
      CopyStep(s, before, a[..], lo, p, Repeat(mem, done), mem);
      RepeatBack(mem, done);
      p, t, done := p + |mem|, t - 1, done + 1;
    }
  }

  /** The copies of `strbuf_new_from_data_n`, written from the last to the first. */
  method FillCopies(a: array<char>, times: nat, mem: string)
    requires |mem| * times < a.Length
    modifies a
    ensures a[..|mem| * times] == Repeat(mem, times)
  {
    var total := |mem| * times;
    var t: nat, at: nat := times, total;
    while t > 0
      invariant t <= times && at == |mem| * t && at <= total
      invariant a[at..total] == Repeat(mem, times - t)
    {
      MulStep(|mem|, t);
      ghost var before := a[..];
      CopyIn(a, at - |mem|, mem);
      CopyFront(before, a[..], at - |mem|, total, Repeat(mem, times - t), mem);
      RepeatFront(mem, times - t);
      t, at := t - 1, at - |mem|;
    }
    assert a[0..total] == a[..total];
  }

  /** The move of a terminated text's tail, NUL included, from `hi` to `lo + addlen`. */
  method ShiftTail(a: array<char>, ghost text: string, len: nat, lo: nat, hi: nat, addlen: nat)
    requires len == |text| && lo <= hi <= len < a.Length && len - (hi - lo) + addlen < a.Length
    requires a[..len] == text && a[len] == '\0'
    modifies a
    ensures var n := len - (hi - lo) + addlen;
      a[..lo] == text[..lo] && a[lo + addlen..n] == text[hi..] && a[n] == '\0'
  {
    ghost var grown := a[..];
    Move(a, lo + addlen, hi, len + 1 - hi);
    MovedTail(text, grown, a[..], lo, hi, addlen);
  }

  /** After the tail of a terminated text moves from `hi` to `lo + addlen`, the head, the tail and the NUL are in place. */
  lemma MovedTail(text: string, grown: string, moved: string, lo: nat, hi: nat, addlen: nat)
    requires lo <= hi <= |text| && |text| - (hi - lo) + addlen < |grown|
    requires |text| < |grown| && grown[..|text|] == text && grown[|text|] == '\0'
    requires moved == grown[..lo + addlen] + grown[hi..|text| + 1] + grown[lo + addlen + |text| + 1 - hi..]
    ensures var n := |text| - (hi - lo) + addlen;
      moved[..lo] == text[..lo] && moved[lo + addlen..n] == text[hi..] && moved[n] == '\0'
  {
    var n := |text| - (hi - lo) + addlen;
    assert moved[..lo] == grown[..lo];
    var head, body := grown[..lo + addlen], grown[hi..|text| + 1];
    assert forall i :: lo + addlen <= i < n ==> moved[i] == body[i - lo - addlen];
    assert moved[lo + addlen..n] == body[..|text| - hi] == grown[hi..|text|];
  }

  /** One more copy written at `p` extends the run of copies. */
  lemma CopyStep(s: string, before: string, after: string, lo: nat, p: nat, run: string, mem: string)
    requires lo + |run| == p && p + |mem| <= |s| == |before|
    requires before == s[..lo] + run + s[p..]
    requires after == before[..p] + mem + before[p + |mem|..]
    ensures after == s[..lo] + (run + mem) + s[p + |mem|..]
  {
    assert before[..p] == s[..lo] + run;
    assert before[p + |mem|..] == s[p + |mem|..];
  }

  /** One more copy written just before a run of copies extends the run at the front. */
  lemma CopyFront(before: string, after: string, start: nat, total: nat, run: string, mem: string)
    requires start + |mem| + |run| == total <= |before|
    requires before[start + |mem|..total] == run
    requires after == before[..start] + mem + before[start + |mem|..]
    ensures after[start..total] == mem + run
  {
    assert after[start..total] == mem + before[start + |mem|..total];
  }

  /** One more copy at the back, read the other way round. */
  lemma RepeatBack(mem: string, times: nat)
    ensures Repeat(mem, times) + mem == Repeat(mem, times + 1)
  {
  }

  /** A splice inside the first `len` characters, seen through those characters. */
  lemma SpliceTake(s: string, lo: nat, rep: string, len: nat)
    requires lo + |rep| <= len <= |s|
    ensures (s[..lo] + rep + s[lo + |rep|..])[..len] == s[..len][..lo] + rep + s[..len][lo + |rep|..]
  {
    assert s[..len][..lo] == s[..lo];
    assert (s[..lo] + rep + s[lo + |rep|..])[..len] == s[..lo] + rep + s[lo + |rep|..len];
  }

  function Max(a: int, b: int): int
  {
    if a >= b then a else b
  }
}
