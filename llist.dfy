/**
 * The doubly linked list.  The chain of nodes from `first` to `last` is
 * held as the sequence of the data they carry, in order; `size` is the
 * 32-bit node count the list keeps beside it.  Positions in the sequence
 * stand for nodes, and a walk along `next` or `previous` is a step up or
 * down the sequence.
 */
module LLists {
  import opened Bytes
  import opened Wres

  /** The position of the first `x` in `s`, or -1. */
  function FirstIndex<T(==)>(s: seq<T>, x: T): (r: int)
    ensures -1 <= r < |s|
    ensures r == -1 <==> x !in s
    ensures r >= 0 ==> s[r] == x && forall j :: 0 <= j < r ==> s[j] != x
  {
    if s == [] then -1
    else if s[0] == x then 0
    else
      var k := FirstIndex(s[1..], x);
      if k == -1 then -1 else k + 1
  }

  /** The position of the last `x` in `s`, or -1. */
  function LastIndex<T(==)>(s: seq<T>, x: T): (r: int)
    ensures -1 <= r < |s|
    ensures r == -1 <==> x !in s
    ensures r >= 0 ==> s[r] == x && forall j :: r < j < |s| ==> s[j] != x
  {
    if s == [] then -1
    else if s[|s| - 1] == x then |s| - 1
    else LastIndex(s[..|s| - 1], x)
  }

  /** `s` from back to front. */
  function Reversed<T>(s: seq<T>): (r: seq<T>)
    ensures |r| == |s|
  {
    seq(|s|, i requires 0 <= i < |s| => s[|s| - 1 - i])
  }

  lemma ReversedAt<T>(s: seq<T>, i: nat)
    requires i < |s|
    ensures Reversed(s)[i] == s[|s| - 1 - i]
  {
  }

  /** Reversing twice gives the list back. */
  lemma ReverseTwice<T>(s: seq<T>)
    ensures Reversed(Reversed(s)) == s
  {
  }

  /** The first `x` of the reversed list is the mirror of the last `x` of the list. */
  lemma FirstOfReversed<T>(s: seq<T>, x: T)
    ensures FirstIndex(Reversed(s), x) == if LastIndex(s, x) == -1 then -1 else |s| - 1 - LastIndex(s, x)
  {
    var l := LastIndex(s, x);
    if l == -1 {
      AbsentReversed(s, x);
    } else {
      LastMirrored(s, x, l);
    }
  }

  /** An element missing from the list is missing from the reversed list. */
  lemma AbsentReversed<T>(s: seq<T>, x: T)
    requires x !in s
    ensures FirstIndex(Reversed(s), x) == -1
  {
    var r := Reversed(s);
    forall i | 0 <= i < |r|
      ensures r[i] != x
    {
      ReversedAt(s, i);
    }
    assert x !in r;
  }

  /** The last `x` at `l` is the first `x` of the reversed list at the mirror position. */
  lemma LastMirrored<T>(s: seq<T>, x: T, l: nat)
    requires l < |s| && s[l] == x && forall j :: l < j < |s| ==> s[j] != x
    ensures FirstIndex(Reversed(s), x) == |s| - 1 - l
  {
    var r := Reversed(s);
    var k := |s| - 1 - l;
    forall j | 0 <= j < k
      ensures r[j] != x
    {
      ReversedAt(s, j);
    }
    ReversedAt(s, k);
    FirstIndexAt(r, x, k);
  }

  /** A position holding `x` with no `x` before it is the first index. */
  lemma FirstIndexAt<T>(s: seq<T>, x: T, k: nat)
    requires k < |s| && s[k] == x && forall j :: 0 <= j < k ==> s[j] != x
    ensures FirstIndex(s, x) == k
  {
  }

  /** The list without the element at `i`. */
  function Without<T>(s: seq<T>, i: nat): (r: seq<T>)
    requires i < |s|
    ensures |r| == |s| - 1
    ensures forall j :: 0 <= j < i ==> r[j] == s[j]
    ensures forall j :: i <= j < |r| ==> r[j] == s[j + 1]
  {
    s[..i] + s[i + 1..]
  }

  /** Inserting at `i` and then taking the element at `i` out again gives the list back. */
  lemma InsertThenRemove<T>(s: seq<T>, i: nat, x: T)
    requires i <= |s|
    ensures Without(s[..i] + [x] + s[i..], i) == s
    ensures (s[..i] + [x] + s[i..])[i] == x
  {
    var t := s[..i] + [x] + s[i..];
    assert Without(t, i) == s[..i] + s[i..];
    assert s[..i] + s[i..] == s;
  }

  class LList<T(==,0)> {
    /** The data of the nodes from `first` to `last`. */
    var items: seq<T>
    /** The `size` field. */
    var size: nat

    ghost predicate Valid()
      reads this
    {
      size == |items| < TwoTo32
    }

    /** `llist_new`: the empty list. */
    constructor ()
      ensures Valid() && items == []
    {
      items := [];
      size := 0;
    }

    /** `llist_get_first`: the first element, or nothing for the empty list. */
    function GetFirst(): (r: Option<T>)
      reads this
      requires Valid()
      ensures r.None? <==> items == []
      ensures r.Some? ==> r.value == items[0]
    {
      if size == 0 then None else Some(items[0])
    }

    /** `llist_get_last`: the last element, or nothing for the empty list. */
    function GetLast(): (r: Option<T>)
      reads this
      requires Valid()
      ensures r.None? <==> items == []
      ensures r.Some? ==> r.value == items[|items| - 1]
    {
      if size == 0 then None else Some(items[size - 1])
    }

    /** `llist_remove_first`: the first element is unlinked and returned; the empty list is left alone. */
    method RemoveFirst() returns (r: Option<T>)
      requires Valid()
      modifies this
      ensures Valid()
      ensures old(items) == [] ==> r.None? && items == []
      ensures old(items) != [] ==> r == Some(old(items)[0]) && items == old(items)[1..]
    {
      if size == 0 {
        return None;
      }
      size := size - 1;
      r := Some(items[0]);
      items := items[1..];
    }

    /** `llist_remove_last`: the last element is unlinked and returned; the empty list is left alone. */
    method RemoveLast() returns (r: Option<T>)
      requires Valid()
      modifies this
      ensures Valid()
      ensures old(items) == [] ==> r.None? && items == []
      ensures old(items) != [] ==> r == Some(old(items)[|old(items)| - 1]) && items == old(items)[..|old(items)| - 1]
    {
      if size == 0 {
        return None;
      }
      size := size - 1;
      r := Some(items[size]);
      items := items[..size];
    }

    /** `llist_add_first`: a new node before the first. */
    method AddFirst(data: T)
      requires Valid() && |items| + 1 < TwoTo32
      modifies this
      ensures Valid() && items == [data] + old(items)
    {
      items := [data] + items;
      size := size + 1;
    }

    /** `llist_add_last`: a new node after the last. */
    method AddLast(data: T)
      requires Valid() && |items| + 1 < TwoTo32
      modifies this
      ensures Valid() && items == old(items) + [data]
    {
      items := items + [data];
      size := size + 1;
    }

    /**
     * `llist_get_entry`: the node at `index`, reached from `first` when it
     * lies in the front half and from `last` otherwise; `steps` counts the
     * links followed.
     */
    method GetEntry(index: nat) returns (pos: nat, steps: nat)
      requires Valid() && index < size
      ensures pos == index && steps <= size / 2
    {
      steps := 0;
      if index < size / 2 {
        pos := 0;
        var k := index;
        while k > 0
          invariant pos + k == index && steps == pos
        {
          pos, k, steps := pos + 1, k - 1, steps + 1;
        }
      } else {
        pos := size - 1;
        var k := index + 1;
        while k < size
          invariant index < k <= size && pos + 1 + (k - index - 1) == size && pos >= index
          invariant steps == size - 1 - pos
          decreases size - k
        {
          pos, k, steps := pos - 1, k + 1, steps + 1;
        }
      }
    }

    /** `llist_get`: the element at `index`, or nothing past the end. */
    method Get(index: nat) returns (r: Option<T>)
      requires Valid()
      ensures index >= |items| ==> r.None?
      ensures index < |items| ==> r == Some(items[index])
    {
      if index >= size {
        return None;
      }
      var pos, _ := GetEntry(index);
      r := Some(items[pos]);
    }

    /** `llist_contains`: whether some node carries `data`. */
    method Contains(data: T) returns (found: bool)
      requires Valid()
      ensures found <==> data in items
    {
      var i := 0;
      while i < size
        invariant i <= size && data !in items[..i]
      {
        if items[i] == data {
          return true;
        }
        assert items[..i + 1] == items[..i] + [items[i]];
        i := i + 1;
      }
      assert items[..i] == items;
      return false;
    }

    /** `llist_remove`: the first node carrying `data` is unlinked; whether there was one. */
    method Remove(data: T) returns (found: bool)
      requires Valid()
      modifies this
      ensures Valid()
      ensures found <==> data in old(items)
      ensures found ==> items == Without(old(items), FirstIndex(old(items), data))
      ensures !found ==> items == old(items)
    {
      var i := 0;
      while i < size
        invariant i <= size && forall j :: 0 <= j < i ==> items[j] != data
      {
        if items[i] == data {
          RemoveEntry(i);
          return true;
        }
        i := i + 1;
      }
      return false;
    }

    /** `llist_remove_entry`: the node at `i` is unlinked. */
    method RemoveEntry(i: nat)
      requires Valid() && i < |items|
      modifies this
      ensures Valid() && items == Without(old(items), i)
    {
      items := items[..i] + items[i + 1..];
      size := size - 1;
    }

    /** `llist_clear`: every node is dropped. */
    method Clear()
      requires Valid()
      modifies this
      ensures Valid() && items == []
    {
      items := [];
      size := 0;
    }

    /** `llist_add_at`: `data` becomes element `index`; an index past the end changes nothing. */
    method AddAt(index: nat, data: T)
      requires Valid() && |items| + 1 < TwoTo32
      modifies this
      ensures Valid()
      ensures index > old(|items|) ==> items == old(items)
      ensures index <= old(|items|) ==> items == old(items)[..index] + [data] + old(items)[index..]
    {
      if index > size {
        return;
      }
      if index < size {
        var pos, _ := GetEntry(index);
        items := items[..pos] + [data] + items[pos..];
        size := size + 1;
      } else {
        assert items[index..] == [];
        AddLast(data);
      }
    }

    /** `llist_remove_at`: element `index` is unlinked and returned, or nothing past the end. */
    method RemoveAt(index: nat) returns (r: Option<T>)
      requires Valid()
      modifies this
      ensures Valid()
      ensures index >= old(|items|) ==> r.None? && items == old(items)
      ensures index < old(|items|) ==> r == Some(old(items)[index]) && items == Without(old(items), index)
    {
      if index >= size {
        return None;
      }
      var pos, _ := GetEntry(index);
      r := Some(items[pos]);
      RemoveEntry(pos);
    }

    /** `llist_index_of`: counting from `first`, the position of the first node carrying `data`, or -1. */
    method IndexOf(data: T) returns (index: int)
      requires Valid()
      ensures index == FirstIndex(items, data)
    {
      index := 0;
      while index < size
        invariant 0 <= index <= size && forall j :: 0 <= j < index ==> items[j] != data
      {
        if items[index] == data {
          return;
        }
        index := index + 1;
      }
      return -1;
    }

    /** `llist_last_index_of`: counting back from `last`, the position of the last node carrying `data`, or -1. */
    method LastIndexOf(data: T) returns (index: int)
      requires Valid()
      ensures index == LastIndex(items, data)
    {
      index := size - 1;
      while index >= 0
        invariant -1 <= index < size && forall j :: index < j < size ==> items[j] != data
      {
        if items[index] == data {
          return;
        }
        index := index - 1;
      }
    }

    /**
     * `llist_reverse`: the data of the outermost pair of nodes is swapped and
     * the two cursors move inwards until they meet or cross.
     */
    method Reverse()
      requires Valid()
      modifies this
      ensures Valid() && items == Reversed(old(items))
    {
      ghost var s := items;
      var head, tail := 0, size as int - 1;
      while head != tail && head - 1 != tail
        invariant 0 <= head && head + tail == |s| - 1 && tail >= head - 1
        invariant |items| == |s| == size
        invariant forall j :: 0 <= j < head ==> items[j] == s[|s| - 1 - j]
        invariant forall j :: tail < j < |s| ==> items[j] == s[|s| - 1 - j]
        invariant forall j :: head <= j <= tail ==> items[j] == s[j]
        decreases tail - head
      {
        var data := items[head];
        items := items[head := items[tail]][tail := data];
        head, tail := head + 1, tail - 1;
      }
    }

    /** `llist_to_array`: a fresh array of the data, first to last. */
    method ToArray() returns (a: array<T>)
      requires Valid()
      ensures fresh(a) && a[..] == items
    {
      a := new T[size];
      var index := 0;
      while index < size
        invariant index <= size && a[..index] == items[..index]
      {
        a[index] := items[index];
        index := index + 1;
      }
    }
  }
}
