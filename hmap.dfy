/**
 * The chained hash map with the library's default string hash and string
 * comparison.  The bucket array is an array of chains; a chain, a list
 * of entries linked by `next`, is held as the sequence of its entries
 * from the bucket's head on.  A key is a C string or NULL.
 */
module HMaps {
  import opened Bytes
  import opened Wres

  const DefaultCapacity: nat := 11

  /** A key: a C string, as its bytes up to but not including the terminating NUL, or NULL. */
  type Key = k: Option<seq<Byte>> | k.None? || 0 !in k.value witness None

  datatype Entry<V> = Entry(key: Key, value: V)

  // ---------------------------------------------------------------- strhash

  /** `strhash` of the bytes `s`: `h := 31 * h + c` in unsigned 32-bit arithmetic, each `c` a signed `char`. */
  function StrHashOf(s: seq<Byte>): (h: nat)
    ensures h < TwoTo32
  {
    if s == [] then 0 else Wrap32(31 * StrHashOf(s[..|s| - 1]) + SignedChar(s[|s| - 1]))
  }

  /** The same polynomial over the integers, with no reduction. */
  function Poly(s: seq<Byte>): int
  {
    if s == [] then 0 else 31 * Poly(s[..|s| - 1]) + SignedChar(s[|s| - 1])
  }

  /** Reducing at every step is reducing once at the end: the hash is the polynomial modulo 2^32. */
  lemma {:induction false} StrHashIsPoly(s: seq<Byte>)
    ensures StrHashOf(s) == Poly(s) % TwoTo32
  {
    if s != [] {
      var p := s[..|s| - 1];
      StrHashIsPoly(p);
      var a := Poly(p);
      var c := SignedChar(s[|s| - 1]);
      assert a == TwoTo32 * (a / TwoTo32) + a % TwoTo32;
      assert 31 * a + c == 31 * (a % TwoTo32) + c + TwoTo32 * (31 * (a / TwoTo32));
      ModShift(31 * (a % TwoTo32) + c, 31 * (a / TwoTo32));
    }
  }

  lemma ModShift(x: int, q: int)
    ensures (x + TwoTo32 * q) % TwoTo32 == x % TwoTo32
  {
  }

  /** `strhash`: the loop over the bytes up to the NUL. */
  method StrHash(s: seq<Byte>) returns (hash: nat)
    requires 0 !in s
    ensures hash == StrHashOf(s)
  {
    hash := 0;
    var i := 0;
    while i < |s|
      invariant i <= |s| && hash == StrHashOf(s[..i])
    {
      assert s[..i + 1][..i] == s[..i];
      hash := Wrap32(hash * 32 - hash + SignedChar(s[i]));
      i := i + 1;
    }
    assert s[..i] == s;
  }

  // ---------------------------------------------------------------- buckets and chains

  /** `hmap_hash`: NULL goes to bucket 0, a string to its hash modulo the bucket count. */
  function BucketIndex(key: Key, len: nat): (b: nat)
    requires len >= 1
    ensures b < len
    ensures key.None? ==> b == 0
  {
    match key
    case None => 0
    case Some(s) => StrHashOf(s) % len
  }

  /** `(uint32_t) (buckets_length * 0.75F)`, as the integer floor of three quarters. */
  function Threshold(len: nat): nat
  {
    3 * len / 4
  }

  /** The position of the first entry of `c` with key `k`, or -1. */
  function ChainIndex<V>(c: seq<Entry<V>>, k: Key): (r: int)
    ensures -1 <= r < |c|
    ensures r == -1 <==> forall m :: 0 <= m < |c| ==> c[m].key != k
    ensures r >= 0 ==> c[r].key == k && forall m :: 0 <= m < r ==> c[m].key != k
  {
    if c == [] then -1
    else if c[0].key == k then 0
    else
      var r := ChainIndex(c[1..], k);
      assert forall m :: 1 <= m < |c| ==> c[m] == c[1..][m - 1];
      if r == -1 then -1 else r + 1
  }

  /** No key occurs twice in the chain. */
  ghost predicate UniqueKeys<V>(c: seq<Entry<V>>)
  {
    forall m, n :: 0 <= m < n < |c| ==> c[m].key != c[n].key
  }

  /** The entry at `m` of bucket `b` belongs there and agrees with `contents`. */
  ghost predicate Placed<V>(t: seq<seq<Entry<V>>>, contents: map<Key, V>, b: nat, m: nat)
    requires |t| >= 1 && b < |t| && m < |t[b]|
  {
    BucketIndex(t[b][m].key, |t|) == b && t[b][m].key in contents && contents[t[b][m].key] == t[b][m].value
  }

  /** Every entry is in its own bucket and agrees with `contents`. */
  ghost predicate AllPlaced<V>(t: seq<seq<Entry<V>>>, contents: map<Key, V>)
    requires |t| >= 1
  {
    forall b, m :: 0 <= b < |t| && 0 <= m < |t[b]| ==> Placed(t, contents, b, m)
  }

  ghost predicate AllUnique<V>(t: seq<seq<Entry<V>>>)
  {
    forall b :: 0 <= b < |t| ==> UniqueKeys(t[b])
  }

  /** `k` has an entry in its own bucket. */
  ghost predicate Present<V>(t: seq<seq<Entry<V>>>, k: Key)
    requires |t| >= 1
  {
    ChainIndex(t[BucketIndex(k, |t|)], k) >= 0
  }

  ghost predicate AllPresent<V>(t: seq<seq<Entry<V>>>, contents: map<Key, V>)
    requires |t| >= 1
  {
    forall k :: k in contents ==> Present(t, k)
  }

  /** The buckets hold exactly the pairs of `contents`, each key once and in its own bucket. */
  ghost predicate ValidTable<V>(t: seq<seq<Entry<V>>>, contents: map<Key, V>)
  {
    |t| >= 1 && AllPlaced(t, contents) && AllUnique(t) && AllPresent(t, contents)
  }

  /** A table of empty chains holds the empty map. */
  lemma EmptyValid<V>(t: seq<seq<Entry<V>>>)
    requires |t| >= 1 && forall b :: 0 <= b < |t| ==> t[b] == []
    ensures ValidTable(t, map[])
  {
  }

  /** Searching the key's own chain finds exactly the keys of `contents`, with their values. */
  lemma Lookup<V>(t: seq<seq<Entry<V>>>, contents: map<Key, V>, k: Key)
    requires ValidTable(t, contents)
    ensures var c := t[BucketIndex(k, |t|)];
      (ChainIndex(c, k) >= 0 <==> k in contents) &&
      (k in contents ==> c[ChainIndex(c, k)].value == contents[k])
  {
    var b := BucketIndex(k, |t|);
    var p := ChainIndex(t[b], k);
    if p >= 0 {
      assert Placed(t, contents, b, p);
    }
  }

  /** An entry with key `k` at position `m` of `k`'s bucket makes `k` present. */
  lemma PresentAt<V>(t: seq<seq<Entry<V>>>, k: Key, m: nat)
    requires |t| >= 1 && m < |t[BucketIndex(k, |t|)]| && t[BucketIndex(k, |t|)][m].key == k
    ensures Present(t, k)
  {
  }

  /** Overwriting the value of a present key. */
  lemma ReplaceValid<V>(t: seq<seq<Entry<V>>>, contents: map<Key, V>, k: Key, v: V)
    requires ValidTable(t, contents) && k in contents
    ensures var b := BucketIndex(k, |t|);
      ValidTable(t[b := t[b][ChainIndex(t[b], k) := Entry(k, v)]], contents[k := v])
  {
    var b := BucketIndex(k, |t|);
    var p := ChainIndex(t[b], k);
    var t': seq<seq<Entry<V>>> := t[b := t[b][p := Entry(k, v)]];
    ReplacePlaced(t, contents, k, v, b, p);
    forall k0 | k0 in contents[k := v]
      ensures Present(t', k0)
    {
      var p0 := ChainIndex(t[BucketIndex(k0, |t|)], k0);
      PresentAt(t', k0, p0);
    }
  }

  lemma ReplacePlaced<V>(t: seq<seq<Entry<V>>>, contents: map<Key, V>, k: Key, v: V, b: nat, p: nat)
    requires |t| >= 1 && AllPlaced(t, contents) && b == BucketIndex(k, |t|) && p < |t[b]| && t[b][p].key == k
    requires UniqueKeys(t[b])
    ensures AllPlaced(t[b := t[b][p := Entry(k, v)]], contents[k := v])
  {
    var t': seq<seq<Entry<V>>> := t[b := t[b][p := Entry(k, v)]];
    var c' := contents[k := v];
    forall b0, m | 0 <= b0 < |t'| && 0 <= m < |t'[b0]|
      ensures Placed(t', c', b0, m)
    {
      assert Placed(t, contents, b0, m);
      assert Placed(t, contents, b, p);
    }
  }

  /** Adding an absent key at the head of its chain. */
  lemma InsertValid<V>(t: seq<seq<Entry<V>>>, contents: map<Key, V>, k: Key, v: V)
    requires ValidTable(t, contents) && k !in contents
    ensures var b := BucketIndex(k, |t|);
      ValidTable(t[b := [Entry(k, v)] + t[b]], contents[k := v])
  {
    var b := BucketIndex(k, |t|);
    var t': seq<seq<Entry<V>>> := t[b := [Entry(k, v)] + t[b]];
    InsertPlaced(t, contents, k, v);
    forall m | 0 <= m < |t[b]|
      ensures t[b][m].key != k
    {
      assert Placed(t, contents, b, m);
    }
    assert UniqueKeys(t'[b]);
    forall k0 | k0 in contents[k := v]
      ensures Present(t', k0)
    {
      var b0 := BucketIndex(k0, |t|);
      if k0 == k {
        PresentAt(t', k0, 0);
      } else {
        var p0 := ChainIndex(t[b0], k0);
        PresentAt(t', k0, if b0 == b then p0 + 1 else p0);
      }
    }
  }

  lemma InsertPlaced<V>(t: seq<seq<Entry<V>>>, contents: map<Key, V>, k: Key, v: V)
    requires |t| >= 1 && AllPlaced(t, contents) && k !in contents
    ensures var b := BucketIndex(k, |t|);
      AllPlaced(t[b := [Entry(k, v)] + t[b]], contents[k := v])
  {
    var b := BucketIndex(k, |t|);
    var t': seq<seq<Entry<V>>> := t[b := [Entry(k, v)] + t[b]];
    var c' := contents[k := v];
    forall b0, m | 0 <= b0 < |t'| && 0 <= m < |t'[b0]|
      ensures Placed(t', c', b0, m)
    {
      if b0 == b && m > 0 {
        assert t'[b0][m] == t[b][m - 1];
        assert Placed(t, contents, b, m - 1);
      } else if b0 != b {
        assert Placed(t, contents, b0, m);
      }
    }
  }

  /** Unlinking the entry of a present key. */
  lemma RemoveValid<V>(t: seq<seq<Entry<V>>>, contents: map<Key, V>, k: Key)
    requires ValidTable(t, contents) && k in contents
    ensures var b := BucketIndex(k, |t|); var p := ChainIndex(t[b], k);
      ValidTable(t[b := Unlinked(t[b], p)], contents - {k})
  {
    var b := BucketIndex(k, |t|);
    var p := ChainIndex(t[b], k);
    var c := t[b];
    RemovePlaced(t, contents, k, b, p);
    RemoveUnique(c, p);
    RemovePresent(t, contents, k, b, p);
  }

  lemma RemovePresent<V>(t: seq<seq<Entry<V>>>, contents: map<Key, V>, k: Key, b: nat, p: nat)
    requires ValidTable(t, contents) && k in contents && b == BucketIndex(k, |t|) && p == ChainIndex(t[b], k)
    ensures AllPresent(t[b := Unlinked(t[b], p)], contents - {k})
  {
    var c := t[b];
    var t': seq<seq<Entry<V>>> := t[b := Unlinked(c, p)];
    forall k0 | k0 in contents - {k}
      ensures Present(t', k0)
    {
      var b0 := BucketIndex(k0, |t|);
      var p0 := ChainIndex(t[b0], k0);
      if b0 == b && p0 > p {
        assert t'[b][p0 - 1] == c[p0];
        PresentAt(t', k0, p0 - 1);
      } else if b0 == b {
        assert t'[b][p0] == c[p0];
        PresentAt(t', k0, p0);
      } else {
        PresentAt(t', k0, p0);
      }
    }
  }

  /** The chain without its entry at `p`, the others in their order. */
  function Unlinked<V>(c: seq<Entry<V>>, p: nat): (r: seq<Entry<V>>)
    requires p < |c|
    ensures |r| == |c| - 1
    ensures forall m :: 0 <= m < |r| ==> r[m] == c[if m < p then m else m + 1]
  {
    c[..p] + c[p + 1..]
  }

  lemma RemoveUnique<V>(c: seq<Entry<V>>, p: nat)
    requires p < |c| && UniqueKeys(c)
    ensures UniqueKeys(Unlinked(c, p))
  {
    var c' := Unlinked(c, p);
    forall m | 0 <= m < |c'|
      ensures c'[m] == c[if m < p then m else m + 1]
    {
    }
  }

  lemma RemovePlaced<V>(t: seq<seq<Entry<V>>>, contents: map<Key, V>, k: Key, b: nat, p: nat)
    requires |t| >= 1 && AllPlaced(t, contents) && b < |t| && p < |t[b]| && t[b][p].key == k
    requires UniqueKeys(t[b])
    ensures AllPlaced(t[b := Unlinked(t[b], p)], contents - {k})
  {
    var c := t[b];
    var t': seq<seq<Entry<V>>> := t[b := Unlinked(c, p)];
    forall b0, m | 0 <= b0 < |t'| && 0 <= m < |t'[b0]|
      ensures Placed(t', contents - {k}, b0, m)
    {
      if b0 == b {
        var m0 := if m < p then m else m + 1;
        assert t'[b0][m] == c[m0];
        assert Placed(t, contents, b, m0);
      } else {
        assert Placed(t, contents, b0, m);
        assert t[b0][m].key != k by {
          assert Placed(t, contents, b, p);
        }
      }
    }
  }

  /** A present key's entry leaves the map one entry smaller. */
  lemma RemoveCount<V>(contents: map<Key, V>, k: Key)
    requires k in contents
    ensures |contents - {k}| == |contents| - 1
  {
    assert contents.Keys == (contents - {k}).Keys + {k};
  }

  // ---------------------------------------------------------------- rehash

  /** `k` has already been moved when the scan is at entry `j` of old bucket `i`. */
  ghost predicate Moved<V>(ob: seq<seq<Entry<V>>>, k: Key, i: nat, j: nat)
    requires |ob| >= 1
  {
    var ib := BucketIndex(k, |ob|);
    ib < i || (ib == i && i < |ob| && j <= |ob[i]| && ChainIndex(ob[i][..j], k) >= 0)
  }

  /**
   * What the rehash scan keeps: `done`, the part of `contents` already
   * moved to the new table, holds exactly the keys of `contents` the scan
   * has passed.
   */
  ghost predicate Scanned<V>(ob: seq<seq<Entry<V>>>, contents: map<Key, V>, done: map<Key, V>, i: nat, j: nat)
    requires |ob| >= 1
  {
    i <= |ob| && (i < |ob| ==> j <= |ob[i]|) &&
    (forall k :: k in done <==> k in contents && Moved(ob, k, i, j)) &&
    (forall k :: k in done ==> done[k] == contents[k])
  }

  /** One more prefix entry: membership in the prefix grows by that entry's key. */
  lemma PrefixStep<V>(c: seq<Entry<V>>, j: nat, k: Key)
    requires j < |c|
    ensures ChainIndex(c[..j + 1], k) >= 0 <==> ChainIndex(c[..j], k) >= 0 || c[j].key == k
  {
    var p := ChainIndex(c[..j], k);
    var q := ChainIndex(c[..j + 1], k);
    if p >= 0 {
      assert c[..j + 1][p] == c[..j][p];
    }
    if q >= 0 && q < j {
      assert c[..j][q] == c[..j + 1][q];
    }
  }

  /** Passing entry `j` of old bucket `i` moves its pair, which had not been moved before. */
  lemma ScanStep<V>(ob: seq<seq<Entry<V>>>, contents: map<Key, V>, done: map<Key, V>, i: nat, j: nat)
    requires |ob| >= 1 && i < |ob| && j < |ob[i]| && Placed(ob, contents, i, j) && UniqueKeys(ob[i])
    requires Scanned(ob, contents, done, i, j)
    ensures var e := ob[i][j];
      e.key !in done && Scanned(ob, contents, done[e.key := e.value], i, j + 1)
  {
    var e := ob[i][j];
    forall k
      ensures Moved(ob, k, i, j + 1) <==> Moved(ob, k, i, j) || k == e.key
    {
      PrefixStep(ob[i], j, k);
    }
  }

  /** Finishing old bucket `i` is starting old bucket `i + 1`. */
  lemma ScanNext<V>(ob: seq<seq<Entry<V>>>, contents: map<Key, V>, done: map<Key, V>, i: nat)
    requires ValidTable(ob, contents) && i < |ob| && Scanned(ob, contents, done, i, |ob[i]|)
    ensures Scanned(ob, contents, done, i + 1, 0)
  {
    assert ob[i][..|ob[i]|] == ob[i];
    forall k | k in contents
      ensures Moved(ob, k, i + 1, 0) <==> Moved(ob, k, i, |ob[i]|)
    {
      assert Present(ob, k);
    }
  }

  /** After the last old bucket every pair has moved. */
  lemma ScanDone<V>(ob: seq<seq<Entry<V>>>, contents: map<Key, V>, done: map<Key, V>)
    requires |ob| >= 1 && Scanned(ob, contents, done, |ob|, 0)
    ensures done == contents
  {
    assert done.Keys == contents.Keys;
  }

  /** Adding an absent key at the tail of its chain, as the rehash does. */
  lemma AppendValid<V>(t: seq<seq<Entry<V>>>, contents: map<Key, V>, k: Key, v: V)
    requires ValidTable(t, contents) && k !in contents
    ensures var b := BucketIndex(k, |t|);
      ValidTable(t[b := t[b] + [Entry(k, v)]], contents[k := v])
  {
    var b := BucketIndex(k, |t|);
    var t': seq<seq<Entry<V>>> := t[b := t[b] + [Entry(k, v)]];
    AppendPlaced(t, contents, k, v);
    forall m | 0 <= m < |t[b]|
      ensures t[b][m].key != k
    {
      assert Placed(t, contents, b, m);
    }
    assert UniqueKeys(t'[b]);
    forall k0 | k0 in contents[k := v]
      ensures Present(t', k0)
    {
      var b0 := BucketIndex(k0, |t|);
      if k0 == k {
        PresentAt(t', k0, |t[b]|);
      } else {
        PresentAt(t', k0, ChainIndex(t[b0], k0));
      }
    }
  }

  lemma AppendPlaced<V>(t: seq<seq<Entry<V>>>, contents: map<Key, V>, k: Key, v: V)
    requires |t| >= 1 && AllPlaced(t, contents) && k !in contents
    ensures var b := BucketIndex(k, |t|);
      AllPlaced(t[b := t[b] + [Entry(k, v)]], contents[k := v])
  {
    var b := BucketIndex(k, |t|);
    var t': seq<seq<Entry<V>>> := t[b := t[b] + [Entry(k, v)]];
    var c' := contents[k := v];
    forall b0, m | 0 <= b0 < |t'| && 0 <= m < |t'[b0]|
      ensures Placed(t', c', b0, m)
    {
      if b0 != b || m < |t[b]| {
        assert t'[b0][m] == t[b0][m];
        assert Placed(t, contents, b0, m);
      }
    }
  }

  /**
   * The inner loop of the rehash: the entries of old bucket `i`, head
   * first, each appended to the tail of its chain in `nb`.
   */
  method MoveChain<V>(nb: array<seq<Entry<V>>>, chain: seq<Entry<V>>, ghost ob: seq<seq<Entry<V>>>,
                      ghost contents: map<Key, V>, ghost done0: map<Key, V>, i: nat)
      returns (ghost done: map<Key, V>)
    requires ValidTable(ob, contents) && i < |ob| && chain == ob[i]
    requires ValidTable(nb[..], done0) && Scanned(ob, contents, done0, i, 0)
    modifies nb
    ensures ValidTable(nb[..], done) && Scanned(ob, contents, done, i, |chain|)
  {
    done := done0;
    var j := 0;
    while j < |chain|
      invariant j <= |chain| && ValidTable(nb[..], done) && Scanned(ob, contents, done, i, j)
    {
      var e := chain[j];
      var index := BucketIndex(e.key, nb.Length);
      assert Placed(ob, contents, i, j);
      ScanStep(ob, contents, done, i, j);
      AppendValid(nb[..], done, e.key, e.value);
      nb[index] := nb[index] + [e];
      done := done[e.key := e.value];
      j := j + 1;
    }
  }

  // ---------------------------------------------------------------- the map

  class HMap<V> {
    var buckets: array<seq<Entry<V>>>
    var bucketsLength: nat
    var threshold: nat
    var size: nat
    /** The pairs the map holds. */
    ghost var contents: map<Key, V>

    /** Everything but the entry count. */
    ghost predicate TableValid()
      reads this, buckets
    {
      bucketsLength == buckets.Length < TwoTo32 && threshold == Threshold(buckets.Length) &&
      ValidTable(buckets[..], contents)
    }

    ghost predicate Valid()
      reads this, buckets
    {
      TableValid() && size == |contents|
    }

    /** `hmap_new`: eleven empty buckets. */
    constructor ()
      ensures Valid() && contents == map[] && buckets.Length == DefaultCapacity && threshold == 8
    {
      buckets := new seq<Entry<V>>[DefaultCapacity](_ => []);
      bucketsLength := DefaultCapacity;
      threshold := Threshold(DefaultCapacity);
      size := 0;
      contents := map[];
    }

    /** `hmap_get_entry`: the bucket of `key` and the position of its entry in that chain, or -1. */
    method GetEntry(key: Key) returns (b: nat, p: int)
      requires Valid()
      ensures b == BucketIndex(key, buckets.Length) && p == ChainIndex(buckets[b], key)
      ensures p >= 0 <==> key in contents
      ensures p >= 0 ==> buckets[b][p].value == contents[key]
    {
      b := BucketIndex(key, bucketsLength);
      var chain := buckets[b];
      p := 0;
      while p < |chain|
        invariant 0 <= p <= |chain| && forall m :: 0 <= m < p ==> chain[m].key != key
      {
        if chain[p].key == key {
          break;
        }
        p := p + 1;
      }
      if p == |chain| {
        p := -1;
      }
      Lookup(buckets[..], contents, key);
    }

    /** `hmap_get`: the value stored under `key`, or nothing. */
    method Get(key: Key) returns (r: Option<V>)
      requires Valid()
      ensures r == if key in contents then Some(contents[key]) else None
    {
      var b, p := GetEntry(key);
      r := if p >= 0 then Some(buckets[b][p].value) else None;
    }

    /** `hmap_contains_key`: whether some entry has `key`. */
    method ContainsKey(key: Key) returns (r: bool)
      requires Valid()
      ensures r <==> key in contents
    {
      var _, p := GetEntry(key);
      r := p >= 0;
    }

    /**
     * `hmap_put`: a present key gets the new value and its old one is
     * returned; an absent key is counted, the table is doubled when the
     * count passes the threshold, and the new entry goes to the head of
     * its chain.
     */
    method Put(key: Key, value: V) returns (previous: Option<V>)
      requires Valid() && size + 1 < TwoTo32 && (size + 1 > threshold ==> 2 * buckets.Length + 1 < TwoTo32)
      modifies this, buckets
      ensures Valid() && contents == old(contents)[key := value]
      ensures previous == if key in old(contents) then Some(old(contents)[key]) else None
      ensures size == old(size) + if key in old(contents) then 0 else 1
      ensures buckets.Length ==
        if key !in old(contents) && old(size) + 1 > old(threshold) then 2 * old(buckets.Length) + 1 else old(buckets.Length)
    {
      var b, p := GetEntry(key);
      if p >= 0 {
        previous := Some(buckets[b][p].value);
        ReplaceValid(buckets[..], contents, key, value);
        buckets[b] := buckets[b][p := Entry(key, value)];
        contents := contents[key := value];
        return;
      }
      AddEntry(key, value, b);
      previous := None;
    }

    /** The absent-key half of `hmap_put`: count the entry, double the table past the threshold, then link the entry at the head of its chain. */
    method AddEntry(key: Key, value: V, b: nat)
      requires Valid() && key !in contents && b == BucketIndex(key, buckets.Length)
      requires size + 1 < TwoTo32 && (size + 1 > threshold ==> 2 * buckets.Length + 1 < TwoTo32)
      modifies this, buckets
      ensures Valid() && contents == old(contents)[key := value] && size == old(size) + 1
      ensures buckets.Length == if old(size) + 1 > old(threshold) then 2 * old(buckets.Length) + 1 else old(buckets.Length)
    {
      var at := b;
      size := size + 1;
      if size > threshold {
        Rehash();
        at := BucketIndex(key, bucketsLength);
      }
      InsertValid(buckets[..], contents, key, value);
      buckets[at] := [Entry(key, value)] + buckets[at];
      contents := contents[key := value];
    }

    /** `hmap_rehash`: `2 * len + 1` buckets, every entry appended to the tail of its new chain, old bucket by old bucket. */
    method Rehash()
      requires TableValid() && 2 * buckets.Length + 1 < TwoTo32
      modifies this
      ensures TableValid() && contents == old(contents) && size == old(size)
      ensures buckets.Length == 2 * old(buckets.Length) + 1 && fresh(buckets)
    {
      ghost var ob := buckets[..];
      var oldBuckets := buckets;
      var oldCapacity := bucketsLength;
      var newLength := 2 * bucketsLength + 1;
      var nb := new seq<Entry<V>>[newLength](_ => []);
      ghost var done: map<Key, V> := map[];
      var i := 0;
      while i < oldCapacity
        invariant i <= oldCapacity == |ob| && oldBuckets[..] == ob && nb.Length == newLength
        invariant ValidTable(nb[..], done) && Scanned(ob, contents, done, i, 0)
        modifies nb
      {
        done := MoveChain(nb, oldBuckets[i], ob, contents, done, i);
        ScanNext(ob, contents, done, i);
        i := i + 1;
      }
      ScanDone(ob, contents, done);
      buckets, bucketsLength, threshold := nb, newLength, Threshold(newLength);
    }

    /** `hmap_remove`: the entry of `key` is unlinked and its value returned; an absent key changes nothing. */
    method Remove(key: Key) returns (r: Option<V>)
      requires Valid()
      modifies this, buckets
      ensures Valid() && contents == old(contents) - {key} && buckets.Length == old(buckets.Length)
      ensures r == if key in old(contents) then Some(old(contents)[key]) else None
      ensures size == old(size) - if key in old(contents) then 1 else 0
    {
      var b, p := GetEntry(key);
      if p < 0 {
        assert contents - {key} == contents;
        return None;
      }
      r := Some(buckets[b][p].value);
      ghost var t := buckets[..];
      RemoveValid(t, contents, key);
      RemoveCount(contents, key);
      buckets[b] := Unlinked(buckets[b], p);
      assert buckets[..] == t[b := Unlinked(t[b], p)];
      size := size - 1;
      contents := contents - {key};
    }

    /** `hmap_clear`: every chain is emptied; the bucket count stays. */
    method Clear()
      requires Valid()
      modifies this, buckets
      ensures Valid() && contents == map[] && size == 0 && buckets == old(buckets)
      ensures forall b :: 0 <= b < buckets.Length ==> buckets[b] == []
    {
      var c := 0;
      while c < bucketsLength
        invariant c <= bucketsLength == buckets.Length && forall b :: 0 <= b < c ==> buckets[b] == []
        modifies buckets
      {
        buckets[c] := [];
        c := c + 1;
      }
      EmptyValid(buckets[..]);
      size := 0;
      contents := map[];
    }
  }
}
