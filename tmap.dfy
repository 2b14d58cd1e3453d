// The red-black tree map of tmap.c.  Nodes with parent pointers are modelled
// as a zipper over tree values: the focus subtree plus the path of parent
// frames up to the root.  Each loop of the C code that walks or rewires the
// tree is a method here whose loop steps are the rebalancing cases proved in
// module RBTrees; the map it represents is the in-order sequence of entries,
// and every operation is specified on that sequence.

module TMaps {
  import opened Wres
  import opened RBTrees

  // ---------------------------------------------------------------- searching

  lemma BelowConcat<V>(a: seq<Item<V>>, b: seq<Item<V>>, k: int)
    ensures Below(a + b, k) <==> Below(a, k) && Below(b, k)
  {
    if Below(a, k) && Below(b, k) {
      forall i | 0 <= i < |a + b| ensures (a + b)[i].key < k {
        if i >= |a| { assert (a + b)[i] == b[i - |a|]; }
      }
    }
    if Below(a + b, k) {
      forall i | 0 <= i < |a| ensures a[i].key < k {
        assert (a + b)[i] == a[i];
      }
      forall i | 0 <= i < |b| ensures b[i].key < k {
        assert (a + b)[|a| + i] == b[i];
      }
    }
  }

  lemma AboveConcat<V>(a: seq<Item<V>>, b: seq<Item<V>>, k: int)
    ensures Above(a + b, k) <==> Above(a, k) && Above(b, k)
  {
    if Above(a, k) && Above(b, k) {
      forall i | 0 <= i < |a + b| ensures k < (a + b)[i].key {
        if i >= |a| { assert (a + b)[i] == b[i - |a|]; }
      }
    }
    if Above(a + b, k) {
      forall i | 0 <= i < |a| ensures k < a[i].key {
        assert (a + b)[i] == a[i];
      }
      forall i | 0 <= i < |b| ensures k < b[i].key {
        assert (a + b)[|a| + i] == b[i];
      }
    }
  }

  /** In an ascending tree, everything left of a node (in its path and its left subtree) is below its key, everything right of it above. */
  lemma SplitAt<V>(z: Zipper<V>)
    requires z.focus.Node? && Ascending(InOrder(PlugZ(z)))
    ensures Below(Before(z.path), z.focus.key) && Below(InOrder(z.focus.left), z.focus.key)
    ensures Above(InOrder(z.focus.right), z.focus.key) && Above(After(z.path), z.focus.key)
  {
    var n := z.focus;
    var a := Before(z.path) + InOrder(n.left);
    var b := InOrder(n.right) + After(z.path);
    var x := Item(n.key, n.value);
    FocusOrder(z);
    assert a + ([x] + b) == a + [x] + b;
    AscendingAround(a, x, b);
    BelowConcat(Before(z.path), InOrder(n.left), n.key);
    AboveConcat(InOrder(n.right), After(z.path), n.key);
  }

  /** One step of the descent keeps every entry left of the path below `key` and every entry right of it above. */
  lemma LocateStep<V>(z: Zipper<V>, key: int)
    requires z.focus.Node? && Ascending(InOrder(PlugZ(z)))
    requires Below(Before(z.path), key) && Above(After(z.path), key)
    ensures key > z.focus.key ==>
      var p := Descend(z.focus, Right, z.path); Below(Before(p), key) && Above(After(p), key)
    ensures key < z.focus.key ==>
      var p := Descend(z.focus, Left, z.path); Below(Before(p), key) && Above(After(p), key)
  {
    var n := z.focus;
    var x := Item(n.key, n.value);
    SplitAt(z);
    if key > n.key {
      assert Before(Descend(n, Right, z.path)) == Before(z.path) + (InOrder(n.left) + [x]);
      BelowConcat(InOrder(n.left), [x], key);
      BelowConcat(Before(z.path), InOrder(n.left) + [x], key);
    }
    if key < n.key {
      assert After(Descend(n, Left, z.path)) == ([x] + InOrder(n.right)) + After(z.path);
      AboveConcat([x], InOrder(n.right), key);
      AboveConcat([x] + InOrder(n.right), After(z.path), key);
    }
  }

  /** Where the descent stops, the focus holds the key's entry, or the key is absent. */
  lemma LocateLookup<V>(z: Zipper<V>, key: int)
    requires Ascending(InOrder(PlugZ(z)))
    requires Below(Before(z.path), key) && Above(After(z.path), key)
    requires z.focus.Node? ==> z.focus.key == key
    ensures Lookup(InOrder(PlugZ(z)), key) == if z.focus.Node? then Some(z.focus.value) else None
  {
    var bef := Before(z.path);
    var aft := After(z.path);
    var f := z.focus;
    PlugInOrder(f, z.path);
    LookupConcat(bef + InOrder(f), aft, key);
    LookupConcat(bef, InOrder(f), key);
    if f.Node? {
      var x := Item(f.key, f.value);
      SplitAt(z);
      LookupConcat(InOrder(f.left) + [x], InOrder(f.right), key);
      LookupConcat(InOrder(f.left), [x], key);
    }
  }

  /**
   * The descent of tmap_get_node and tmap_put: right while the key is
   * greater, left while it is smaller, stopping at the key's node or at nil.
   */
  method Locate<V>(root: Tree<V>, key: int) returns (z: Zipper<V>)
    requires Ascending(InOrder(root))
    ensures PlugZ(z) == root
    ensures z.focus.Node? ==> z.focus.key == key
    ensures Below(Before(z.path), key) && Above(After(z.path), key)
    ensures Lookup(InOrder(root), key) == if z.focus.Node? then Some(z.focus.value) else None
    ensures RedBlack(root, BlackHeight(root)) ==>
      RedBlack(z.focus, BlackHeight(z.focus)) && PathOK(z.path, BlackHeight(z.focus), IsRed(z.focus))
  {
    ghost var rb := RedBlack(root, BlackHeight(root));
    z := Zipper(root, Top);
    while z.focus.Node? && z.focus.key != key
      invariant PlugZ(z) == root
      invariant Below(Before(z.path), key) && Above(After(z.path), key)
      invariant rb ==> RedBlack(z.focus, BlackHeight(z.focus)) && PathOK(z.path, BlackHeight(z.focus), IsRed(z.focus))
      decreases z.focus
    {
      var n := z.focus;
      LocateStep(z, key);
      var side := if key > n.key then Right else Left;
      if rb {
        DescendOK(n, side, z.path, BlackHeight(n));
        HeightOf(Child(n, side), if n.red then BlackHeight(n) else BlackHeight(n) - 1);
      }
      z := Zipper(Child(n, side), Descend(n, side, z.path));
    }
    LocateLookup(z, key);
  }

  // ---------------------------------------------------------------- insertion

  /** tmap_insert_rebalance: climb while the parent is red and has a parent, then blacken the root. */
  method InsertRebalance<V>(z0: Zipper<V>) returns (t: Tree<V>)
    requires InsInv(z0)
    ensures RedBlack(t, BlackHeight(t)) && !IsRed(t)
    ensures InOrder(t) == InOrder(PlugZ(z0))
  {
    var z := z0;
    while InsertGuard(z)
      invariant InsInv(z) && InOrder(PlugZ(z)) == InOrder(PlugZ(z0))
      decreases Depth(z.path)
    {
      if IsRed(z.path.up.other) {
        InsRecolorOK(z);
        z := InsRecolor(z);
      } else {
        if z.path.side != z.path.up.side {
          InsPreRotateOK(z);
          z := InsPreRotate(z);
        }
        InsRotateOK(z);
        z := InsRotate(z);
      }
    }
    InsertDone(z);
    t := Blacken(PlugZ(z));
  }

  lemma Regroup5<T>(a: seq<T>, b: seq<T>, x: seq<T>, c: seq<T>, d: seq<T>)
    ensures a + (b + x + c) + d == (a + b) + (x + (c + d))
  {
  }

  /** The entries of the whole tree around a node: left of it, the node's own, right of it. */
  lemma FocusOrder<V>(z: Zipper<V>)
    requires z.focus.Node?
    ensures InOrder(PlugZ(z)) ==
      (Before(z.path) + InOrder(z.focus.left)) + ([Item(z.focus.key, z.focus.value)] + (InOrder(z.focus.right) + After(z.path)))
  {
    var f := z.focus;
    PlugInOrder(f, z.path);
    assert InOrder(f) == InOrder(f.left) + [Item(f.key, f.value)] + InOrder(f.right);
    Regroup5(Before(z.path), InOrder(f.left), [Item(f.key, f.value)], InOrder(f.right), After(z.path));
  }

  lemma SortedHead<V>(x: Item<V>, rest: seq<Item<V>>, v: V)
    ensures PutSorted([x] + rest, x.key, v) == [Item(x.key, v)] + rest
    ensures RemoveSorted([x] + rest, x.key) == rest
  {
    assert ([x] + rest)[0] == x;
    assert ([x] + rest)[1..] == rest;
  }

  /** Replacing the value at the key's node is a put on the entry sequence. */
  lemma PutFoundOrder<V>(z: Zipper<V>, value: V)
    requires z.focus.Node? && Below(Before(z.path), z.focus.key) && Below(InOrder(z.focus.left), z.focus.key)
    ensures InOrder(Plug(z.focus.(value := value), z.path)) == PutSorted(InOrder(PlugZ(z)), z.focus.key, value)
  {
    var f := z.focus;
    var rest := InOrder(f.right) + After(z.path);
    FocusOrder(z);
    FocusOrder(Zipper(f.(value := value), z.path));
    BelowConcat(Before(z.path), InOrder(f.left), f.key);
    PutSortedPrefix(Before(z.path) + InOrder(f.left), [Item(f.key, f.value)] + rest, f.key, value);
    SortedHead(Item(f.key, f.value), rest, value);
  }

  /** A new leaf where the descent stopped is a put on the entry sequence. */
  lemma PutNewOrder<V>(z: Zipper<V>, key: int, value: V)
    requires z.focus.Nil? && Below(Before(z.path), key) && Above(After(z.path), key)
    ensures InOrder(Plug(Node(true, key, value, Nil, Nil), z.path)) == PutSorted(InOrder(PlugZ(z)), key, value)
  {
    var bef, aft := Before(z.path), After(z.path);
    var y := [Item(key, value)];
    PlugInOrder(z.focus, z.path);
    assert InOrder(PlugZ(z)) == bef + aft;
    PutSortedPrefix(bef, aft, key, value);
    assert PutSorted(aft, key, value) == y + aft;
    LeafOrder(z.path, key, value);
  }

  lemma LeafOrder<V>(p: Path<V>, key: int, value: V)
    ensures InOrder(Plug(Node(true, key, value, Nil, Nil), p)) == Before(p) + ([Item(key, value)] + After(p))
  {
    var n := Node(true, key, value, Nil, Nil);
    assert InOrder(n) == [Item(key, value)];
    PlugInOrder(n, p);
  }

  /**
   * tmap_put on the tree: an existing key gets the new value in place; a new
   * key becomes a red leaf where the descent stopped (a black root if the
   * tree was empty) and the tree is rebalanced.  The previous value is
   * returned, None when the key was new.
   */
  method TreePut<V>(root: Tree<V>, key: int, value: V) returns (t: Tree<V>, previous: Option<V>)
    requires Ascending(InOrder(root)) && RedBlack(root, BlackHeight(root))
    ensures previous == Lookup(InOrder(root), key)
    ensures InOrder(t) == PutSorted(InOrder(root), key, value)
    ensures RedBlack(t, BlackHeight(t))
    ensures previous.None? ==> !IsRed(t)
  {
    var z := Locate(root, key);
    var f := z.focus;
    if f.Node? {
      previous := Some(f.value);
      var f' := f.(value := value);
      assert RedBlack(f', BlackHeight(f));
      PlugRedBlack(f', z.path, BlackHeight(f));
      SplitAt(z);
      PutFoundOrder(z, value);
      t := Plug(f', z.path);
    } else {
      previous := None;
      var n := Node(true, key, value, Nil, Nil);
      PutNewOrder(z, key, value);
      if z.path.Top? {
        t := Node(false, key, value, Nil, Nil);
      } else {
        PathOKFrame0(z.path, 0, false);
        assert InsInv(Zipper(n, z.path));
        t := InsertRebalance(Zipper(n, z.path));
      }
    }
  }

  // ---------------------------------------------------------------- removal

  /** tmap_delete_rebalance: the four cases of the loop, each one lemma of RBTrees; then the node is blackened. */
  method DeleteRebalance<V>(z0: Zipper<V>) returns (t: Tree<V>)
    requires DelInv(z0)
    ensures RedBlack(t, BlackHeight(t))
    ensures InOrder(t) == InOrder(PlugZ(z0))
  {
    var z := z0;
    while DeleteGuard(z)
      invariant DelInv(z) && InOrder(PlugZ(z)) == InOrder(PlugZ(z0))
      decreases Depth(z.path) + if IsRed(z.focus) then 0 else 1
    {
      DelSibling(z);
      if IsRed(z.path.other) {
        DelRedSiblingOK(z);
        z := DelRedSibling(z);
      }
      var sib := z.path.other;
      if !IsRed(sib.left) && !IsRed(sib.right) {
        DelRecolorOK(z);
        z := DelRecolor(z);
      } else {
        if !IsRed(Child(sib, Opp(z.path.side))) {
          DelRotateSiblingOK(z);
          z := DelRotateSibling(z);
        }
        DelRotateParentOK(z);
        z := DelRotateParent(z);
      }
    }
    DeleteDone(z);
    t := Plug(Blacken(z.focus), z.path);
    PlugSameOrder(Blacken(z.focus), z.focus, z.path);
  }

  /** The child that replaces a node with at most one child has black height 0, and is black under a red node. */
  lemma SpliceChild<V>(s: Tree<V>)
    requires s.Node? && (s.left.Nil? || s.right.Nil?) && RedBlack(s, BlackHeight(s))
    ensures var child := if s.left.Nil? then s.right else s.left;
      RedBlack(child, 0) && BlackHeight(child) == 0 && BlackHeight(s) == (if s.red then 0 else 1) &&
      (s.red ==> !IsRed(child)) && InOrder(s.left) + InOrder(s.right) == InOrder(child)
  {
    var child := if s.left.Nil? then s.right else s.left;
    var hc := if s.red then BlackHeight(s) else BlackHeight(s) - 1;
    assert RedBlack(s.left, hc) && RedBlack(s.right, hc);
    assert RedBlack(child, hc) && hc == 0;
    HeightOf(child, 0);
  }

  /** Unlinking a node that has at most one child: the child takes its place, and a black node triggers rebalancing. */
  method Unlink<V>(s: Tree<V>, q: Path<V>) returns (t: Tree<V>)
    requires s.Node? && (s.left.Nil? || s.right.Nil?)
    requires RedBlack(s, BlackHeight(s)) && PathOK(q, BlackHeight(s), IsRed(s))
    ensures RedBlack(t, BlackHeight(t))
    ensures InOrder(t) == Before(q) + InOrder(s.left) + InOrder(s.right) + After(q)
  {
    var child := if s.left.Nil? then s.right else s.left;
    SpliceChild(s);
    if s.left.Nil? {
      assert InOrder(s.left) == [];
      assert Before(q) + InOrder(s.left) + InOrder(s.right) + After(q) == Before(q) + InOrder(child) + After(q);
    } else {
      assert InOrder(s.right) == [];
      assert Before(q) + InOrder(s.left) + InOrder(s.right) + After(q) == Before(q) + InOrder(child) + After(q);
    }
    if q.Top? {
      t := child;
    } else if !s.red {
      BlackenRoot(child, 0);
      PathOKFrame0(q, 1, false);
      t := DeleteRebalance(Zipper(child, q));
      PlugInOrder(child, q);
    } else {
      PathOKBlack(q, 0);
      PlugRedBlack(child, q, 0);
      HeightOf(Plug(child, q), BlackHeight(Plug(child, q)));
      t := Plug(child, q);
      PlugInOrder(child, q);
    }
  }

  lemma {:induction false} AppendOrder<V>(lower: Path<V>, upper: Path<V>)
    ensures Before(AppendPath(lower, upper)) == Before(upper) + Before(lower)
    ensures After(AppendPath(lower, upper)) == After(lower) + After(upper)
    decreases lower
  {
    if lower.Up? {
      AppendOrder(lower.up, upper);
    }
  }

  /**
   * tmap_remove_node: a node with two children takes the key and value of
   * its in-order predecessor (the rightmost node of its left subtree), which
   * is unlinked instead.
   */
  method RemoveNode<V>(z: Zipper<V>) returns (t: Tree<V>)
    requires z.focus.Node?
    requires RedBlack(z.focus, BlackHeight(z.focus)) && PathOK(z.path, BlackHeight(z.focus), IsRed(z.focus))
    ensures RedBlack(t, BlackHeight(t))
    ensures InOrder(t) == Before(z.path) + InOrder(z.focus.left) + InOrder(z.focus.right) + After(z.path)
  {
    var n := z.focus;
    if n.left.Nil? || n.right.Nil? {
      t := Unlink(n, z.path);
      return;
    }
    var hn := BlackHeight(n);
    DescendOK(n, Left, z.path, hn);
    HeightOf(n.left, if n.red then hn else hn - 1);
    var frame := Descend(n, Left, z.path);
    var lower: Path<V> := Top;
    var u := n.left;
    while u.right.Node?
      invariant u.Node? && Plug(u, lower) == n.left && After(lower) == []
      invariant RedBlack(u, BlackHeight(u)) && PathOK(AppendPath(lower, frame), BlackHeight(u), IsRed(u))
      decreases u
    {
      DescendOK(u, Right, AppendPath(lower, frame), BlackHeight(u));
      HeightOf(u.right, if u.red then BlackHeight(u) else BlackHeight(u) - 1);
      assert Descend(u, Right, AppendPath(lower, frame)) == AppendPath(Descend(u, Right, lower), frame);
      lower := Descend(u, Right, lower);
      u := u.right;
    }
    var frame' := Up(Left, n.red, u.key, u.value, n.right, z.path);
    PathOKKeys(lower, frame, u.key, u.value, BlackHeight(u), IsRed(u));
    assert frame' == frame.(key := u.key, value := u.value);
    t := Unlink(u, AppendPath(lower, frame'));
    PredecessorOrder(z, lower, u);
  }

  lemma Regroup<T>(a: seq<T>, b: seq<T>, c: seq<T>, y: seq<T>, f: seq<T>, g: seq<T>)
    ensures (a + b) + c + [] + ((y + f) + g) == a + (b + (c + y)) + f + g
  {
  }

  lemma PredecessorPath<V>(n: Tree<V>, p: Path<V>, lower: Path<V>, u: Tree<V>)
    requires n.Node? && u.Node? && After(lower) == []
    ensures var q := AppendPath(lower, Up(Left, n.red, u.key, u.value, n.right, p));
      Before(q) == Before(p) + Before(lower) && After(q) == ([Item(u.key, u.value)] + InOrder(n.right)) + After(p)
  {
    AppendOrder(lower, Up(Left, n.red, u.key, u.value, n.right, p));
  }

  lemma PredecessorLeft<V>(lower: Path<V>, u: Tree<V>)
    requires u.Node? && u.right.Nil? && After(lower) == []
    ensures InOrder(Plug(u, lower)) == Before(lower) + (InOrder(u.left) + [Item(u.key, u.value)])
  {
    PlugInOrder(u, lower);
    assert InOrder(u) == InOrder(u.left) + [Item(u.key, u.value)];
  }

  /** Moving the predecessor's entry into the node and unlinking the predecessor keeps the order of the other entries. */
  lemma PredecessorOrder<V>(z: Zipper<V>, lower: Path<V>, u: Tree<V>)
    requires z.focus.Node? && u.Node? && u.right.Nil?
    requires Plug(u, lower) == z.focus.left && After(lower) == []
    ensures var q := AppendPath(lower, Up(Left, z.focus.red, u.key, u.value, z.focus.right, z.path));
      Before(q) + InOrder(u.left) + InOrder(u.right) + After(q) ==
      Before(z.path) + InOrder(z.focus.left) + InOrder(z.focus.right) + After(z.path)
  {
    var n := z.focus;
    PredecessorPath(n, z.path, lower, u);
    PredecessorLeft(lower, u);
    assert InOrder(u.right) == [];
    Regroup(Before(z.path), Before(lower), InOrder(u.left), [Item(u.key, u.value)], InOrder(n.right), After(z.path));
  }

  /** Splicing out the key's node is a remove on the entry sequence. */
  lemma RemoveFoundOrder<V>(z: Zipper<V>)
    requires z.focus.Node? && Below(Before(z.path), z.focus.key) && Below(InOrder(z.focus.left), z.focus.key)
    ensures RemoveSorted(InOrder(PlugZ(z)), z.focus.key) ==
      Before(z.path) + InOrder(z.focus.left) + InOrder(z.focus.right) + After(z.path)
  {
    var f := z.focus;
    var rest := InOrder(f.right) + After(z.path);
    FocusOrder(z);
    BelowConcat(Before(z.path), InOrder(f.left), f.key);
    RemoveSortedPrefix(Before(z.path) + InOrder(f.left), [Item(f.key, f.value)] + rest, f.key);
    SortedHead(Item(f.key, f.value), rest, f.value);
    assert (Before(z.path) + InOrder(f.left)) + rest == Before(z.path) + InOrder(f.left) + InOrder(f.right) + After(z.path);
  }

  /** Where the descent ends at nil, removing the key changes nothing. */
  lemma RemoveAbsentOrder<V>(z: Zipper<V>, key: int)
    requires z.focus.Nil? && Below(Before(z.path), key) && Above(After(z.path), key)
    ensures RemoveSorted(InOrder(PlugZ(z)), key) == InOrder(PlugZ(z))
  {
    var bef, aft := Before(z.path), After(z.path);
    PlugInOrder(z.focus, z.path);
    assert InOrder(PlugZ(z)) == bef + aft;
    RemoveSortedPrefix(bef, aft, key);
    RemoveAbsent(aft, key);
  }

  /** tmap_remove on the tree: the removed value, None when the key was absent. */
  method TreeRemove<V>(root: Tree<V>, key: int) returns (t: Tree<V>, removed: Option<V>)
    requires Ascending(InOrder(root)) && RedBlack(root, BlackHeight(root))
    ensures removed == Lookup(InOrder(root), key)
    ensures InOrder(t) == RemoveSorted(InOrder(root), key)
    ensures RedBlack(t, BlackHeight(t))
  {
    var z := Locate(root, key);
    if z.focus.Nil? {
      RemoveAbsentOrder(z, key);
      t, removed := root, None;
    } else {
      SplitAt(z);
      RemoveFoundOrder(z);
      removed := Some(z.focus.value);
      t := RemoveNode(z);
    }
  }

  lemma {:induction false} RemoveAbsent<V>(s: seq<Item<V>>, k: int)
    requires Above(s, k)
    ensures RemoveSorted(s, k) == s
  {
    if s != [] {
      RemoveAbsent(s[1..], k);
    }
  }

  // ---------------------------------------------------------------- first, last, successor

  /** The position of the focus node in the in-order sequence of the whole tree. */
  function Pos<V>(z: Zipper<V>): nat
    requires z.focus.Node?
  {
    |Before(z.path)| + |InOrder(z.focus.left)|
  }

  lemma PosItem<V>(z: Zipper<V>)
    requires z.focus.Node?
    ensures Pos(z) < |InOrder(PlugZ(z))|
    ensures InOrder(PlugZ(z))[Pos(z)] == Item(z.focus.key, z.focus.value)
  {
    PlugInOrder(z.focus, z.path);
    var f := z.focus;
    assert InOrder(PlugZ(z)) == (Before(z.path) + InOrder(f.left)) + [Item(f.key, f.value)] + (InOrder(f.right) + After(z.path));
  }

  /** tmap_first_node, with the path to the node: the leftmost node, nil for the empty tree. */
  method FirstNode<V>(t: Tree<V>) returns (z: Zipper<V>)
    ensures PlugZ(z) == t
    ensures z.focus.Nil? <==> t.Nil?
    ensures z.focus.Node? ==> Pos(z) == 0 && InOrder(t)[0] == Item(z.focus.key, z.focus.value)
  {
    z := Zipper(t, Top);
    while z.focus.Node? && z.focus.left.Node?
      invariant PlugZ(z) == t && Before(z.path) == [] && (z.focus.Nil? ==> t.Nil?)
      decreases z.focus
    {
      z := Zipper(z.focus.left, Descend(z.focus, Left, z.path));
    }
    if z.focus.Node? {
      PosItem(z);
    }
  }

  /** tmap_last_node, with the path to the node: the rightmost node, nil for the empty tree. */
  method LastNode<V>(t: Tree<V>) returns (z: Zipper<V>)
    ensures PlugZ(z) == t
    ensures z.focus.Nil? <==> t.Nil?
    ensures z.focus.Node? ==> Pos(z) == |InOrder(t)| - 1 && InOrder(t)[|InOrder(t)| - 1] == Item(z.focus.key, z.focus.value)
  {
    z := Zipper(t, Top);
    while z.focus.Node? && z.focus.right.Node?
      invariant PlugZ(z) == t && After(z.path) == [] && (z.focus.Nil? ==> t.Nil?)
      decreases z.focus
    {
      z := Zipper(z.focus.right, Descend(z.focus, Right, z.path));
    }
    if z.focus.Node? {
      PosItem(z);
      PlugInOrder(z.focus, z.path);
    }
  }

  /**
   * successor: the leftmost node of the right subtree if there is one;
   * otherwise the first ancestor reached from its left side, or nil past the
   * last node.
   */
  method Successor<V>(z: Zipper<V>) returns (z': Zipper<V>)
    requires z.focus.Node?
    ensures Pos(z) + 1 < |InOrder(PlugZ(z))| ==> z'.focus.Node? && PlugZ(z') == PlugZ(z) && Pos(z') == Pos(z) + 1
    ensures Pos(z) + 1 == |InOrder(PlugZ(z))| ==> z'.focus.Nil?
  {
    PosItem(z);
    var n := z.focus;
    if n.right.Node? {
      z' := Zipper(n.right, Descend(n, Right, z.path));
      assert |Before(z'.path)| == Pos(z) + 1;
      while z'.focus.left.Node?
        invariant z'.focus.Node? && PlugZ(z') == PlugZ(z) && |Before(z'.path)| == Pos(z) + 1
        decreases z'.focus
      {
        z' := Zipper(z'.focus.left, Descend(z'.focus, Left, z'.path));
      }
      PosItem(z');
      return;
    }
    var c := z;
    while c.path.Up? && c.path.side == Right
      invariant c.focus.Node? && PlugZ(c) == PlugZ(z)
      invariant |Before(c.path)| + |InOrder(c.focus)| == Pos(z) + 1
      decreases Depth(c.path)
    {
      AttachInOrder(c.path, c.focus);
      c := Zipper(Attach(c.path, c.focus), c.path.up);
    }
    if c.path.Top? {
      z' := Zipper(Nil, Top);
    } else {
      AttachInOrder(c.path, c.focus);
      z' := Zipper(Attach(c.path, c.focus), c.path.up);
      PosItem(z');
      assert Pos(z') == Pos(z) + 1;
    }
  }

  // ---------------------------------------------------------------- the map object

  function Values<V>(s: seq<Item<V>>): (r: seq<V>)
    ensures |r| == |s| && forall i :: 0 <= i < |s| ==> r[i] == s[i].value
  {
    if s == [] then [] else [s[0].value] + Values(s[1..])
  }

  /** TMap: the root of the tree and the number of entries. */
  class TMap<V> {
    var root: Tree<V>
    var size: nat

    /** The entries in ascending key order. */
    ghost function Entries(): seq<Item<V>>
      reads this
    {
      InOrder(root)
    }

    ghost predicate Valid()
      reads this
    {
      RedBlack(root, BlackHeight(root)) && Ascending(InOrder(root)) && size == |InOrder(root)|
    }

    /** tmap_new */
    constructor()
      ensures Valid() && Entries() == []
    {
      root := Nil;
      size := 0;
    }

    /** tmap_get: the key's value, None when it is absent. */
    method Get(key: int) returns (r: Option<V>)
      requires Valid()
      ensures r == Lookup(Entries(), key)
    {
      var z := Locate(root, key);
      r := if z.focus.Node? then Some(z.focus.value) else None;
    }

    /** tmap_contains_key */
    method ContainsKey(key: int) returns (b: bool)
      requires Valid()
      ensures b <==> Lookup(Entries(), key).Some?
    {
      var z := Locate(root, key);
      b := z.focus.Node?;
    }

    /** tmap_put: the previous value, None when the key is new and the size grows by one. */
    method Put(key: int, value: V) returns (previous: Option<V>)
      requires Valid()
      modifies this
      ensures Valid()
      ensures previous == Lookup(old(Entries()), key)
      ensures Entries() == PutSorted(old(Entries()), key, value)
      ensures size == old(size) + if previous.None? then 1 else 0
      ensures previous.None? ==> !IsRed(root)
    {
      PutSortedAscending(InOrder(root), key, value);
      root, previous := TreePut(root, key, value);
      if previous.None? {
        size := size + 1;
      }
    }

    /** tmap_remove: the removed value, None when the key was absent and nothing changes. */
    method Remove(key: int) returns (removed: Option<V>)
      requires Valid()
      modifies this
      ensures Valid()
      ensures removed == Lookup(old(Entries()), key)
      ensures Entries() == RemoveSorted(old(Entries()), key)
      ensures size == old(size) - if removed.Some? then 1 else 0
    {
      RemoveSortedAscending(InOrder(root), key);
      root, removed := TreeRemove(root, key);
      if removed.Some? {
        size := size - 1;
      }
    }

    /** tmap_clear */
    method Clear()
      modifies this
      ensures Valid() && Entries() == []
    {
      root := Nil;
      size := 0;
    }

    /** tmap_first_key: the smallest key, None for the empty map. */
    method FirstKey() returns (r: Option<int>)
      requires Valid()
      ensures r.None? <==> Entries() == []
      ensures r.Some? ==> r.value == Entries()[0].key && forall i :: 0 <= i < |Entries()| ==> r.value <= Entries()[i].key
    {
      var z := FirstNode(root);
      r := if z.focus.Node? then Some(z.focus.key) else None;
    }

    /** tmap_last_key: the largest key, None for the empty map. */
    method LastKey() returns (r: Option<int>)
      requires Valid()
      ensures r.None? <==> Entries() == []
      ensures r.Some? ==> r.value == Entries()[|Entries()| - 1].key && forall i :: 0 <= i < |Entries()| ==> Entries()[i].key <= r.value
    {
      var z := LastNode(root);
      r := if z.focus.Node? then Some(z.focus.key) else None;
    }

    /** tmap_first_value: the value of the smallest key, None for the empty map. */
    method FirstValue() returns (r: Option<V>)
      requires Valid()
      ensures r.None? <==> Entries() == []
      ensures r.Some? ==> r.value == Entries()[0].value
    {
      var z := FirstNode(root);
      r := if z.focus.Node? then Some(z.focus.value) else None;
    }

    /** tmap_last_value: the value of the largest key, None for the empty map. */
    method LastValue() returns (r: Option<V>)
      requires Valid()
      ensures r.None? <==> Entries() == []
      ensures r.Some? ==> r.value == Entries()[|Entries()| - 1].value
    {
      var z := LastNode(root);
      r := if z.focus.Node? then Some(z.focus.value) else None;
    }
  }

  /** The iterator of tmap_iterator: the node to yield next, nil when done. */
  class TMapIterator<V> {
    var next: Zipper<V>
    ghost var tree: Tree<V>
    ghost var index: nat

    ghost predicate Valid()
      reads this
    {
      index <= |InOrder(tree)| &&
      (next.focus.Node? ==> PlugZ(next) == tree && Pos(next) == index && index < |InOrder(tree)|) &&
      (next.focus.Nil? ==> index == |InOrder(tree)|)
    }

    /** tmap_iterator: start at the first node. */
    constructor(m: TMap<V>)
      ensures Valid() && tree == m.root && index == 0
    {
      var z := FirstNode(m.root);
      next := z;
      tree := m.root;
      index := 0;
      if z.focus.Node? {
        PosItem(z);
      }
    }

    /** tmap_iterator_has_next */
    method HasNext() returns (b: bool)
      requires Valid()
      ensures b <==> index < |InOrder(tree)|
    {
      b := next.focus.Node?;
    }

    /** tmap_iterator_next: the value at the current position, then on to the successor; None when done. */
    method Next() returns (v: Option<V>)
      requires Valid()
      modifies this
      ensures Valid() && tree == old(tree)
      ensures old(index) < |InOrder(tree)| ==> v == Some(InOrder(tree)[old(index)].value) && index == old(index) + 1
      ensures old(index) == |InOrder(tree)| ==> v.None? && index == old(index)
    {
      if next.focus.Nil? {
        return None;
      }
      PosItem(next);
      v := Some(next.focus.value);
      next := Successor(next);
      index := index + 1;
    }
  }

  /** Draining a fresh iterator yields every value once, in ascending key order. */
  method IterateValues<V>(m: TMap<V>) returns (vs: seq<V>)
    ensures vs == Values(InOrder(m.root))
  {
    var it := new TMapIterator(m);
    ghost var s := InOrder(m.root);
    vs := [];
    var more := it.HasNext();
    while more
      invariant it.Valid()
      invariant it.tree == m.root
      invariant it.index == |vs|
      invariant |vs| <= |s|
      invariant forall i :: 0 <= i < |vs| ==> vs[i] == s[i].value
      invariant more <==> it.index < |s|
      decreases |s| - it.index
    {
      var v := it.Next();
      vs := vs + [v.value];
      more := it.HasNext();
    }
    assert vs == Values(s);
  }
}
