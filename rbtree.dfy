/**
 * The red-black tree behind `TMap`, on values.  A node's `parent` pointer
 * is modelled by a zipper: the subtree in focus together with the path of
 * frames from its parent up to the root, each frame recording which child
 * the subtree below it is, the parent's colour, key and value, and the
 * parent's other child.  A rotation or a recolouring that the program
 * does through pointers is a rebuilding of the few frames it touches.
 * Keys are integers ordered by `<`: the comparator the map is given.
 */
module RBTrees {
  import opened Wres

  datatype Side = Left | Right

  datatype Tree<V> = Nil | Node(red: bool, key: int, value: V, left: Tree<V>, right: Tree<V>)

  datatype Path<V> = Top | Up(side: Side, red: bool, key: int, value: V, other: Tree<V>, up: Path<V>)

  datatype Zipper<V> = Zipper(focus: Tree<V>, path: Path<V>)

  datatype Item<V> = Item(key: int, value: V)

  function Opp(s: Side): Side
  {
    if s == Left then Right else Left
  }

  /** The sentinel `nil` is black. */
  predicate IsRed<V>(t: Tree<V>)
  {
    t.Node? && t.red
  }

  function Blacken<V>(t: Tree<V>): (r: Tree<V>)
    ensures !IsRed(r) && InOrder(r) == InOrder(t)
  {
    if t.Node? then t.(red := false) else t
  }

  function Child<V>(t: Tree<V>, s: Side): Tree<V>
    requires t.Node?
  {
    if s == Left then t.left else t.right
  }

  /** A node with `c` as its child on side `s` and `o` on the other side. */
  function Make<V>(s: Side, red: bool, key: int, value: V, c: Tree<V>, o: Tree<V>): (r: Tree<V>)
    ensures r.Node? && Child(r, s) == c && Child(r, Opp(s)) == o && r.red == red && r.key == key && r.value == value
  {
    if s == Left then Node(red, key, value, c, o) else Node(red, key, value, o, c)
  }

  /** The parent of `t` as the frame `p` describes it. */
  function Attach<V>(p: Path<V>, t: Tree<V>): Tree<V>
    requires p.Up?
  {
    Make(p.side, p.red, p.key, p.value, t, p.other)
  }

  /** The whole tree the zipper stands in. */
  function Plug<V>(t: Tree<V>, p: Path<V>): Tree<V>
    decreases p
  {
    if p.Top? then t else Plug(Attach(p, t), p.up)
  }

  function PlugZ<V>(z: Zipper<V>): Tree<V>
  {
    Plug(z.focus, z.path)
  }

  /** The frame for the child of `t` on side `s`, above it `up`. */
  function Descend<V>(t: Tree<V>, s: Side, up: Path<V>): (p: Path<V>)
    requires t.Node?
    ensures p.Up? && Attach(p, Child(t, s)) == t && p.up == up && p.side == s && p.red == t.red
  {
    Up(s, t.red, t.key, t.value, Child(t, Opp(s)), up)
  }

  function Depth<V>(p: Path<V>): nat
  {
    if p.Top? then 0 else 1 + Depth(p.up)
  }

  /** The path `lower`, continued at its top by `upper`. */
  function AppendPath<V>(lower: Path<V>, upper: Path<V>): Path<V>
  {
    if lower.Top? then upper else Up(lower.side, lower.red, lower.key, lower.value, lower.other, AppendPath(lower.up, upper))
  }

  // ---------------------------------------------------------------- order

  /** The entries in key order: left subtree, node, right subtree. */
  function InOrder<V>(t: Tree<V>): (s: seq<Item<V>>)
    ensures t.Node? <==> |s| > 0
  {
    match t
    case Nil => []
    case Node(_, k, v, l, r) => InOrder(l) + [Item(k, v)] + InOrder(r)
  }

  /** The entries the path's frames put before the focus, and after it. */
  function Before<V>(p: Path<V>): seq<Item<V>>
  {
    match p
    case Top => []
    case Up(s, _, k, v, o, up) => Before(up) + (if s == Left then [] else InOrder(o) + [Item(k, v)])
  }

  function After<V>(p: Path<V>): seq<Item<V>>
  {
    match p
    case Top => []
    case Up(s, _, k, v, o, up) => (if s == Left then [Item(k, v)] + InOrder(o) else []) + After(up)
  }

  lemma AttachInOrder<V>(p: Path<V>, t: Tree<V>)
    requires p.Up?
    ensures InOrder(Attach(p, t)) ==
      (if p.side == Left then [] else InOrder(p.other) + [Item(p.key, p.value)]) + InOrder(t) +
      (if p.side == Left then [Item(p.key, p.value)] + InOrder(p.other) else [])
  {
  }

  /** Plugging a subtree into a path puts its entries between the path's. */
  lemma {:induction false} PlugInOrder<V>(t: Tree<V>, p: Path<V>)
    ensures InOrder(Plug(t, p)) == Before(p) + InOrder(t) + After(p)
    decreases p
  {
    if p.Up? {
      PlugInOrder(Attach(p, t), p.up);
      AttachInOrder(p, t);
    }
  }

  /** Subtrees with the same entries give trees with the same entries. */
  lemma PlugSameOrder<V>(a: Tree<V>, b: Tree<V>, p: Path<V>)
    requires InOrder(a) == InOrder(b)
    ensures InOrder(Plug(a, p)) == InOrder(Plug(b, p))
  {
    PlugInOrder(a, p);
    PlugInOrder(b, p);
  }

  lemma {:induction false} PlugAppend<V>(t: Tree<V>, lower: Path<V>, upper: Path<V>)
    ensures Plug(t, AppendPath(lower, upper)) == Plug(Plug(t, lower), upper)
    decreases lower
  {
    if lower.Up? {
      PlugAppend(Attach(lower, t), lower.up, upper);
    }
  }

  /** `rotate_left`: the right child rises; the node keeps its colour, as does the child. */
  function RotateLeft<V>(t: Tree<V>): (r: Tree<V>)
    requires t.Node? && t.right.Node?
    ensures InOrder(r) == InOrder(t)
    ensures r == Node(t.right.red, t.right.key, t.right.value,
                      Node(t.red, t.key, t.value, t.left, t.right.left), t.right.right)
  {
    var c := t.right;
    Node(c.red, c.key, c.value, Node(t.red, t.key, t.value, t.left, c.left), c.right)
  }

  /** `rotate_right`: the left child rises. */
  function RotateRight<V>(t: Tree<V>): (r: Tree<V>)
    requires t.Node? && t.left.Node?
    ensures InOrder(r) == InOrder(t)
    ensures r == Node(t.left.red, t.left.key, t.left.value,
                      t.left.left, Node(t.red, t.key, t.value, t.left.right, t.right))
  {
    var c := t.left;
    Node(c.red, c.key, c.value, c.left, Node(t.red, t.key, t.value, c.right, t.right))
  }

  /** The rotation that moves the node down to side `s`. */
  function Rotate<V>(t: Tree<V>, s: Side): (r: Tree<V>)
    requires t.Node? && Child(t, Opp(s)).Node?
    ensures InOrder(r) == InOrder(t)
    ensures r.Node? && Child(r, s).Node?
    ensures r.red == Child(t, Opp(s)).red && r.key == Child(t, Opp(s)).key
    ensures Child(r, Opp(s)) == Child(Child(t, Opp(s)), Opp(s))
    ensures Child(r, s) == Make(s, t.red, t.key, t.value, Child(t, s), Child(Child(t, Opp(s)), s))
  {
    if s == Left then RotateLeft(t) else RotateRight(t)
  }

  /** Keys strictly increase along the sequence. */
  ghost predicate Ascending<V>(s: seq<Item<V>>)
  {
    forall i, j :: 0 <= i < j < |s| ==> s[i].key < s[j].key
  }

  ghost predicate Below<V>(s: seq<Item<V>>, k: int)
  {
    forall i :: 0 <= i < |s| ==> s[i].key < k
  }

  ghost predicate Above<V>(s: seq<Item<V>>, k: int)
  {
    forall i :: 0 <= i < |s| ==> k < s[i].key
  }

  /** In an ascending sequence, what lies before an entry is below it and what lies after is above. */
  lemma AscendingAround<V>(a: seq<Item<V>>, x: Item<V>, b: seq<Item<V>>)
    requires Ascending(a + [x] + b)
    ensures Below(a, x.key) && Above(b, x.key) && Ascending(a) && Ascending(b)
  {
    var s := a + [x] + b;
    assert forall i :: 0 <= i < |a| ==> s[i] == a[i];
    assert forall i :: 0 <= i < |b| ==> s[|a| + 1 + i] == b[i];
    assert s[|a|] == x;
  }

  // ---------------------------------------------------------------- colours

  /** `t` has no red node with a red child and `h` black nodes on every path down to `nil`. */
  ghost predicate RedBlack<V>(t: Tree<V>, h: int)
  {
    match t
    case Nil => h == 0
    case Node(red, _, _, l, r) =>
      var hc := if red then h else h - 1;
      (red ==> !IsRed(l) && !IsRed(r)) && RedBlack(l, hc) && RedBlack(r, hc)
  }

  /** The black nodes on the leftmost path. */
  function BlackHeight<V>(t: Tree<V>): nat
  {
    if t.Nil? then 0 else BlackHeight(t.left) + (if t.red then 0 else 1)
  }

  lemma {:induction false} HeightOf<V>(t: Tree<V>, h: int)
    requires RedBlack(t, h)
    ensures h == BlackHeight(t)
  {
    if t.Node? {
      HeightOf(t.left, if t.red then h else h - 1);
    }
  }

  /**
   * Every frame's other child is a red-black tree of the height its side
   * needs, no red frame sits on a red child or has a red other child, and
   * `childRed` says whether the subtree below the first frame is red.
   */
  ghost predicate PathOK<V>(p: Path<V>, h: int, childRed: bool)
    decreases p
  {
    match p
    case Top => true
    case Up(_, red, _, _, o, up) =>
      RedBlack(o, h) && (red ==> !childRed && !IsRed(o)) && PathOK(up, if red then h else h + 1, red)
  }

  /** As `PathOK`, except that the first frame may be red above a red subtree. */
  ghost predicate Frame0<V>(p: Path<V>, h: int)
  {
    match p
    case Top => true
    case Up(_, red, _, _, o, up) =>
      RedBlack(o, h) && (red ==> !IsRed(o)) && PathOK(up, if red then h else h + 1, red)
  }

  /** A red-black subtree in a fitting path makes a red-black tree. */
  lemma {:induction false} PlugRedBlack<V>(t: Tree<V>, p: Path<V>, h: int)
    requires RedBlack(t, h) && PathOK(p, h, IsRed(t))
    ensures RedBlack(Plug(t, p), BlackHeight(Plug(t, p)))
    decreases p
  {
    if p.Top? {
      HeightOf(t, h);
    } else {
      var n := Attach(p, t);
      assert RedBlack(n, if p.red then h else h + 1);
      PlugRedBlack(n, p.up, if p.red then h else h + 1);
    }
  }

  /** Going down one step keeps the zipper fitting. */
  lemma DescendOK<V>(t: Tree<V>, s: Side, p: Path<V>, h: int)
    requires t.Node? && RedBlack(t, h) && PathOK(p, h, IsRed(t))
    ensures var hc := if t.red then h else h - 1;
      RedBlack(Child(t, s), hc) && PathOK(Descend(t, s, p), hc, IsRed(Child(t, s)))
  {
  }

  /** Blackening the root keeps a red-black tree one, perhaps one taller. */
  lemma BlackenRoot<V>(t: Tree<V>, h: int)
    requires RedBlack(t, h)
    ensures RedBlack(Blacken(t), if IsRed(t) then h + 1 else h)
  {
  }

  /** A path that fits a red subtree fits a black one. */
  lemma PathOKBlack<V>(p: Path<V>, h: int)
    requires PathOK(p, h, true)
    ensures PathOK(p, h, false)
  {
  }

  /** Frame colours and other children, not keys, decide whether a path fits. */
  lemma {:induction false} PathOKKeys<V>(lower: Path<V>, upper: Path<V>, k: int, v: V, h: int, c: bool)
    requires upper.Up? && PathOK(AppendPath(lower, upper), h, c)
    ensures PathOK(AppendPath(lower, upper.(key := k, value := v)), h, c)
    decreases lower
  {
    if lower.Up? {
      PathOKKeys(lower.up, upper, k, v, if lower.red then h else h + 1, lower.red);
    }
  }

  lemma PathOKFrame0<V>(p: Path<V>, h: int, c: bool)
    requires PathOK(p, h, c)
    ensures Frame0(p, h)
  {
  }

  // ---------------------------------------------------------------- insert rebalance

  /**
   * What `tmap_insert_rebalance` keeps: the node is red, its subtree is
   * red-black, and the path fits it except that its parent may be red too.
   */
  ghost predicate InsInv<V>(z: Zipper<V>)
  {
    z.focus.Node? && z.focus.red && RedBlack(z.focus, BlackHeight(z.focus)) && Frame0(z.path, BlackHeight(z.focus))
  }

  /** The loop runs while the node's parent is red and has a parent. */
  predicate InsertGuard<V>(z: Zipper<V>)
  {
    z.path.Up? && z.path.red && z.path.up.Up?
  }

  /** The uncle is red: parent and uncle turn black, the grandparent red, and the grandparent is the new node. */
  function InsRecolor<V>(z: Zipper<V>): Zipper<V>
    requires InsertGuard(z)
  {
    var p := z.path;
    var g := p.up;
    Zipper(Attach(g.(red := true, other := Blacken(g.other)), Attach(p.(red := false), z.focus)), g.up)
  }

  /** The node is the inner child: the parent becomes the node and is rotated down, away from the uncle's side. */
  function InsPreRotate<V>(z: Zipper<V>): Zipper<V>
    requires InsertGuard(z) && z.focus.Node? && z.path.side != z.path.up.side
  {
    var p := z.path;
    var g := p.up;
    var r := Rotate(Attach(p, z.focus), g.side);
    Zipper(Child(r, g.side), Descend(r, g.side, g))
  }

  /** The node is the outer child: parent black, grandparent red, and the grandparent rotated down towards the uncle. */
  function InsRotate<V>(z: Zipper<V>): Zipper<V>
    requires InsertGuard(z) && z.path.side == z.path.up.side
  {
    var p := z.path;
    var g := p.up;
    var y := Attach(g.(red := true), Attach(p.(red := false), z.focus));
    var r := Rotate(y, Opp(g.side));
    Zipper(Child(r, g.side), Descend(r, g.side, g.up))
  }

  lemma InsRecolorOK<V>(z: Zipper<V>)
    requires InsInv(z) && InsertGuard(z) && IsRed(z.path.up.other)
    ensures var z' := InsRecolor(z);
      InsInv(z') && InOrder(PlugZ(z')) == InOrder(PlugZ(z)) && Depth(z'.path) + 2 == Depth(z.path)
  {
    var x := z.focus;
    var p := z.path;
    var g := p.up;
    var h := BlackHeight(x);
    BlackenRoot(g.other, h);
    var pn := Attach(p.(red := false), x);
    assert RedBlack(pn, h + 1);
    var n := Attach(g.(red := true, other := Blacken(g.other)), pn);
    assert RedBlack(n, h + 1);
    HeightOf(n, h + 1);
    PathOKFrame0(g.up, h + 1, false);
    AttachInOrder(p.(red := false), x);
    AttachInOrder(p, x);
    AttachInOrder(g.(red := true, other := Blacken(g.other)), pn);
    AttachInOrder(g, Attach(p, x));
    PlugSameOrder(n, Attach(g, Attach(p, x)), g.up);
    assert PlugZ(z) == Plug(Attach(p, x), g);
    assert Plug(Attach(p, x), g) == Plug(Attach(g, Attach(p, x)), g.up);
  }

  lemma InsPreRotateOK<V>(z: Zipper<V>)
    requires InsInv(z) && InsertGuard(z) && z.path.side != z.path.up.side
    ensures var z' := InsPreRotate(z);
      InsInv(z') && InsertGuard(z') && z'.path.up == z.path.up && z'.path.side == z'.path.up.side &&
      InOrder(PlugZ(z')) == InOrder(PlugZ(z)) && Depth(z'.path) == Depth(z.path)
  {
    var x := z.focus;
    var p := z.path;
    var g := p.up;
    var h := BlackHeight(x);
    var r := Rotate(Attach(p, x), g.side);
    var c := Child(r, g.side);
    assert c == Make(g.side, true, p.key, p.value, p.other, Child(x, g.side));
    assert RedBlack(c, h);
    HeightOf(c, h);
    PlugSameOrder(r, Attach(p, x), g);
  }

  lemma InsRotateOK<V>(z: Zipper<V>)
    requires InsInv(z) && InsertGuard(z) && z.path.side == z.path.up.side && !IsRed(z.path.up.other)
    ensures var z' := InsRotate(z);
      InsInv(z') && !InsertGuard(z') && InOrder(PlugZ(z')) == InOrder(PlugZ(z)) && Depth(z'.path) < Depth(z.path)
  {
    var x := z.focus;
    var p := z.path;
    var g := p.up;
    var h := BlackHeight(x);
    var y := Attach(g.(red := true), Attach(p.(red := false), x));
    var r := Rotate(y, Opp(g.side));
    var gn := Child(r, Opp(g.side));
    assert gn == Make(g.side, true, g.key, g.value, p.other, g.other);
    assert RedBlack(gn, h);
    PathOKFrame0(g.up, h + 1, false);
    AttachInOrder(p.(red := false), x);
    AttachInOrder(p, x);
    AttachInOrder(g.(red := true), Attach(p.(red := false), x));
    AttachInOrder(g, Attach(p, x));
    PlugSameOrder(r, Attach(g, Attach(p, x)), g.up);
    assert PlugZ(z) == Plug(Attach(p, x), g);
    assert Plug(Attach(p, x), g) == Plug(Attach(g, Attach(p, x)), g.up);
  }

  /** When the loop stops, blackening the root leaves a red-black tree. */
  lemma InsertDone<V>(z: Zipper<V>)
    requires InsInv(z) && !InsertGuard(z)
    ensures RedBlack(Blacken(PlugZ(z)), BlackHeight(Blacken(PlugZ(z))))
  {
    var x := z.focus;
    var h := BlackHeight(x);
    if z.path.Top? {
      BlackenRoot(x, h);
      HeightOf(Blacken(x), h + 1);
    } else if !z.path.red {
      PlugRedBlack(x, z.path, h);
      BlackenRoot(PlugZ(z), BlackHeight(PlugZ(z)));
      HeightOf(Blacken(PlugZ(z)), if IsRed(PlugZ(z)) then BlackHeight(PlugZ(z)) + 1 else BlackHeight(PlugZ(z)));
    } else {
      var n := Blacken(Attach(z.path, x));
      assert PlugZ(z) == Plug(Attach(z.path, x), Top);
      assert RedBlack(n, h + 1);
      HeightOf(n, h + 1);
    }
  }

  // ---------------------------------------------------------------- delete rebalance

  /**
   * What `tmap_delete_rebalance` keeps: the subtree in focus is red-black
   * once its root is black, and the path fits a subtree one black node
   * taller, so the focus carries an extra black.
   */
  ghost predicate DelInv<V>(z: Zipper<V>)
  {
    var h := BlackHeight(z.focus);
    RedBlack(Blacken(z.focus), if IsRed(z.focus) then h + 1 else h) && Frame0(z.path, h + 1)
  }

  /** The loop runs while the node is black and not the root. */
  predicate DeleteGuard<V>(z: Zipper<V>)
  {
    z.path.Up? && !IsRed(z.focus)
  }

  /** The sibling is red: it turns black, the parent red, and the parent is rotated down towards the node. */
  function DelRedSibling<V>(z: Zipper<V>): Zipper<V>
    requires z.path.Up? && z.path.other.Node?
  {
    var p := z.path;
    var x := Attach(p.(red := true, other := Blacken(p.other)), z.focus);
    var r := Rotate(x, p.side);
    var c := Child(r, p.side);
    Zipper(Child(c, p.side), Descend(c, p.side, Descend(r, p.side, p.up)))
  }

  /** Both children of the black sibling are black: the sibling turns red and the parent is the new node. */
  function DelRecolor<V>(z: Zipper<V>): Zipper<V>
    requires z.path.Up? && z.path.other.Node?
  {
    var p := z.path;
    Zipper(Attach(p.(other := p.other.(red := true)), z.focus), p.up)
  }

  /** Only the sibling's near child is red: it turns black, the sibling red, and the sibling is rotated away from the node. */
  function DelRotateSibling<V>(z: Zipper<V>): Zipper<V>
    requires z.path.Up? && z.path.other.Node? && Child(z.path.other, z.path.side).Node?
  {
    var p := z.path;
    var sib := p.other;
    var s1 := Make(p.side, true, sib.key, sib.value, Blacken(Child(sib, p.side)), Child(sib, Opp(p.side)));
    Zipper(z.focus, p.(other := Rotate(s1, Opp(p.side))))
  }

  /**
   * The sibling's far child is red: the sibling takes the parent's colour,
   * the parent and the far child turn black, the parent is rotated down
   * towards the node, and the root is the new node.
   */
  function DelRotateParent<V>(z: Zipper<V>): Zipper<V>
    requires z.path.Up? && z.path.other.Node? && Child(z.path.other, Opp(z.path.side)).Node?
  {
    var p := z.path;
    var sib := p.other;
    var s1 := Make(p.side, p.red, sib.key, sib.value, Child(sib, p.side), Blacken(Child(sib, Opp(p.side))));
    var x := Attach(p.(red := false, other := s1), z.focus);
    Zipper(Plug(Rotate(x, p.side), p.up), Top)
  }

  /** A doubly black node has a real sibling. */
  lemma DelSibling<V>(z: Zipper<V>)
    requires DelInv(z) && DeleteGuard(z)
    ensures z.path.other.Node?
  {
  }

  lemma DelRedSiblingOK<V>(z: Zipper<V>)
    requires DelInv(z) && DeleteGuard(z) && IsRed(z.path.other)
    ensures var z' := DelRedSibling(z);
      DelInv(z') && DeleteGuard(z') && z'.path.red && z'.path.other.Node? && !IsRed(z'.path.other) &&
      Depth(z'.path) == Depth(z.path) + 1 && InOrder(PlugZ(z')) == InOrder(PlugZ(z))
  {
    var f := z.focus;
    var p := z.path;
    var h := BlackHeight(f);
    var p1 := p.(red := true, other := Blacken(p.other));
    var x := Attach(p1, f);
    var r := Rotate(x, p.side);
    var c := Child(r, p.side);
    var q := Descend(r, p.side, p.up);
    assert Child(c, p.side) == f;
    assert PlugZ(DelRedSibling(z)) == Plug(c, q);
    assert Plug(c, q) == Plug(r, p.up);
    AttachInOrder(p1, f);
    AttachInOrder(p, f);
    PlugSameOrder(r, Attach(p, f), p.up);
    assert PlugZ(z) == Plug(Attach(p, f), p.up);
  }

  lemma DelRecolorOK<V>(z: Zipper<V>)
    requires DelInv(z) && DeleteGuard(z) && z.path.other.Node? && !IsRed(z.path.other)
    requires !IsRed(z.path.other.left) && !IsRed(z.path.other.right)
    ensures var z' := DelRecolor(z);
      DelInv(z') && Depth(z'.path) + 1 == Depth(z.path) && (z.path.red ==> IsRed(z'.focus)) &&
      InOrder(PlugZ(z')) == InOrder(PlugZ(z))
  {
    var f := z.focus;
    var p := z.path;
    var h := BlackHeight(f);
    var sr := p.other.(red := true);
    assert RedBlack(sr, h);
    HeightOf(sr, h);
    var n := Attach(p.(other := sr), f);
    if p.red {
      assert RedBlack(Blacken(n), h + 1);
      PathOKFrame0(p.up, h + 1, true);
    } else {
      assert RedBlack(n, h + 1);
      HeightOf(n, h + 1);
      PathOKFrame0(p.up, h + 2, false);
    }
    AttachInOrder(p.(other := sr), f);
    AttachInOrder(p, f);
    PlugSameOrder(n, Attach(p, f), p.up);
    assert PlugZ(z) == Plug(Attach(p, f), p.up);
  }

  lemma DelRotateSiblingOK<V>(z: Zipper<V>)
    requires DelInv(z) && DeleteGuard(z) && z.path.other.Node? && !IsRed(z.path.other)
    requires IsRed(Child(z.path.other, z.path.side)) && !IsRed(Child(z.path.other, Opp(z.path.side)))
    ensures var z' := DelRotateSibling(z);
      DelInv(z') && DeleteGuard(z') && z'.path.other.Node? && !IsRed(z'.path.other) &&
      IsRed(Child(z'.path.other, Opp(z'.path.side))) && Depth(z'.path) == Depth(z.path) &&
      InOrder(PlugZ(z')) == InOrder(PlugZ(z))
  {
    var f := z.focus;
    var p := z.path;
    var h := BlackHeight(f);
    var sib := p.other;
    var near := Child(sib, p.side);
    var s1 := Make(p.side, true, sib.key, sib.value, Blacken(near), Child(sib, Opp(p.side)));
    var s2 := Rotate(s1, Opp(p.side));
    assert RedBlack(sib, h + 1);
    assert RedBlack(near, h);
    assert RedBlack(Child(near, Opp(p.side)), h);
    var inner := Child(s2, Opp(p.side));
    assert inner == Make(Opp(p.side), true, sib.key, sib.value, Child(sib, Opp(p.side)), Child(near, Opp(p.side)));
    assert RedBlack(inner, h);
    assert RedBlack(s2, h + 1);
    AttachInOrder(p.(other := s2), f);
    AttachInOrder(p, f);
    assert InOrder(s2) == InOrder(sib);
    PlugSameOrder(Attach(p.(other := s2), f), Attach(p, f), p.up);
    assert PlugZ(z) == Plug(Attach(p, f), p.up);
    assert PlugZ(DelRotateSibling(z)) == Plug(Attach(p.(other := s2), f), p.up);
  }

  lemma DelRotateParentOK<V>(z: Zipper<V>)
    requires DelInv(z) && DeleteGuard(z) && z.path.other.Node? && !IsRed(z.path.other)
    requires IsRed(Child(z.path.other, Opp(z.path.side)))
    ensures var z' := DelRotateParent(z);
      DelInv(z') && z'.path.Top? && InOrder(PlugZ(z')) == InOrder(PlugZ(z))
  {
    var f := z.focus;
    var p := z.path;
    var h := BlackHeight(f);
    var sib := p.other;
    var s1 := Make(p.side, p.red, sib.key, sib.value, Child(sib, p.side), Blacken(Child(sib, Opp(p.side))));
    var x := Attach(p.(red := false, other := s1), f);
    var r := Rotate(x, p.side);
    var lo := Child(r, p.side);
    assert lo == Make(p.side, false, p.key, p.value, f, Child(sib, p.side));
    assert RedBlack(lo, h + 1);
    BlackenRoot(Child(sib, Opp(p.side)), h);
    var hr := if p.red then h + 1 else h + 2;
    assert RedBlack(r, hr);
    PlugRedBlack(r, p.up, hr);
    var t := Plug(r, p.up);
    BlackenRoot(t, BlackHeight(t));
    AttachInOrder(p.(red := false, other := s1), f);
    AttachInOrder(p, f);
    assert InOrder(s1) == InOrder(sib);
    PlugSameOrder(r, Attach(p, f), p.up);
    assert PlugZ(z) == Plug(Attach(p, f), p.up);
  }

  /** When the loop stops, blackening the node leaves a red-black tree. */
  lemma DeleteDone<V>(z: Zipper<V>)
    requires DelInv(z) && !DeleteGuard(z)
    ensures var t := Plug(Blacken(z.focus), z.path); RedBlack(t, BlackHeight(t))
  {
    var f := z.focus;
    var h := BlackHeight(f);
    var hb := if IsRed(f) then h + 1 else h;
    if z.path.Top? {
      PlugRedBlack(Blacken(f), Top, hb);
    } else {
      PathOKFrame0(z.path, h + 1, false);
      assert PathOK(z.path, h + 1, false);
      PlugRedBlack(Blacken(f), z.path, hb);
    }
  }

  // ---------------------------------------------------------------- the map as a sorted sequence

  /** The value of the first entry with key `k`. */
  function Lookup<V>(s: seq<Item<V>>, k: int): (r: Option<V>)
    ensures r.None? <==> forall i :: 0 <= i < |s| ==> s[i].key != k
  {
    if s == [] then None
    else if s[0].key == k then Some(s[0].value)
    else
      assert forall i :: 1 <= i < |s| ==> s[i] == s[1..][i - 1];
      Lookup(s[1..], k)
  }

  /** Putting `k` into an ascending sequence: its entry is replaced, or a new one goes where the order puts it. */
  function PutSorted<V>(s: seq<Item<V>>, k: int, v: V): seq<Item<V>>
  {
    if s == [] || k < s[0].key then [Item(k, v)] + s
    else if k == s[0].key then [Item(k, v)] + s[1..]
    else [s[0]] + PutSorted(s[1..], k, v)
  }

  /** Removing the entry of `k`, if any. */
  function RemoveSorted<V>(s: seq<Item<V>>, k: int): seq<Item<V>>
  {
    if s == [] then []
    else if s[0].key == k then s[1..]
    else [s[0]] + RemoveSorted(s[1..], k)
  }

  lemma {:induction false} LookupConcat<V>(a: seq<Item<V>>, b: seq<Item<V>>, k: int)
    ensures Lookup(a + b, k) == if Lookup(a, k).Some? then Lookup(a, k) else Lookup(b, k)
  {
    if a != [] {
      assert (a + b)[0] == a[0];
      assert (a + b)[1..] == a[1..] + b;
      LookupConcat(a[1..], b, k);
    } else {
      assert a + b == b;
    }
  }

  /** After a put, `k` has the new value and every other key keeps its own. */
  lemma {:induction false} PutSortedLookup<V>(s: seq<Item<V>>, k: int, v: V, k': int)
    ensures Lookup(PutSorted(s, k, v), k') == if k' == k then Some(v) else Lookup(s, k')
  {
    if s != [] && k > s[0].key {
      PutSortedLookup(s[1..], k, v, k');
    }
  }

  lemma {:induction false} PutSortedAbove<V>(s: seq<Item<V>>, k: int, v: V, x: int)
    requires Above(s, x) && x < k
    ensures Above(PutSorted(s, k, v), x)
  {
    if s != [] && k > s[0].key {
      PutSortedAbove(s[1..], k, v, x);
    }
  }

  /** A put keeps the sequence ascending, and adds an entry exactly when the key was absent. */
  lemma {:induction false} PutSortedAscending<V>(s: seq<Item<V>>, k: int, v: V)
    requires Ascending(s)
    ensures Ascending(PutSorted(s, k, v))
    ensures |PutSorted(s, k, v)| == |s| + if Lookup(s, k).None? then 1 else 0
  {
    if s != [] {
      AscendingAround([], s[0], s[1..]);
      if k < s[0].key {
        assert Above(s, k);
      } else if k > s[0].key {
        PutSortedAscending(s[1..], k, v);
        PutSortedAbove(s[1..], k, v, s[0].key);
        var r := PutSorted(s[1..], k, v);
        assert forall i :: 0 < i < |[s[0]] + r| ==> ([s[0]] + r)[i] == r[i - 1];
      }
    }
  }

  /** After a remove, `k` is absent and every other key keeps its value. */
  lemma {:induction false} RemoveSortedLookup<V>(s: seq<Item<V>>, k: int, k': int)
    requires Ascending(s)
    ensures Lookup(RemoveSorted(s, k), k') == if k' == k then None else Lookup(s, k')
  {
    if s != [] {
      AscendingAround([], s[0], s[1..]);
      if s[0].key != k {
        RemoveSortedLookup(s[1..], k, k');
      }
    }
  }

  lemma {:induction false} RemoveSortedAbove<V>(s: seq<Item<V>>, k: int, x: int)
    requires Above(s, x)
    ensures Above(RemoveSorted(s, k), x)
  {
    if s != [] && s[0].key != k {
      RemoveSortedAbove(s[1..], k, x);
    }
  }

  /** A remove keeps the sequence ascending, and drops an entry exactly when the key was present. */
  lemma {:induction false} RemoveSortedAscending<V>(s: seq<Item<V>>, k: int)
    requires Ascending(s)
    ensures Ascending(RemoveSorted(s, k))
    ensures |RemoveSorted(s, k)| == |s| - if Lookup(s, k).Some? then 1 else 0
  {
    if s != [] {
      AscendingAround([], s[0], s[1..]);
      if s[0].key != k {
        RemoveSortedAscending(s[1..], k);
        RemoveSortedAbove(s[1..], k, s[0].key);
        var r := RemoveSorted(s[1..], k);
        assert forall i :: 0 < i < |[s[0]] + r| ==> ([s[0]] + r)[i] == r[i - 1];
      }
    }
  }

  /** Entries below the key pass through a put unchanged. */
  lemma {:induction false} PutSortedPrefix<V>(a: seq<Item<V>>, c: seq<Item<V>>, k: int, v: V)
    requires Below(a, k)
    ensures PutSorted(a + c, k, v) == a + PutSorted(c, k, v)
  {
    if a != [] {
      var s := a + c;
      assert s[0] == a[0] && s[0].key < k;
      assert s[1..] == a[1..] + c;
      PutSortedPrefix(a[1..], c, k, v);
      assert PutSorted(s, k, v) == [a[0]] + (a[1..] + PutSorted(c, k, v));
      assert a == [a[0]] + a[1..];
    } else {
      assert a + c == c;
    }
  }

  /** Entries below the key pass through a remove unchanged. */
  lemma {:induction false} RemoveSortedPrefix<V>(a: seq<Item<V>>, c: seq<Item<V>>, k: int)
    requires Below(a, k)
    ensures RemoveSorted(a + c, k) == a + RemoveSorted(c, k)
  {
    if a != [] {
      var s := a + c;
      assert s[0] == a[0] && s[0].key < k;
      assert s[1..] == a[1..] + c;
      RemoveSortedPrefix(a[1..], c, k);
      assert RemoveSorted(s, k) == [a[0]] + (a[1..] + RemoveSorted(c, k));
      assert a == [a[0]] + a[1..];
    } else {
      assert a + c == c;
    }
  }
}
