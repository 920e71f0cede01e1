/** Red-black trees as values: the shape that the linked nodes of a tree represent, its invariants,
    and what insertion does to it. */
module RbShape {
  import opened SizeClass

  /** A node; its key never changes. */
  class RbNode {
    const key: int
    var red: bool
    var parent: RbNode?
    var left: RbNode?
    var right: RbNode?
    var prev: RbNode?
    var next: RbNode?
    var data: int

    /** rbtree_node_new. */
    constructor (key: int, data: int)
      ensures this.key == key && this.data == data && red
      ensures parent == null && left == null && right == null && prev == null && next == null
    {
      this.key, this.data, red := key, data, true;
      parent, left, right, prev, next := null, null, null, null, null;
    }
  }

  datatype Tree = Leaf | Node(l: Tree, n: RbNode, red: bool, r: Tree)

  function Root(t: Tree): RbNode?
  {
    if t.Leaf? then null else t.n
  }

  function IsRed(t: Tree): bool { t.Node? && t.red }

  function Inorder(t: Tree): seq<RbNode>
  {
    if t.Leaf? then [] else Inorder(t.l) + [t.n] + Inorder(t.r)
  }

  /** What surrounds a subtree, from its parent up to the root. */
  datatype Frame = Frame(n: RbNode, red: bool, other: Tree, left: bool)

  type Ctx = seq<Frame>

  function Up(f: Frame, t: Tree): Tree
  {
    if f.left then Node(t, f.n, f.red, f.other) else Node(f.other, f.n, f.red, t)
  }

  function Plug(t: Tree, c: Ctx): Tree
    decreases |c|
  {
    if c == [] then t else Plug(Up(c[0], t), c[1..])
  }

  /** The nodes before and after a subtree. */
  function Before(c: Ctx): seq<RbNode>
    decreases |c|
  {
    if c == [] then []
    else Before(c[1..]) + if c[0].left then [] else Inorder(c[0].other) + [c[0].n]
  }

  function After(c: Ctx): seq<RbNode>
    decreases |c|
  {
    if c == [] then []
    else (if c[0].left then [c[0].n] + Inorder(c[0].other) else []) + After(c[1..])
  }

  lemma OnTheLeft(b: seq<RbNode>, t: seq<RbNode>, n: seq<RbNode>, o: seq<RbNode>, a: seq<RbNode>)
    ensures b + (t + n + o) + a == b + [] + t + (n + o + a)
  {
  }

  lemma OnTheRight(b: seq<RbNode>, o: seq<RbNode>, n: seq<RbNode>, t: seq<RbNode>, a: seq<RbNode>)
    ensures b + (o + n + t) + a == b + (o + n) + t + ([] + a)
  {
  }

  lemma {:induction false} PlugInorder(t: Tree, c: Ctx)
    ensures Inorder(Plug(t, c)) == Before(c) + Inorder(t) + After(c)
    decreases |c|
  {
    if c != [] {
      PlugInorder(Up(c[0], t), c[1..]);
      var f := c[0];
      if f.left {
        OnTheLeft(Before(c[1..]), Inorder(t), [f.n], Inorder(f.other), After(c[1..]));
      } else {
        OnTheRight(Before(c[1..]), Inorder(f.other), [f.n], Inorder(t), After(c[1..]));
      }
    }
  }

  // ---- colours ----

  /** No red node has a red child, and every path down passes h black nodes. */
  predicate RbOk(t: Tree, h: nat)
  {
    if t.Leaf? then h == 0
    else if t.red then !IsRed(t.l) && !IsRed(t.r) && RbOk(t.l, h) && RbOk(t.r, h)
    else h > 0 && RbOk(t.l, h - 1) && RbOk(t.r, h - 1)
  }

  ghost predicate RedBlack(t: Tree)
  {
    !IsRed(t) && exists h :: RbOk(t, h)
  }

  /** A tree of black height h fits in the hole, save that its root and the hole's parent may both be red. */
  predicate CtxOk(c: Ctx, h: nat)
    decreases |c|
  {
    c == [] ||
      (var f := c[0];
       && RbOk(f.other, h) && (f.red ==> !IsRed(f.other) && |c| > 1 && !c[1].red)
       && CtxOk(c[1..], if f.red then h else h + 1))
  }

  lemma {:induction false} PlugOk(t: Tree, c: Ctx, h: nat)
    requires RbOk(t, h) && CtxOk(c, h) && (IsRed(t) ==> c != [] && !c[0].red)
    ensures RedBlack(Plug(t, c))
    decreases |c|
  {
    if c != [] {
      PlugOk(Up(c[0], t), c[1..], if c[0].red then h else h + 1);
    } else {
      assert RbOk(t, h);
    }
  }

  /** A context of a red-black tree fits the subtree in its hole. */
  lemma {:induction false} UnplugOk(t: Tree, c: Ctx)
    requires RedBlack(Plug(t, c))
    ensures exists h :: RbOk(t, h) && CtxOk(c, h)
    ensures IsRed(t) ==> c != [] && !c[0].red
    decreases |c|
  {
    if c == [] {
      var h :| RbOk(t, h);
    } else {
      var f := c[0];
      UnplugOk(Up(f, t), c[1..]);
      var h :| RbOk(Up(f, t), h) && CtxOk(c[1..], h);
      var k := if f.red then h else h - 1;
      assert RbOk(t, k) && CtxOk(c, k);
    }
  }

  // ---- insertion: the repair ----

  /** The tree after repair of the red node at the root of t, whose parent may be red too. */
  function Repair(t: Tree, c: Ctx): Tree
    requires t.Node?
    decreases |c|
  {
    if c == [] then t.(red := false)
    else if !c[0].red || |c| == 1 then Plug(t, c)
    else if IsRed(c[1].other) then
      Repair(Up(c[1].(red := true, other := c[1].other.(red := false)), Up(c[0].(red := false), t)), c[2..])
    else Plug(Turned(Inner(t, c[0], c[1]).0, Inner(t, c[0], c[1]).1, c[1]), c[2..])
  }

  /** Case 4: a red node between its red parent and its grandparent changes places with its parent. */
  function Inner(t: Tree, p: Frame, g: Frame): (r: (Tree, Frame))
    requires t.Node?
  {
    if !p.left && g.left then (Node(p.other, p.n, p.red, t.l), Frame(t.n, t.red, t.r, true))
    else if p.left && !g.left then (Node(t.r, p.n, p.red, p.other), Frame(t.n, t.red, t.l, false))
    else (t, p)
  }

  /** Case 5: the parent takes the grandparent's place and both are recoloured. */
  function Turned(t: Tree, p: Frame, g: Frame): Tree
  {
    if p.left then Node(t, p.n, false, Node(p.other, g.n, true, g.other))
    else Node(Node(g.other, g.n, true, p.other), p.n, false, t)
  }

  /** The repair ends in a red-black tree with the same nodes in the same order. */
  lemma {:induction false} RepairOk(t: Tree, c: Ctx, h: nat)
    requires t.Node? && t.red && RbOk(t, h) && CtxOk(c, h)
    ensures RedBlack(Repair(t, c)) && Inorder(Repair(t, c)) == Inorder(Plug(t, c))
    decreases |c|
  {
    if c == [] {
      assert RbOk(t.(red := false), h + 1);
    } else if !c[0].red {
      PlugOk(t, c, h);
    } else {
      assert |c| > 1 && !c[1].red && CtxOk(c[1..], h) && c[1..][0] == c[1] && c[1..][1..] == c[2..];
      var p, g, rest := c[0], c[1], c[2..];
      assert Plug(t, c) == Plug(Up(g, Up(p, t)), rest);
      if IsRed(g.other) {
        var t' := Up(g.(red := true, other := g.other.(red := false)), Up(p.(red := false), t));
        RepairOk(t', rest, h + 1);
        SameInorder(Up(g, Up(p, t)), t', rest);
      } else {
        var (t1, p1) := Inner(t, p, g);
        TurnedOk(t, p, g, h);
        PlugOk(Turned(t1, p1, g), rest, h + 1);
        SameInorder(Up(g, Up(p, t)), Turned(t1, p1, g), rest);
      }
    }
  }

  lemma TurnedOk(t: Tree, p: Frame, g: Frame, h: nat)
    requires t.Node? && t.red && RbOk(t, h) && p.red && !g.red && RbOk(p.other, h) && !IsRed(p.other)
    requires RbOk(g.other, h) && !IsRed(g.other)
    ensures var (t1, p1) := Inner(t, p, g);
      && RbOk(Turned(t1, p1, g), h + 1) && !IsRed(Turned(t1, p1, g))
      && Inorder(Turned(t1, p1, g)) == Inorder(Up(g, Up(p, t)))
      && p1.left == g.left && p1.red
  {
    var (t1, p1) := Inner(t, p, g);
    assert t1.Node? && t1.red && RbOk(t1, h) && RbOk(p1.other, h) && !IsRed(p1.other);
    TurnedInorder(t, p, g);
  }

  lemma TurnedInorder(t: Tree, p: Frame, g: Frame)
    requires t.Node?
    ensures Inorder(Turned(Inner(t, p, g).0, Inner(t, p, g).1, g)) == Inorder(Up(g, Up(p, t)))
  {
    hide Inorder;
    var a, b, u, o := Inorder(t.l), Inorder(t.r), Inorder(g.other), Inorder(p.other);
    InorderParts(t, p, g);
    if !p.left && g.left {
      Reassociate(o, [p.n], a, [t.n], b);
      Reassociate(o + [p.n] + a, [t.n], b, [g.n], u);
    } else if p.left && !g.left {
      Reassociate(a, [t.n], b, [p.n], o);
      Reassociate(u, [g.n], a, [t.n], b + [p.n] + o);
    } else if p.left {
      Reassociate(Inorder(t), [p.n], o, [g.n], u);
    } else {
      Reassociate(u, [g.n], o, [p.n], Inorder(t));
    }
  }

  lemma Reassociate(a: seq<RbNode>, x: seq<RbNode>, b: seq<RbNode>, y: seq<RbNode>, c: seq<RbNode>)
    ensures (a + x + b) + y + c == a + x + (b + y + c)
  {
  }

  lemma InorderParts(t: Tree, p: Frame, g: Frame)
    requires t.Node?
    ensures Inorder(t) == Inorder(t.l) + [t.n] + Inorder(t.r)
    ensures var s := if p.left then Inorder(t) + [p.n] + Inorder(p.other) else Inorder(p.other) + [p.n] + Inorder(t);
      Inorder(Up(g, Up(p, t))) == if g.left then s + [g.n] + Inorder(g.other) else Inorder(g.other) + [g.n] + s
    ensures var (t1, p1) := Inner(t, p, g);
      Inorder(Turned(t1, p1, g))
        == if !p.left && g.left then
             (Inorder(p.other) + [p.n] + Inorder(t.l)) + [t.n] + (Inorder(t.r) + [g.n] + Inorder(g.other))
           else if p.left && !g.left then
             (Inorder(g.other) + [g.n] + Inorder(t.l)) + [t.n] + (Inorder(t.r) + [p.n] + Inorder(p.other))
           else if p.left then Inorder(t) + [p.n] + (Inorder(p.other) + [g.n] + Inorder(g.other))
           else (Inorder(g.other) + [g.n] + Inorder(p.other)) + [p.n] + Inorder(t)
  {
  }

  lemma SameInorder(t: Tree, t': Tree, c: Ctx)
    requires Inorder(t) == Inorder(t')
    ensures Inorder(Plug(t, c)) == Inorder(Plug(t', c))
  {
    PlugInorder(t, c);
    PlugInorder(t', c);
  }

  // ---- height ----

  function Height(t: Tree): nat
  {
    if t.Leaf? then 0 else 1 + if Height(t.l) > Height(t.r) then Height(t.l) else Height(t.r)
  }

  lemma {:induction false} BlackHeight(t: Tree, h: nat)
    requires RbOk(t, h)
    ensures Height(t) <= 2 * h + if IsRed(t) then 1 else 0
    ensures Pow2(h) <= |Inorder(t)| + 1
  {
    if t.Node? {
      var k := if t.red then h else h - 1;
      BlackHeight(t.l, k);
      BlackHeight(t.r, k);
    }
  }

  /** No path is longer than twice the logarithm of the number of nodes plus one. */
  lemma HeightLog(t: Tree)
    requires RedBlack(t)
    ensures Height(t) <= 2 * Log2(|Inorder(t)| + 1)
  {
    var h :| RbOk(t, h);
    BlackHeight(t, h);
    var n := |Inorder(t)| + 1;
    if Log2(n) < h { Pow2Mono(Log2(n) + 1, h); }
  }
}
