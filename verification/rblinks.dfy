/** How the link fields of nodes represent a red-black tree, and what rotations and recolourings
    of the linked nodes do to the tree they represent. */
module RbLinks {
  import opened Sequences
  import opened RbShape

  /** The tree fields of a node. */
  datatype Links = Links(parent: RbNode?, left: RbNode?, right: RbNode?, red: bool)

  type Skeleton = map<RbNode, Links>

  /** The fields lay out t below parent p. */
  predicate Shape(m: Skeleton, t: Tree, p: RbNode?)
  {
    t.Node? ==>
      && t.n in m && m[t.n] == Links(p, Root(t.l), Root(t.r), t.red)
      && Shape(m, t.l, t.n) && Shape(m, t.r, t.n)
  }

  function ParentOf(c: Ctx): RbNode?
  {
    if c == [] then null else c[0].n
  }

  /** The fields lay out what surrounds a subtree whose root is r. */
  predicate CtxShape(m: Skeleton, c: Ctx, r: RbNode?)
    decreases |c|
  {
    c == [] ||
      (var f := c[0];
       && f.n in m
       && m[f.n] == Links(ParentOf(c[1..]), if f.left then r else Root(f.other), if f.left then Root(f.other)
           else r, f.red)
       && Shape(m, f.other, f.n) && CtxShape(m, c[1..], f.n))
  }

  lemma {:induction false} Unplug(m: Skeleton, t: Tree, c: Ctx)
    ensures Shape(m, Plug(t, c), null) <==> Shape(m, t, ParentOf(c)) && CtxShape(m, c, Root(t))
    decreases |c|
  {
    if c != [] { Unplug(m, Up(c[0], t), c[1..]); }
  }

  predicate Agree(m: Skeleton, m': Skeleton, s: seq<RbNode>)
  {
    forall x :: x in s && x in m ==> x in m' && m'[x] == m[x]
  }

  lemma {:induction false} ShapeFrame(m: Skeleton, m': Skeleton, t: Tree, p: RbNode?)
    requires Shape(m, t, p) && Agree(m, m', Inorder(t))
    ensures Shape(m', t, p)
  {
    if t.Node? {
      ShapeFrame(m, m', t.l, t.n);
      ShapeFrame(m, m', t.r, t.n);
    }
  }

  lemma {:induction false} CtxFrame(m: Skeleton, m': Skeleton, c: Ctx, r: RbNode?)
    requires CtxShape(m, c, r) && Agree(m, m', Before(c) + After(c))
    ensures CtxShape(m', c, r)
    decreases |c|
  {
    if c != [] {
      var f := c[0];
      assert forall x :: x in Inorder(f.other) || x == f.n || x in Before(c[1..]) + After(c[1..]) ==>
        x in Before(c) + After(c);
      ShapeFrame(m, m', f.other, f.n);
      CtxFrame(m, m', c[1..], f.n);
    }
  }

  /** Four stretches of a sequence without duplicates have no element in common. */
  lemma FourApart(a: seq<RbNode>, b: seq<RbNode>, c: seq<RbNode>, d: seq<RbNode>)
    requires NoDup(a + b + c + d)
    ensures NoDup(a + d) && NoDup(b) && NoDup(c)
    ensures forall x :: x in b ==> x !in c && x !in a + d
    ensures forall x :: x in c ==> x !in a + d
    ensures forall x :: x in a + b + c + d <==> x in b || x in c || x in a + d
  {
    var s := a + b + c + d;
    assert forall i :: 0 <= i < |a| ==> s[i] == a[i];
    assert forall i :: 0 <= i < |b| ==> s[|a| + i] == b[i];
    assert forall i :: 0 <= i < |c| ==> s[|a| + |b| + i] == c[i];
    assert forall i :: 0 <= i < |d| ==> s[|a| + |b| + |c| + i] == d[i];
    var t := a + d;
    forall i, j | 0 <= i < j < |t| ensures t[i] != t[j] {
      var i', j' := if i < |a| then i else i + |b| + |c|, if j < |a| then j else j + |b| + |c|;
      assert s[i'] == t[i] && s[j'] == t[j];
    }
  }

  lemma PlugApart(t: Tree, c: Ctx)
    requires NoDup(Inorder(Plug(t, c)))
    ensures NoDup(Inorder(t)) && NoDup(Before(c) + After(c)) && forall x :: x in Inorder(t) ==>
      x !in Before(c) + After(c)
    ensures forall x :: x in Inorder(Plug(t, c)) <==> x in Inorder(t) || x in Before(c) + After(c)
  {
    hide Inorder, Before, After, Plug, NoDup;
    PlugInorder(t, c);
    assert Inorder(Plug(t, c)) == Before(c) + Inorder(t) + [] + After(c);
    FourApart(Before(c), Inorder(t), [], After(c));
  }

  lemma NodeApart(t: Tree)
    requires t.Node? && NoDup(Inorder(t))
    ensures NoDup(Inorder(t.l)) && NoDup(Inorder(t.r)) && t.n !in Inorder(t.l) && t.n !in Inorder(t.r)
    ensures forall x :: x in Inorder(t.l) ==> x !in Inorder(t.r)
    ensures forall x :: x in Inorder(t) <==> x in Inorder(t.l) || x in Inorder(t.r) || x == t.n
  {
    hide NoDup;
    var a, b := Inorder(t.l), Inorder(t.r);
    assert Inorder(t) == [] + a + [t.n] + b;
    FourApart([], a, [t.n], b);
    assert [] + b == b;
  }

  lemma RootIn(m: Skeleton, t: Tree, p: RbNode?)
    requires Shape(m, t, p)
    ensures t.Node? ==> Root(t) != null && Root(t) in Inorder(t) && Root(t) in m
  {
  }

  // ---- changing what hangs below a context ----

  /** The slot of the context that holds the subtree now holds r. */
  function Rehang(m: Skeleton, c: Ctx, r: RbNode?): Skeleton
    requires c != [] ==> c[0].n in m
  {
    if c == [] then m
    else if c[0].left then m[c[0].n := m[c[0].n].(left := r)]
    else m[c[0].n := m[c[0].n].(right := r)]
  }

  lemma RehangShape(m: Skeleton, c: Ctx, r: RbNode?, r': RbNode?)
    requires CtxShape(m, c, r) && NoDup(Before(c) + After(c))
    ensures (c != [] ==> c[0].n in m) && CtxShape(Rehang(m, c, r'), c, r')
    ensures forall x :: x in m && (c == [] || x != c[0].n) ==> x in Rehang(m, c, r') && Rehang(m, c, r')[x] == m[x]
  {
    if c != [] {
      var m', f := Rehang(m, c, r'), c[0];
      FrameApart(c);
      ShapeFrame(m, m', f.other, f.n);
      CtxFrame(m, m', c[1..], f.n);
    }
  }

  lemma FrameApart(c: Ctx)
    requires c != [] && NoDup(Before(c) + After(c))
    ensures c[0].n !in Inorder(c[0].other) && c[0].n !in Before(c[1..]) + After(c[1..])
    ensures c[0].n in Before(c) + After(c)
    ensures forall x :: x in Inorder(c[0].other) ==> x in Before(c) + After(c)
    ensures forall x :: x in Before(c[1..]) + After(c[1..]) ==> x in Before(c) + After(c)
    ensures NoDup(Before(c[1..]) + After(c[1..])) && NoDup(Inorder(c[0].other))
    ensures forall x :: x in Inorder(c[0].other) ==> x !in Before(c[1..]) + After(c[1..])
  {
    FrameParts(c);
    hide Before, After, Inorder;
    var b, o, a, n := Before(c[1..]), Inorder(c[0].other), After(c[1..]), c[0].n;
    if c[0].left { FourApart(b, [n], o, a); } else { FourApart(b, o, [n], a); }
  }

  lemma FrameParts(c: Ctx)
    requires c != []
    ensures var b, o, a, n := Before(c[1..]), Inorder(c[0].other), After(c[1..]), c[0].n;
      Before(c) + After(c) == if c[0].left then b + [n] + o + a else b + o + [n] + a
  {
    hide Inorder;
  }

  // ---- rotations ----

  function RotateLeft(t: Tree): Tree
    requires t.Node? && t.r.Node?
  {
    Node(Node(t.l, t.n, t.red, t.r.l), t.r.n, t.r.red, t.r.r)
  }

  function RotateRight(t: Tree): Tree
    requires t.Node? && t.l.Node?
  {
    Node(t.l.l, t.l.n, t.l.red, Node(t.l.r, t.n, t.red, t.r))
  }

  function SetParent(m: Skeleton, x: RbNode?, p: RbNode?): Skeleton
    requires x != null ==> x in m
  {
    if x == null then m else m[x := m[x].(parent := p)]
  }

  /** The writes of rbtree_node_rotate_left at the root of t, in context c. */
  function LeftWrites(m: Skeleton, t: Tree, c: Ctx): Skeleton
    requires t.Node? && t.r.Node? && t.n in m && t.r.n in m && (c != [] ==> c[0].n in m)
    requires Root(t.r.l) != null ==> Root(t.r.l) in m
  {
    var p, n := t.n, t.r.n;
    var m1 := Rehang(m, c, n);
    var m2 := SetParent(m1[n := m1[n].(left := p)][p := m1[p].(right := Root(t.r.l))], Root(t.r.l), p);
    m2[n := m2[n].(parent := ParentOf(c))][p := m2[p].(parent := n)]
  }

  function RightWrites(m: Skeleton, t: Tree, c: Ctx): Skeleton
    requires t.Node? && t.l.Node? && t.n in m && t.l.n in m && (c != [] ==> c[0].n in m)
    requires Root(t.l.r) != null ==> Root(t.l.r) in m
  {
    var p, n := t.n, t.l.n;
    var m1 := Rehang(m, c, n);
    var m2 := SetParent(m1[n := m1[n].(right := p)][p := m1[p].(left := Root(t.l.r))], Root(t.l.r), p);
    m2[n := m2[n].(parent := ParentOf(c))][p := m2[p].(parent := n)]
  }

  /** A subtree hangs below another parent once its root says so. */
  lemma Reparent(m: Skeleton, m': Skeleton, t: Tree, p: RbNode?, p': RbNode?)
    requires Shape(m, t, p) && NoDup(Inorder(t)) && Agree(SetParentOf(m, t, p'), m', Inorder(t))
    ensures Shape(m', t, p')
  {
    if t.Node? {
      NodeApart(t);
      ShapeFrame(m, m', t.l, t.n);
      ShapeFrame(m, m', t.r, t.n);
    }
  }

  function SetParentOf(m: Skeleton, t: Tree, p: RbNode?): Skeleton
  {
    if t.Node? && t.n in m then m[t.n := m[t.n].(parent := p)] else m
  }

  lemma LeftRotated(m: Skeleton, t: Tree, c: Ctx)
    requires Shape(m, t, ParentOf(c)) && CtxShape(m, c, Root(t)) && NoDup(Inorder(Plug(t, c)))
    requires t.Node? && t.r.Node?
    ensures t.n in m && t.r.n in m && (c != [] ==> c[0].n in m) && (Root(t.r.l) != null ==> Root(t.r.l) in m)
    ensures Shape(LeftWrites(m, t, c), RotateLeft(t), ParentOf(c)) && CtxShape(LeftWrites(m, t, c), c, t.r.n)
  {
    hide Inorder, Before, After, Plug, NoDup;
    PlugApart(t, c);
    NodeApart(t);
    NodeApart(t.r);
    RootIn(m, t.r.l, t.r.n);
    RehangShape(m, c, Root(t), t.r.n);
    var m1, m' := Rehang(m, c, t.r.n), LeftWrites(m, t, c);
    ParentIn(c);
    ShapeFrame(m, m', t.l, t.n);
    ShapeFrame(m, m', t.r.r, t.r.n);
    Reparent(m, m', t.r.l, t.r.n, t.n);
    CtxFrame(m1, m', c, t.r.n);
  }

  lemma RightRotated(m: Skeleton, t: Tree, c: Ctx)
    requires Shape(m, t, ParentOf(c)) && CtxShape(m, c, Root(t)) && NoDup(Inorder(Plug(t, c)))
    requires t.Node? && t.l.Node?
    ensures t.n in m && t.l.n in m && (c != [] ==> c[0].n in m) && (Root(t.l.r) != null ==> Root(t.l.r) in m)
    ensures Shape(RightWrites(m, t, c), RotateRight(t), ParentOf(c)) && CtxShape(RightWrites(m, t, c), c, t.l.n)
  {
    hide Inorder, Before, After, Plug, NoDup;
    PlugApart(t, c);
    NodeApart(t);
    NodeApart(t.l);
    RootIn(m, t.l.r, t.l.n);
    RehangShape(m, c, Root(t), t.l.n);
    var m1, m' := Rehang(m, c, t.l.n), RightWrites(m, t, c);
    ParentIn(c);
    ShapeFrame(m, m', t.r, t.n);
    ShapeFrame(m, m', t.l.l, t.l.n);
    Reparent(m, m', t.l.r, t.l.n, t.n);
    CtxFrame(m1, m', c, t.l.n);
  }

  lemma ParentIn(c: Ctx)
    ensures c != [] ==> c[0].n in Before(c) + After(c)
  {
  }

  // ---- recolouring ----

  function SetRed(m: Skeleton, x: RbNode, red: bool): Skeleton
    requires x in m
  {
    m[x := m[x].(red := red)]
  }

  lemma RootRecoloured(m: Skeleton, t: Tree, p: RbNode?, red: bool)
    requires Shape(m, t, p) && t.Node? && NoDup(Inorder(t))
    ensures t.n in m && Shape(SetRed(m, t.n, red), t.(red := red), p)
  {
    NodeApart(t);
    ShapeFrame(m, SetRed(m, t.n, red), t.l, t.n);
    ShapeFrame(m, SetRed(m, t.n, red), t.r, t.n);
  }
}
