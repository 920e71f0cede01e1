/** The red-black tree with parent pointers, a thread of its nodes in key order, and a one-entry search cache. */
module RbTrees {
  import opened Sequences
  import opened SizeClass
  import opened RbShape
  import opened RbLinks

  datatype Mode = Leftwards | Exact | Rightwards

  predicate Sorted(s: seq<RbNode>)
  {
    forall i, j :: 0 <= i < j < |s| ==> s[i].key < s[j].key
  }

  /** The thread runs through s. */
  predicate Threaded(s: seq<RbNode>, first: RbNode?, last: RbNode?, nodes: set<RbNode>)
    reads nodes`prev, nodes`next
  {
    && (forall x :: x in s ==> x in nodes)
    && first == (if s == [] then null else s[0])
    && last == (if s == [] then null else s[|s| - 1])
    && forall i :: 0 <= i < |s| ==> s[i].prev == PrevIn(s, i) && s[i].next == NextIn(s, i)
  }

  function PrevIn(s: seq<RbNode>, i: nat): RbNode?
    requires i < |s|
  {
    if i == 0 then null else s[i - 1]
  }

  function NextIn(s: seq<RbNode>, i: nat): RbNode?
    requires i < |s|
  {
    if i + 1 < |s| then s[i + 1] else null
  }

  /** The neighbours in the thread after node is put between b and a. */
  lemma NeighboursWith(b: seq<RbNode>, a: seq<RbNode>, node: RbNode, i: nat)
    requires i <= |b| + |a|
    ensures var s, s', k := b + a, b + [node] + a, |b|;
      && |s'| == |s| + 1 && s'[i] == (if i < k then s[i] else if i == k then node else s[i - 1])
      && (i < k ==> PrevIn(s', i) == PrevIn(s, i) && NextIn(s', i) == if i + 1 == k then node else NextIn(s, i))
      && (i > k ==> NextIn(s', i) == NextIn(s, i - 1) && PrevIn(s', i) == if i == k + 1 then node else PrevIn(s, i - 1))
      && (i == k && k > 0 ==> PrevIn(s', i) == s[k - 1]) && (i == k == 0 ==> PrevIn(s', i) == null)
      && (i == k < |s| ==> NextIn(s', i) == s[k]) && (i == k == |s| ==> NextIn(s', i) == null)
  {
  }

  /** r is what a search for key in the given direction is meant to find. */
  predicate Closest(s: seq<RbNode>, key: int, mode: Mode, r: RbNode?)
  {
    match mode
    case Exact => if r == null then forall x :: x in s ==> x.key != key else r in s && r.key == key
    case Leftwards =>
      if r == null then forall x :: x in s ==> x.key > key
      else r in s && r.key <= key && forall x :: x in s && x.key <= key ==> x.key <= r.key
    case Rightwards =>
      if r == null then forall x :: x in s ==> x.key < key
      else r in s && r.key >= key && forall x :: x in s && x.key >= key ==> x.key >= r.key
  }

  lemma ClosestUnique(s: seq<RbNode>, key: int, mode: Mode, r: RbNode?, r': RbNode?)
    requires Sorted(s) && Closest(s, key, mode, r) && Closest(s, key, mode, r')
    ensures r == r'
  {
    if r != null && r' != null {
      var i :| 0 <= i < |s| && s[i] == r;
      var j :| 0 <= j < |s| && s[j] == r';
      assert r.key == r'.key;
    }
  }

  lemma SortedNoDup(s: seq<RbNode>)
    requires Sorted(s)
    ensures NoDup(s)
  {
  }

  /** Every key before the context is less, and every key after it greater. */
  predicate KeysAround(c: Ctx, key: int)
  {
    && (forall x :: x in Before(c) ==> x.key < key)
    && (forall x :: x in After(c) ==> key < x.key)
  }

  /** The context of a child of t. */
  function Down(t: Tree, c: Ctx, left: bool): Ctx
    requires t.Node?
  {
    [Frame(t.n, t.red, if left then t.r else t.l, left)] + c
  }

  lemma DownPlug(t: Tree, c: Ctx, left: bool)
    requires t.Node?
    ensures Plug(if left then t.l else t.r, Down(t, c, left)) == Plug(t, c)
  {
    assert Down(t, c, left)[1..] == c;
  }

  lemma PlugParts(t: Tree, c: Ctx)
    requires t.Node?
    ensures Inorder(Plug(t, c)) == Before(c) + Inorder(t.l) + [t.n] + Inorder(t.r) + After(c)
  {
    PlugInorder(t, c);
    hide Plug, Before, After;
    assert Inorder(t) == Inorder(t.l) + [t.n] + Inorder(t.r);
    hide Inorder;
  }

  lemma DownParts(t: Tree, c: Ctx)
    requires t.Node?
    ensures Before(Down(t, c, true)) == Before(c) && After(Down(t, c, true)) == [t.n] + Inorder(t.r) + After(c)
    ensures Before(Down(t, c, false)) == Before(c) + (Inorder(t.l) + [t.n]) && After(Down(t, c, false)) == After(c)
  {
    assert Down(t, c, true)[1..] == c && Down(t, c, false)[1..] == c;
  }

  /** The five stretches of a sorted sequence around one of its nodes. */
  lemma Around(b: seq<RbNode>, l: seq<RbNode>, n: RbNode, r: seq<RbNode>, a: seq<RbNode>)
    requires Sorted(b + l + [n] + r + a)
    ensures forall x :: x in l ==> x.key < n.key
    ensures forall x :: x in r ==> n.key < x.key
  {
    var s := b + l + [n] + r + a;
    assert s[|b| + |l|] == n;
    assert forall i :: 0 <= i < |l| ==> s[|b| + i] == l[i];
    assert forall i :: 0 <= i < |r| ==> s[|b| + |l| + 1 + i] == r[i];
  }

  lemma DownKeys(t: Tree, c: Ctx, key: int)
    requires t.Node? && KeysAround(c, key) && Sorted(Inorder(Plug(t, c)))
    ensures key < t.n.key ==> KeysAround(Down(t, c, true), key)
    ensures t.n.key < key ==> KeysAround(Down(t, c, false), key)
  {
    hide Plug, Inorder, Before, After, Sorted, Down;
    PlugParts(t, c);
    DownParts(t, c);
    Around(Before(c), Inorder(t.l), t.n, Inorder(t.r), After(c));
  }

  /** A search that ends at the root of t has passed everything on one side of it. */
  lemma EndOfSearch(t: Tree, c: Ctx, key: int)
    requires t.Node? && KeysAround(c, key) && Sorted(Inorder(Plug(t, c)))
    requires (key < t.n.key ==> t.l.Leaf?) && (t.n.key < key ==> t.r.Leaf?)
    ensures var s, k := Inorder(Plug(t, c)), |Before(c)| + |Inorder(t.l)|;
      && k < |s| && s[k] == t.n
      && (key < t.n.key ==> forall i :: 0 <= i < k ==> s[i].key < key)
      && (t.n.key < key ==> forall i :: k < i < |s| ==> key < s[i].key)
  {
    hide Plug, Before, After, Sorted;
    PlugParts(t, c);
    EndSides(Before(c), Inorder(t.l), t.n, Inorder(t.r), After(c), key);
  }

  lemma EndSides(b: seq<RbNode>, l: seq<RbNode>, n: RbNode, r: seq<RbNode>, a: seq<RbNode>, key: int)
    requires (key < n.key ==> l == []) && (n.key < key ==> r == [])
    requires (forall x :: x in b ==> x.key < key) && (forall x :: x in a ==> key < x.key)
    ensures var s, k := b + l + [n] + r + a, |b| + |l|;
      && s[k] == n
      && (key < n.key ==> forall i :: 0 <= i < k ==> s[i].key < key)
      && (n.key < key ==> forall i :: k < i < |s| ==> key < s[i].key)
  {
    var s, k := b + l + [n] + r + a, |b| + |l|;
    forall i | 0 <= i < k && key < n.key ensures s[i].key < key { assert s[i] in b; }
    forall i | k < i < |s| && n.key < key ensures key < s[i].key { assert s[i] == a[i - k - 1]; }
  }

  lemma ClosestAt(s: seq<RbNode>, key: int, k: nat, mode: Mode)
    requires Sorted(s) && k < |s|
    requires key < s[k].key ==> forall i :: 0 <= i < k ==> s[i].key < key
    requires s[k].key < key ==> forall i :: k < i < |s| ==> key < s[i].key
    ensures var r := if s[k].key == key then s[k]
                     else if mode == Exact then null
                     else if key < s[k].key then
                       if mode == Rightwards then s[k] else if k == 0 then null else s[k - 1]
                     else if mode == Leftwards then s[k] else if k + 1 < |s| then s[k + 1] else null;
      Closest(s, key, mode, r)
  {
    forall x | x in s && x.key <= key && mode == Leftwards
      ensures if s[k].key <= key then x.key <= s[k].key else k > 0 && x.key <= s[k - 1].key
    {
      var i :| 0 <= i < |s| && s[i] == x;
    }
    forall x | x in s && x.key >= key && mode == Rightwards
      ensures if s[k].key >= key then x.key >= s[k].key else k + 1 < |s| && x.key >= s[k + 1].key
    {
      var i :| 0 <= i < |s| && s[i] == x;
    }
  }

  // ---- attaching a node ----

  /** A new leaf node in the empty hole of a context. */
  lemma Attached(m: Skeleton, c: Ctx, node: RbNode)
    requires Shape(m, Plug(Leaf, c), null) && c != [] && NoDup(Inorder(Plug(Leaf, c)))
      && node !in Inorder(Plug(Leaf, c))
    ensures c[0].n in m
    ensures var m1 := Rehang(m, c, node)[node := Links(c[0].n, null, null, true)];
      Shape(m1, Plug(Node(Leaf, node, true, Leaf), c), null)
  {
    hide Before, After, Plug, NoDup;
    Unplug(m, Leaf, c);
    PlugApart(Leaf, c);
    RehangShape(m, c, null, node);
    ParentIn(c);
    var m1 := Rehang(m, c, node)[node := Links(c[0].n, null, null, true)];
    CtxFrame(Rehang(m, c, node), m1, c, node);
    Unplug(m1, Node(Leaf, node, true, Leaf), c);
  }

  lemma SortedWith(b: seq<RbNode>, a: seq<RbNode>, node: RbNode)
    requires Sorted(b + a) && (forall x :: x in b ==> x.key < node.key) && (forall x :: x in a ==> node.key < x.key)
    ensures Sorted(b + [node] + a)
    ensures node !in b + a
  {
    var s, s' := b + a, b + [node] + a;
    forall i, j | 0 <= i < j < |s'| ensures s'[i].key < s'[j].key {
      var i', j' := if i < |b| then i else i - 1, if j < |b| then j else j - 1;
      if i != |b| && j != |b| { assert s[i'] == s'[i] && s[j'] == s'[j]; }
      if i == |b| { assert s'[j] in a; }
      if j == |b| { assert s'[i] in b; }
    }
  }

  // ---- recolouring ----

  /** Recolouring one node. */
  lemma Recoloured(m: Skeleton, t: Tree, c: Ctx, red: bool)
    requires Shape(m, Plug(t, c), null) && NoDup(Inorder(Plug(t, c))) && t.Node?
    ensures t.n in m && Shape(SetRed(m, t.n, red), Plug(t.(red := red), c), null)
    ensures Inorder(Plug(t.(red := red), c)) == Inorder(Plug(t, c)) && Root(Plug(t.(red := red), c)) == Root(Plug(t, c))
  {
    hide Before, After, NoDup, Plug, Inorder;
    Unplug(m, t, c);
    PlugApart(t, c);
    RootRecoloured(m, t, ParentOf(c), red);
    RootIn(m, t, ParentOf(c));
    CtxFrame(m, SetRed(m, t.n, red), c, t.n);
    Unplug(SetRed(m, t.n, red), t.(red := red), c);
    RecolouredOrder(t, c, red);
  }

  lemma RecolouredOrder(t: Tree, c: Ctx, red: bool)
    requires t.Node?
    ensures Inorder(Plug(t.(red := red), c)) == Inorder(Plug(t, c)) && Root(Plug(t.(red := red), c)) == Root(Plug(t, c))
  {
    SameInorder(t, t.(red := red), c);
    SameRoot(t, t.(red := red), c);
  }

  lemma {:induction false} SameRoot(t: Tree, t': Tree, c: Ctx)
    requires Root(t) == Root(t')
    ensures Root(Plug(t, c)) == Root(Plug(t', c))
    decreases |c|
  {
    if c != [] { SameRoot(Up(c[0], t), Up(c[0], t'), c[1..]); }
  }

  lemma RotatedRoot(t: Tree, t': Tree, c: Ctx)
    ensures c == [] ==> Plug(t, c) == t && Plug(t', c) == t'
    ensures c != [] ==> Root(Plug(t, c)) == Root(Plug(t', c))
  {
    if c != [] { SameRoot(Up(c[0], t), Up(c[0], t'), c[1..]); }
  }

  lemma TwoUp(t: Tree, c: Ctx)
    requires |c| > 1
    ensures Plug(t, c) == Plug(Up(c[1], Up(c[0], t)), c[2..]) == Plug(Up(c[0], t), c[1..])
  {
    assert c[1..][0] == c[1] && c[1..][1..] == c[2..];
  }

  lemma RotatedInorder(t: Tree, c: Ctx)
    requires t.Node?
    ensures t.r.Node? ==> Inorder(Plug(RotateLeft(t), c)) == Inorder(Plug(t, c))
    ensures t.l.Node? ==> Inorder(Plug(RotateRight(t), c)) == Inorder(Plug(t, c))
  {
    if t.r.Node? {
      Reassociate(Inorder(t.l), [t.n], Inorder(t.r.l), [t.r.n], Inorder(t.r.r));
      SameInorder(RotateLeft(t), t, c);
    }
    if t.l.Node? {
      Reassociate(Inorder(t.l.l), [t.l.n], Inorder(t.l.r), [t.n], Inorder(t.r));
      SameInorder(RotateRight(t), t, c);
    }
  }

  /** What a node's links say about its place. */
  lemma PlaceOf(m: Skeleton, t: Tree, c: Ctx)
    requires Shape(m, Plug(t, c), null) && NoDup(Inorder(Plug(t, c)))
    ensures t.Node? ==> t.n in m && m[t.n] == Links(ParentOf(c), Root(t.l), Root(t.r), t.red)
    ensures c != [] ==> c[0].n in m && m[c[0].n].red == c[0].red && m[c[0].n].parent == ParentOf(c[1..])
    ensures c != [] && t.Node? ==>
      && (m[c[0].n].left == t.n <==> c[0].left) && (m[c[0].n].right == t.n <==> !c[0].left)
      && (if c[0].left then m[c[0].n].right else m[c[0].n].left) == Root(c[0].other)
  {
    hide Before, After, Inorder, NoDup, Plug;
    Unplug(m, t, c);
    PlugApart(t, c);
    if c != [] && t.Node? {
      FrameApart(c);
      RootIn(m, c[0].other, c[0].n);
      RootIn(m, t, ParentOf(c));
    }
  }

  class RbTree {
    var root: RbNode?
    var first: RbNode?
    var last: RbNode?
    var cachedKey: int
    var cachedNode: RbNode?
    var cachedMode: Mode

    // what the nodes represent
    ghost var nodes: set<RbNode>
    ghost var tree: Tree

    ghost function Skel(): Skeleton
      reads `nodes, nodes`parent, nodes`left, nodes`right, nodes`red
    {
      map n | n in nodes :: Links(n.parent, n.left, n.right, n.red)
    }

    /** The nodes hold t, in key order. */
    ghost predicate Placed(t: Tree)
      reads `root, `nodes, nodes`parent, nodes`left, nodes`right, nodes`red
    {
      && Shape(Skel(), t, null) && root == Root(t) && Sorted(Inorder(t))
      && (forall n :: n in nodes ==> n in Inorder(t)) && (forall n :: n in Inorder(t) ==> n in nodes)
    }

    ghost predicate Valid()
      reads this, nodes
    {
      && Placed(tree) && RedBlack(tree) && Threaded(Inorder(tree), first, last, nodes)
      && (root != null && cachedNode != null ==> Closest(Inorder(tree), cachedKey, cachedMode, cachedNode))
    }

    /** The map that the tree holds. */
    ghost function Contents(): map<int, int>
      requires Placed(tree)
      reads `root, `nodes, `tree, nodes`parent, nodes`left, nodes`right, nodes`red, nodes`data
    {
      DistinctKeys(Inorder(tree));
      map n | n in nodes :: n.key := n.data
    }

    lemma DistinctKeys(s: seq<RbNode>)
      requires Sorted(s)
      ensures forall x, y :: x in s && y in s && x.key == y.key ==> x == y
    {
    }

    constructor ()
      ensures Valid() && Contents() == map[] && nodes == {}
    {
      root, first, last, cachedNode, cachedKey, cachedMode := null, null, null, null, 0, Exact;
      nodes, tree := {}, Leaf;
      new;
      assert RbOk(tree, 0);
    }

    lemma SkelFields()
      ensures forall x :: x in Skel() <==> x in nodes
      ensures forall x :: x in nodes ==> Skel()[x] == Links(x.parent, x.left, x.right, x.red)
    {
    }

    // ---- writing one link ----

    method SetLeft(x: RbNode, v: RbNode?)
      requires x in nodes
      modifies x`left
      ensures x.left == v && Skel() == old(Skel())[x := old(Skel())[x].(left := v)]
    {
      x.left := v;
    }

    method SetRight(x: RbNode, v: RbNode?)
      requires x in nodes
      modifies x`right
      ensures x.right == v && Skel() == old(Skel())[x := old(Skel())[x].(right := v)]
    {
      x.right := v;
    }

    method SetParentField(x: RbNode, v: RbNode?)
      requires x in nodes
      modifies x`parent
      ensures x.parent == v && Skel() == old(Skel())[x := old(Skel())[x].(parent := v)]
    {
      x.parent := v;
    }

    // ---- recolouring and rotation ----

    method NodeSetColor(node: RbNode, red: bool, ghost t: Tree, ghost c: Ctx)
      requires Placed(Plug(t, c)) && t.Node? && t.n == node
      modifies node`red
      ensures Placed(Plug(t.(red := red), c)) && Inorder(Plug(t.(red := red), c)) == Inorder(Plug(t, c))
    {
      hide Inorder, Plug, Sorted, NoDup;
      ghost var m := Skel();
      SortedNoDup(Inorder(Plug(t, c)));
      Recoloured(m, t, c, red);
      node.red := red;
      assert Skel() == SetRed(m, node, red);
    }

    lemma LeftFacts(m: Skeleton, t: Tree, c: Ctx)
      requires Shape(m, Plug(t, c), null) && Sorted(Inorder(Plug(t, c))) && t.Node? && t.r.Node?
      ensures t.n in m && t.r.n in m && (c != [] ==> c[0].n in m) && (Root(t.r.l) != null ==> Root(t.r.l) in m)
      ensures t.n != t.r.n && m[t.n].parent == ParentOf(c) && m[t.n].right == t.r.n && m[t.r.n].left == Root(t.r.l)
      ensures c != [] ==> (m[c[0].n].left == t.n <==> c[0].left)
      ensures Shape(LeftWrites(m, t, c), Plug(RotateLeft(t), c), null)
      ensures Inorder(Plug(RotateLeft(t), c)) == Inorder(Plug(t, c))
      ensures Root(Plug(RotateLeft(t), c)) == if c == [] then t.r.n else Root(Plug(t, c))
    {
      hide Inorder, Sorted, NoDup, Before, After;
      SortedNoDup(Inorder(Plug(t, c)));
      Unplug(m, t, c);
      LeftRotated(m, t, c);
      PlaceOf(m, t, c);
      RotatedInorder(t, c);
      ShapeIn(m, t, ParentOf(c), c);
      Unplug(LeftWrites(m, t, c), RotateLeft(t), c);
      RotatedRoot(t, RotateLeft(t), c);
    }

    method NodeRotateLeft(node: RbNode, ghost t: Tree, ghost c: Ctx)
      requires Placed(Plug(t, c)) && t.Node? && t.n == node && t.r.Node?
      modifies `root, nodes`left, nodes`right, nodes`parent
      ensures Placed(Plug(RotateLeft(t), c)) && Inorder(Plug(RotateLeft(t), c)) == Inorder(Plug(t, c))
    {
      hide Skel, Inorder, Plug, Sorted, NoDup, Before, After, CtxShape, Shape;
      ghost var m := Skel();
      SkelFields();
      LeftFacts(m, t, c);
      var g, p, n := node.parent, node, node.right;
      var b := n.left;
      if g != null {
        if g.left == p { SetLeft(g, n); } else { SetRight(g, n); }
      } else {
        root := n;
      }
      ghost var m1 := Skel();
      assert m1 == Rehang(m, c, n);
      SetLeft(n, p);
      SetRight(p, b);
      assert Skel() == m1[n := m1[n].(left := p)][p := m1[p].(right := b)];
      if b != null { SetParentField(b, p); }
      SetParentField(n, g);
      SetParentField(p, n);
      assert Skel() == LeftWrites(m, t, c);
    }

    lemma ShapeIn(m: Skeleton, t: Tree, p: RbNode?, c: Ctx)
      requires Shape(m, t, p) && NoDup(Inorder(Plug(t, c)))
      ensures t.Node? && t.r.Node? ==> t.r.n != t.n
      ensures t.Node? && t.l.Node? ==> t.l.n != t.n
      ensures t.Node? && t.r.Node? ==> t.r.n in m && m[t.r.n].left == Root(t.r.l) && (t.r.l.Node? ==> t.r.l.n in m)
      ensures t.Node? && t.l.Node? ==> t.l.n in m && m[t.l.n].right == Root(t.l.r) && (t.l.r.Node? ==> t.l.r.n in m)
    {
      PlugApart(t, c);
      if t.Node? {
        NodeApart(t);
        RootIn(m, t.l, t.n);
        RootIn(m, t.r, t.n);
        if t.r.Node? { RootIn(m, t.r.l, t.r.n); }
        if t.l.Node? { RootIn(m, t.l.r, t.l.n); }
      }
    }

    lemma RightFacts(m: Skeleton, t: Tree, c: Ctx)
      requires Shape(m, Plug(t, c), null) && Sorted(Inorder(Plug(t, c))) && t.Node? && t.l.Node?
      ensures t.n in m && t.l.n in m && (c != [] ==> c[0].n in m) && (Root(t.l.r) != null ==> Root(t.l.r) in m)
      ensures t.n != t.l.n && m[t.n].parent == ParentOf(c) && m[t.n].left == t.l.n && m[t.l.n].right == Root(t.l.r)
      ensures c != [] ==> (m[c[0].n].left == t.n <==> c[0].left)
      ensures Shape(RightWrites(m, t, c), Plug(RotateRight(t), c), null)
      ensures Inorder(Plug(RotateRight(t), c)) == Inorder(Plug(t, c))
      ensures Root(Plug(RotateRight(t), c)) == if c == [] then t.l.n else Root(Plug(t, c))
    {
      hide Inorder, Sorted, NoDup, Before, After;
      SortedNoDup(Inorder(Plug(t, c)));
      Unplug(m, t, c);
      RightRotated(m, t, c);
      PlaceOf(m, t, c);
      RotatedInorder(t, c);
      ShapeIn(m, t, ParentOf(c), c);
      Unplug(RightWrites(m, t, c), RotateRight(t), c);
      RotatedRoot(t, RotateRight(t), c);
    }

    method NodeRotateRight(node: RbNode, ghost t: Tree, ghost c: Ctx)
      requires Placed(Plug(t, c)) && t.Node? && t.n == node && t.l.Node?
      modifies `root, nodes`left, nodes`right, nodes`parent
      ensures Placed(Plug(RotateRight(t), c)) && Inorder(Plug(RotateRight(t), c)) == Inorder(Plug(t, c))
    {
      hide Skel, Inorder, Plug, Sorted, NoDup, Before, After, CtxShape, Shape;
      ghost var m := Skel();
      SkelFields();
      RightFacts(m, t, c);
      var g, p, n := node.parent, node, node.left;
      var b := n.right;
      if g != null {
        if g.left == p { SetLeft(g, n); } else { SetRight(g, n); }
      } else {
        root := n;
      }
      ghost var m1 := Skel();
      assert m1 == Rehang(m, c, n);
      SetRight(n, p);
      SetLeft(p, b);
      assert Skel() == m1[n := m1[n].(right := p)][p := m1[p].(left := b)];
      if b != null { SetParentField(b, p); }
      SetParentField(n, g);
      SetParentField(p, n);
      assert Skel() == RightWrites(m, t, c);
    }

    // ---- the repair after insertion ----

    /** node is red, and only it and its parent may violate the colour rules. */
    ghost predicate Repairing(node: RbNode, t: Tree, c: Ctx, h: nat)
      reads `root, `nodes, nodes`parent, nodes`left, nodes`right, nodes`red
    {
      Placed(Plug(t, c)) && t.Node? && t.n == node && t.red && RbOk(t, h) && CtxOk(c, h)
    }

    lemma Placement(t: Tree, c: Ctx)
      requires Placed(Plug(t, c)) && t.Node?
      ensures t.n in nodes && t.n.parent == ParentOf(c) && t.n.left == Root(t.l) && t.n.right == Root(t.r)
        && t.n.red == t.red
      ensures c != [] ==> c[0].n in nodes && c[0].n.red == c[0].red && c[0].n.parent == ParentOf(c[1..])
      ensures c != [] ==> (c[0].n.left == t.n <==> c[0].left) && (c[0].n.right == t.n <==> !c[0].left)
      ensures c != [] ==> (if c[0].left then c[0].n.right else c[0].n.left) == Root(c[0].other)
    {
      hide Inorder, Plug, Sorted, NoDup;
      SortedNoDup(Inorder(Plug(t, c)));
      PlaceOf(Skel(), t, c);
    }

    /** What the repair reads around a node with a grandparent. */
    lemma FamilyOf(t: Tree, c: Ctx)
      requires Placed(Plug(t, c)) && t.Node? && |c| > 1
      ensures c[0].n in nodes && c[1].n in nodes && t.n.parent == c[0].n && c[0].n.parent == c[1].n
      ensures c[0].n.red == c[0].red && (c[0].n.right == t.n <==> !c[0].left) && (c[0].n.left == t.n <==> c[0].left)
      ensures (c[1].n.left == c[0].n <==> c[1].left) && (c[1].n.right == c[0].n <==> !c[1].left)
      ensures var u := if c[1].n.left == c[0].n then c[1].n.right else c[1].n.left;
        u == Root(c[1].other) && (u != null ==> u in nodes && u.red == c[1].other.red)
    {
      hide Inorder, Plug, Sorted, NoDup;
      Placement(t, c);
      TwoUp(t, c);
      Placement(Up(c[0], t), c[1..]);
      if c[1].other.Node? {
        var b := Up(c[1], Up(c[0], t));
        DownPlug(b, c[2..], !c[1].left);
        Placement(c[1].other, Down(b, c[2..], !c[1].left));
      }
    }

    method Grandparent(node: RbNode) returns (g: RbNode?)
      ensures g == if node.parent == null then null else node.parent.parent
    {
      if node.parent == null { g := null; } else { g := node.parent.parent; }
    }

    method Uncle(node: RbNode) returns (u: RbNode?)
      ensures node.parent == null || node.parent.parent == null ==> u == null
      ensures node.parent != null && node.parent.parent != null ==>
        u == if node.parent.parent.left == node.parent then node.parent.parent.right else node.parent.parent.left
    {
      var grandpa := Grandparent(node);
      if grandpa == null { u := null; }
      else if grandpa.left == node.parent { u := grandpa.right; }
      else { u := grandpa.left; }
    }

    method InsertCase1(node: RbNode, ghost t: Tree, ghost c: Ctx, ghost h: nat)
      requires Repairing(node, t, c, h)
      modifies `root, nodes`left, nodes`right, nodes`parent, nodes`red
      ensures Placed(Repair(t, c))
      decreases |c|, 3
    {
      hide Inorder, Sorted, Skel, Shape, RbOk, Plug, CtxOk, Placed;
      Placement(t, c);
      if node.parent == null {
        PlugEmpty(t, c);
        NodeSetColor(node, false, t, c);
        PlugEmpty(t.(red := false), c);
      } else {
        InsertCase2(node, t, c, h);
      }
    }

    lemma PlugEmpty(t: Tree, c: Ctx)
      ensures c == [] ==> Plug(t, c) == t
    {
    }

    method InsertCase2(node: RbNode, ghost t: Tree, ghost c: Ctx, ghost h: nat)
      requires Repairing(node, t, c, h) && c != []
      modifies `root, nodes`left, nodes`right, nodes`parent, nodes`red
      ensures Placed(Repair(t, c))
      decreases |c|, 2
    {
      hide Inorder, Sorted, Skel, Shape, RbOk, Plug, Placed;
      Placement(t, c);
      if node.parent.red { InsertCase3(node, t, c, h); }
    }

    method InsertCase3(node: RbNode, ghost t: Tree, ghost c: Ctx, ghost h: nat)
      requires Repairing(node, t, c, h) && |c| > 1 && c[0].red
      modifies `root, nodes`left, nodes`right, nodes`parent, nodes`red
      ensures Placed(Repair(t, c))
      decreases |c|, 1
    {
      hide Inorder, Sorted, Skel, Shape, Plug, Placed, Repair, RbOk, CtxOk;
      FamilyOf(t, c);
      var uncle := Uncle(node);
      if uncle != null && uncle.red {
        ghost var p, g, u, rest := c[0], c[1], c[1].other, c[2..];
        ghost var b := Up(p.(red := false), t);
        Case3Trees(t, c, h);
        NodeSetColor(node.parent, false, Up(p, t), c[1..]);
        NodeSetColor(uncle, false, u, Down(Up(g, b), rest, !g.left));
        var grandpa := Grandparent(node);
        NodeSetColor(grandpa, true, Up(g.(other := u.(red := false)), b), rest);
        InsertCase1(grandpa, Up(g.(red := true, other := u.(red := false)), b), rest, h + 1);
      } else {
        InsertCase4(node, t, c, h);
      }
    }

    /** The trees between the writes of case 3. */
    lemma Case3Trees(t: Tree, c: Ctx, h: nat)
      requires t.Node? && t.red && |c| > 1 && c[0].red && IsRed(c[1].other) && RbOk(t, h) && CtxOk(c, h)
      ensures var p, g, u, rest := c[0], c[1], c[1].other, c[2..];
        var b, u' := Up(p.(red := false), t), u.(red := false);
        var d, n := Down(Up(g, b), rest, !g.left), Up(g.(red := true, other := u'), b);
        && Plug(t, c) == Plug(Up(p, t), c[1..]) && Up(p, t).(red := false) == b
        && Plug(b, c[1..]) == Plug(u, d) && Plug(u', d) == Plug(Up(g.(other := u'), b), rest)
        && Up(g.(other := u'), b).(red := true) == n && n.red && n.n == g.n
        && Repair(t, c) == Repair(n, rest) && RbOk(n, h + 1) && CtxOk(rest, h + 1)
    {
      var p, g, u, rest := c[0], c[1], c[1].other, c[2..];
      var b, u' := Up(p.(red := false), t), u.(red := false);
      assert c[1..][0] == g && c[1..][1..] == rest;
      DownPlug(Up(g, b), rest, !g.left);
      DownPlug(Up(g.(other := u'), b), rest, !g.left);
      assert CtxOk(c[1..], h);
    }

    /** Case 4: a node between its parent and its grandparent is rotated outwards first. */
    method InsertCase4(node0: RbNode, ghost t: Tree, ghost c: Ctx, ghost h: nat)
      requires Repairing(node0, t, c, h) && |c| > 1 && c[0].red && !IsRed(c[1].other)
      modifies `root, nodes`left, nodes`right, nodes`parent, nodes`red
      ensures Placed(Repair(t, c))
    {
      hide Inorder, Sorted, Skel, Shape, Plug, Placed, Repair, RbOk, CtxOk, Turned;
      var node := node0;
      FamilyOf(t, c);
      Case4Trees(t, c, h);
      ghost var (t1, p1) := Inner(t, c[0], c[1]);
      var grandpa := Grandparent(node);
      if node == node.parent.right && node.parent == grandpa.left {
        NodeRotateLeft(node.parent, Up(c[0], t), c[1..]);
        LeftOf(t1, p1, c[1..]);
        node := node.left;
      } else if node == node.parent.left && node.parent == grandpa.right {
        NodeRotateRight(node.parent, Up(c[0], t), c[1..]);
        LeftOf(t1, p1, c[1..]);
        node := node.right;
      }
      InsertCase5(node, t1, [p1] + c[1..]);
    }

    /** The tree after the rotation of case 4. */
    lemma Case4Trees(t: Tree, c: Ctx, h: nat)
      requires t.Node? && t.red && |c| > 1 && c[0].red && !IsRed(c[1].other) && RbOk(t, h) && CtxOk(c, h)
      ensures var (t1, p1) := Inner(t, c[0], c[1]);
        && Plug(t, c) == Plug(Up(c[0], t), c[1..]) && Plug(t1, [p1] + c[1..]) == Plug(Up(p1, t1), c[1..])
        && (!c[0].left && c[1].left ==> RotateLeft(Up(c[0], t)) == Up(p1, t1))
        && (c[0].left && !c[1].left ==> RotateRight(Up(c[0], t)) == Up(p1, t1))
        && t1.Node? && p1.left == c[1].left && ([p1] + c[1..])[2..] == c[2..]
        && Repair(t, c) == Plug(Turned(t1, p1, c[1]), c[2..])
    {
      var (t1, p1) := Inner(t, c[0], c[1]);
      assert ([p1] + c[1..])[1..] == c[1..];
    }

    lemma LeftOf(t: Tree, p: Frame, c: Ctx)
      requires Placed(Plug(Up(p, t), c)) && t.Node?
      ensures p.n.left == (if p.left then t.n else Root(p.other)) && p.n.right == if p.left then Root(p.other) else t.n
    {
      hide Inorder, Plug, Sorted, NoDup, Skel;
      Placement(Up(p, t), c);
    }

    /** Case 5: the grandparent is rotated away. */
    method InsertCase5(node: RbNode, ghost t: Tree, ghost c: Ctx)
      requires Placed(Plug(t, c)) && t.Node? && t.n == node && |c| > 1 && c[0].left == c[1].left
      modifies `root, nodes`left, nodes`right, nodes`parent, nodes`red
      ensures Placed(Plug(Turned(t, c[0], c[1]), c[2..]))
    {
      hide Inorder, Sorted, Skel, Shape, Plug, Placed;
      FamilyOf(t, c);
      Case5Trees(t, c);
      ghost var p, g, rest := c[0], c[1], c[2..];
      ghost var b := Up(p.(red := false), t);
      var grandpa := Grandparent(node);
      NodeSetColor(node.parent, false, Up(p, t), c[1..]);
      NodeSetColor(grandpa, true, Up(g, b), rest);
      if node == node.parent.left {
        NodeRotateRight(grandpa, Up(g.(red := true), b), rest);
      } else {
        NodeRotateLeft(grandpa, Up(g.(red := true), b), rest);
      }
    }

    lemma Case5Trees(t: Tree, c: Ctx)
      requires t.Node? && |c| > 1 && c[0].left == c[1].left
      ensures var p, g, rest := c[0], c[1], c[2..];
        var b := Up(p.(red := false), t);
        && Plug(t, c) == Plug(Up(p, t), c[1..]) && Up(p, t).(red := false) == b
        && Plug(b, c[1..]) == Plug(Up(g, b), rest) && Up(g, b).(red := true) == Up(g.(red := true), b)
        && Turned(t, p, g) == if p.left then RotateRight(Up(g.(red := true), b)) else RotateLeft(Up(g.(red := true), b))
    {
      assert c[1..][0] == c[1] && c[1..][1..] == c[2..];
    }

    // ---- insertion ----

    /** rbtree_insert_node: the descent from parent, which stands at the root of t in context c. */
    method InsertNode(parent: RbNode, node: RbNode, ghost t: Tree, ghost c: Ctx) returns (found: bool, ghost c': Ctx)
      requires Placed(Plug(t, c)) && t.Node? && t.n == parent && KeysAround(c, node.key)
      requires Threaded(Inorder(Plug(t, c)), first, last, nodes)
      requires node !in nodes && node.red && node.left == null && node.right == null
      modifies `first, `last, `nodes, nodes`left, nodes`right, nodes`prev, nodes`next, nodes`data, node`parent,
          node`prev, node`next
      ensures found <==> exists x :: x in old(nodes) && x.key == node.key
      ensures found ==>
        && Placed(Plug(t, c)) && Threaded(Inorder(Plug(t, c)), first, last, nodes) && nodes == old(nodes)
        && forall x :: x in nodes ==> x.data == if x.key == node.key then node.data else old(x.data)
      ensures !found ==>
        && c' != [] && Plug(Leaf, c') == Plug(t, c) && Placed(Plug(Node(Leaf, node, true, Leaf), c'))
        && nodes == old(nodes) + {node}
        && Threaded(Inorder(Plug(Node(Leaf, node, true, Leaf), c')), first, last, nodes)
        && forall x :: x in old(nodes) ==> x.data == old(x.data)
      decreases t
    {
      hide Inorder, Sorted, Skel, Shape, Plug, Placed, Threaded, KeysAround;
      Placement(t, c);
      NodeOnly(t, c, node.key);
      c' := c;
      if parent.key == node.key {
        parent.data := node.data;
        found := true;
      } else if node.key < parent.key {
        DownPlug(t, c, true);
        DownKeys(t, c, node.key) by { OrderOf(Plug(t, c)); }
        if parent.left != null {
          found, c' := InsertNode(parent.left, node, t.l, Down(t, c, true));
        } else {
          AttachLeft(parent, node, t, c);
          found, c' := false, Down(t, c, true);
        }
      } else {
        DownPlug(t, c, false);
        DownKeys(t, c, node.key) by { OrderOf(Plug(t, c)); }
        if parent.right != null {
          found, c' := InsertNode(parent.right, node, t.r, Down(t, c, false));
        } else {
          AttachRight(parent, node, t, c);
          found, c' := false, Down(t, c, false);
        }
      }
    }

    lemma OrderOf(t: Tree)
      requires Placed(t)
      ensures Sorted(Inorder(t)) && forall n :: n in nodes ==> n in Inorder(t)
    {
    }

    /** Whether the key is present is decided where the descent ends. */
    lemma NodeOnly(t: Tree, c: Ctx, key: int)
      requires Placed(Plug(t, c)) && t.Node? && KeysAround(c, key)
      ensures t.n.key == key ==> forall x :: x in nodes && x.key == key ==> x == t.n
      ensures key < t.n.key && t.l.Leaf? ==> forall x :: x in nodes ==> x.key != key
      ensures t.n.key < key && t.r.Leaf? ==> forall x :: x in nodes ==> x.key != key
    {
      hide Inorder, Plug, Skel, Shape, Before, After;
      OrderOf(Plug(t, c));
      DistinctKeys(Inorder(Plug(t, c)));
      Placement(t, c);
      if (key < t.n.key && t.l.Leaf?) || (t.n.key < key && t.r.Leaf?) {
        EndOfSearch(t, c, key);
        var s := Inorder(Plug(t, c));
        forall x | x in nodes ensures x.key != key {
          var i :| 0 <= i < |s| && s[i] == x;
        }
      }
    }

    // ---- the thread ----

    /** A node of a sequence without duplicates occurs once. */
    lemma Once(s: seq<RbNode>, node: RbNode, p: RbNode, q: RbNode?, k: int, m: int)
      requires NoDup(s) && node !in s && 0 <= k < |s| && s[k] == p
      requires if q == null then m < 0 || m >= |s| else 0 <= m < |s| && s[m] == q
      ensures forall i {:trigger s[i]} :: 0 <= i < |s| ==>
        s[i] != node && (s[i] == p <==> i == k) && (s[i] == q <==> i == m)
      ensures p in s && (q != null ==> q in s) && p != node && q != node
    {
    }

    lemma Gap(s: seq<RbNode>, k: nat)
      requires k <= |s|
      ensures k < |s| ==> PrevIn(s, k) == if k > 0 then s[k - 1] else null
      ensures k > 0 ==> NextIn(s, k - 1) == if k < |s| then s[k] else null
    {
    }

    /** node goes into the thread before parent. */
    method LinkBefore(parent: RbNode, node: RbNode, ghost b: seq<RbNode>, ghost a: seq<RbNode>)
      requires Threaded(b + a, first, last, nodes) && a != [] && a[0] == parent && NoDup(b + a) && node !in b + a
      requires forall x :: x in b + a ==> x in nodes
      modifies `first, nodes`prev, nodes`next, node`prev, node`next
      ensures Threaded(b + [node] + a, first, last, nodes + {node})
    {
      hide NoDup, PrevIn, NextIn;
      ghost var s, k := b + a, |b|;
      Gap(s, k);
      Once(s, node, parent, PrevIn(s, k), k, k - 1);
      assert parent.prev == PrevIn(s, k);
      node.prev := parent.prev;
      node.next := parent;
      if node.prev != null { node.prev.next := node; } else { first := node; }
      parent.prev := node;
      assert forall j :: 0 <= j < |s| && j != k ==> s[j].prev == PrevIn(s, j);
      assert forall j :: 0 <= j < |s| && j != k - 1 ==> s[j].next == NextIn(s, j);
      Rethreaded(b, a, node);
    }

    /** node goes into the thread after parent. */
    method LinkAfter(parent: RbNode, node: RbNode, ghost b: seq<RbNode>, ghost a: seq<RbNode>)
      requires Threaded(b + a, first, last, nodes) && b != [] && b[|b| - 1] == parent && NoDup(b + a) && node !in b + a
      requires forall x :: x in b + a ==> x in nodes
      modifies `last, nodes`prev, nodes`next, node`prev, node`next
      ensures Threaded(b + [node] + a, first, last, nodes + {node})
    {
      hide NoDup, PrevIn, NextIn;
      ghost var s, k := b + a, |b|;
      Gap(s, k);
      Once(s, node, parent, NextIn(s, k - 1), k - 1, k);
      assert parent.next == NextIn(s, k - 1);
      node.next := parent.next;
      node.prev := parent;
      if node.next != null { node.next.prev := node; } else { last := node; }
      parent.next := node;
      assert forall j :: 0 <= j < |s| && j != k ==> s[j].prev == PrevIn(s, j);
      assert forall j :: 0 <= j < |s| && j != k - 1 ==> s[j].next == NextIn(s, j);
      Rethreaded(b, a, node);
    }

    /** The fields of the new node and of its neighbours are written, the others still follow b + a. */
    lemma Rethreaded(b: seq<RbNode>, a: seq<RbNode>, node: RbNode)
      requires b + a != [] && forall x :: x in b + a ==> x in nodes
      requires first == (if b == [] then node else b[0]) && last == if a == [] then node else a[|a| - 1]
      requires var s, k := b + a, |b|;
        && (forall j :: 0 <= j < |s| && j != k ==> s[j].prev == PrevIn(s, j)) && (k < |s| ==> s[k].prev == node)
        && (forall j :: 0 <= j < |s| && j != k - 1 ==> s[j].next == NextIn(s, j)) && (k > 0 ==> s[k - 1].next == node)
        && node.prev == (if k > 0 then s[k - 1] else null) && node.next == if k < |s| then s[k] else null
      ensures Threaded(b + [node] + a, first, last, nodes + {node})
    {
      var s, s', k := b + a, b + [node] + a, |b|;
      forall x | x in s' ensures x in nodes + {node} { assert x in b + a || x == node; }
      forall i | 0 <= i < |s'| ensures s'[i].prev == PrevIn(s', i) && s'[i].next == NextIn(s', i) {
        NeighboursWith(b, a, node, i);
      }
    }

    /** What the descent has found: the empty slot of parent on one side, and its place in the thread. */
    lemma SlotFacts(t: Tree, c: Ctx, left: bool, node: RbNode)
      requires Placed(Plug(t, c)) && t.Node? && KeysAround(Down(t, c, left), node.key) && node !in nodes
      requires if left then t.l.Leaf? else t.r.Leaf?
      ensures var c' := Down(t, c, left);
        var b, a := Before(c'), After(c');
        && Plug(Leaf, c') == Plug(t, c) && Inorder(Plug(t, c)) == b + a && t.n in Skel()
        && Inorder(Plug(Node(Leaf, node, true, Leaf), c')) == b + [node] + a && Sorted(b + [node] + a)
        && NoDup(b + a) && node !in b + a && (forall x :: x in b + a <==> x in nodes)
        && (left ==> a != [] && a[0] == t.n) && (!left ==> b != [] && b[|b| - 1] == t.n)
        && Shape(Rehang(Skel(), c', node)[node := Links(t.n, null, null, true)], Plug(Node(Leaf, node, true, Leaf),
            c'), null)
        && Root(Plug(Node(Leaf, node, true, Leaf), c')) == Root(Plug(t, c))
    {
      hide Plug, Skel, Shape, Sorted, NoDup, Before, After;
      var c' := Down(t, c, left);
      var b, a := Before(c'), After(c');
      OrderOf(Plug(t, c));
      PlacedShape(Plug(t, c));
      Placement(t, c);
      DownPlug(t, c, left);
      PlugInorder(Leaf, c');
      PlugInorder(Node(Leaf, node, true, Leaf), c');
      assert b + Inorder(Leaf) + a == b + a;
      assert Inorder(Node(Leaf, node, true, Leaf)) == [node];
      SortedNoDup(b + a);
      SortedWith(b, a, node);
      Attached(Skel(), c', node);
      DownParts(t, c);
      SameRoot(Up(c'[0], Leaf), Up(c'[0], Node(Leaf, node, true, Leaf)), c);
      PlugDown(Leaf, t, c, left);
      PlugDown(Node(Leaf, node, true, Leaf), t, c, left);
    }

    lemma PlugDown(u: Tree, t: Tree, c: Ctx, left: bool)
      requires t.Node?
      ensures Plug(u, Down(t, c, left)) == Plug(Up(Down(t, c, left)[0], u), c)
    {
      assert Down(t, c, left)[1..] == c;
    }

    lemma PlacedShape(t: Tree)
      requires Placed(t)
      ensures Shape(Skel(), t, null) && root == Root(t)
      ensures forall n :: n in nodes <==> n in Inorder(t)
      ensures forall n :: n in nodes <==> n in Skel()
    {
    }

    /** The new node becomes the left child of parent and the node before it in the thread. */
    method AttachLeft(parent: RbNode, node: RbNode, ghost t: Tree, ghost c: Ctx)
      requires Placed(Plug(t, c)) && t.Node? && t.n == parent && t.l.Leaf? && KeysAround(Down(t, c, true), node.key)
      requires Threaded(Inorder(Plug(t, c)), first, last, nodes)
      requires node !in nodes && node.red && node.left == null && node.right == null
      modifies `first, `nodes, nodes`left, nodes`prev, nodes`next, node`parent, node`prev, node`next
      ensures var c' := Down(t, c, true);
        && Plug(Leaf, c') == Plug(t, c) && Placed(Plug(Node(Leaf, node, true, Leaf), c'))
        && nodes == old(nodes) + {node}
        && Threaded(Inorder(Plug(Node(Leaf, node, true, Leaf), c')), first, last, nodes)
    {
      hide Inorder, Sorted, Shape, Plug, KeysAround, Before, After, NoDup, Threaded;
      ghost var c', m := Down(t, c, true), Skel();
      SlotFacts(t, c, true, node);
      PlacedShape(Plug(t, c));
      parent.left := node;
      node.parent := parent;
      LinkBefore(parent, node, Before(c'), After(c'));
      nodes := nodes + {node};
      assert Skel() == Rehang(m, c', node)[node := Links(parent, null, null, true)];
    }

    /** The new node becomes the right child of parent and the node after it in the thread. */
    method AttachRight(parent: RbNode, node: RbNode, ghost t: Tree, ghost c: Ctx)
      requires Placed(Plug(t, c)) && t.Node? && t.n == parent && t.r.Leaf? && KeysAround(Down(t, c, false), node.key)
      requires Threaded(Inorder(Plug(t, c)), first, last, nodes)
      requires node !in nodes && node.red && node.left == null && node.right == null
      modifies `last, `nodes, nodes`right, nodes`prev, nodes`next, node`parent, node`prev, node`next
      ensures var c' := Down(t, c, false);
        && Plug(Leaf, c') == Plug(t, c) && Placed(Plug(Node(Leaf, node, true, Leaf), c'))
        && nodes == old(nodes) + {node}
        && Threaded(Inorder(Plug(Node(Leaf, node, true, Leaf), c')), first, last, nodes)
    {
      hide Inorder, Sorted, Shape, Plug, KeysAround, Before, After, NoDup, Threaded;
      ghost var c', m := Down(t, c, false), Skel();
      SlotFacts(t, c, false, node);
      PlacedShape(Plug(t, c));
      parent.right := node;
      node.parent := parent;
      LinkAfter(parent, node, Before(c'), After(c'));
      nodes := nodes + {node};
      assert Skel() == Rehang(m, c', node)[node := Links(parent, null, null, true)];
    }

    /** rbtree_insert_ex: -1 when no node can be allocated, 1 when the key was present and its data is
        replaced, 0 when a node is added. The caller's pnode always receives the new node, which after
        a replacement is not in the tree. */
    method Insert(key: int, data: int, nodeAvailable: bool) returns (r: int, pnode: RbNode?)
      requires Valid()
      modifies this, nodes
      ensures Valid() && fresh(nodes - old(nodes)) && old(nodes) <= nodes
      ensures r == -1 <==> !nodeAvailable
      ensures r == -1 ==> Contents() == old(Contents()) && nodes == old(nodes)
      ensures r != -1 ==> Contents() == old(Contents())[key := data]
      ensures r != -1 ==> (r == 1 <==> key in old(Contents())) && (r == 0 <==> key !in old(Contents()))
      ensures r != -1 ==> pnode != null && pnode.key == key && (pnode in nodes <==> r == 0)
    {
      hide Placed, RedBlack, Threaded, Closest, Inorder, Skel, Contents;
      if !nodeAvailable { return -1, null; }
      var node := new RbNode(key, data);
      pnode := node;
      cachedNode := null;
      if root == null {
        r := 0;
        InsertFirst(node);
      } else {
        r := InsertBelow(node);
      }
    }

    /** The first node of an empty tree. */
    method InsertFirst(node: RbNode)
      requires Valid() && root == null && node !in nodes && node.red && cachedNode == null
      requires node.left == null && node.right == null && node.parent == null && node.prev == null && node.next == null
      modifies this, node
      ensures Valid() && nodes == old(nodes) + {node} && Contents() == old(Contents())[node.key := old(node.data)]
      ensures node.key !in old(Contents())
    {
      hide Placed, Contents, Threaded, RedBlack, Repair, RbOk, CtxOk, Inorder, Plug, Closest;
      NoContents();
      ghost var t := Node(Leaf, node, true, Leaf);
      first, last, root := node, node, node;
      nodes, tree := {node}, t;
      OneNode(node);
      InsertCase1(node, t, [], 0);
      tree := Repair(t, []);
      RepairOne(node);
      Threaded1(node);
      ContentsAre(map[node.key := node.data]);
    }

    lemma RepairOne(node: RbNode)
      ensures var t := Node(Leaf, node, true, Leaf);
        Inorder(Repair(t, [])) == Inorder(t) && RedBlack(Repair(t, []))
    {
      var t := Node(Leaf, node, true, Leaf);
      assert RbOk(t, 0);
      RepairOk(t, [], 0);
    }

    lemma NoContents()
      requires Placed(tree) && root == null
      ensures nodes == {} && Contents() == map[]
    {
    }

    lemma OneNode(node: RbNode)
      requires nodes == {node} && root == node && tree == Node(Leaf, node, true, Leaf) && node.red
      requires node.left == null && node.right == null && node.parent == null
      ensures Plug(tree, []) == tree && Repairing(node, tree, [], 0)
    {
      assert Skel()[node] == Links(null, null, null, true);
      assert Inorder(tree) == [node];
    }

    lemma Threaded1(node: RbNode)
      requires first == node && last == node && node.prev == null && node.next == null
      ensures Threaded(Inorder(Node(Leaf, node, true, Leaf)), first, last, {node})
      ensures Plug(Node(Leaf, node, true, Leaf), []) == Node(Leaf, node, true, Leaf)
    {
    }

    lemma ContentsAre(m: map<int, int>)
      requires Placed(tree)
      requires forall x :: x in nodes ==> x.key in m && m[x.key] == x.data
      requires forall k :: k in m ==> exists x :: x in nodes && x.key == k
      ensures Contents() == m
    {
      ContentsOf();
      forall k | k in m ensures k in Contents() {
        var x :| x in nodes && x.key == k;
      }
      forall k | k in Contents() ensures k in m && m[k] == Contents()[k] {
        var x :| x in nodes && x.key == k;
      }
    }

    /** Insertion into a tree that is not empty. */
    method InsertBelow(node: RbNode) returns (r: int)
      requires Valid() && root != null && node !in nodes && node.red && cachedNode == null
      requires node.left == null && node.right == null
      modifies this, nodes, node
      ensures Valid() && old(nodes) <= nodes <= old(nodes) + {node}
      ensures Contents() == old(Contents())[node.key := old(node.data)]
      ensures if node.key in old(Contents()) then r == 1 && node !in nodes else r == 0 && node in nodes
    {
      hide Inorder, Sorted, Skel, Shape, Plug, Placed, Threaded, Repair, Contents, RedBlack, Closest, RbOk, CtxOk,
        KeysAround;
      ghost var c: Ctx;
      ghost var m := Contents();
      var found: bool;
      StartOfSearch(node.key);
      ContentsOf();
      found, c := InsertNode(root, node, tree, []);
      if found {
        ContentsAre(m[node.key := node.data]);
        return 1;
      }
      LeafRepair(c, node);
      InsertCase1(node, Node(Leaf, node, true, Leaf), c, 0);
      tree := Repair(Node(Leaf, node, true, Leaf), c);
      ContentsAre(m[node.key := node.data]);
      r := 0;
    }

    lemma StartOfSearch(key: int)
      requires Placed(tree)
      ensures Plug(tree, []) == tree && KeysAround([], key) && (root != null <==> tree.Node?) && root == Root(tree)
    {
    }

    /** The contents in terms of the nodes. */
    lemma ContentsOf()
      requires Placed(tree)
      ensures forall x :: x in nodes ==> x.key in Contents() && Contents()[x.key] == x.data
      ensures forall k :: k in Contents() ==> exists x :: x in nodes && x.key == k
      ensures forall x, y :: x in nodes && y in nodes && x.key == y.key ==> x == y
    {
      OrderOf(tree);
      DistinctKeys(Inorder(tree));
    }

    /** A new red leaf leaves only one rule to repair, and the repair keeps the order of the nodes. */
    lemma LeafRepair(c: Ctx, node: RbNode)
      requires RedBlack(Plug(Leaf, c))
      ensures RbOk(Node(Leaf, node, true, Leaf), 0) && CtxOk(c, 0)
      ensures RedBlack(Repair(Node(Leaf, node, true, Leaf), c))
      ensures Inorder(Repair(Node(Leaf, node, true, Leaf), c)) == Inorder(Plug(Node(Leaf, node, true, Leaf), c))
    {
      UnplugOk(Leaf, c);
      RepairOk(Node(Leaf, node, true, Leaf), c, 0);
    }

    // ---- search ----

    /** rbtree_node_search: the node where the descent for key ends, at place k in key order. */
    method NodeSearch(node: RbNode, key: int, ghost t: Tree, ghost c: Ctx)
      returns (r: RbNode, ghost k: nat, ghost steps: nat)
      requires Placed(Plug(t, c)) && t.Node? && t.n == node && KeysAround(c, key)
      ensures var s := Inorder(Plug(t, c));
        && k < |s| && s[k] == r
        && (key < r.key ==> forall i :: 0 <= i < k ==> s[i].key < key)
        && (r.key < key ==> forall i :: k < i < |s| ==> key < s[i].key)
      ensures 0 < steps <= Height(t)
      decreases t
    {
      hide Inorder, Sorted, Skel, Shape, Plug, Placed, Threaded, KeysAround, Before, Down;
      OrderOf(Plug(t, c));
      Placement(t, c);
      if node.key == key || (key < node.key && node.left == null) || (node.key < key && node.right == null) {
        EndOfSearch(t, c, key);
        r, k, steps := node, |Before(c)| + |Inorder(t.l)|, 1;
      } else if key < node.key {
        DownKeys(t, c, key);
        DownPlug(t, c, true);
        r, k, steps := NodeSearch(node.left, key, t.l, Down(t, c, true));
        steps := steps + 1;
      } else {
        DownKeys(t, c, key);
        DownPlug(t, c, false);
        r, k, steps := NodeSearch(node.right, key, t.r, Down(t, c, false));
        steps := steps + 1;
      }
    }

    /** rbtree_search: the answer does not depend on whether the cache supplies it. */
    method Search(key: int, mode: Mode) returns (r: RbNode?, ghost steps: nat)
      requires Valid()
      modifies `cachedKey, `cachedNode, `cachedMode
      ensures Valid() && Closest(Inorder(tree), key, mode, r)
      ensures steps <= 2 * Log2(|Inorder(tree)| + 1)
    {
      hide Inorder, Sorted, Skel, Shape, Plug, Placed, Log2, RedBlack, Height, Threaded, Closest, KeysAround;
      steps := 0;
      StartOfSearch(key);
      HeightLog(tree);
      if root == null {
        EmptyClosest(key, mode);
        return null, 0;
      }
      if cachedKey == key && cachedMode == mode && cachedNode != null {
        return cachedNode, 0;
      }
      var closest;
      ghost var k;
      closest, k, steps := NodeSearch(root, key, tree, []);
      r := closest;
      OrderOf(tree);
      ClosestAt(Inorder(tree), key, k, mode);
      NeighboursAt(k);
      if closest.key != key && mode == Exact {
        return null, steps;
      }
      if key < closest.key && mode == Leftwards {
        r := closest.prev;
      } else if closest.key < key && mode == Rightwards {
        r := closest.next;
      }
      cachedMode, cachedKey, cachedNode := mode, key, r;
    }

    /** The nodes, in order, are the map. */
    lemma OrderIsContents()
      requires Valid()
      ensures forall x :: x in Inorder(tree) ==> x in nodes && x.key in Contents() && Contents()[x.key] == x.data
      ensures forall k :: k in Contents() ==> exists x :: x in Inorder(tree) && x.key == k
      ensures forall x :: x in nodes ==> x in Inorder(tree)
    {
      hide Skel, Shape, RedBlack, Threaded, Closest, Inorder;
      DistinctKeys(Inorder(tree));
    }

    /** What a search finds, as the nearest key of the map. */
    lemma ClosestKey(key: int, mode: Mode, r: RbNode?)
      requires Valid() && Closest(Inorder(tree), key, mode, r)
      ensures r != null ==> r in nodes && r.key in Contents() && Contents()[r.key] == r.data
      ensures r != null && mode == Leftwards ==> r.key <= key && forall k :: k in Contents() && k <= key ==> k <= r.key
      ensures r != null && mode == Rightwards ==> r.key >= key && forall k :: k in Contents() && k >= key ==> k >= r.key
      ensures r == null && mode == Leftwards ==> forall k :: k in Contents() ==> k > key
      ensures r == null && mode == Rightwards ==> forall k :: k in Contents() ==> k < key
    {
      hide Valid, Contents, Inorder;
      OrderIsContents();
    }

    /** rbtree_node_prev and rbtree_node_next find the neighbouring keys. */
    lemma ThreadIsClosest(node: RbNode)
      requires Valid() && node in nodes
      ensures Closest(Inorder(tree), node.key - 1, Leftwards, node.prev)
      ensures Closest(Inorder(tree), node.key + 1, Rightwards, node.next)
    {
      hide Skel, Shape, RedBlack, Inorder, Closest;
      var s := Inorder(tree);
      var i :| 0 <= i < |s| && s[i] == node;
      NextToIndex(s, i);
      assert node.prev == PrevIn(s, i) && node.next == NextIn(s, i);
    }

    lemma NextToIndex(s: seq<RbNode>, i: nat)
      requires Sorted(s) && i < |s|
      ensures Closest(s, s[i].key - 1, Leftwards, PrevIn(s, i)) && Closest(s, s[i].key + 1, Rightwards, NextIn(s, i))
    {
      forall x | x in s ensures x.key < s[i].key ==> i > 0 && x.key <= s[i - 1].key {
        var j :| 0 <= j < |s| && s[j] == x;
      }
      forall x | x in s ensures x.key > s[i].key ==> i + 1 < |s| && x.key >= s[i + 1].key {
        var j :| 0 <= j < |s| && s[j] == x;
      }
    }

    lemma NeighboursAt(k: nat)
      requires Threaded(Inorder(tree), first, last, nodes) && k < |Inorder(tree)|
      ensures Inorder(tree)[k].prev == (if k == 0 then null else Inorder(tree)[k - 1])
      ensures Inorder(tree)[k].next == if k + 1 < |Inorder(tree)| then Inorder(tree)[k + 1] else null
    {
    }

    lemma EmptyClosest(key: int, mode: Mode)
      requires Placed(tree) && root == null
      ensures Closest(Inorder(tree), key, mode, null)
    {
    }

    // ---- clearing ----

    /** rbtree_clear: every node is released once, in key order. The cache keeps its stale node,
        which no search looks at while the tree is empty. */
    method Clear() returns (ghost released: seq<RbNode>)
      requires Valid()
      modifies this
      ensures Valid() && nodes == {} && Contents() == map[] && released == old(Inorder(tree))
      ensures cachedNode == old(cachedNode)
    {
      hide Placed, RedBlack, Skel, Inorder, Closest, Contents, Threaded;
      FirstOf();
      ghost var s := Inorder(tree);
      released := [];
      var node := first;
      while node != null
        invariant |released| <= |s| && released == s[..|released|]
        invariant node == if |released| < |s| then s[|released|] else null
        modifies {}
        decreases |s| - |released|
      {
        NeighboursAt(|released|);
        var next := node.next;
        released := released + [node];
        node := next;
      }
      root, first, last := null, null, null;
      nodes, tree := {}, Leaf;
      EmptyTree();
    }

    lemma FirstOf()
      requires Threaded(Inorder(tree), first, last, nodes)
      ensures first == if Inorder(tree) == [] then null else Inorder(tree)[0]
    {
    }

    lemma EmptyTree()
      requires root == null && first == null && last == null && nodes == {} && tree == Leaf
      ensures Valid() && Contents() == map[]
    {
      assert RbOk(tree, 0);
    }
  }
}
