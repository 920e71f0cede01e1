/** The pointer writes of insert_large_chunk and unlink_large_chunk, related to the tries they lay out. */
module TrieMem {
  import opened Sequences
  import opened SizeClass
  import opened Ring
  import opened Trie
  import opened TrieOps

  /** Laying out a new subtree behind the slot at a path. */
  lemma LinkedAt(m: Links, m': Links, t: Trie, p: int, i: int, path: seq<bool>, s: Trie)
    requires Apart(t) && Linked(m, t, p, i) && IsPath(t, path)
    requires Linked(m', s, if path == [] then p else SlotOwner(t, path), i)
    requires path != [] ==> SlotSet(m, m', SlotOwner(t, path), path[|path| - 1], Root(s))
    requires path != [] ==> SameOutside(m, m', t, path)
    ensures Linked(m', Put(t, path, s), p, i)
  {
    if path != [] { LinkedPut(m, m', t, p, i, path, s); }
  }

  /** What a slot holds. */
  lemma {:induction false} SlotValue(m: Links, t: Trie, p: int, i: int, path: seq<bool>)
    requires Linked(m, t, p, i) && IsPath(t, path) && path != []
    ensures var q := SlotOwner(t, path);
      && q in m.child0 && q in m.child1 && q in m.parent && q in m.index
      && (if path[|path| - 1] then m.child1[q] else m.child0[q]) == Root(Sub(t, path))
    decreases |path|
  {
    assert t.ring[0] in t.ring;
    if |path| > 1 { SlotValue(m, Child(t, path[0]), t.ring[0], i, path[1..]); }
  }

  function SetSlot(m: Links, q: int, right: bool, v: int): Links
  {
    if right then m.(child1 := m.child1[q := v]) else m.(child0 := m.child0[q := v])
  }

  /** The link fields of a fresh chunk that is alone on its ring. */
  function AddLeaf(m: Links, x: int, q: int, i: int): Links
  {
    m.(fd := m.fd[x := x], bk := m.bk[x := x], index := m.index[x := i],
       child0 := m.child0[x := 0], child1 := m.child1[x := 0], parent := m.parent[x := q])
  }

  lemma LeafLinked(m: Links, x: int, q: int, i: int, s: nat)
    ensures Linked(AddLeaf(m, x, q, i), Node(s, [x], Nil, Nil), q, i)
  {
    var u := Node(s, [x], Nil, Nil);
    assert u.ring[1..] == [];
  }

  lemma InsertLeafLinked(m: Links, t: Trie, p: int, i: int, path: seq<bool>, x: int, s: nat)
    requires Apart(t) && Linked(m, t, p, i) && x !in Addrs(t)
    requires IsPath(t, path) && path != [] && Sub(t, path).Nil?
    ensures var q := SlotOwner(t, path);
      Linked(SetSlot(AddLeaf(m, x, q, i), q, path[|path| - 1], x), Put(t, path, Node(s, [x], Nil, Nil)), p, i)
  {
    hide AddLeaf, SetSlot, Linked, Apart, SameAt, SlotSet, Put, Addrs;
    var q, d := SlotOwner(t, path), path[|path| - 1];
    var m1, u := AddLeaf(m, x, q, i), Node(s, [x], Nil, Nil);
    var m' := SetSlot(m1, q, d, x);
    SlotOwnerApart(t, path);
    SlotValue(m, t, p, i, path);
    LeafLinked(m, x, q, i, s);
    assert x != q;
    LeafWritten(m, x, q, i, d);
    OneLeaf(s, x);
    LinkedFrame(m1, m', u, q, i);
    LinkedPut(m, m', t, p, i, path, u);
  }

  lemma OneLeaf(s: nat, x: int)
    ensures Addrs(Node(s, [x], Nil, Nil)) == {x}
  {
  }

  /** What is written for a new leaf: its own fields and the slot of its parent. */
  lemma LeafWritten(m: Links, x: int, q: int, i: int, d: bool)
    requires x != q && q in m.child0 && q in m.child1
    ensures var m1 := AddLeaf(m, x, q, i); var m' := SetSlot(m1, q, d, x);
      && SlotSet(m, m', q, d, x) && SameAt(m1, m', x) && forall y :: y != x && y != q ==> SameAt(m, m', y)
  {
  }

  /** The link fields after chunk x joins the ring that starts at h. */
  function JoinRing(m: Links, h: int, x: int, i: int): Links
    requires h in m.fd
  {
    var f := m.fd[h];
    m.(fd := m.fd[h := x][x := f], bk := m.bk[f := x][x := h], index := m.index[x := i],
       child0 := m.child0[x := 0], child1 := m.child1[x := 0], parent := m.parent[x := 0])
  }

  lemma RingHasSecond(m: Links, t: Trie, p: int, i: int)
    requires t.Node? && Linked(m, t, p, i)
    ensures t.ring[0] in m.fd && m.fd[t.ring[0]] in t.ring && t.ring[0] in t.ring
  {
    RingAlone(m.fd, m.bk, t.ring, 0);
  }

  lemma JoinRingFrame(m: Links, h: int, x: int, i: int, y: int)
    requires h in m.fd
    ensures var m' := JoinRing(m, h, x, i);
      && (y != x && y != h && y != m.fd[h] ==> SameRing(m, m', y))
      && (y != x ==> Same(m.child0, m'.child0, y) && Same(m.child1, m'.child1, y)
                     && Same(m.parent, m'.parent, y) && Same(m.index, m'.index, y))
  {
  }

  /** A node whose ring gained chunk x, in any place but the first, keeps its other fields. */
  lemma GrownNode(m: Links, m': Links, t: Trie, ring: seq<int>, p: int, i: int, x: int)
    requires t.Node? && Linked(m, t, p, i) && x !in t.ring
    requires RingOk(m'.fd, m'.bk, ring) && ring[0] == t.ring[0]
    requires forall y :: y in ring ==> y == x || y in t.ring
    requires x in m'.index && x in m'.child0 && x in m'.child1 && x in m'.parent
    requires m'.index[x] == i && m'.child0[x] == m'.child1[x] == m'.parent[x] == 0
    requires forall y :: y != x ==>
      && Same(m.child0, m'.child0, y) && Same(m.child1, m'.child1, y)
      && Same(m.parent, m'.parent, y) && Same(m.index, m'.index, y)
    requires Linked(m', t.l, t.ring[0], i) && Linked(m', t.r, t.ring[0], i)
    ensures Linked(m', t.(ring := ring), p, i)
  {
    assert t.ring[0] in t.ring && t.ring[0] != x;
    forall y | y in ring && y != x ensures y in t.ring && Same(m.index, m'.index, y) {}
  }

  lemma JoinRingLinked(m: Links, t: Trie, p: int, i: int, x: int)
    requires Apart(t) && t.Node? && Linked(m, t, p, i) && x !in Addrs(t)
    requires t.ring[0] in m.fd
    ensures Linked(JoinRing(m, t.ring[0], x, i), t.(ring := InsertSecond(t.ring, x)), p, i)
    ensures forall y :: y !in Addrs(t) && y != x ==> SameAt(m, JoinRing(m, t.ring[0], x, i), y)
  {
    var h := t.ring[0];
    var m', ring' := JoinRing(m, h, x, i), InsertSecond(t.ring, x);
    RingHasSecond(m, t, p, i);
    ApartFromRing(t);
    RingInsert(m.fd, m.bk, t.ring, x);
    forall y | y != x
      ensures y !in t.ring ==> SameAt(m, m', y)
      ensures Same(m.child0, m'.child0, y) && Same(m.child1, m'.child1, y)
           && Same(m.parent, m'.parent, y) && Same(m.index, m'.index, y)
    {
      JoinRingFrame(m, h, x, i, y);
    }
    LinkedFrame(m, m', t.l, h, i);
    LinkedFrame(m, m', t.r, h, i);
    InsertSecondElems(t.ring, x);
    GrownNode(m, m', t, ring', p, i, x);
  }

  lemma InsertSecondElems(s: seq<int>, x: int)
    ensures forall y :: y in InsertSecond(s, x) <==> y == x || y in s
  {
    if s != [] { assert s == [s[0]] + s[1..]; }
  }

  lemma ApartFromRing(t: Trie)
    requires Apart(t) && t.Node?
    ensures forall y :: y in Addrs(t.l) || y in Addrs(t.r) ==> y !in t.ring
    ensures forall y :: y in t.ring ==> y in Addrs(t)
  {
    forall y | y in t.ring ensures y in Elems(t.ring) {}
  }

  lemma InsertRingLinked(m: Links, t: Trie, p: int, i: int, path: seq<bool>, x: int)
    requires Apart(t) && Linked(m, t, p, i) && x !in Addrs(t)
    requires IsPath(t, path) && Sub(t, path).Node? && Root(Sub(t, path)) in m.fd
    ensures var u := Sub(t, path);
      Linked(JoinRing(m, Root(u), x, i), Put(t, path, u.(ring := InsertSecond(u.ring, x))), p, i)
  {
    var u := Sub(t, path);
    SubLinked(m, t, p, i, path);
    SubAddrs(t, path);
    SubApart(t, path);
    var q := if path == [] then p else SlotOwner(t, path);
    JoinRingLinked(m, u, q, i, x);
    var m', u' := JoinRing(m, Root(u), x, i), u.(ring := InsertSecond(u.ring, x));
    if path != [] {
      SlotOwnerApart(t, path);
      SlotValue(m, t, p, i, path);
      assert SameAt(m, m', SlotOwner(t, path));
    }
    LinkedAt(m, m', t, p, i, path, u');
  }

  lemma {:induction false} SubApart(t: Trie, path: seq<bool>)
    requires Apart(t) && IsPath(t, path)
    ensures Apart(Sub(t, path))
    decreases |path|
  {
    if path != [] { SubApart(Child(t, path[0]), path[1..]); }
  }

  // ---- removal ----

  /** The link fields after f and b are joined over the chunk between them. */
  function Bypass(m: Links, x: int): Links
    requires x in m.fd && x in m.bk
  {
    m.(fd := m.fd[m.bk[x] := m.fd[x]], bk := m.bk[m.fd[x] := m.bk[x]])
  }

  /** Unlinking a chunk that is on a ring but is not its tree node. */
  lemma ChainedLinked(m: Links, t: Trie, p: int, i: int, path: seq<bool>, x: int)
    requires Apart(t) && Linked(m, t, p, i) && IsPath(t, path) && Sub(t, path).Node?
    requires x in Sub(t, path).ring && x != Root(Sub(t, path))
    ensures x in m.fd && x in m.bk
    ensures Linked(Bypass(m, x), Put(t, path, RemoveHere(Sub(t, path), x)), p, i)
  {
    var u := Sub(t, path);
    SubLinked(m, t, p, i, path);
    SubApart(t, path);
    var q, k := if path == [] then p else SlotOwner(t, path), IndexOf(u.ring, x);
    RingUnlink(m.fd, m.bk, u.ring, k);
    RingAlone(m.fd, m.bk, u.ring, k);
    WithoutSet(u.ring, x);
    var m', u' := Bypass(m, x), u.(ring := Without(u.ring, k));
    RingNeighboursAside(m, m', u, x);
    LinkedFrame(m, m', u.l, u.ring[0], i);
    LinkedFrame(m, m', u.r, u.ring[0], i);
    assert Linked(m', u', q, i);
    if path != [] {
      SlotOwnerApart(t, path);
      SlotValue(m, t, p, i, path);
    }
    LinkedAt(m, m', t, p, i, path, u');
  }

  lemma RingNeighboursAside(m: Links, m': Links, u: Trie, x: int)
    requires Apart(u) && u.Node? && x in m.fd && x in m.bk && m' == Bypass(m, x)
    requires m.fd[x] in u.ring && m.bk[x] in u.ring
    ensures forall y :: y !in Addrs(u) || y in Addrs(u.l) || y in Addrs(u.r) ==> SameAt(m, m', y)
  {
    assert m.fd[x] in Elems(u.ring) && m.bk[x] in Elems(u.ring);
  }

  /** The link fields after chunk r takes over the parent and the children of x. */
  function TakeOver(m: Links, x: int, xp: int, r: int): Links
    requires x in m.child0 && x in m.child1
  {
    var c0, c1 := m.child0[x], m.child1[x];
    var p0 := m.parent[r := xp];
    var p1 := if c0 != 0 then p0[c0 := r] else p0;
    m.(child0 := if c0 != 0 then m.child0[r := c0] else m.child0,
       child1 := if c1 != 0 then m.child1[r := c1] else m.child1,
       parent := if c1 != 0 then p1[c1 := r] else p1)
  }

  lemma Reparent(m: Links, m': Links, t: Trie, p: int, p': int, i: int)
    requires Apart(t) && Linked(m, t, p, i)
    requires t.Node? ==> Root(t) in m'.parent && m'.parent[Root(t)] == p'
    requires t.Node? ==> SameRing(m, m', Root(t)) && Same(m.child0, m'.child0, Root(t))
                         && Same(m.child1, m'.child1, Root(t)) && Same(m.index, m'.index, Root(t))
    requires forall x :: x in Addrs(t) && x != Root(t) ==> SameAt(m, m', x)
    ensures Linked(m', t, p', i)
  {
    if t.Node? {
      var h := t.ring[0];
      assert h in t.ring && h in Elems(t.ring);
      forall x | x in t.ring && x != h ensures SameAt(m, m', x) { assert x in Elems(t.ring); }
      RingFrame(m.fd, m.bk, m'.fd, m'.bk, t.ring);
      LinkedFrame(m, m', t.l, h, i);
      LinkedFrame(m, m', t.r, h, i);
    }
  }

  lemma TakeOverFrame(m: Links, x: int, xp: int, r: int, y: int)
    requires x in m.child0 && x in m.child1
    ensures var m' := TakeOver(m, x, xp, r);
      && SameRing(m, m', y) && Same(m.index, m'.index, y)
      && (y != r ==> Same(m.child0, m'.child0, y) && Same(m.child1, m'.child1, y))
      && (y != r && y != m.child0[x] && y != m.child1[x] ==> Same(m.parent, m'.parent, y))
  {
  }

  lemma TakeOverSets(m: Links, x: int, xp: int, r: int)
    requires x in m.child0 && x in m.child1 && r in m.child0 && r in m.child1 && m.child0[r] == m.child1[r] == 0
    requires r != m.child0[x] && r != m.child1[x] && (m.child0[x] != m.child1[x] || m.child0[x] == 0)
    ensures var m' := TakeOver(m, x, xp, r);
      && r in m'.child0 && r in m'.child1 && r in m'.parent
      && m'.child0[r] == m.child0[x] && m'.child1[r] == m.child1[x] && m'.parent[r] == xp
      && (m.child0[x] != 0 ==> m.child0[x] in m'.parent && m'.parent[m.child0[x]] == r)
      && (m.child1[x] != 0 ==> m.child1[x] in m'.parent && m'.parent[m.child1[x]] == r)
  {
  }

  /** r, the first chunk of u's ring, replaces x above the subtrees of u. */
  lemma TakeOverLinked(m: Links, u: Trie, x: int, xp: int, rp: int, i: int)
    requires Apart(u) && u.Node? && x !in Addrs(u)
    requires x in m.child0 && x in m.child1 && m.child0[x] == Root(u.l) && m.child1[x] == Root(u.r)
    requires Linked(m, u.l, x, i) && Linked(m, u.r, x, i)
    requires Linked(m, Node(u.sz, u.ring, Nil, Nil), rp, i)
    requires 0 !in Addrs(u)
    ensures Linked(TakeOver(m, x, xp, u.ring[0]), u, xp, i)
    ensures forall y :: y !in Addrs(u) ==> SameAt(m, TakeOver(m, x, xp, u.ring[0]), y)
  {
    var r := u.ring[0];
    var m' := TakeOver(m, x, xp, r);
    var alone := Node(u.sz, u.ring, Nil, Nil);
    assert alone.ring[0] == r;
    ApartFromRing(u);
    assert r in u.ring;
    ChildRoot(m, u.l, x, i);
    ChildRoot(m, u.r, x, i);
    TakeOverSets(m, x, xp, r);
    forall y
      ensures SameRing(m, m', y) && Same(m.index, m'.index, y)
      ensures y != r ==> Same(m.child0, m'.child0, y) && Same(m.child1, m'.child1, y)
      ensures y != r && y != Root(u.l) && y != Root(u.r) ==> Same(m.parent, m'.parent, y)
    {
      TakeOverFrame(m, x, xp, r, y);
    }
    Reparent(m, m', u.l, x, r, i);
    Reparent(m, m', u.r, x, r, i);
    RingLinked(m, m', u, xp, rp, i);
  }

  lemma RingLinked(m: Links, m': Links, u: Trie, p: int, rp: int, i: int)
    requires u.Node? && Linked(m, Node(u.sz, u.ring, Nil, Nil), rp, i)
    requires forall y :: y in u.ring ==> SameRing(m, m', y) && Same(m.index, m'.index, y)
    requires forall y :: y in u.ring && y != u.ring[0] ==> SameAt(m, m', y)
    requires u.ring[0] in m'.child0 && u.ring[0] in m'.child1 && u.ring[0] in m'.parent
    requires m'.child0[u.ring[0]] == Root(u.l) && m'.child1[u.ring[0]] == Root(u.r) && m'.parent[u.ring[0]] == p
    requires Linked(m', u.l, u.ring[0], i) && Linked(m', u.r, u.ring[0], i)
    ensures Linked(m', u, p, i)
  {
    var alone := Node(u.sz, u.ring, Nil, Nil);
    assert alone.ring == u.ring;
    RingFrame(m.fd, m.bk, m'.fd, m'.bk, u.ring);
  }

  lemma ChildRoot(m: Links, t: Trie, p: int, i: int)
    requires Linked(m, t, p, i)
    ensures t.Node? ==> Root(t) in Addrs(t)
  {
    if t.Node? { assert t.ring[0] in t.ring; }
  }

  /** Memory m1 holds the parts from which chunk x at the root of u is to be replaced by the head of u'. */
  ghost predicate Spliced(m: Links, m1: Links, u: Trie, u': Trie, x: int, rp: int, i: int)
  {
    && u'.Node? && Apart(u') && Addrs(u') <= Addrs(u) && x in Addrs(u) && x !in Addrs(u') && 0 !in Addrs(u')
    && (forall y :: y !in Addrs(u) ==> SameAt(m, m1, y))
    && x in m1.child0 && x in m1.child1 && m1.child0[x] == Root(u'.l) && m1.child1[x] == Root(u'.r)
    && Linked(m1, u'.l, x, i) && Linked(m1, u'.r, x, i)
    && Linked(m1, Node(u'.sz, u'.ring, Nil, Nil), rp, i)
  }

  function ParentOf(t: Trie, path: seq<bool>, p: int): int
    requires IsPath(t, path)
  {
    if path == [] then p else SlotOwner(t, path)
  }

  /** The memory after x's slot is redirected to r; the root's slot is the bin header, kept elsewhere. */
  function Redirect(m: Links, t: Trie, path: seq<bool>, r: int): Links
    requires IsPath(t, path)
  {
    if path == [] then m else SetSlot(m, SlotOwner(t, path), path[|path| - 1], r)
  }

  lemma RedirectFrame(m: Links, t: Trie, path: seq<bool>, r: int, y: int)
    requires IsPath(t, path)
    ensures path == [] || y != SlotOwner(t, path) ==> SameAt(m, Redirect(m, t, path, r), y)
  {
  }

  lemma HeadReplaced(m: Links, m1: Links, t: Trie, p: int, i: int, path: seq<bool>, u': Trie, x: int, rp: int)
    requires Apart(t) && Linked(m, t, p, i) && IsPath(t, path)
    requires Spliced(m, m1, Sub(t, path), u', x, rp, i)
    ensures var m2 := Redirect(m1, t, path, u'.ring[0]);
      && x in m2.child0 && x in m2.child1
      && m2.child0[x] == Root(u'.l) && m2.child1[x] == Root(u'.r)
      && Linked(TakeOver(m2, x, ParentOf(t, path, p), u'.ring[0]), Put(t, path, u'), p, i)
  {
    var u, xp, r := Sub(t, path), ParentOf(t, path, p), u'.ring[0];
    var m2 := Redirect(m1, t, path, r);
    if path != [] { SlotOwnerApart(t, path); SlotValue(m, t, p, i, path); }
    forall y | path == [] || y != SlotOwner(t, path) ensures SameAt(m1, m2, y) { RedirectFrame(m1, t, path, r, y); }
    LinkedFrame(m1, m2, u'.l, x, i);
    LinkedFrame(m1, m2, u'.r, x, i);
    LinkedFrame(m1, m2, Node(u'.sz, u'.ring, Nil, Nil), rp, i);
    TakeOverLinked(m2, u', x, xp, rp, i);
    var m3 := TakeOver(m2, x, xp, r);
    HeadReplacedPut(m, m1, m2, m3, t, p, i, path, u');
  }

  lemma HeadReplacedPut(m: Links, m1: Links, m2: Links, m3: Links, t: Trie, p: int, i: int, path: seq<bool>, u': Trie)
    requires Apart(t) && Linked(m, t, p, i) && IsPath(t, path) && u'.Node? && |u'.ring| > 0
    requires Addrs(u') <= Addrs(Sub(t, path))
    requires forall y :: y !in Addrs(Sub(t, path)) ==> SameAt(m, m1, y)
    requires m2 == Redirect(m1, t, path, u'.ring[0])
    requires forall y :: y !in Addrs(u') ==> SameAt(m2, m3, y)
    requires Linked(m3, u', ParentOf(t, path, p), i)
    ensures Linked(m3, Put(t, path, u'), p, i)
  {
    if path != [] {
      var q := SlotOwner(t, path);
      SlotOwnerApart(t, path);
      SlotValue(m, t, p, i, path);
      assert SameAt(m, m1, q) && SameAt(m2, m3, q);
      forall y | y in Addrs(t) && y !in Addrs(Sub(t, path)) && y != q ensures SameAt(m, m3, y) {
        RedirectFrame(m1, t, path, u'.ring[0], y);
      }
      LinkedPut(m, m3, t, p, i, path, u');
    }
  }

  /** The rest of a ring, seen on its own. */
  lemma RestOfRing(m: Links, m1: Links, u: Trie, q: int, i: int, ring: seq<int>)
    requires u.Node? && Linked(m, u, q, i) && RingOk(m1.fd, m1.bk, ring)
    requires forall y :: y in ring ==> y in u.ring && y != u.ring[0]
    requires m1 == m.(fd := m1.fd, bk := m1.bk)
    ensures Linked(m1, Node(u.sz, ring, Nil, Nil), 0, i)
  {
    assert ring[0] in ring;
  }

  lemma DropFirstApart(u: Trie)
    requires Apart(u) && u.Node? && NoDup(u.ring) && |u.ring| > 1
    ensures var u' := u.(ring := DropFirst(u.ring));
      && Apart(u') && Addrs(u') == Addrs(u) - {u.ring[0]} && u.ring[0] in Addrs(u)
      && forall y :: y in u'.ring ==> y in u.ring && y != u.ring[0]
  {
    var x := u.ring[0];
    assert x in u.ring;
    WithoutSet(u.ring, x);
    ApartFromRing(u);
    assert Elems(DropFirst(u.ring)) == Elems(u.ring) - {x};
  }

  /** x heads a ring of several chunks: the last of them takes its place. */
  lemma SpliceRing(m: Links, u: Trie, q: int, i: int)
    requires Apart(u) && u.Node? && Linked(m, u, q, i) && |u.ring| > 1 && 0 !in Addrs(u)
    ensures var x := u.ring[0];
      && x in m.fd && x in m.bk && m.bk[x] == u.ring[|u.ring| - 1]
      && RemoveHere(u, x) == u.(ring := DropFirst(u.ring))
      && Spliced(m, Bypass(m, x), u, RemoveHere(u, x), x, 0, i)
  {
    var x := u.ring[0];
    RingDropFirst(m.fd, m.bk, u.ring);
    RingAlone(m.fd, m.bk, u.ring, 0);
    DropFirstApart(u);
    var m1 := Bypass(m, x);
    RingNeighboursAside(m, m1, u, x);
    LinkedFrame(m, m1, u.l, x, i);
    LinkedFrame(m, m1, u.r, x, i);
    RestOfRing(m, m1, u, q, i, DropFirst(u.ring));
  }

  lemma DropRootApart(u: Trie)
    requires Apart(u) && u.Node? && WithoutLeaf(u).Node?
    ensures var u' := DropRoot(u);
      && Apart(u') && Addrs(u') <= Addrs(u) && u.ring[0] in Addrs(u) && u.ring[0] !in Addrs(u')
  {
    var w, f := WithoutLeaf(u), LeafOf(u);
    LeafAddrs(u);
    WithoutLeafApart(u);
    assert u.ring[0] in u.ring && u.ring[0] in Elems(w.ring);
    assert Addrs(f) == Elems(f.ring);
  }

  lemma {:induction false} WithoutLeafApart(u: Trie)
    requires Apart(u) && u.Node?
    ensures Apart(WithoutLeaf(u)) && Addrs(WithoutLeaf(u)) <= Addrs(u)
    ensures WithoutLeaf(u).Node? ==> WithoutLeaf(u).ring == u.ring
  {
    if u.r.Node? { WithoutLeafApart(u.r); } else if u.l.Node? { WithoutLeafApart(u.l); }
  }

  lemma SetSlotFrame(m: Links, q: int, d: bool, v: int)
    ensures SlotSet(m, SetSlot(m, q, d, v), q, d, v)
    ensures forall y :: y != q ==> SameAt(m, SetSlot(m, q, d, v), y)
  {
  }

  /** Clearing the slot at a path cuts its subtree off. */
  lemma SlotCleared(m: Links, t: Trie, p: int, i: int, path: seq<bool>)
    requires Apart(t) && Linked(m, t, p, i) && IsPath(t, path) && path != []
    ensures var q := SlotOwner(t, path);
      var m1 := SetSlot(m, q, path[|path| - 1], 0);
      && Linked(m1, Put(t, path, Nil), p, i) && Linked(m1, Sub(t, path), q, i)
      && (forall y :: y !in Addrs(t) ==> SameAt(m, m1, y))
  {
    var q := SlotOwner(t, path);
    var m1 := SetSlot(m, q, path[|path| - 1], 0);
    SetSlotFrame(m, q, path[|path| - 1], 0);
    SlotOwnerApart(t, path);
    SubLinked(m, t, p, i, path);
    LinkedPut(m, m1, t, p, i, path, Nil);
    LinkedFrame(m, m1, Sub(t, path), q, i);
  }

  lemma LeafDetached(m: Links, u: Trie, q: int, i: int, lp: seq<bool>)
    requires Apart(u) && u.Node? && Linked(m, u, q, i)
    requires lp != [] && IsPath(u, lp) && Sub(u, lp) == LeafOf(u) && WithoutLeaf(u) == Put(u, lp, Nil)
    ensures var m1 := SetSlot(m, SlotOwner(u, lp), lp[|lp| - 1], 0);
      && Linked(m1, WithoutLeaf(u), q, i) && Linked(m1, LeafOf(u), SlotOwner(u, lp), i)
      && forall y :: y !in Addrs(u) ==> SameAt(m, m1, y)
    ensures WithoutLeaf(u).Node? && WithoutLeaf(u).ring == u.ring
  {
    SlotCleared(m, u, q, i, lp);
    RootOfPut(u, lp, Nil);
    WithoutLeafApart(u);
  }

  /** x is the last chunk of its size but not a leaf: the leaf at lp takes its place. */
  lemma SpliceLeaf(m: Links, u: Trie, q: int, i: int, lp: seq<bool>)
    requires Apart(u) && u.Node? && Linked(m, u, q, i) && |u.ring| == 1 && 0 !in Addrs(u)
    requires lp != [] && IsPath(u, lp) && Sub(u, lp) == LeafOf(u) && WithoutLeaf(u) == Put(u, lp, Nil)
    ensures Spliced(m, SetSlot(m, SlotOwner(u, lp), lp[|lp| - 1], 0), u, RemoveHere(u, u.ring[0]), u.ring[0],
        SlotOwner(u, lp), i)
    ensures RemoveHere(u, u.ring[0]).Node? && RemoveHere(u, u.ring[0]).ring == LeafOf(u).ring
  {
    var x, o := u.ring[0], SlotOwner(u, lp);
    var m1 := SetSlot(m, o, lp[|lp| - 1], 0);
    LeafDetached(m, u, q, i, lp);
    DropRootApart(u);
    LeafAlone(m1, LeafOf(u), o, i);
    HeadInFields(m1, WithoutLeaf(u), q, i);
  }

  lemma LeafAlone(m: Links, f: Trie, o: int, i: int)
    requires f.Node? && f.l.Nil? && f.r.Nil? && Linked(m, f, o, i)
    ensures Linked(m, Node(f.sz, f.ring, Nil, Nil), o, i)
  {
    assert Node(f.sz, f.ring, Nil, Nil) == f;
  }

  /** x is a leaf: its slot is cleared. */
  lemma LeafCleared(m: Links, t: Trie, p: int, i: int, path: seq<bool>)
    requires Apart(t) && Linked(m, t, p, i) && IsPath(t, path)
    requires Sub(t, path).Node? && Sub(t, path).l.Nil? && Sub(t, path).r.Nil? && |Sub(t, path).ring| == 1
    ensures RemoveHere(Sub(t, path), Root(Sub(t, path))) == Nil
    ensures Linked(Redirect(m, t, path, 0), Put(t, path, Nil), p, i)
  {
    if path != [] { SlotCleared(m, t, p, i, path); }
  }

  /** The parent's two slots tell the two subtrees apart. */
  lemma {:induction false} SlotChoice(m: Links, t: Trie, p: int, i: int, path: seq<bool>)
    requires Apart(t) && Linked(m, t, p, i) && IsPath(t, path) && path != [] && Sub(t, path).Node? && 0 !in Addrs(t)
    ensures SlotOwner(t, path) in m.child0
    ensures m.child0[SlotOwner(t, path)] == Root(Sub(t, path)) <==> !path[|path| - 1]
    decreases |path|
  {
    var h, c := t.ring[0], Child(t, path[0]);
    assert h in t.ring;
    if |path| == 1 {
      ChildRoot(m, t.l, h, i);
      ChildRoot(m, t.r, h, i);
      assert Sub(t, path) == c;
    } else {
      SlotChoice(m, c, h, i, path[1..]);
    }
  }
}
