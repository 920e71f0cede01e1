/** Tree bins: bitwise tries of chunk sizes, each node a ring of chunks of one size. */
module Trie {
  import opened SizeClass
  import opened Ring

  /** A chunk's head word: its size and the in-use bits of the previous chunk and of itself. */
  datatype Head = Head(size: nat, pinuse: bool, cinuse: bool)

  type Heads = map<int, Head>

  datatype Trie = Nil | Node(sz: nat, ring: seq<int>, l: Trie, r: Trie)

  /** The link fields of chunks. */
  datatype Links = Links(fd: Field, bk: Field, child0: Field, child1: Field, parent: Field, index: Field)

  function Root(t: Trie): int
  {
    if t.Node? && |t.ring| > 0 then t.ring[0] else 0
  }

  function Elems(s: seq<int>): set<int> { set x | x in s }

  function Addrs(t: Trie): set<int>
  {
    if t.Nil? then {} else Elems(t.ring) + Addrs(t.l) + Addrs(t.r)
  }

  function Sizes(t: Trie): set<nat>
  {
    if t.Nil? then {} else {t.sz} + Sizes(t.l) + Sizes(t.r)
  }

  function Child(t: Trie, right: bool): Trie
    requires t.Node?
  {
    if right then t.r else t.l
  }

  function SetChild(t: Trie, right: bool, s: Trie): Trie
    requires t.Node?
  {
    if right then t.(r := s) else t.(l := s)
  }

  /** Lower end of the half of [lo, lo + 2^b) that a subtree covers. */
  function HalfLo(lo: nat, b: nat, right: bool): nat
    requires b > 0
  {
    if right then lo + Pow2(b - 1) else lo
  }

  /** t is a trie of unique sizes over [lo, lo + 2^b): each node's size lies in its range, its left
      subtree covers the lower half and its right subtree the upper half. */
  predicate TrieOk(head: Heads, t: Trie, lo: nat, b: nat)
  {
    t.Node? ==>
      && |t.ring| > 0
      && lo <= t.sz < lo + Pow2(b)
      && (forall x :: x in t.ring ==> x > 0 && x in head && head[x].size == t.sz)
      && t.sz !in Sizes(t.l) && t.sz !in Sizes(t.r)
      && if b == 0 then t.l.Nil? && t.r.Nil?
         else TrieOk(head, t.l, lo, b - 1) && TrieOk(head, t.r, lo + Pow2(b - 1), b - 1)
  }

  /** The chunks' link fields lay out t below parent p: only the first chunk of each ring has a
      parent and children, all of them carry the bin index. */
  predicate Linked(m: Links, t: Trie, p: int, i: int)
  {
    t.Node? ==>
      && RingOk(m.fd, m.bk, t.ring)
      && (forall x :: x in t.ring ==>
           x in m.index && m.index[x] == i && x in m.child0 && x in m.child1 && x in m.parent)
      && (forall x :: x in t.ring && x != t.ring[0] ==> m.child0[x] == 0 && m.child1[x] == 0 && m.parent[x] == 0)
      && (var h := t.ring[0];
          && m.child0[h] == Root(t.l) && m.child1[h] == Root(t.r) && m.parent[h] == p
          && Linked(m, t.l, h, i) && Linked(m, t.r, h, i))
  }

  lemma {:induction false} SizesInRange(head: Heads, t: Trie, lo: nat, b: nat)
    requires TrieOk(head, t, lo, b)
    ensures forall s :: s in Sizes(t) ==> lo <= s < lo + Pow2(b)
    ensures forall x :: x in Addrs(t) ==> x > 0 && x in head && head[x].size in Sizes(t)
  {
    if t.Node? && b > 0 {
      SizesInRange(head, t.l, lo, b - 1);
      SizesInRange(head, t.r, lo + Pow2(b - 1), b - 1);
    }
  }

  /** Distinct parts of a trie hold distinct chunks. */
  predicate Apart(t: Trie)
  {
    t.Node? ==>
      && |t.ring| > 0
      && Addrs(t.l) !! Addrs(t.r) && Elems(t.ring) !! Addrs(t.l) && Elems(t.ring) !! Addrs(t.r)
      && Apart(t.l) && Apart(t.r)
  }

  /** They do, because they hold distinct sizes. */
  lemma {:induction false} PartsApart(head: Heads, t: Trie, lo: nat, b: nat)
    requires TrieOk(head, t, lo, b)
    ensures Apart(t)
  {
    if t.Node? && b > 0 {
      SizesInRange(head, t.l, lo, b - 1);
      SizesInRange(head, t.r, lo + Pow2(b - 1), b - 1);
      forall x | x in Addrs(t.l) ensures x !in Addrs(t.r) {
        assert head[x].size in Sizes(t.l);
      }
      forall x | x in Elems(t.ring) ensures x !in Addrs(t.l) && x !in Addrs(t.r) {
        assert head[x].size == t.sz;
      }
      PartsApart(head, t.l, lo, b - 1);
      PartsApart(head, t.r, lo + Pow2(b - 1), b - 1);
    }
  }

  lemma {:induction false} TrieOkFrame(head: Heads, head': Heads, t: Trie, lo: nat, b: nat)
    requires TrieOk(head, t, lo, b)
    requires forall x :: x in Addrs(t) && x in head ==> x in head' && head'[x].size == head[x].size
    ensures TrieOk(head', t, lo, b)
  {
    if t.Node? {
      forall x | x in t.ring ensures x in Addrs(t) {}
      if b > 0 {
        TrieOkFrame(head, head', t.l, lo, b - 1);
        TrieOkFrame(head, head', t.r, lo + Pow2(b - 1), b - 1);
      }
    }
  }

  predicate SameRing(m: Links, m': Links, x: int)
  {
    Same(m.fd, m'.fd, x) && Same(m.bk, m'.bk, x)
  }

  predicate SameAt(m: Links, m': Links, x: int)
  {
    && SameRing(m, m', x) && Same(m.child0, m'.child0, x) && Same(m.child1, m'.child1, x)
    && Same(m.parent, m'.parent, x) && Same(m.index, m'.index, x)
  }

  lemma {:induction false} LinkedFrame(m: Links, m': Links, t: Trie, p: int, i: int)
    requires Linked(m, t, p, i)
    requires forall x :: x in Addrs(t) ==> SameAt(m, m', x)
    ensures Linked(m', t, p, i)
  {
    if t.Node? {
      forall x | x in t.ring ensures SameAt(m, m', x) { assert x in Addrs(t); }
      assert t.ring[0] in t.ring;
      RingFrame(m.fd, m.bk, m'.fd, m'.bk, t.ring);
      LinkedFrame(m, m', t.l, t.ring[0], i);
      LinkedFrame(m, m', t.r, t.ring[0], i);
    }
  }

  // ---- paths ----

  predicate IsPath(t: Trie, path: seq<bool>)
    decreases |path|
  {
    path == [] || (t.Node? && IsPath(Child(t, path[0]), path[1..]))
  }

  function Sub(t: Trie, path: seq<bool>): Trie
    requires IsPath(t, path)
    decreases |path|
  {
    if path == [] then t else Sub(Child(t, path[0]), path[1..])
  }

  function Put(t: Trie, path: seq<bool>, s: Trie): Trie
    requires IsPath(t, path)
    decreases |path|
  {
    if path == [] then s else SetChild(t, path[0], Put(Child(t, path[0]), path[1..], s))
  }

  /** Range of the subtree at a path. */
  function SubLo(lo: nat, b: nat, path: seq<bool>): nat
    requires |path| <= b
    decreases |path|
  {
    if path == [] then lo else SubLo(HalfLo(lo, b, path[0]), b - 1, path[1..])
  }

  lemma {:induction false} PathSnoc(t: Trie, path: seq<bool>, d: bool)
    requires IsPath(t, path) && Sub(t, path).Node?
    ensures IsPath(t, path + [d]) && Sub(t, path + [d]) == Child(Sub(t, path), d)
    ensures forall s :: Put(t, path + [d], s) == Put(t, path, SetChild(Sub(t, path), d, s))
    decreases |path|
  {
    var q := path + [d];
    if path == [] {
      assert q[1..] == [];
    } else {
      assert q[1..] == path[1..] + [d];
      PathSnoc(Child(t, path[0]), path[1..], d);
    }
  }

  lemma {:induction false} SubLoSnoc(lo: nat, b: nat, path: seq<bool>, d: bool)
    requires |path| < b
    ensures SubLo(lo, b, path + [d]) == HalfLo(SubLo(lo, b, path), b - |path|, d)
    decreases |path|
  {
    var q := path + [d];
    if path == [] {
      assert q[1..] == [];
    } else {
      assert q[1..] == path[1..] + [d];
      SubLoSnoc(HalfLo(lo, b, path[0]), b - 1, path[1..], d);
    }
  }

  /** A subtree of a well-formed trie is well formed on its range. */
  lemma {:induction false} SubOk(head: Heads, t: Trie, lo: nat, b: nat, path: seq<bool>)
    requires TrieOk(head, t, lo, b) && IsPath(t, path)
    ensures |path| > b ==> Sub(t, path).Nil?
    ensures |path| <= b ==> TrieOk(head, Sub(t, path), SubLo(lo, b, path), b - |path|)
    decreases |path|
  {
    if path != [] && b > 0 {
      SubOk(head, Child(t, path[0]), HalfLo(lo, b, path[0]), b - 1, path[1..]);
    }
  }

  lemma {:induction false} SubAddrs(t: Trie, path: seq<bool>)
    requires IsPath(t, path)
    ensures Addrs(Sub(t, path)) <= Addrs(t)
    decreases |path|
  {
    if path != [] { SubAddrs(Child(t, path[0]), path[1..]); }
  }

  /** The chunk that holds the child slot to which a path leads. */
  function SlotOwner(t: Trie, path: seq<bool>): int
    requires IsPath(t, path) && path != []
    decreases |path|
  {
    if |path| == 1 then Root(t) else SlotOwner(Child(t, path[0]), path[1..])
  }

  lemma {:induction false} SlotOwnerSnoc(t: Trie, path: seq<bool>, d: bool)
    requires IsPath(t, path) && Sub(t, path).Node?
    ensures IsPath(t, path + [d]) && SlotOwner(t, path + [d]) == Root(Sub(t, path))
    decreases |path|
  {
    PathSnoc(t, path, d);
    if path != [] {
      assert (path + [d])[1..] == path[1..] + [d];
      SlotOwnerSnoc(Child(t, path[0]), path[1..], d);
    }
  }

  /** A subtree is linked below the chunk that holds its slot. */
  lemma {:induction false} SubLinked(m: Links, t: Trie, p: int, i: int, path: seq<bool>)
    requires Linked(m, t, p, i) && IsPath(t, path)
    ensures Linked(m, Sub(t, path), if path == [] then p else SlotOwner(t, path), i)
    decreases |path|
  {
    if path != [] {
      SubLinked(m, Child(t, path[0]), t.ring[0], i, path[1..]);
    }
  }

  /** The slot's owner lies in the trie, outside the subtree behind the slot. */
  lemma {:induction false} SlotOwnerApart(t: Trie, path: seq<bool>)
    requires Apart(t) && IsPath(t, path) && path != []
    ensures SlotOwner(t, path) in Addrs(t) && SlotOwner(t, path) !in Addrs(Sub(t, path))
    decreases |path|
  {
    assert t.ring[0] in t.ring;
    if |path| == 1 {
      assert Sub(t, path) == Child(t, path[0]);
    } else {
      SlotOwnerApart(Child(t, path[0]), path[1..]);
    }
  }

  lemma LinkedNode(m: Links, m': Links, t: Trie, p: int, i: int, d: bool, c: Trie)
    requires t.Node? && Linked(m, t, p, i)
    requires forall x :: x in t.ring && x != t.ring[0] ==> SameAt(m, m', x)
    requires SlotSet(m, m', t.ring[0], d, Root(c))
    requires Linked(m', Child(t, !d), t.ring[0], i) && Linked(m', c, t.ring[0], i)
    ensures Linked(m', SetChild(t, d, c), p, i)
  {
    var u := SetChild(t, d, c);
    assert u.ring == t.ring && u.ring[0] in u.ring;
    RingFrame(m.fd, m.bk, m'.fd, m'.bk, t.ring);
  }

  /** What a path leaves aside at its first node: the other subtree, and the rest of the ring. */
  function Aside(t: Trie, d: bool): set<int>
    requires t.Node? && |t.ring| > 0
  {
    Addrs(Child(t, !d)) + set x | x in t.ring && x != t.ring[0]
  }

  lemma AsideApart(t: Trie, path: seq<bool>)
    requires Apart(t) && IsPath(t, path) && path != []
    ensures Aside(t, path[0]) <= Addrs(t)
    ensures Aside(t, path[0]) !! Addrs(Sub(t, path)) && SlotOwner(t, path) !in Aside(t, path[0])
    ensures |path| > 1 ==> t.ring[0] in Addrs(t) && t.ring[0] !in Addrs(Sub(t, path)) && SlotOwner(t, path) != t.ring[0]
    ensures |path| > 1 ==> Addrs(Child(t, path[0])) <= Addrs(t)
  {
    var c, rest := Child(t, path[0]), path[1..];
    assert t.ring[0] in t.ring;
    SubAddrs(c, rest);
    if rest != [] {
      SlotOwnerApart(c, rest);
    } else {
      assert Sub(t, path) == c;
    }
  }

  lemma LinkedPutStep(m: Links, m': Links, t: Trie, p: int, i: int, d: bool, c: Trie)
    requires t.Node? && Linked(m, t, p, i)
    requires forall x :: x in Aside(t, d) ==> SameAt(m, m', x)
    requires SlotSet(m, m', t.ring[0], d, Root(c)) && Linked(m', c, t.ring[0], i)
    ensures Linked(m', SetChild(t, d, c), p, i)
  {
    forall x | x in t.ring && x != t.ring[0] ensures SameAt(m, m', x) { assert x in Aside(t, d); }
    forall x | x in Addrs(Child(t, !d)) ensures SameAt(m, m', x) { assert x in Aside(t, d); }
    LinkedFrame(m, m', Child(t, !d), t.ring[0], i);
    LinkedNode(m, m', t, p, i, d, c);
  }

  /** Everything outside the subtree behind the slot, and outside the slot's owner, keeps its links. */
  predicate SameOutside(m: Links, m': Links, t: Trie, path: seq<bool>)
    requires IsPath(t, path) && path != []
  {
    forall x :: x in Addrs(t) && x !in Addrs(Sub(t, path)) && x != SlotOwner(t, path) ==> SameAt(m, m', x)
  }

  lemma SameOutsideChild(m: Links, m': Links, t: Trie, path: seq<bool>)
    requires Apart(t) && IsPath(t, path) && path != [] && SameOutside(m, m', t, path)
    ensures forall x :: x in Aside(t, path[0]) ==> SameAt(m, m', x)
    ensures |path| > 1 ==> SameAt(m, m', t.ring[0]) && SameOutside(m, m', Child(t, path[0]), path[1..])
  {
    AsideApart(t, path);
  }

  /** Rewriting one child slot and the subtree behind it rewrites exactly that part of the trie. */
  lemma {:induction false} LinkedPut(m: Links, m': Links, t: Trie, p: int, i: int, path: seq<bool>, s: Trie)
    requires Apart(t) && Linked(m, t, p, i) && IsPath(t, path) && path != []
    requires Linked(m', s, SlotOwner(t, path), i)
    requires SlotSet(m, m', SlotOwner(t, path), path[|path| - 1], Root(s))
    requires SameOutside(m, m', t, path)
    ensures Linked(m', Put(t, path, s), p, i)
    decreases |path|
  {
    hide Addrs, SameOutside;
    var d, rest := path[0], path[1..];
    SameOutsideChild(m, m', t, path);
    if rest == [] {
      LinkedPutStep(m, m', t, p, i, d, s);
    } else {
      LinkedPut(m, m', Child(t, d), t.ring[0], i, rest, s);
      RootOfPut(Child(t, d), rest, s);
      HeadInFields(m, t, p, i);
      LinkedPutStep(m, m', t, p, i, d, Put(Child(t, d), rest, s));
    }
  }

  lemma HeadInFields(m: Links, t: Trie, p: int, i: int)
    requires t.Node? && Linked(m, t, p, i)
    ensures forall x :: x in t.ring ==> x in m.child0 && x in m.child1
    ensures t.ring[0] in t.ring && m.child0[t.ring[0]] == Root(t.l) && m.child1[t.ring[0]] == Root(t.r)
  {
  }

  predicate SlotSet(m: Links, m': Links, q: int, right: bool, v: int)
  {
    && SameRing(m, m', q) && Same(m.parent, m'.parent, q) && Same(m.index, m'.index, q)
    && (if right then q in m'.child1 && m'.child1[q] == v && Same(m.child0, m'.child0, q)
        else q in m'.child0 && m'.child0[q] == v && Same(m.child1, m'.child1, q))
  }

  lemma RootOfPut(t: Trie, path: seq<bool>, s: Trie)
    requires IsPath(t, path) && path != []
    ensures Root(Put(t, path, s)) == Root(t)
  {
  }
}
