/** What each bin operation does to the state of the bins, and why it keeps the bin invariant. */
module BinOps {
  import opened Sequences
  import opened SizeClass
  import opened BinMap
  import opened Ring
  import opened Trie
  import opened TrieOps
  import opened TrieMem
  import opened Bins

  // ---- small bins ----

  function SmallInserted(c: Layout, st: BinState, i: nat, p: int, f: int): BinState
    requires i < NSMALLBINS == |st.small|
  {
    var b := c.SmallBinAt(i);
    st.(smallmap := Mark(st.smallmap, i),
        m := st.m.(fd := st.m.fd[b := p][p := f], bk := st.m.bk[f := p][p := b]),
        small := st.small[i := [p] + st.small[i]],
        binned := st.binned + {p})
  }

  lemma SmallElems(c: Layout, head: Heads, st: BinState, i: nat)
    requires BinsOk(c, head, st) && i < NSMALLBINS
    ensures !c.InSegment(c.SmallBinAt(i)) && c.SmallBinAt(i) !in st.small[i]
    ensures forall x :: x in st.small[i] ==> x in st.binned && c.InSegment(x) && x in head && head[x].size == 8 * i
  {
    HeaderOutside(c, i);
    forall x | x in st.small[i] ensures c.InSegment(x) { assert InItsBin(c, head, st.small, st.trees, x); }
  }

  lemma SmallRingInserted(fd: Field, bk: Field, b: int, s: seq<int>, p: int)
    requires b != p && p !in s && (s != [] ==> RingOk(fd, bk, [b] + s))
    ensures s != [] ==> b in fd && fd[b] == s[0]
    ensures var f := if s == [] then b else s[0];
      RingOk(fd[b := p][p := f], bk[f := p][p := b], [b] + ([p] + s))
  {
    var ring := [b] + s;
    if s != [] {
      assert ring[1..] == s;
      RingInsert(fd, bk, ring, p);
      assert [b] + ([p] + s) == InsertSecond(ring, p);
    } else {
      assert ([b, p])[1..] == [p];
      assert [b] + ([p] + s) == [b, p];
    }
  }

  lemma SmallBinnedWhere(c: Layout, head: Heads, st: BinState, x: int)
    requires BinsOk(c, head, st) && x in st.binned && x in head && IsSmall(head[x].size)
    ensures |st.small| == NSMALLBINS && x in st.small[head[x].size / 8] && head[x].size % 8 == 0
  {
    assert InItsBin(c, head, st.small, st.trees, x);
  }

  /** What the code finds at the head of the bin it inserts into. */
  lemma SmallFront(c: Layout, head: Heads, st: BinState, i: nat, p: int)
    requires BinsOk(c, head, st) && i < NSMALLBINS && c.InSegment(p) && p !in st.binned
    ensures Bit(st.smallmap, i) <==> st.small[i] != []
    ensures st.small[i] != [] ==> c.SmallBinAt(i) in st.m.fd && st.m.fd[c.SmallBinAt(i)] == st.small[i][0]
    ensures st.small[i] != [] ==> Mark(st.smallmap, i) == st.smallmap
  {
    assert SmallBinOk(c, st.m.fd, st.m.bk, st.smallmap, i, st.small[i]);
    SmallElems(c, head, st, i);
    SmallRingInserted(st.m.fd, st.m.bk, c.SmallBinAt(i), st.small[i], p);
    if st.small[i] != [] { MarkMarked(st.smallmap, i); }
  }

  lemma SmallInsertedOk(c: Layout, head: Heads, st: BinState, i: nat, p: int)
    requires BinsOk(c, head, st) && i < NSMALLBINS
    requires c.InSegment(p) && p !in st.binned && p in head && head[p].size == 8 * i
    ensures var f := if st.small[i] == [] then c.SmallBinAt(i) else st.small[i][0];
      BinsOk(c, head, SmallInserted(c, st, i, p, f))
  {
    hide TreeBinOk, RingOk, Pow2, Log2, TreeIndex, Addrs;
    var b, s := c.SmallBinAt(i), st.small[i];
    var f := if s == [] then b else s[0];
    var st' := SmallInserted(c, st, i, p, f);
    SmallElems(c, head, st, i);
    SmallRingInserted(st.m.fd, st.m.bk, b, s, p);
    BinnedSmall(c, head, st.small, st.trees, st.binned, i, [p] + s, p, true);
    SmallBinChanged(c, head, st, st', i, {b, p, f});
  }

  /** x leaves small bin i: its neighbours are joined, or the bin's mark is cleared if x was alone. */
  function SmallRemoved(c: Layout, st: BinState, i: nat, x: int): BinState
    requires i < NSMALLBINS == |st.small| && x in st.small[i]
    requires x in st.m.fd && x in st.m.bk
  {
    if |st.small[i]| == 1 then
      st.(smallmap := Clear(st.smallmap, i), small := st.small[i := []], binned := st.binned - {x})
    else
      st.(m := Bypass(st.m, x),
          small := st.small[i := Without(st.small[i], IndexOf(st.small[i], x))],
          binned := st.binned - {x})
  }

  /** The neighbours of a chunk on its small bin's ring; both are the header exactly when it is alone. */
  lemma SmallNeighbours(c: Layout, head: Heads, st: BinState, i: nat, x: int)
    requires BinsOk(c, head, st) && i < NSMALLBINS && x in st.small[i]
    ensures x in st.m.fd && x in st.m.bk
    ensures var b, f, p := c.SmallBinAt(i), st.m.fd[x], st.m.bk[x];
      && (p == f <==> |st.small[i]| == 1)
      && (|st.small[i]| == 1 ==> f == b)
      && (f == b || f in st.small[i]) && (p == b || p in st.small[i])
      && (st.small[i][0] == x ==> p == b)
  {
    var b, s := c.SmallBinAt(i), st.small[i];
    var ring, k := [b] + s, 1 + IndexOf(s, x);
    assert SmallBinOk(c, st.m.fd, st.m.bk, st.smallmap, i, s);
    SmallElems(c, head, st, i);
    RingAlone(st.m.fd, st.m.bk, ring, k);
    RingArms(st.m.fd, st.m.bk, ring, k);
  }

  lemma SmallRingRemoved(fd: Field, bk: Field, b: int, s: seq<int>, x: int)
    requires RingOk(fd, bk, [b] + s) && x in s && |s| > 1
    requires x in fd && x in bk
    ensures var s' := Without(s, IndexOf(s, x));
      && RingOk(fd[bk[x] := fd[x]], bk[fd[x] := bk[x]], [b] + s')
      && forall y :: y in s' <==> y in s && y != x
  {
    var ring, k := [b] + s, IndexOf(s, x);
    RingUnlink(fd, bk, ring, k + 1);
    assert Without(ring, k + 1) == [b] + Without(s, k);
    assert NoDup(s) by { assert forall j :: 0 <= j < |s| ==> s[j] == ring[j + 1]; }
    WithoutSet(s, x);
  }

  lemma BypassFrame(m: Links, x: int)
    requires x in m.fd && x in m.bk
    ensures forall y :: y !in {m.fd[x], m.bk[x]} ==> SameAt(m, Bypass(m, x), y)
  {
  }

  lemma SmallEmptiedOk(c: Layout, head: Heads, st: BinState, i: nat, x: int)
    requires BinsOk(c, head, st) && i < NSMALLBINS && st.small[i] == [x]
    ensures BinsOk(c, head, st.(smallmap := Clear(st.smallmap, i), small := st.small[i := []],
        binned := st.binned - {x}))
  {
    SmallElems(c, head, st, i);
    BinnedSmall(c, head, st.small, st.trees, st.binned, i, [], x, false);
    SmallBinChanged(c, head, st,
      st.(smallmap := Clear(st.smallmap, i), small := st.small[i := []], binned := st.binned - {x}), i, {});
  }

  lemma SmallThinnedOk(c: Layout, head: Heads, st: BinState, i: nat, x: int)
    requires BinsOk(c, head, st) && i < NSMALLBINS && x in st.small[i] && |st.small[i]| > 1
    requires x in st.m.fd && x in st.m.bk
    ensures var s' := Without(st.small[i], IndexOf(st.small[i], x));
      BinsOk(c, head, st.(m := Bypass(st.m, x), small := st.small[i := s'], binned := st.binned - {x}))
  {
    hide TreeBinOk, IndexOf, RingOk, Bit, Pow2, Log2, TreeIndex, Addrs;
    var b, s := c.SmallBinAt(i), st.small[i];
    var s' := Without(s, IndexOf(s, x));
    SmallElems(c, head, st, i);
    SmallNeighbours(c, head, st, i, x);
    assert SmallBinOk(c, st.m.fd, st.m.bk, st.smallmap, i, s);
    SmallRingRemoved(st.m.fd, st.m.bk, b, s, x);
    BinnedSmall(c, head, st.small, st.trees, st.binned, i, s', x, false);
    BypassFrame(st.m, x);
    assert |s'| == |s| - 1;
    SmallBinChanged(c, head, st, st.(m := Bypass(st.m, x), small := st.small[i := s'], binned := st.binned - {x}),
      i, {st.m.fd[x], st.m.bk[x]});
  }

  lemma SmallRemovedOk(c: Layout, head: Heads, st: BinState, i: nat, x: int)
    requires BinsOk(c, head, st) && i < NSMALLBINS && x in st.small[i]
    requires x in st.m.fd && x in st.m.bk
    ensures BinsOk(c, head, SmallRemoved(c, st, i, x))
  {
    if |st.small[i]| == 1 {
      assert st.small[i] == [x];
      SmallEmptiedOk(c, head, st, i, x);
    } else {
      SmallThinnedOk(c, head, st, i, x);
    }
  }

  // ---- tree bins ----

  function TreeInserted(st: BinState, i: nat, x: int, s: nat, m': Links): BinState
    requires i < NTREEBINS == |st.trees| == |st.treebins|
  {
    var t' := Insert(st.trees[i], x, s, BinLo(i), BinBits(i));
    st.(treemap := Mark(st.treemap, i), treebins := st.treebins[i := Root(t')], m := m',
        trees := st.trees[i := t'], binned := st.binned + {x})
  }

  /** A chunk of a tree bin. */
  lemma TreeElem(c: Layout, head: Heads, st: BinState, i: nat, x: int)
    requires BinsOk(c, head, st) && i < NTREEBINS && x in Addrs(st.trees[i])
    ensures x in st.binned && c.InSegment(x) && x in head && IsLarge(head[x].size) && head[x].size % 8 == 0
    ensures TreeIndex(head[x].size) == i
  {
    hide Addrs, TreeBinOk, SmallBinOk, IsLarge, TreeIndex;
    assert InItsBin(c, head, st.small, st.trees, x);
  }

  lemma TreeElems(c: Layout, head: Heads, st: BinState, i: nat)
    requires BinsOk(c, head, st) && i < NTREEBINS
    ensures forall x :: x in Addrs(st.trees[i]) ==>
      && x in st.binned && c.InSegment(x) && x in head && IsLarge(head[x].size) && head[x].size % 8 == 0
      && TreeIndex(head[x].size) == i
    ensures Apart(st.trees[i]) && Addrs(st.trees[i]) <= st.binned
  {
    hide SmallBinOk, IsLarge, TreeIndex, BinnedOk, Linked, TrieOk, Apart;
    var a := Addrs(st.trees[i]);
    forall x | x in a
      ensures x in st.binned && c.InSegment(x) && x in head && IsLarge(head[x].size) && head[x].size % 8 == 0
      ensures TreeIndex(head[x].size) == i
    {
      TreeElem(c, head, st, i, x);
    }
    assert a <= st.binned by {
      forall x | x in a ensures x in st.binned { TreeElem(c, head, st, i, x); }
    }
    assert TreeBinOk(c, head, st.m, st.treemap, i, st.treebins[i], st.trees[i]);
    PartsApart(head, st.trees[i], BinLo(i), BinBits(i));
  }

  lemma TreeBinInserted(c: Layout, head: Heads, m: Links, m': Links, marks: binmap, i: nat, t: Trie, x: int, s: nat)
    requires i < NTREEBINS && TreeBinOk(c, head, m, marks, i, Root(t), t)
    requires x > 0 && x in head && head[x].size == s && IsLarge(s) && TreeIndex(s) == i
    requires Linked(m', Insert(t, x, s, BinLo(i), BinBits(i)), c.TreeBinAt(i), i)
    ensures var t' := Insert(t, x, s, BinLo(i), BinBits(i));
      TreeBinOk(c, head, m', Mark(marks, i), i, Root(t'), t') && Addrs(t') == Addrs(t) + {x}
  {
    TreeIndexBrackets(s);
    InsertOk(head, t, x, s, BinLo(i), BinBits(i));
  }

  lemma TreeInsertedOk(c: Layout, head: Heads, st: BinState, i: nat, x: int, s: nat, m': Links)
    requires BinsOk(c, head, st) && i < NTREEBINS && c.InSegment(x) && x !in st.binned
    requires x in head && head[x].size == s && IsLarge(s) && s % 8 == 0 && TreeIndex(s) == i
    requires Linked(m', Insert(st.trees[i], x, s, BinLo(i), BinBits(i)), c.TreeBinAt(i), i)
    requires forall y :: y !in Addrs(st.trees[i]) && y != x ==> SameAt(st.m, m', y)
    ensures BinsOk(c, head, TreeInserted(st, i, x, s, m'))
  {
    var t := st.trees[i];
    var t', st' := Insert(t, x, s, BinLo(i), BinBits(i)), TreeInserted(st, i, x, s, m');
    TreeElems(c, head, st, i);
    assert TreeBinOk(c, head, st.m, st.treemap, i, st.treebins[i], t);
    TreeBinInserted(c, head, st.m, m', st.treemap, i, t, x, s);
    BinnedTree(c, head, st.small, st.trees, st.binned, i, t', x, true);
    TreeBinChanged(c, head, st, st', i, Addrs(t) + {x});
  }

  function TreeRemoved(st: BinState, i: nat, x: int, m': Links): BinState
    requires i < NTREEBINS == |st.trees| == |st.treebins| && x in Addrs(st.trees[i])
  {
    var t' := Remove(st.trees[i], x);
    st.(treemap := if t'.Nil? then Clear(st.treemap, i) else st.treemap,
        treebins := st.treebins[i := Root(t')], m := m',
        trees := st.trees[i := t'], binned := st.binned - {x})
  }

  lemma RemoveAt(head: Heads, t: Trie, lo: nat, b: nat, path: seq<bool>, x: int)
    requires TrieOk(head, t, lo, b) && IsPath(t, path) && Sub(t, path).Node?
    requires NoDup(Sub(t, path).ring) && x in Sub(t, path).ring
    ensures TrieOk(head, Put(t, path, RemoveHere(Sub(t, path), x)), lo, b)
    ensures Addrs(RemoveHere(Sub(t, path), x)) == Addrs(Sub(t, path)) - {x}
  {
    hide TrieOk, Put, RemoveHere, NoDup;
    SubOk(head, t, lo, b, path);
    RemoveHereOk(head, Sub(t, path), SubLo(lo, b, path), b - |path|, x);
    PutOk(head, t, lo, b, path, RemoveHere(Sub(t, path), x));
  }

  lemma RemoveOk(head: Heads, m: Links, t: Trie, lo: nat, b: nat, p: int, i: int, x: int)
    requires TrieOk(head, t, lo, b) && Linked(m, t, p, i) && x in Addrs(t)
    ensures TrieOk(head, Remove(t, x), lo, b) && Addrs(Remove(t, x)) == Addrs(t) - {x}
  {
    var path := PathTo(t, x);
    SubLinked(m, t, p, i, path);
    RemoveAt(head, t, lo, b, path, x);
    PartsApart(head, t, lo, b);
    RemoveAddrs(t, path, x, RemoveHere(Sub(t, path), x));
  }

  lemma RemoveAddrs(t: Trie, path: seq<bool>, x: int, u': Trie)
    requires Apart(t) && IsPath(t, path) && Sub(t, path).Node? && x in Sub(t, path).ring
    requires Addrs(u') == Addrs(Sub(t, path)) - {x}
    ensures Addrs(Put(t, path, u')) == Addrs(t) - {x}
  {
    SubAddrs(t, path);
    PutAddrs(t, path, u');
    assert x in Elems(Sub(t, path).ring);
  }

  lemma TreeRemovedOk(c: Layout, head: Heads, st: BinState, i: nat, x: int, m': Links)
    requires BinsOk(c, head, st) && i < NTREEBINS && x in Addrs(st.trees[i])
    requires Linked(m', Remove(st.trees[i], x), c.TreeBinAt(i), i)
    requires forall y :: y !in Addrs(st.trees[i]) ==> SameAt(st.m, m', y)
    ensures BinsOk(c, head, TreeRemoved(st, i, x, m'))
  {
    var t := st.trees[i];
    var t', st' := Remove(t, x), TreeRemoved(st, i, x, m');
    TreeElems(c, head, st, i);
    assert TreeBinOk(c, head, st.m, st.treemap, i, st.treebins[i], t);
    RemoveOk(head, st.m, t, BinLo(i), BinBits(i), c.TreeBinAt(i), i, x);
    BinnedTree(c, head, st.small, st.trees, st.binned, i, t', x, false);
    assert TreeBinOk(c, head, m', st'.treemap, i, st'.treebins[i], t');
    TreeBinChanged(c, head, st, st', i, Addrs(t));
  }

  // ---- the search for the insertion point ----

  /** What the bin invariant says about one tree bin. */
  lemma TreeBinFacts(c: Layout, head: Heads, st: BinState, i: nat)
    requires BinsOk(c, head, st) && i < NTREEBINS
    ensures TreeBinOk(c, head, st.m, st.treemap, i, st.treebins[i], st.trees[i])
    ensures Apart(st.trees[i]) && 0 !in Addrs(st.trees[i]) && Addrs(st.trees[i]) <= st.binned
  {
    hide Linked, Bit, TrieOk, Apart, Addrs;
    TreeElems(c, head, st, i);
    assert !c.InSegment(0);
  }

  lemma TreeBinMarked(c: Layout, head: Heads, m: Links, marks: binmap, i: nat, root: int, t: Trie)
    requires i < NTREEBINS && TreeBinOk(c, head, m, marks, i, root, t)
    ensures root == Root(t) && (Bit(marks, i) <==> t.Node?)
    ensures t.Node? ==> Mark(marks, i) == marks
  {
    if Bit(marks, i) { MarkMarked(marks, i); }
  }

  /** What the search reads at the node at a path. */
  lemma SearchNode(head: Heads, m: Links, t: Trie, lo: nat, b: nat, p: int, i: int, path: seq<bool>)
    requires TrieOk(head, t, lo, b) && Linked(m, t, p, i) && IsPath(t, path) && Sub(t, path).Node?
    ensures |path| <= b && |path| < Height(t)
    ensures var u := Sub(t, path);
      var h := Root(u);
      && TrieOk(head, u, SubLo(lo, b, path), b - |path|)
      && h in Addrs(t) && h in head && head[h].size == u.sz
      && SubLo(lo, b, path) <= u.sz < SubLo(lo, b, path) + Pow2(b - |path|)
      && h in m.child0 && h in m.child1 && h in m.fd && h in m.bk && h in m.parent
      && m.child0[h] == Root(u.l) && m.child1[h] == Root(u.r)
  {
    SubOk(head, t, lo, b, path);
    SubLinked(m, t, p, i, path);
    SubAddrs(t, path);
    PathHeight(t, path);
    var u := Sub(t, path);
    assert u.ring[0] in u.ring && u.ring[0] in Elems(u.ring);
    RingAlone(m.fd, m.bk, u.ring, 0);
  }

  lemma {:induction false} PathHeight(t: Trie, path: seq<bool>)
    requires IsPath(t, path) && Sub(t, path).Node?
    ensures |path| < Height(t)
    decreases |path|
  {
    if path != [] { PathHeight(Child(t, path[0]), path[1..]); }
  }

  lemma ChildPresent(t: Trie, head: Heads, lo: nat, b: nat)
    requires TrieOk(head, t, lo, b)
    ensures t.Node? <==> Root(t) != 0
  {
    if t.Node? { assert t.ring[0] in t.ring; }
  }

  /** The search for size s has come down a path, and inserting at the top amounts to inserting here. */
  predicate SearchAt(t: Trie, lo: nat, b: nat, path: seq<bool>, x: int, s: nat, k: nat)
  {
    && |path| <= b <= 32 && IsPath(t, path)
    && SubLo(lo, b, path) <= s < SubLo(lo, b, path) + Pow2(b - |path|)
    && k == (s - SubLo(lo, b, path)) * Pow2(32 - (b - |path|))
    && Insert(t, x, s, lo, b) == Put(t, path, Insert(Sub(t, path), x, s, SubLo(lo, b, path), b - |path|))
  }

  lemma SearchStart(t: Trie, x: int, s: nat, k: nat)
    requires MIN_LARGE_SIZE <= s < SIZE_T_RANGE && TreeIndex(s) < NTREEBINS
    requires k == Shl32(s, LeftShiftForTreeIndex(TreeIndex(s)))
    ensures SearchAt(t, BinLo(TreeIndex(s)), BinBits(TreeIndex(s)), [], x, s, k)
  {
    hide TreeIndex, LeftShiftForTreeIndex, Shl32, BinLo, BinBits, MinSizeForTreeIndex;
    TreeIndexBrackets(s);
    InitialSearchKey(s);
  }

  /** The node's size differs from s, so its range is not yet a single size. */
  lemma RangeNotSingle(t: Trie, head: Heads, lo: nat, b: nat, s: nat)
    requires TrieOk(head, t, lo, b) && t.Node? && t.sz != s && lo <= s < lo + Pow2(b)
    ensures b > 0
  {
    assert Pow2(0) == 1;
  }

  lemma SearchArith(s: nat, slo: nat, r: nat, k: nat)
    requires 0 < r <= 32 && slo <= s < slo + Pow2(r) && k == (s - slo) * Pow2(32 - r)
    ensures k < SIZE_T_RANGE
    ensures k / 0x8000_0000 == if s >= slo + Pow2(r - 1) then 1 else 0
    ensures var h := HalfLo(slo, r, s >= slo + Pow2(r - 1));
      h <= s < h + Pow2(r - 1) && Shl32(k, 1) == (s - h) * Pow2(32 - (r - 1))
  {
    SearchKeyStep(s, slo, r, k);
  }

  lemma SearchStep(head: Heads, t: Trie, lo: nat, b: nat, path: seq<bool>, x: int, s: nat, k: nat)
    requires SearchAt(t, lo, b, path, x, s, k) && TrieOk(head, t, lo, b)
    requires Sub(t, path).Node? && Sub(t, path).sz != s
    ensures |path| < b && k < SIZE_T_RANGE && k / 0x8000_0000 <= 1
    ensures var d := k / 0x8000_0000 == 1;
      && IsPath(t, path + [d]) && Sub(t, path + [d]) == Child(Sub(t, path), d)
      && SearchAt(t, lo, b, path + [d], x, s, Shl32(k, 1))
      && (Root(Child(Sub(t, path), d)) == 0 <==> Child(Sub(t, path), d).Nil?)
      && (Child(Sub(t, path), d).Nil? ==> PlaceFound(t, lo, b, path, x, s, d))
  {
    hide SearchAt, PlaceFound, TrieOk, Pow2, Shl32, Insert, Put, IsPath, Sub;
    SearchFacts(t, lo, b, path, x, s, k);
    NodeAt(head, t, lo, b, path, s);
    SearchArith(s, SubLo(lo, b, path), b - |path|, k);
    SearchStepFinish(t, lo, b, path, x, s, k, s >= SubLo(lo, b, path) + Pow2(b - |path| - 1), Shl32(k, 1));
  }

  lemma NodeAt(head: Heads, t: Trie, lo: nat, b: nat, path: seq<bool>, s: nat)
    requires TrieOk(head, t, lo, b) && IsPath(t, path) && |path| <= b && Sub(t, path).Node? && Sub(t, path).sz != s
    requires SubLo(lo, b, path) <= s < SubLo(lo, b, path) + Pow2(b - |path|)
    ensures |path| < b
    ensures forall d :: Root(Child(Sub(t, path), d)) == 0 <==> Child(Sub(t, path), d).Nil?
  {
    hide IsPath, Sub, SubLo, Pow2, TrieOk;
    SubOk(head, t, lo, b, path);
    NodeAtHere(Sub(t, path), head, SubLo(lo, b, path), b - |path|, s);
  }

  lemma NodeAtHere(t: Trie, head: Heads, lo: nat, b: nat, s: nat)
    requires TrieOk(head, t, lo, b) && t.Node? && t.sz != s && lo <= s < lo + Pow2(b)
    ensures b > 0
    ensures forall d :: Root(Child(t, d)) == 0 <==> Child(t, d).Nil?
  {
    RangeNotSingle(t, head, lo, b, s);
    ChildOk(head, t, lo, b, false);
    ChildOk(head, t, lo, b, true);
  }

  lemma SearchFacts(t: Trie, lo: nat, b: nat, path: seq<bool>, x: int, s: nat, k: nat)
    requires SearchAt(t, lo, b, path, x, s, k)
    ensures IsPath(t, path)
    ensures |path| <= b <= 32 && SubLo(lo, b, path) <= s < SubLo(lo, b, path) + Pow2(b - |path|)
    ensures k == (s - SubLo(lo, b, path)) * Pow2(32 - (b - |path|))
  {
  }

  lemma SearchStepFinish(t: Trie, lo: nat, b: nat, path: seq<bool>, x: int, s: nat, k: nat, d: bool, k': nat)
    requires SearchAt(t, lo, b, path, x, s, k) && Sub(t, path).Node? && Sub(t, path).sz != s && |path| < b
    requires d == (s >= SubLo(lo, b, path) + Pow2(b - |path| - 1))
    requires var h := HalfLo(SubLo(lo, b, path), b - |path|, d);
      h <= s < h + Pow2(b - |path| - 1) && k' == (s - h) * Pow2(32 - (b - |path| - 1))
    ensures IsPath(t, path + [d]) && Sub(t, path + [d]) == Child(Sub(t, path), d)
    ensures SearchAt(t, lo, b, path + [d], x, s, k')
    ensures Child(Sub(t, path), d).Nil? ==> PlaceFound(t, lo, b, path, x, s, d)
  {
    InsertStep(t, path, x, s, lo, b);
    PathSnoc(t, path, d);
    hide Pow2, Put, Insert, Sub;
  }

  lemma ChildOk(head: Heads, t: Trie, lo: nat, b: nat, d: bool)
    requires TrieOk(head, t, lo, b) && t.Node? && b > 0
    ensures Root(Child(t, d)) == 0 <==> Child(t, d).Nil?
  {
    ChildPresent(Child(t, d), head, HalfLo(lo, b, d), b - 1);
  }

  lemma SearchHit(head: Heads, t: Trie, lo: nat, b: nat, path: seq<bool>, x: int, s: nat, k: nat)
    requires SearchAt(t, lo, b, path, x, s, k) && Sub(t, path).Node? && Sub(t, path).sz == s
    ensures forall d :: PlaceFound(t, lo, b, path, x, s, d)
  {
  }

  /** The node at a path is the one where inserting x changes a link: its size is s,
      or its child on the side of s is missing. */
  predicate PlaceFound(t: Trie, lo: nat, b: nat, path: seq<bool>, x: int, s: nat, d: bool)
  {
    && |path| <= b && IsPath(t, path) && Sub(t, path).Node?
    && Insert(t, x, s, lo, b) == Put(t, path, Insert(Sub(t, path), x, s, SubLo(lo, b, path), b - |path|))
    && (Sub(t, path).sz != s ==>
          |path| < b && d == (s >= SubLo(lo, b, path) + Pow2(b - |path| - 1)) && Child(Sub(t, path), d).Nil?)
  }

  /** The new chunk becomes the child in the empty slot where the search ends. */
  lemma InsertedAsLeaf(head: Heads, m: Links, t: Trie, lo: nat, b: nat, p: int, i: int, path: seq<bool>, x: int,
          s: nat, d: bool)
    requires TrieOk(head, t, lo, b) && Apart(t) && Linked(m, t, p, i) && x !in Addrs(t)
    requires PlaceFound(t, lo, b, path, x, s, d) && Sub(t, path).sz != s
    ensures var h := Root(Sub(t, path));
      var m' := SetSlot(AddLeaf(m, x, h, i), h, d, x);
      && Linked(m', Insert(t, x, s, lo, b), p, i)
      && (forall y :: y !in Addrs(t) && y != x ==> SameAt(m, m', y))
      && h in m.child0 && h in m.child1 && h != x
    ensures Root(Insert(t, x, s, lo, b)) == Root(t)
  {
    var h, path' := Root(Sub(t, path)), path + [d];
    SearchNode(head, m, t, lo, b, p, i, path);
    InsertStep(t, path, x, s, lo, b);
    PathSnoc(t, path, d);
    SlotOwnerSnoc(t, path, d);
    InsertLeafLinked(m, t, p, i, path', x, s);
    SlotOwnerApart(t, path');
    LeafFrame(m, x, h, i, d);
    RootOfPut(t, path', Node(s, [x], Nil, Nil));
  }

  lemma LeafFrame(m: Links, x: int, h: int, i: int, d: bool)
    ensures forall y :: y != h && y != x ==> SameAt(m, SetSlot(AddLeaf(m, x, h, i), h, d, x), y)
  {
  }

  /** The new chunk becomes the root of an empty bin. */
  lemma FirstInTree(c: Layout, head: Heads, st: BinState, i: nat, x: int, s: nat)
    requires BinsOk(c, head, st) && i < NTREEBINS && c.InSegment(x) && x !in st.binned && st.trees[i].Nil?
    requires x in head && head[x].size == s && IsLarge(s) && s % 8 == 0 && TreeIndex(s) == i
    ensures BinsOk(c, head, TreeInserted(st, i, x, s, AddLeaf(st.m, x, c.TreeBinAt(i), i)))
    ensures Root(Insert(st.trees[i], x, s, BinLo(i), BinBits(i))) == x
  {
    LeafLinked(st.m, x, c.TreeBinAt(i), i, s);
    TreeInsertedOk(c, head, st, i, x, s, AddLeaf(st.m, x, c.TreeBinAt(i), i));
  }

  /** The new chunk joins the ring of the node of its size. */
  lemma InsertedInRing(head: Heads, m: Links, t: Trie, lo: nat, b: nat, p: int, i: int, path: seq<bool>, x: int,
          s: nat, d: bool)
    requires TrieOk(head, t, lo, b) && Apart(t) && Linked(m, t, p, i) && x !in Addrs(t)
    requires PlaceFound(t, lo, b, path, x, s, d) && Sub(t, path).sz == s
    ensures Root(Sub(t, path)) in m.fd
    ensures var m' := JoinRing(m, Root(Sub(t, path)), x, i);
      && Linked(m', Insert(t, x, s, lo, b), p, i)
      && forall y :: y !in Addrs(t) && y != x ==> SameAt(m, m', y)
    ensures Root(Insert(t, x, s, lo, b)) == Root(t)
  {
    var u := Sub(t, path);
    SubLinked(m, t, p, i, path);
    SubAddrs(t, path);
    SubApart(t, path);
    RingHasSecond(m, u, ParentOf(t, path, p), i);
    JoinRingLinked(m, u, ParentOf(t, path, p), i, x);
    InsertRingLinked(m, t, p, i, path, x);
    assert u.(ring := InsertSecond(u.ring, x)) == Insert(u, x, s, SubLo(lo, b, path), b - |path|);
    if path != [] { RootOfPut(t, path, u.(ring := InsertSecond(u.ring, x))); }
  }

  // ---- unlink_large_chunk ----

  /** Where chunk x sits: at the node at a path, below parent p of the bin's trie. */
  predicate SitsAt(c: Layout, st: BinState, head: Heads, i: nat, x: int, path: seq<bool>)
  {
    && i < NTREEBINS == |st.trees| == |st.treebins| && x in Addrs(st.trees[i]) && path == PathTo(st.trees[i], x)
    && TreeBinOk(c, head, st.m, st.treemap, i, st.treebins[i], st.trees[i])
    && Apart(st.trees[i]) && 0 !in Addrs(st.trees[i])
  }

  /** The fields of x that unlink_large_chunk reads first. */
  lemma SeatOf(c: Layout, head: Heads, st: BinState, x: int)
    requires BinsOk(c, head, st) && x in st.binned && x in head && IsLarge(head[x].size)
    ensures var i := TreeIndex(head[x].size);
      && i < NTREEBINS == |st.trees| == |st.treebins| && x in Addrs(st.trees[i])
      && SitsAt(c, st, head, i, x, PathTo(st.trees[i], x))
      && x in st.m.index && st.m.index[x] == i && x in st.m.parent && x in st.m.fd && x in st.m.bk
      && x in st.m.child0 && x in st.m.child1 && c.Valid()
  {
    assert InItsBin(c, head, st.small, st.trees, x);
    var i := TreeIndex(head[x].size);
    TreeBinFacts(c, head, st, i);
    var t := st.trees[i];
    var path := PathTo(t, x);
    SubLinked(st.m, t, c.TreeBinAt(i), i, path);
    RingAlone(st.m.fd, st.m.bk, Sub(t, path).ring, IndexOf(Sub(t, path).ring, x));
  }

  /** x is chained behind another chunk of its size exactly when its parent field is null. */
  lemma SeatKind(c: Layout, head: Heads, st: BinState, i: nat, x: int, path: seq<bool>)
    requires SitsAt(c, st, head, i, x, path) && c.Valid()
    ensures x in st.m.parent && x in st.m.bk && x in st.m.fd
    ensures var u := Sub(st.trees[i], path);
      && u.Node? && x in u.ring
      && (st.m.bk[x] == x <==> |u.ring| == 1)
      && (x != u.ring[0] ==> st.m.parent[x] == 0)
      && (x == u.ring[0] ==> st.m.parent[x] == ParentOf(st.trees[i], path, c.TreeBinAt(i)) != 0)
      && (st.treebins[i] == x <==> path == [] && x == u.ring[0])
  {
    var t, p := st.trees[i], c.TreeBinAt(i);
    var u := Sub(t, path);
    SubLinked(st.m, t, p, i, path);
    RingAlone(st.m.fd, st.m.bk, u.ring, IndexOf(u.ring, x));
    if path != [] { SlotOwnerApart(t, path); }
    assert t.ring[0] in t.ring;
  }

  /** Removing a chained chunk. */
  lemma ChainedRemoved(c: Layout, head: Heads, st: BinState, i: nat, x: int, path: seq<bool>)
    requires BinsOk(c, head, st) && SitsAt(c, st, head, i, x, path) && x != Sub(st.trees[i], path).ring[0]
    requires x in st.m.fd && x in st.m.bk
    ensures BinsOk(c, head, TreeRemoved(st, i, x, Bypass(st.m, x)))
    ensures TreeRemoved(st, i, x, Bypass(st.m, x)).treemap == st.treemap
    ensures TreeRemoved(st, i, x, Bypass(st.m, x)).treebins == st.treebins
  {
    var t, p := st.trees[i], c.TreeBinAt(i);
    var u := Sub(t, path);
    ChainedLinked(st.m, t, p, i, path, x);
    SubLinked(st.m, t, p, i, path);
    RingAlone(st.m.fd, st.m.bk, u.ring, IndexOf(u.ring, x));
    SubAddrs(t, path);
    SubApart(t, path);
    RingNeighboursAside(st.m, Bypass(st.m, x), u, x);
    TreeRemovedOk(c, head, st, i, x, Bypass(st.m, x));
    WithoutSet(u.ring, x);
    SamePutRoot(t, path, RemoveHere(u, x));
  }

  lemma SamePutRoot(t: Trie, path: seq<bool>, s: Trie)
    requires IsPath(t, path) && s.Node? && Sub(t, path).Node? && Root(s) == Root(Sub(t, path))
    ensures Put(t, path, s).Node? && Root(Put(t, path, s)) == Root(t)
  {
    if path != [] { RootOfPut(t, path, s); }
  }

  /** Removing a tree node: memory m1 holds the parts of its replacement u'. */
  lemma NodeRemoved(c: Layout, head: Heads, st: BinState, i: nat, x: int, path: seq<bool>, m1: Links, u': Trie, rp: int)
    requires BinsOk(c, head, st) && SitsAt(c, st, head, i, x, path) && x == Sub(st.trees[i], path).ring[0]
    requires Spliced(st.m, m1, Sub(st.trees[i], path), u', x, rp, i) && u' == RemoveHere(Sub(st.trees[i], path), x)
    ensures var m2 := Redirect(m1, st.trees[i], path, u'.ring[0]);
      && x in m2.child0 && x in m2.child1
      && BinsOk(c, head, TreeRemoved(st, i, x, TakeOver(m2, x, ParentOf(st.trees[i], path, c.TreeBinAt(i)),
          u'.ring[0])))
    ensures Remove(st.trees[i], x).Node?
    ensures Root(Remove(st.trees[i], x)) == if path == [] then u'.ring[0] else st.treebins[i]
  {
    var t, p := st.trees[i], c.TreeBinAt(i);
    var u, r := Sub(t, path), u'.ring[0];
    HeadReplaced(st.m, m1, t, p, i, path, u', x, rp);
    var m2 := Redirect(m1, t, path, r);
    var m3 := TakeOver(m2, x, ParentOf(t, path, p), r);
    NodeRemovedFrame(st.m, m1, t, p, path, u', x);
    TreeRemovedOk(c, head, st, i, x, m3);
    if path != [] { RootOfPut(t, path, u'); }
  }

  lemma NodeRemovedFrame(m: Links, m1: Links, t: Trie, p: int, path: seq<bool>, u': Trie, x: int)
    requires Apart(t) && IsPath(t, path) && u'.Node? && |u'.ring| > 0 && Addrs(u') <= Addrs(Sub(t, path))
    requires forall y :: y !in Addrs(Sub(t, path)) ==> SameAt(m, m1, y)
    requires var m2 := Redirect(m1, t, path, u'.ring[0]);
      && x in m2.child0 && x in m2.child1 && m2.child0[x] == Root(u'.l) && m2.child1[x] == Root(u'.r)
    requires 0 !in Addrs(u')
    ensures var m3 := TakeOver(Redirect(m1, t, path, u'.ring[0]), x, ParentOf(t, path, p), u'.ring[0]);
      forall y :: y !in Addrs(t) ==> SameAt(m, m3, y)
  {
    var r := u'.ring[0];
    var m2 := Redirect(m1, t, path, r);
    SubAddrs(t, path);
    assert r in u'.ring && r in Elems(u'.ring);
    RootInside(u'.l);
    RootInside(u'.r);
    if path != [] { SlotOwnerApart(t, path); }
    forall y | y !in Addrs(t) ensures SameAt(m, TakeOver(m2, x, ParentOf(t, path, p), r), y) {
      RedirectFrame(m1, t, path, r, y);
      TakeOverFrame(m2, x, ParentOf(t, path, p), r, y);
    }
  }

  lemma RootInside(t: Trie)
    ensures Root(t) == 0 || Root(t) in Addrs(t)
  {
    if t.Node? && |t.ring| > 0 { assert t.ring[0] in t.ring && t.ring[0] in Elems(t.ring); }
  }

  /** Removing a leaf that is the only chunk of its size. */
  lemma LeafRemoved(c: Layout, head: Heads, st: BinState, i: nat, x: int, path: seq<bool>)
    requires BinsOk(c, head, st) && SitsAt(c, st, head, i, x, path)
    requires var u := Sub(st.trees[i], path); u.l.Nil? && u.r.Nil? && |u.ring| == 1
    ensures BinsOk(c, head, TreeRemoved(st, i, x, Redirect(st.m, st.trees[i], path, 0)))
    ensures Remove(st.trees[i], x).Nil? <==> path == []
    ensures Root(Remove(st.trees[i], x)) == if path == [] then 0 else st.treebins[i]
  {
    var t, p := st.trees[i], c.TreeBinAt(i);
    var u := Sub(t, path);
    assert u.ring == [x];
    LeafCleared(st.m, t, p, i, path);
    if path != [] { SlotOwnerApart(t, path); RootOfPut(t, path, Nil); }
    forall y | y !in Addrs(t) ensures SameAt(st.m, Redirect(st.m, t, path, 0), y) {
      RedirectFrame(st.m, t, path, 0, y);
    }
    TreeRemovedOk(c, head, st, i, x, Redirect(st.m, t, path, 0));
  }

  // ---- the search for the replacing leaf ----

  /** The search for a leaf has come down path lp below node u, and pulling the leaf from u amounts to
      pulling it from here. */
  predicate LeafSearch(u: Trie, lp: seq<bool>)
  {
    && u.Node? && IsPath(u, lp) && Sub(u, lp).Node?
    && LeafOf(Sub(u, lp)) == LeafOf(u)
    && Put(u, lp, WithoutLeaf(Sub(u, lp))) == WithoutLeaf(u)
  }

  /** The fields read at a node below the root of a bin's trie. */
  lemma LeafSearchNode(m: Links, u: Trie, q: int, i: int, lp: seq<bool>)
    requires Linked(m, u, q, i) && LeafSearch(u, lp) && 0 !in Addrs(u)
    ensures var v := Sub(u, lp);
      var h := Root(v);
      && h in m.child0 && h in m.child1 && m.child0[h] == Root(v.l) && m.child1[h] == Root(v.r)
      && (Root(v.l) == 0 <==> v.l.Nil?) && (Root(v.r) == 0 <==> v.r.Nil?)
      && h != 0
  {
    var v := Sub(u, lp);
    SubLinked(m, u, q, i, lp);
    SubAddrs(u, lp);
    HeadInFields(m, v, ParentOf(u, lp, q), i);
    RootNonzero(m, v, ParentOf(u, lp, q), i);
    RootNonzero(m, v.l, v.ring[0], i);
    RootNonzero(m, v.r, v.ring[0], i);
  }

  lemma RootNonzero(m: Links, t: Trie, p: int, i: int)
    requires Linked(m, t, p, i) && 0 !in Addrs(t)
    ensures Root(t) == 0 <==> t.Nil?
  {
    if t.Node? { assert t.ring[0] in Elems(t.ring); }
  }

  lemma LeafSearchStart(u: Trie)
    requires u.Node?
    ensures LeafSearch(u, []) && IsPath(u, []) && Sub(u, []) == u
  {
  }

  lemma LeafSearchStep(u: Trie, lp: seq<bool>, d: bool)
    requires LeafSearch(u, lp) && Child(Sub(u, lp), d).Node? && (d || Sub(u, lp).r.Nil?)
    ensures LeafSearch(u, lp + [d]) && IsPath(u, lp + [d]) && Sub(u, lp + [d]) == Child(Sub(u, lp), d)
    ensures SlotOwner(u, lp + [d]) == Root(Sub(u, lp))
    ensures Sub(u, lp + [d]) < Sub(u, lp)
  {
    LeafStep(u, lp, d);
    SlotOwnerSnoc(u, lp, d);
  }

  lemma LeafSearchNowhere(u: Trie, lp: seq<bool>)
    requires LeafSearch(u, lp) && lp == []
    ensures Sub(u, lp) == u
  {
  }

  lemma LeafSearchEnd(u: Trie, lp: seq<bool>)
    requires LeafSearch(u, lp) && Sub(u, lp).l.Nil? && Sub(u, lp).r.Nil?
    ensures Sub(u, lp) == LeafOf(u) && WithoutLeaf(u) == Put(u, lp, Nil)
  {
  }

  /** A tree node that is alone on its ring, with a leaf below it at lp: the memory once the leaf is detached. */
  lemma LeafPulled(c: Layout, head: Heads, st: BinState, i: nat, x: int, path: seq<bool>, lp: seq<bool>)
    requires BinsOk(c, head, st) && SitsAt(c, st, head, i, x, path)
    requires var u := Sub(st.trees[i], path);
      && u.ring == [x] && LeafSearch(u, lp) && lp != [] && Sub(u, lp).l.Nil? && Sub(u, lp).r.Nil?
    ensures var u := Sub(st.trees[i], path);
      && RemoveHere(u, x).Node? && RemoveHere(u, x).ring == Sub(u, lp).ring
      && Spliced(st.m, SetSlot(st.m, SlotOwner(u, lp), lp[|lp| - 1], 0), u, RemoveHere(u, x), x, SlotOwner(u, lp), i)
  {
    var t, p := st.trees[i], c.TreeBinAt(i);
    var u := Sub(t, path);
    LeafSearchEnd(u, lp);
    SubLinked(st.m, t, p, i, path);
    SubApart(t, path);
    SubAddrs(t, path);
    SpliceLeaf(st.m, u, ParentOf(t, path, p), i, lp);
  }

  /** A tree node that heads a longer ring: the memory once it is off the ring. */
  lemma RingShortened(c: Layout, head: Heads, st: BinState, i: nat, x: int, path: seq<bool>)
    requires BinsOk(c, head, st) && SitsAt(c, st, head, i, x, path)
    requires var u := Sub(st.trees[i], path); x == u.ring[0] && |u.ring| > 1
    ensures x in st.m.fd && x in st.m.bk
    ensures var u := Sub(st.trees[i], path);
      && RemoveHere(u, x).Node? && |RemoveHere(u, x).ring| > 0 && RemoveHere(u, x).ring[0] == st.m.bk[x]
      && Spliced(st.m, Bypass(st.m, x), u, RemoveHere(u, x), x, 0, i)
  {
    var t, p := st.trees[i], c.TreeBinAt(i);
    SubLinked(st.m, t, p, i, path);
    SubApart(t, path);
    SubAddrs(t, path);
    SpliceRing(st.m, Sub(t, path), ParentOf(t, path, p), i);
  }

  /** Which slot of the parent leads to x, still readable after the changes below x. */
  lemma SeatSlot(c: Layout, head: Heads, st: BinState, i: nat, x: int, path: seq<bool>, m1: Links)
    requires SitsAt(c, st, head, i, x, path) && x == Sub(st.trees[i], path).ring[0]
    requires forall y :: y !in Addrs(Sub(st.trees[i], path)) ==> SameAt(st.m, m1, y)
    ensures path != [] ==>
      var q := SlotOwner(st.trees[i], path);
      q in m1.child0 && q != x && (m1.child0[q] == x <==> !path[|path| - 1])
  {
    var t := st.trees[i];
    if path != [] {
      SlotChoice(st.m, t, c.TreeBinAt(i), i, path);
      SlotOwnerApart(t, path);
      RootInside(Sub(t, path));
      SubAddrs(t, path);
    }
  }

  lemma SplicedSame(m: Links, m1: Links, u: Trie, u': Trie, x: int, rp: int, i: int)
    requires Spliced(m, m1, u, u', x, rp, i)
    ensures forall y :: y !in Addrs(u) ==> SameAt(m, m1, y)
    ensures |u'.ring| > 0 && u'.ring[0] != 0
  {
    assert u'.ring[0] in u'.ring && u'.ring[0] in Elems(u'.ring);
  }

  /** After x is detached, r is its replacement: giving r the place of x completes the removal.
      A chained chunk needs no replacement. */
  ghost predicate Detached(c: Layout, head: Heads, st: BinState, i: nat, x: int, path: seq<bool>, m1: Links, r: int)
    requires SitsAt(c, st, head, i, x, path)
  {
    var t, u, xp := st.trees[i], Sub(st.trees[i], path), ParentOf(st.trees[i], path, c.TreeBinAt(i));
    && (forall y :: y !in Addrs(u) ==> SameAt(st.m, m1, y))
    && if x != u.ring[0] then
         && BinsOk(c, head, TreeRemoved(st, i, x, m1))
         && TreeRemoved(st, i, x, m1).treemap == st.treemap && TreeRemoved(st, i, x, m1).treebins == st.treebins
       else
         && (Remove(t, x).Nil? <==> path == [] && r == 0)
         && Root(Remove(t, x)) == (if path == [] then r else st.treebins[i])
         && var m2 := Redirect(m1, t, path, r);
            if r == 0 then BinsOk(c, head, TreeRemoved(st, i, x, m2))
            else x in m2.child0 && x in m2.child1 && BinsOk(c, head, TreeRemoved(st, i, x, TakeOver(m2, x, xp, r)))
  }

  lemma DetachedFromRing(c: Layout, head: Heads, st: BinState, i: nat, x: int, path: seq<bool>)
    requires BinsOk(c, head, st) && SitsAt(c, st, head, i, x, path) && |Sub(st.trees[i], path).ring| > 1
    requires x in st.m.fd && x in st.m.bk
    ensures Detached(c, head, st, i, x, path, Bypass(st.m, x), st.m.bk[x])
  {
    var u, m1 := Sub(st.trees[i], path), Bypass(st.m, x);
    if x == u.ring[0] {
      RingShortened(c, head, st, i, x, path);
      NodeRemoved(c, head, st, i, x, path, m1, RemoveHere(u, x), 0);
      SplicedSame(st.m, m1, u, RemoveHere(u, x), x, 0, i);
    } else {
      ChainedRemoved(c, head, st, i, x, path);
      ChainedSame(st.m, st.trees[i], c.TreeBinAt(i), i, path, x);
    }
  }

  lemma ChainedSame(m: Links, t: Trie, p: int, i: int, path: seq<bool>, x: int)
    requires Apart(t) && Linked(m, t, p, i) && IsPath(t, path) && Sub(t, path).Node? && x in Sub(t, path).ring
    requires x in m.fd && x in m.bk
    ensures forall y :: y !in Addrs(Sub(t, path)) ==> SameAt(m, Bypass(m, x), y)
  {
    var u := Sub(t, path);
    SubLinked(m, t, p, i, path);
    SubApart(t, path);
    RingAlone(m.fd, m.bk, u.ring, IndexOf(u.ring, x));
    RingNeighboursAside(m, Bypass(m, x), u, x);
  }

  lemma DetachedAsLeaf(c: Layout, head: Heads, st: BinState, i: nat, x: int, path: seq<bool>)
    requires BinsOk(c, head, st) && SitsAt(c, st, head, i, x, path)
    requires var u := Sub(st.trees[i], path); u.ring == [x] && u.l.Nil? && u.r.Nil?
    ensures Detached(c, head, st, i, x, path, st.m, 0)
  {
    hide BinsOk, TreeBinOk, Linked, TreeRemoved, Remove;
    LeafRemoved(c, head, st, i, x, path);
  }

  lemma DetachedByLeaf(c: Layout, head: Heads, st: BinState, i: nat, x: int, path: seq<bool>, lp: seq<bool>)
    requires BinsOk(c, head, st) && SitsAt(c, st, head, i, x, path)
    requires var u := Sub(st.trees[i], path);
      && u.ring == [x] && LeafSearch(u, lp) && lp != [] && Sub(u, lp).l.Nil? && Sub(u, lp).r.Nil?
    ensures var u := Sub(st.trees[i], path);
      && Detached(c, head, st, i, x, path, SetSlot(st.m, SlotOwner(u, lp), lp[|lp| - 1], 0), Root(Sub(u, lp)))
      && Root(Sub(u, lp)) != 0
  {
    hide BinsOk, TreeBinOk, Linked, TreeRemoved, Remove, Redirect, Spliced, RemoveHere, TakeOver, Apart;
    var u := Sub(st.trees[i], path);
    var m1 := SetSlot(st.m, SlotOwner(u, lp), lp[|lp| - 1], 0);
    LeafPulled(c, head, st, i, x, path, lp);
    NodeRemoved(c, head, st, i, x, path, m1, RemoveHere(u, x), SlotOwner(u, lp));
    SplicedSame(st.m, m1, u, RemoveHere(u, x), x, SlotOwner(u, lp), i);
  }

  /** The node at which x sits, as the search for its leaf needs it. */
  lemma SeatNode(c: Layout, head: Heads, st: BinState, i: nat, x: int, path: seq<bool>)
    requires SitsAt(c, st, head, i, x, path) && |Sub(st.trees[i], path).ring| == 1
    ensures var u := Sub(st.trees[i], path);
      u.Node? && Linked(st.m, u, ParentOf(st.trees[i], path, c.TreeBinAt(i)), i) && 0 !in Addrs(u) && x == Root(u)
        && u.ring == [x]
  {
    SubLinked(st.m, st.trees[i], c.TreeBinAt(i), i, path);
    SubAddrs(st.trees[i], path);
  }
}
