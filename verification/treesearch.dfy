/** The best-fit searches of the userland heap: which sizes of a tree bin a search has ruled out. */
module TreeSearch {
  import opened SizeClass
  import opened BinMap
  import opened Ring
  import opened Trie
  import opened TrieOps
  import opened Bins
  import opened BinOps

  /** A subtree of a bin, with the range of sizes it covers and the address of its parent. */
  datatype View = View(t: Trie, lo: nat, b: nat, p: int)

  /** The memory holds the subtree, and it is part of the bin whose root is `whole`. */
  predicate Seen(head: Heads, m: Links, i: int, whole: Trie, w: View)
  {
    && TrieOk(head, w.t, w.lo, w.b) && Linked(m, w.t, w.p, i)
    && Addrs(w.t) <= Addrs(whole) && Sizes(w.t) <= Sizes(whole)
  }

  predicate AllBelow(t: Trie, s: nat)
  {
    t.Node? && forall z :: z in Sizes(t) ==> z < s
  }

  /** No size of the bin that is at least nb beats a remainder of rsize, except perhaps one in the
      subtree at hand or in the set-aside subtree; the latter is worth more than anything outside both. */
  ghost predicate BestSoFar(whole: Trie, nb: nat, rsize: nat, cur: Trie, rst: Trie)
  {
    forall s {:trigger s in Sizes(whole)} :: s in Sizes(whole) && s >= nb ==>
      s - nb >= rsize || s in Sizes(cur) || s in Sizes(rst) || AllBelow(rst, s)
  }

  /** Every size in the set-aside subtree is at least lim. */
  predicate AllAtLeast(t: Trie, lim: nat)
  {
    forall z :: z in Sizes(t) ==> z >= lim
  }

  /** v is the chunk whose remainder is rsize, or there is none yet. */
  predicate Best(head: Heads, whole: Trie, nb: nat, v: int, rsize: nat)
  {
    if v == 0 then nb > 0 && nb + rsize == SIZE_T_RANGE
    else v in Addrs(whole) && v in head && head[v].size == nb + rsize
  }

  // ---- what a search reads at a node ----

  lemma ChildView(head: Heads, m: Links, i: int, whole: Trie, w: View, d: bool)
    requires Seen(head, m, i, whole, w) && w.t.Node? && w.b > 0
    ensures Seen(head, m, i, whole, View(Child(w.t, d), HalfLo(w.lo, w.b, d), w.b - 1, Root(w.t)))
  {
  }

  lemma ViewNode(head: Heads, m: Links, i: int, whole: Trie, w: View)
    requires Seen(head, m, i, whole, w)
    ensures Root(w.t) != 0 <==> w.t.Node?
    ensures w.t.Node? ==>
      && Root(w.t) in Addrs(whole) && Root(w.t) in head && head[Root(w.t)].size == w.t.sz
      && w.lo <= w.t.sz < w.lo + Pow2(w.b)
      && Root(w.t) in m.child0 && Root(w.t) in m.child1
      && m.child0[Root(w.t)] == Root(w.t.l) && m.child1[Root(w.t)] == Root(w.t.r)
      && (Root(w.t.l) != 0 <==> w.t.l.Node?) && (Root(w.t.r) != 0 <==> w.t.r.Node?)
      && (w.t.l.Node? && w.t.r.Node? ==> Root(w.t.l) != Root(w.t.r))
  {
    if w.t.Node? {
      var t := w.t;
      assert t.ring[0] in t.ring && t.ring[0] in Elems(t.ring);
      ChildRoots(head, t, w.lo, w.b);
    }
  }

  lemma ChildRoots(head: Heads, t: Trie, lo: nat, b: nat)
    requires TrieOk(head, t, lo, b) && t.Node?
    ensures Root(t.l) != 0 <==> t.l.Node?
    ensures Root(t.r) != 0 <==> t.r.Node?
    ensures t.l.Node? && t.r.Node? ==> Root(t.l) != Root(t.r)
  {
    PartsApart(head, t, lo, b);
    if t.l.Node? { assert t.l.ring[0] in t.l.ring && t.l.ring[0] in Elems(t.l.ring) && t.l.ring[0] in Addrs(t.l); }
    if t.r.Node? { assert t.r.ring[0] in t.r.ring && t.r.ring[0] in Elems(t.r.ring) && t.r.ring[0] in Addrs(t.r); }
  }

  // ---- descending towards nb ----

  /** One step of the first loop of tmalloc_large: the half that holds nb is kept, and the upper half,
      if it is the other one, is set aside. */
  lemma DescendStep(head: Heads, whole: Trie, nb: nat, rsize: nat, cur: Trie, lo: nat, b: nat, rst: Trie)
    requires BestSoFar(whole, nb, rsize, cur, rst) && TrieOk(head, cur, lo, b) && cur.Node? && b > 0
    requires lo <= nb < lo + Pow2(b) && AllAtLeast(rst, lo + Pow2(b))
    requires cur.sz >= nb ==> cur.sz - nb >= rsize
    ensures var d := nb >= lo + Pow2(b - 1);
      var rst' := if !d && cur.r.Node? then cur.r else rst;
      && BestSoFar(whole, nb, rsize, Child(cur, d), rst')
      && AllAtLeast(rst', HalfLo(lo, b, d) + Pow2(b - 1)) && HalfLo(lo, b, d) <= nb < HalfLo(lo, b, d) + Pow2(b - 1)
  {
    SizesInRange(head, cur.l, lo, b - 1);
    SizesInRange(head, cur.r, lo + Pow2(b - 1), b - 1);
    var d := nb >= lo + Pow2(b - 1);
    var rst' := if !d && cur.r.Node? then cur.r else rst;
    hide TrieOk;
    forall s | s in Sizes(whole) && s >= nb
      ensures s - nb >= rsize || s in Sizes(Child(cur, d)) || s in Sizes(rst') || AllBelow(rst', s)
    {
      if s in Sizes(cur) {
        assert s == cur.sz || s in Sizes(cur.l) || s in Sizes(cur.r);
      } else if s in Sizes(rst) || AllBelow(rst, s) {
        AboveRange(rst, s, lo + Pow2(b));
      }
    }
  }

  lemma AboveRange(rst: Trie, s: nat, lim: nat)
    requires AllAtLeast(rst, lim) && (s in Sizes(rst) || AllBelow(rst, s))
    ensures s >= lim
  {
    if AllBelow(rst, s) { assert rst.sz in Sizes(rst); }
  }

  lemma BestExact(whole: Trie, nb: nat, cur: Trie)
    ensures BestSoFar(whole, nb, 0, Nil, cur)
  {
  }

  lemma BestShrinks(whole: Trie, nb: nat, rsize: nat, rsize': nat, cur: Trie, rst: Trie)
    requires BestSoFar(whole, nb, rsize, cur, rst) && rsize' <= rsize
    ensures BestSoFar(whole, nb, rsize', cur, rst)
  {
  }

  // ---- following the leftmost children ----

  lemma LeftmostStep(head: Heads, whole: Trie, nb: nat, rsize: nat, cur: Trie, lo: nat, b: nat)
    requires BestSoFar(whole, nb, rsize, Nil, cur) && TrieOk(head, cur, lo, b) && cur.Node?
    requires AllAtLeast(cur, nb) || rsize == 0
    requires cur.sz >= nb ==> cur.sz - nb >= rsize
    ensures BestSoFar(whole, nb, rsize, Nil, LeftmostChild(cur))
    ensures AllAtLeast(LeftmostChild(cur), nb) || rsize == 0
  {
    LeftmostOk(head, cur, lo, b);
    hide TrieOk;
    var c := LeftmostChild(cur);
    assert Sizes(c) <= Sizes(cur) && cur.sz in Sizes(cur);
    forall s | s in Sizes(whole) && s >= nb ensures s - nb >= rsize || s in Sizes(c) || AllBelow(c, s) {}
  }

  lemma NothingLeft(head: Heads, whole: Trie, lo: nat, b: nat, nb: nat, rsize: nat)
    requires BestSoFar(whole, nb, rsize, Nil, Nil) && TrieOk(head, whole, lo, b)
    ensures forall x :: x in Addrs(whole) && x in head && head[x].size >= nb ==> head[x].size - nb >= rsize
  {
    SizesInRange(head, whole, lo, b);
    forall x | x in Addrs(whole) && x in head && head[x].size >= nb ensures head[x].size - nb >= rsize {
      assert head[x].size in Sizes(whole);
    }
  }

  // ---- the first loop of tmalloc_large ----

  /** The key's sign bit picks the half of the range that holds nb. */
  predicate KeyAt(w: View, nb: nat, k: nat)
  {
    w.b <= 32 && w.lo <= nb < w.lo + Pow2(w.b) && k == (nb - w.lo) * Pow2(32 - w.b)
  }

  lemma NilSeen(head: Heads, m: Links, i: nat, whole: Trie)
    ensures Seen(head, m, i, whole, View(Nil, 0, 0, 0))
  {
  }

  lemma SearchBinStart(c: Layout, head: Heads, m: Links, marks: binmap, i: nat, root: int, t: Trie, nb: nat)
    requires MIN_LARGE_SIZE <= nb < SIZE_T_RANGE && i == TreeIndex(nb) < NTREEBINS
      && TreeBinOk(c, head, m, marks, i, root, t)
    ensures var w := View(t, BinLo(i), BinBits(i), c.TreeBinAt(i));
      && Seen(head, m, i, t, w) && root == Root(t) && KeyAt(w, nb, Shl32(nb, LeftShiftForTreeIndex(i)))
      && BestSoFar(t, nb, SIZE_T_RANGE - nb, t, Nil) && AllAtLeast(Nil, w.lo + Pow2(w.b))
    ensures Seen(head, m, i, t, View(Nil, 0, 0, 0)) && Root(Nil) == 0
  {
    hide Pow2, Log2, Shl32, TreeIndex, TrieOk, Linked, BinLo, BinBits;
    NilSeen(head, m, i, t);
    InitialSearchKey(nb);
    TreeIndexBrackets(nb);
  }

  lemma Descend(head: Heads, m: Links, i: nat, whole: Trie, nb: nat, rsize: nat, w: View, aside: View, k: nat)
    requires Seen(head, m, i, whole, w) && w.t.Node? && KeyAt(w, nb, k)
    requires BestSoFar(whole, nb, rsize, w.t, aside.t) && AllAtLeast(aside.t, w.lo + Pow2(w.b))
    requires w.t.sz != nb && (w.t.sz >= nb ==> w.t.sz - nb >= rsize)
    ensures w.b > 0 && k / 0x8000_0000 <= 1
    ensures var d := k / 0x8000_0000 == 1;
      var w' := View(Child(w.t, d), HalfLo(w.lo, w.b, d), w.b - 1, Root(w.t));
      var r := View(w.t.r, HalfLo(w.lo, w.b, true), w.b - 1, Root(w.t));
      var rst := if !d && w.t.r.Node? then w.t.r else aside.t;
      && Seen(head, m, i, whole, w') && Seen(head, m, i, whole, r) && KeyAt(w', nb, Shl32(k, 1))
      && BestSoFar(whole, nb, rsize, w'.t, rst) && AllAtLeast(rst, w'.lo + Pow2(w'.b))
  {
    hide Seen, BestSoFar, AllAtLeast, TrieOk, Linked, Pow2, Shl32;
    ViewOk(head, m, i, whole, w);
    RangeNotSingle(w.t, head, w.lo, w.b, nb);
    SearchArith(nb, w.lo, w.b, k);
    DescendStep(head, whole, nb, rsize, w.t, w.lo, w.b, aside.t);
    ChildView(head, m, i, whole, w, false);
    ChildView(head, m, i, whole, w, true);
  }

  lemma ViewOk(head: Heads, m: Links, i: int, whole: Trie, w: View)
    requires Seen(head, m, i, whole, w)
    ensures TrieOk(head, w.t, w.lo, w.b)
  {
  }

  lemma SearchBinEnd(whole: Trie, nb: nat, rsize: nat, w: View, aside: View)
    requires BestSoFar(whole, nb, rsize, w.t, aside.t) && w.t.Nil?
    requires AllAtLeast(aside.t, w.lo + Pow2(w.b)) && nb < w.lo + Pow2(w.b)
    ensures BestSoFar(whole, nb, rsize, Nil, aside.t) && AllAtLeast(aside.t, nb)
  {
  }

  // ---- across the tree bins ----

  /** v is a binned chunk of least size among those of at least nb bytes, or there is none. */
  ghost predicate BestFit(head: Heads, binned: set<int>, nb: nat, v: int, rsize: nat)
  {
    if v == 0 then
      nb > 0 && nb + rsize == SIZE_T_RANGE && forall x :: x in binned && x in head ==> head[x].size < nb
    else
      && v in binned && v in head && head[v].size == nb + rsize
      && forall x :: x in binned && x in head && head[x].size >= nb ==> head[x].size >= nb + rsize
  }

  ghost predicate OnlyFrom(head: Heads, binned: set<int>, nb: nat, i: nat)
  {
    forall x :: x in binned && x in head && head[x].size >= nb ==> TreeIndex(head[x].size) >= i
  }

  /** What the bins say about a large binned chunk. */
  lemma LargeBinned(c: Layout, head: Heads, st: BinState, x: int)
    requires BinsOk(c, head, st) && x in st.binned && x in head && head[x].size >= MIN_LARGE_SIZE
    ensures IsLarge(head[x].size) && TreeIndex(head[x].size) < NTREEBINS
    ensures x in Addrs(st.trees[TreeIndex(head[x].size)]) && Bit(st.treemap, TreeIndex(head[x].size))
  {
    hide TreeBinOk, SmallBinOk, TreeIndex, Addrs, Bit;
    assert InItsBin(c, head, st.small, st.trees, x);
    var i := TreeIndex(head[x].size);
    BinMarked(c, head, st, i, x);
  }

  lemma BinMarked(c: Layout, head: Heads, st: BinState, i: nat, x: int)
    requires BinsOk(c, head, st) && i < NTREEBINS && x in Addrs(st.trees[i])
    ensures Bit(st.treemap, i)
  {
    hide SmallBinOk, BinnedOk, TrieOk, Linked, Bit;
    assert TreeBinOk(c, head, st.m, st.treemap, i, st.treebins[i], st.trees[i]);
  }

  lemma FromIndex(c: Layout, head: Heads, st: BinState, nb: nat)
    requires BinsOk(c, head, st) && MIN_LARGE_SIZE <= nb < SIZE_T_RANGE
    ensures OnlyFrom(head, st.binned, nb, TreeIndex(nb))
  {
    hide BinsOk, TreeIndex;
    forall x | x in st.binned && x in head && head[x].size >= nb ensures TreeIndex(head[x].size) >= TreeIndex(nb) {
      LargeBinned(c, head, st, x);
      if TreeIndex(head[x].size) < TreeIndex(nb) { TreeIndexOrders(head[x].size, nb); }
    }
  }

  /** A bin without a fit leaves the search to the next marked bin. */
  lemma FromNext(c: Layout, head: Heads, st: BinState, nb: nat, i: nat)
    requires BinsOk(c, head, st) && MIN_LARGE_SIZE <= nb < SIZE_T_RANGE && i < NTREEBINS
      && OnlyFrom(head, st.binned, nb, i)
    requires forall x :: x in Addrs(st.trees[i]) && x in head ==> head[x].size < nb
    ensures var j := NextMarked(st.treemap, i);
      && OnlyFrom(head, st.binned, nb, j)
      && (j < NTREEBINS ==> Bit(st.treemap, j) && j > i)
      && (j == NTREEBINS ==> forall x :: x in st.binned && x in head ==> head[x].size < nb)
  {
    hide BinsOk, TreeIndex, Bit, Addrs;
    var j := NextMarked(st.treemap, i);
    forall x | x in st.binned && x in head && head[x].size >= nb ensures TreeIndex(head[x].size) >= j && j < NTREEBINS {
      LargeBinned(c, head, st, x);
    }
  }

  lemma FitFound(c: Layout, head: Heads, st: BinState, nb: nat, i: nat, v: int, rsize: nat)
    requires BinsOk(c, head, st) && MIN_LARGE_SIZE <= nb < SIZE_T_RANGE && i < NTREEBINS
      && OnlyFrom(head, st.binned, nb, i)
    requires v != 0 && Best(head, st.trees[i], nb, v, rsize)
    requires forall x :: x in Addrs(st.trees[i]) && x in head && head[x].size >= nb ==> head[x].size - nb >= rsize
    ensures BestFit(head, st.binned, nb, v, rsize)
  {
    hide BinsOk, TreeIndex, Bit, Addrs;
    ChunkInBin(c, head, st, i, v);
    forall x | x in st.binned && x in head && head[x].size >= nb ensures head[x].size >= nb + rsize {
      LargeBinned(c, head, st, x);
      var j := TreeIndex(head[x].size);
      if j > i { TreeIndexOrders(head[v].size, head[x].size); }
    }
  }

  lemma ChunkInBin(c: Layout, head: Heads, st: BinState, i: nat, v: int)
    requires BinsOk(c, head, st) && i < NTREEBINS && v in Addrs(st.trees[i])
    ensures v in st.binned && v in head && IsLarge(head[v].size) && head[v].size >= MIN_LARGE_SIZE
      && TreeIndex(head[v].size) == i
  {
    hide TreeBinOk, SmallBinOk, TreeIndex, Addrs;
  }

  lemma BinKnown(c: Layout, head: Heads, st: BinState, i: nat)
    requires BinsOk(c, head, st) && i < NTREEBINS
    ensures TreeBinOk(c, head, st.m, st.treemap, i, st.treebins[i], st.trees[i])
    ensures forall x :: x in Addrs(st.trees[i]) ==> x in head && IsLarge(head[x].size)
    ensures st.treebins[i] != 0 <==> st.trees[i].Node?
    ensures Bit(st.treemap, i) <==> st.trees[i].Node?
    ensures Seen(head, st.m, i, st.trees[i], View(st.trees[i], BinLo(i), BinBits(i), c.TreeBinAt(i)))
    ensures st.treebins[i] == Root(st.trees[i])
  {
    hide SmallBinOk, TrieOk, Linked, Addrs, Bit, Root, TreeIndex, BinLo, BinBits;
    assert TreeBinOk(c, head, st.m, st.treemap, i, st.treebins[i], st.trees[i]);
    var w := View(st.trees[i], BinLo(i), BinBits(i), c.TreeBinAt(i));
    ViewNode(head, st.m, i, st.trees[i], w);
  }

  lemma BestAtStart(whole: Trie, nb: nat, rsize: nat)
    ensures BestSoFar(whole, nb, rsize, Nil, whole)
  {
  }

  // ---- the loop along the leftmost children ----

  function NextView(w: View): View
    requires w.t.Node?
  {
    View(LeftmostChild(w.t), if w.b > 0 then HalfLo(w.lo, w.b, w.t.l.Nil?) else 0, if w.b > 0 then w.b - 1
        else 0, Root(w.t))
  }

  lemma NodeAtLeast(t: Trie, nb: nat)
    requires t.Node?
    ensures AllAtLeast(t, nb) ==> t.sz >= nb
  {
    assert t.sz in Sizes(t);
  }

  lemma NextSeen(head: Heads, m: Links, i: int, whole: Trie, w: View)
    requires Seen(head, m, i, whole, w) && w.t.Node?
    ensures Seen(head, m, i, whole, NextView(w))
  {
  }

  lemma LeftmostView(head: Heads, m: Links, i: int, whole: Trie, nb: nat, rsize: nat, w: View)
    requires Seen(head, m, i, whole, w) && w.t.Node?
    requires BestSoFar(whole, nb, rsize, Nil, w.t) && (AllAtLeast(w.t, nb) || rsize == 0)
    requires w.t.sz >= nb ==> w.t.sz - nb >= rsize
    ensures var w' := NextView(w);
      && Seen(head, m, i, whole, w') && w'.t == LeftmostChild(w.t) && (w'.t.Node? ==> w'.t < w.t)
      && BestSoFar(whole, nb, rsize, Nil, w'.t) && (AllAtLeast(w'.t, nb) || rsize == 0)
      && Root(w'.t) == (if Root(w.t.l) != 0 then Root(w.t.l) else Root(w.t.r)) && (Root(w'.t) != 0 <==> w'.t.Node?)
  {
    hide Seen, BestSoFar, AllAtLeast, TrieOk, Linked, Pow2, Root, Sizes;
    NextSeen(head, m, i, whole, w);
    ViewOk(head, m, i, whole, w);
    ViewNode(head, m, i, whole, w);
    LeftmostStep(head, whole, nb, rsize, w.t, w.lo, w.b);
  }

  lemma NoSizes(nb: nat, rsize: nat)
    ensures BestSoFar(Nil, nb, rsize, Nil, Nil) && AllAtLeast(Nil, nb)
  {
  }

  lemma BinTrie(c: Layout, head: Heads, st: BinState, i: nat)
    requires BinsOk(c, head, st) && i < NTREEBINS
    ensures |st.small| == NSMALLBINS && |st.trees| == |st.treebins| == NTREEBINS
    ensures TrieOk(head, st.trees[i], BinLo(i), BinBits(i))
  {
    hide SmallBinOk, TrieOk, Linked, BinnedOk, BinLo, BinBits;
    assert TreeBinOk(c, head, st.m, st.treemap, i, st.treebins[i], st.trees[i]);
  }

  /** The search of bin i has left nothing and found nothing. */
  lemma NoneInBin(c: Layout, head: Heads, st: BinState, i: nat, nb: nat, rsize: nat)
    requires BinsOk(c, head, st) && i < NTREEBINS && nb + rsize == SIZE_T_RANGE
    requires BestSoFar(st.trees[i], nb, rsize, Nil, Nil)
    ensures forall x :: x in Addrs(st.trees[i]) && x in head ==> head[x].size < nb
  {
    hide BinsOk, BestSoFar, Addrs, TrieOk;
    BinTrie(c, head, st, i);
    NothingLeft(head, st.trees[i], BinLo(i), BinBits(i), nb, rsize);
    BinKnown(c, head, st, i);
  }

  lemma NoBestFit(head: Heads, binned: set<int>, nb: nat, rsize: nat)
    requires nb > 0 && nb + rsize == SIZE_T_RANGE && forall x :: x in binned && x in head ==> head[x].size < nb
    ensures BestFit(head, binned, nb, 0, rsize)
  {
  }

  /** Every size of a bin above that of nb is at least nb. */
  lemma LargerBin(c: Layout, head: Heads, st: BinState, nb: nat, i: nat)
    requires BinsOk(c, head, st) && MIN_LARGE_SIZE <= nb < SIZE_T_RANGE && TreeIndex(nb) < i < NTREEBINS
    ensures AllAtLeast(st.trees[i], nb)
  {
    hide BinsOk, TreeIndex, Pow2, MinSizeForTreeIndex;
    BinTrie(c, head, st, i);
    BinSizes(c, head, st, i);
    forall z | z in Sizes(st.trees[i]) ensures z >= nb { TreeIndexOrders(nb, z); }
  }

  lemma {:induction false} SizeHasChunk(head: Heads, t: Trie, lo: nat, b: nat, s: nat)
    requires TrieOk(head, t, lo, b) && s in Sizes(t)
    ensures exists x :: x in Addrs(t) && x in head && head[x].size == s
  {
    if s == t.sz {
      var x := t.ring[0];
      assert x in t.ring && x in Elems(t.ring);
      assert x in Addrs(t) && x in head && head[x].size == s;
    } else if s in Sizes(t.l) {
      SizeHasChunk(head, t.l, lo, b - 1, s);
    } else {
      SizeHasChunk(head, t.r, lo + Pow2(b - 1), b - 1, s);
    }
  }

  lemma BinSizes(c: Layout, head: Heads, st: BinState, i: nat)
    requires BinsOk(c, head, st) && i < NTREEBINS
    ensures forall z :: z in Sizes(st.trees[i]) ==> MIN_LARGE_SIZE <= z < SIZE_T_RANGE && TreeIndex(z) == i
  {
    hide BinsOk, TreeIndex, TrieOk, Addrs, Sizes;
    BinTrie(c, head, st, i);
    forall z | z in Sizes(st.trees[i]) ensures MIN_LARGE_SIZE <= z < SIZE_T_RANGE && TreeIndex(z) == i {
      SizeHasChunk(head, st.trees[i], BinLo(i), BinBits(i), z);
      var x :| x in Addrs(st.trees[i]) && x in head && head[x].size == z;
      ChunkInBin(c, head, st, i, x);
    }
  }

  /** All sizes of a bin exceed a small request. */
  lemma RootIsBest(c: Layout, head: Heads, st: BinState, i: nat, nb: nat, rsize: nat)
    requires BinsOk(c, head, st) && i < NTREEBINS && nb < MIN_LARGE_SIZE && st.trees[i].Node?
    requires nb + rsize == st.trees[i].sz
    ensures AllAtLeast(st.trees[i], nb) && BestSoFar(st.trees[i], nb, rsize, Nil, st.trees[i])
    ensures Best(head, st.trees[i], nb, st.treebins[i], rsize) && st.treebins[i] != 0
  {
    hide BinsOk, TreeIndex, TrieOk, Addrs, Sizes;
    BinTrie(c, head, st, i);
    BinSizes(c, head, st, i);
    BinKnown(c, head, st, i);
    ViewNode(head, st.m, i, st.trees[i], View(st.trees[i], BinLo(i), BinBits(i), c.TreeBinAt(i)));
  }

  lemma LeastOfAll(c: Layout, head: Heads, st: BinState, i: nat, nb: nat, v: int, rsize: nat)
    requires BinsOk(c, head, st) && nb < MIN_LARGE_SIZE && i < NTREEBINS
    requires forall j :: 0 <= j < i ==> !Bit(st.treemap, j)
    requires v != 0 && Best(head, st.trees[i], nb, v, rsize)
    requires forall x :: x in Addrs(st.trees[i]) && x in head && head[x].size >= nb ==> head[x].size - nb >= rsize
    ensures v in st.binned && v in head && head[v].size == nb + rsize && IsLarge(head[v].size)
    ensures forall x :: x in st.binned && x in head && !IsSmall(head[x].size) ==> head[x].size >= head[v].size
  {
    hide BinsOk, TreeIndex, Addrs, Bit;
    ChunkInBin(c, head, st, i, v);
    forall x | x in st.binned && x in head && !IsSmall(head[x].size) ensures head[x].size >= head[v].size {
      LargeBinned(c, head, st, x);
      var j := TreeIndex(head[x].size);
      if j > i { TreeIndexOrders(head[v].size, head[x].size); }
    }
  }
}
