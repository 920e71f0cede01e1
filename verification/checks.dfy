/** The heap's own debugging support: what do_check_malloc_state and its helpers assert of the heap between
    operations, and bin_find, by which they look chunks up. */
module HeapChecks {
  import opened Sequences
  import opened SizeClass
  import opened BinMap
  import opened Ring
  import opened Trie
  import opened TrieOps
  import opened Bins
  import opened BinOps
  import opened TreeSearch
  import opened Core
  import opened CoreOps
  import opened HeapOps
  import opened Heap

  // ---- chunks ----

  /** do_check_top_chunk. */
  predicate TopChecked(c: Layout, k: Core)
  {
    && k.top in k.head && k.top % 8 == 0 && c.InSegment(k.top)
    && k.head[k.top].size == k.topsize && k.topsize > 0 && k.top + k.topsize == c.end && k.head[k.top].pinuse
    && k.top + k.topsize in k.head && !k.head[k.top + k.topsize].pinuse
  }

  /** do_check_inuse_chunk. */
  predicate InUseChecked(c: Layout, k: Core, p: int)
  {
    && p in k.head && p % 8 == 0 && c.InSegment(p) && k.head[p].cinuse
    && Next(k.head, p) in k.head && k.head[Next(k.head, p)].pinuse
    && (!k.head[p].pinuse ==> p in k.foot && p - k.foot[p] in k.head && Next(k.head, p - k.foot[p]) == p)
  }

  /** do_check_free_chunk. */
  predicate FreeChecked(c: Layout, k: Core, m: Links, p: int)
  {
    && p in k.head && p % 8 == 0 && c.InSegment(p) && !k.head[p].cinuse && k.head[p].pinuse
    && k.head[p].size >= MIN_CHUNK_SIZE && k.head[p].size % 8 == 0
    && var n := Next(k.head, p);
      && n in k.head && !k.head[n].pinuse && n in k.foot && k.foot[n] == k.head[p].size
      && (n == k.top || k.head[n].cinuse)
      && (p != k.dv || k.dvsize == 0 ==> OnRing(m, p))
  }

  predicate OnRing(m: Links, p: int)
  {
    && p in m.fd && p in m.bk && m.fd[p] in m.bk && m.bk[p] in m.fd
    && m.bk[m.fd[p]] == p && m.fd[m.bk[p]] == p
  }

  // ---- bins ----

  /** do_check_smallbin on a marked bin: the header's ring reaches free chunks of the bin's size only. */
  ghost predicate SmallBinChecked(c: Layout, k: Core, m: Links, marks: binmap, i: nat, s: seq<int>)
    requires i < NSMALLBINS
  {
    && (Bit(marks, i) <==> s != [])
    && (s != [] ==> RingOk(m.fd, m.bk, [c.SmallBinAt(i)] + s))
    && forall p :: p in s ==> FreeChecked(c, k, m, p) && k.head[p].size == 8 * i && IsSmall(k.head[p].size)
  }

  /** do_check_tree on chunk u of the trie that hangs below slot p: u is the first chunk of its ring, linked both
      ways with its parent and its children, or it has neither. */
  predicate NodeChecked(head: Heads, m: Links, t: Trie, p: int, i: nat, u: int)
  {
    && u in head && u in m.index && m.index[u] == i && OnRing(m, u)
    && m.fd[u] in head && head[m.fd[u]].size == head[u].size
    && u in m.parent && u in m.child0 && u in m.child1
    && if m.parent[u] == 0 then m.child0[u] == 0 && m.child1[u] == 0
       else
         && m.parent[u] != u && (m.fd[u] != u ==> m.fd[u] in m.parent && m.parent[m.fd[u]] == 0)
         && HangsFrom(m, t, p, u)
         && ChildChecked(m, u, m.child0[u]) && ChildChecked(m, u, m.child1[u])
         && (m.child0[u] != 0 && m.child1[u] != 0 ==>
              && m.child0[u] in head && m.child1[u] in head
              && head[m.child0[u]].size < head[m.child1[u]].size)
  }

  /** The ring that chunk u is on. */
  function RingOf(t: Trie, u: int): (s: seq<int>)
    requires u in Addrs(t)
    ensures u in s
  {
    if u in t.ring then t.ring else if u in Addrs(t.l) then RingOf(t.l, u) else RingOf(t.r, u)
  }

  /** Going round a ring, do_check_tree meets exactly one chunk that has a parent, and all are of one size. */
  ghost predicate RingChecked(head: Heads, m: Links, s: seq<int>)
  {
    && RingOk(m.fd, m.bk, s)
    && (exists h :: h in s && h in m.parent && m.parent[h] != 0 &&
          forall x :: x in s && x != h ==> x in m.parent && m.parent[x] == 0)
    && forall x, y :: x in s && y in s ==> x in head && y in head && head[x].size == head[y].size
  }

  predicate HangsFrom(m: Links, t: Trie, p: int, u: int)
    requires u in m.parent
  {
    var q := m.parent[u];
    || (q == p && u == Root(t))
    || (q in Addrs(t) && q in m.child0 && q in m.child1 && (m.child0[q] == u || m.child1[q] == u))
  }

  predicate ChildChecked(m: Links, u: int, v: int)
  {
    v != 0 ==> v != u && v in m.parent && m.parent[v] == u
  }

  /** do_check_treebin, and what a chunk's size says of its bin. */
  ghost predicate TreeBinChecked(c: Layout, k: Core, m: Links, marks: binmap, i: nat, root: int, t: Trie)
    requires i < NTREEBINS
  {
    && (Bit(marks, i) <==> root != 0) && root == Root(t)
    && forall u :: u in Addrs(t) ==>
      && FreeChecked(c, k, m, u) && NodeChecked(k.head, m, t, c.TreeBinAt(i), i, u)
      && RingChecked(k.head, m, RingOf(t, u))
      && k.head[u].size >= MIN_LARGE_SIZE && k.head[u].size < SIZE_T_RANGE && TreeIndex(k.head[u].size) == i
      && k.head[u].size >= MinSizeForTreeIndex(i)
      && (i == NTREEBINS - 1 || k.head[u].size < MinSizeForTreeIndex(i + 1))
  }

  // ---- rings ----

  lemma RingLinks(m: Links, s: seq<int>, j: nat)
    requires RingOk(m.fd, m.bk, s) && j < |s|
    ensures OnRing(m, s[j]) && m.fd[s[j]] == s[if j + 1 < |s| then j + 1 else 0]
  {
    NextOnRing(m, s, j);
    NextOnRing(m, s, if j > 0 then j - 1 else |s| - 1);
  }

  lemma NextOnRing(m: Links, s: seq<int>, j: nat)
    requires RingOk(m.fd, m.bk, s) && j < |s|
    ensures var n := s[if j + 1 < |s| then j + 1 else 0];
      s[j] in m.fd && m.fd[s[j]] == n && n in m.bk && m.bk[n] == s[j]
  {
    if j > 0 {
      assert s[1..] == s[1..j] + [s[j]] + s[j + 1..];
      ChainJoin(m.fd, m.bk, s[0], s[1..j], s[j], s[j + 1..], s[0]);
    }
  }

  // ---- tree nodes ----

  /** Every chunk of a trie passes do_check_tree. */
  lemma {:induction false} NodesChecked(head: Heads, m: Links, t: Trie, lo: nat, b: nat, p: int, i: nat, u: int)
    requires TrieOk(head, t, lo, b) && Linked(m, t, p, i) && Apart(t) && p > 0 && p !in Addrs(t)
    requires u in Addrs(t)
    ensures NodeChecked(head, m, t, p, i, u) && RingChecked(head, m, RingOf(t, u))
  {
    var h := t.ring[0];
    assert h in Elems(t.ring) && h in t.ring && h > 0;
    if u in t.ring {
      assert h in m.parent && m.parent[h] != 0;
      RingNodeChecked(head, m, t, lo, b, p, i, u);
    } else {
      assert b > 0;
      var d := u !in Addrs(t.l);
      var w := Child(t, d);
      NodesChecked(head, m, w, HalfLo(lo, b, d), b - 1, h, i, u);
      hide TrieOk, Linked, Apart, RingChecked;
      Promoted(m, t, h, d, w, p, u);
    }
  }

  lemma Promoted(m: Links, t: Trie, h: int, d: bool, w: Trie, p: int, u: int)
    requires t.Node? && h in Addrs(t) && w == Child(t, d) && h in m.child0 && h in m.child1
    requires m.child0[h] == Root(t.l) && m.child1[h] == Root(t.r)
    requires u in m.parent
    ensures HangsFrom(m, w, h, u) ==> HangsFrom(m, t, p, u)
  {
  }

  lemma RingNodeChecked(head: Heads, m: Links, t: Trie, lo: nat, b: nat, p: int, i: nat, u: int)
    requires TrieOk(head, t, lo, b) && Linked(m, t, p, i) && Apart(t) && p > 0 && p !in Addrs(t)
    requires t.Node? && u in t.ring
    ensures NodeChecked(head, m, t, p, i, u)
  {
    var j :| 0 <= j < |t.ring| && t.ring[j] == u;
    RingLinks(m, t.ring, j);
    assert u in Elems(t.ring) && m.fd[u] in t.ring;
    assert j > 0 ==> u != t.ring[0];
    if u == t.ring[0] {
      RootChildren(head, m, t, lo, b, p, i);
    }
  }

  lemma RootChildren(head: Heads, m: Links, t: Trie, lo: nat, b: nat, p: int, i: nat)
    requires TrieOk(head, t, lo, b) && Linked(m, t, p, i) && Apart(t) && t.Node?
    ensures var u := t.ring[0];
      && u in m.child0 && u in m.child1
      && ChildChecked(m, u, m.child0[u]) && ChildChecked(m, u, m.child1[u])
      && (m.child0[u] != 0 && m.child1[u] != 0 ==>
           && m.child0[u] in head && m.child1[u] in head && head[m.child0[u]].size < head[m.child1[u]].size)
  {
    var u := t.ring[0];
    assert u in t.ring && u in Elems(t.ring);
    if t.l.Node? { assert t.l.ring[0] in t.l.ring && t.l.ring[0] in Elems(t.l.ring) && t.l.ring[0] in Addrs(t.l); }
    if t.r.Node? { assert t.r.ring[0] in t.r.ring && t.r.ring[0] in Elems(t.r.ring) && t.r.ring[0] in Addrs(t.r); }
  }

  // ---- the whole state ----

  /** Every free chunk that an idle heap has binned passes do_check_free_chunk, and so does its dv. */
  lemma FreePasses(c: Layout, st: BinState, k: Core, p: int)
    requires HeapOk(c, st, k) && k.loose == {} && IsFree(k, p)
    ensures FreeChecked(c, k, st.m, p)
  {
    assert ChunkOk(c, k, p);
    FreeNext(c, k, p);
    if p in k.binned { BinnedOnRing(c, k.head, st, p); }
  }

  lemma BinnedOnRing(c: Layout, head: Heads, st: BinState, p: int)
    requires BinsOk(c, head, st) && p in st.binned
    ensures OnRing(st.m, p)
  {
    hide SmallBinOk, TreeBinOk, TreeIndex, RingOk, OnRing, Addrs;
    assert InItsBin(c, head, st.small, st.trees, p);
    if IsSmall(head[p].size) {
      SmallOnRing(c, head, st, head[p].size / 8, p);
    } else {
      TreeOnRing(c, head, st, TreeIndex(head[p].size), p);
    }
  }

  lemma SmallOnRing(c: Layout, head: Heads, st: BinState, i: nat, p: int)
    requires BinsOk(c, head, st) && i < NSMALLBINS && p in st.small[i]
    ensures OnRing(st.m, p)
  {
    assert SmallBinOk(c, st.m.fd, st.m.bk, st.smallmap, i, st.small[i]);
    var j :| 0 <= j < |st.small[i]| && st.small[i][j] == p;
    RingLinks(st.m, [c.SmallBinAt(i)] + st.small[i], j + 1);
  }

  lemma TreeOnRing(c: Layout, head: Heads, st: BinState, i: nat, p: int)
    requires BinsOk(c, head, st) && i < NTREEBINS && p in Addrs(st.trees[i])
    ensures OnRing(st.m, p) && NodeChecked(head, st.m, st.trees[i], c.TreeBinAt(i), i, p)
    ensures RingChecked(head, st.m, RingOf(st.trees[i], p))
  {
    hide SmallBinOk, BinnedOk, TrieOk, Linked, Addrs, Apart, BinLo, BinBits, RingOk, RingChecked;
    assert TreeBinOk(c, head, st.m, st.treemap, i, st.treebins[i], st.trees[i]);
    PartsApart(head, st.trees[i], BinLo(i), BinBits(i));
    SlotOutside(c, head, st, i);
    NodesChecked(head, st.m, st.trees[i], BinLo(i), BinBits(i), c.TreeBinAt(i), i, p);
  }

  lemma SlotOutside(c: Layout, head: Heads, st: BinState, i: nat)
    requires BinsOk(c, head, st) && i < NTREEBINS
    ensures c.TreeBinAt(i) > 0 && c.TreeBinAt(i) !in Addrs(st.trees[i])
  {
    hide SmallBinOk, TreeBinOk, TreeIndex, Addrs;
    forall x | x in Addrs(st.trees[i]) ensures c.InSegment(x) {
      assert InItsBin(c, head, st.small, st.trees, x);
    }
  }

  lemma SmallBinPasses(c: Layout, st: BinState, k: Core, i: nat)
    requires HeapOk(c, st, k) && k.loose == {} && i < NSMALLBINS
    ensures SmallBinChecked(c, k, st.m, st.smallmap, i, st.small[i])
  {
    hide CoreOk, FreeChecked;
    assert SmallBinOk(c, st.m.fd, st.m.bk, st.smallmap, i, st.small[i]);
    forall p | p in st.small[i]
      ensures FreeChecked(c, k, st.m, p) && p in k.head && k.head[p].size == 8 * i && IsSmall(k.head[p].size)
    {
      FreeOfBinned(c, k, p);
      FreePasses(c, st, k, p);
    }
    assert forall p :: FreeChecked(c, k, st.m, p) ==> p in k.head by { CheckedKnown(c, k, st.m); }
  }

  lemma CheckedKnown(c: Layout, k: Core, m: Links)
    ensures forall p :: FreeChecked(c, k, m, p) ==> p in k.head
  {
  }

  lemma FreeOfBinned(c: Layout, k: Core, p: int)
    requires CoreOk(c, k) && p in k.binned
    ensures IsFree(k, p)
  {
  }

  lemma TreeBinPasses(c: Layout, st: BinState, k: Core, i: nat)
    requires HeapOk(c, st, k) && k.loose == {} && i < NTREEBINS
    ensures TreeBinChecked(c, k, st.m, st.treemap, i, st.treebins[i], st.trees[i])
  {
    hide CoreOk, BinsOk, FreeChecked, NodeChecked, RingChecked, TreeIndex, Addrs, BinLo, BinBits,
      MinSizeForTreeIndex, Bit;
    BinTrie(c, k.head, st, i);
    BinKnown(c, k.head, st, i);
    TreeRoot(c, k.head, st, i);
    forall u | u in Addrs(st.trees[i])
      ensures u in k.head && FreeChecked(c, k, st.m, u)
      ensures NodeChecked(k.head, st.m, st.trees[i], c.TreeBinAt(i), i, u)
      ensures RingChecked(k.head, st.m, RingOf(st.trees[i], u))
      ensures k.head[u].size >= MIN_LARGE_SIZE && k.head[u].size < SIZE_T_RANGE && TreeIndex(k.head[u].size) == i
      ensures k.head[u].size >= MinSizeForTreeIndex(i)
      ensures i == NTREEBINS - 1 || k.head[u].size < MinSizeForTreeIndex(i + 1)
    {
      ChunkInBin(c, k.head, st, i, u);
      FreeOfBinned(c, k, u);
      FreePasses(c, st, k, u);
      TreeOnRing(c, k.head, st, i, u);
      TreeIndexBrackets(k.head[u].size);
    }
    assert forall p :: FreeChecked(c, k, st.m, p) ==> p in k.head by { CheckedKnown(c, k, st.m); }
  }

  lemma TreeRoot(c: Layout, head: Heads, st: BinState, i: nat)
    requires BinsOk(c, head, st) && i < NTREEBINS
    ensures st.treebins[i] == Root(st.trees[i])
  {
    hide SmallBinOk, BinnedOk, TrieOk, Linked;
    assert TreeBinOk(c, head, st.m, st.treemap, i, st.treebins[i], st.trees[i]);
  }

  /** do_check_malloc_state, less its footprint totals: bins, dv, top, then chunk by chunk. */
  ghost predicate StateChecked(c: Layout, st: BinState, k: Core)
    requires |st.small| == NSMALLBINS && |st.trees| == |st.treebins| == NTREEBINS
  {
    && (forall i :: 0 <= i < NSMALLBINS ==> SmallBinChecked(c, k, st.m, st.smallmap, i, st.small[i]))
    && (forall i :: 0 <= i < NTREEBINS ==>
          TreeBinChecked(c, k, st.m, st.treemap, i, st.treebins[i], st.trees[i]))
    && (k.dvsize != 0 ==>
         && k.dv in k.chunks && k.dv in k.head && k.head[k.dv].size == k.dvsize && k.dvsize >= MIN_CHUNK_SIZE
         && k.dv !in k.binned)
    && TopChecked(c, k) && k.top !in k.binned
    && (forall p :: p in k.chunks ==> ChunkChecked(c, k, st.m, p))
  }

  /** traverse_and_check on one chunk, whose successor is the next chunk or top. */
  predicate ChunkChecked(c: Layout, k: Core, m: Links, p: int)
  {
    && p in k.head && (Next(k.head, p) in k.chunks || Next(k.head, p) == k.top)
    && if k.head[p].cinuse then InUseChecked(c, k, p) && p !in k.binned
       else
         && FreeChecked(c, k, m, p) && (p in k.binned || (k.dvsize != 0 && p == k.dv))
         && (Next(k.head, p) in k.head ==> Next(k.head, p) == k.top || k.head[Next(k.head, p)].cinuse)
  }

  /** An idle heap passes its own checks. */
  lemma StatePasses(c: Layout, st: BinState, k: Core)
    requires HeapOk(c, st, k) && k.loose == {}
    ensures |st.small| == NSMALLBINS && |st.trees| == |st.treebins| == NTREEBINS && StateChecked(c, st, k)
  {
    hide SmallBinChecked, TreeBinChecked, ChunkChecked, TopChecked, BinsOk, CoreOk;
    BinTrie(c, k.head, st, 0);
    forall i | 0 <= i < NSMALLBINS ensures SmallBinChecked(c, k, st.m, st.smallmap, i, st.small[i]) {
      SmallBinPasses(c, st, k, i);
    }
    forall i | 0 <= i < NTREEBINS
      ensures TreeBinChecked(c, k, st.m, st.treemap, i, st.treebins[i], st.trees[i])
    {
      TreeBinPasses(c, st, k, i);
    }
    EndsPass(c, k);
    forall p | p in k.chunks ensures ChunkChecked(c, k, st.m, p) { ChunkPasses(c, st, k, p); }
  }

  lemma EndsPass(c: Layout, k: Core)
    requires CoreOk(c, k)
    ensures TopChecked(c, k) && k.top !in k.binned
    ensures k.dvsize != 0 ==>
      && k.dv in k.chunks && k.dv in k.head && k.head[k.dv].size == k.dvsize && k.dvsize >= MIN_CHUNK_SIZE
      && k.dv !in k.binned
  {
    if k.dvsize != 0 { assert ChunkOk(c, k, k.dv); }
    assert IsFree(k, k.top) ==> k.top in k.chunks;
  }

  lemma ChunkPasses(c: Layout, st: BinState, k: Core, p: int)
    requires HeapOk(c, st, k) && k.loose == {} && p in k.chunks
    ensures ChunkChecked(c, k, st.m, p)
  {
    assert ChunkOk(c, k, p);
    if IsFree(k, p) {
      FreePasses(c, st, k, p);
    } else {
      assert BackOk(k, p);
      assert p !in k.binned by { if p in k.binned { FreeOfBinned(c, k, p); } }
    }
  }

  // ---- bin_find ----

  /** Walks the ring that starts at a, looking for x. */
  method RingHas(fd: Field, a: int, x: int, ghost m: Links, ghost s: seq<int>) returns (found: bool)
    requires m.fd == fd && RingOk(fd, m.bk, s) && s[0] == a
    ensures found <==> x in s
  {
    var p := a;
    ghost var j := 0;
    found := p == x;
    while !found
      invariant 0 <= j < |s| && p == s[j] && (found <==> p == x) && x !in s[..j]
      decreases |s| - j, !found
    {
      RingLinks(m, s, j);
      ghost var n := if j + 1 < |s| then j + 1 else 0;
      p := fd[p];
      if p == a {
        RingOnce(s, n);
        return;
      }
      j := n;
      found := p == x;
    }
  }

  lemma RingOnce(s: seq<int>, j: nat)
    requires NoDup(s) && j < |s| && s[j] == s[0]
    ensures j == 0
  {
  }

  /** A search for x goes to the half that holds its size, and x is nowhere else. */
  lemma FindStep(head: Heads, m: Links, i: nat, whole: Trie, w: View, x: int, s: nat, k: nat)
    requires Seen(head, m, i, whole, w) && w.t.Node? && KeyAt(w, s, k)
    requires x in head && head[x].size == s && w.t.sz != s
    ensures w.b > 0 && k / 0x8000_0000 <= 1
    ensures var d := k / 0x8000_0000 == 1;
      var w' := View(Child(w.t, d), HalfLo(w.lo, w.b, d), w.b - 1, Root(w.t));
      && Seen(head, m, i, whole, w') && KeyAt(w', s, Shl32(k, 1))
      && (x in Addrs(w.t) <==> x in Addrs(w'.t))
  {
    hide Seen, TrieOk, Linked, Pow2, Shl32, Sizes;
    ViewOk(head, m, i, whole, w);
    RangeNotSingle(w.t, head, w.lo, w.b, s);
    SearchArith(s, w.lo, w.b, k);
    ChildView(head, m, i, whole, w, false);
    ChildView(head, m, i, whole, w, true);
    NotInOtherHalf(head, w.t, w.lo, w.b, x);
  }

  lemma NotInOtherHalf(head: Heads, t: Trie, lo: nat, b: nat, x: int)
    requires TrieOk(head, t, lo, b) && t.Node? && b > 0 && x in head && t.sz != head[x].size
    ensures x !in t.ring
    ensures head[x].size >= lo + Pow2(b - 1) ==> x !in Addrs(t.l)
    ensures head[x].size < lo + Pow2(b - 1) ==> x !in Addrs(t.r)
  {
    hide Pow2;
    SizesInRange(head, t.l, lo, b - 1);
    SizesInRange(head, t.r, lo + Pow2(b - 1), b - 1);
  }

  /** At the node of its own size, x is on the ring or nowhere. */
  lemma FoundHere(head: Heads, m: Links, i: nat, whole: Trie, w: View, x: int)
    requires Seen(head, m, i, whole, w) && w.t.Node? && x in head && head[x].size == w.t.sz
    ensures x in Addrs(w.t) <==> x in w.t.ring
    ensures RingOk(m.fd, m.bk, w.t.ring) && w.t.ring[0] == Root(w.t)
  {
    if w.b > 0 {
      SizesInRange(head, w.t.l, w.lo, w.b - 1);
      SizesInRange(head, w.t.r, w.lo + Pow2(w.b - 1), w.b - 1);
    }
  }

  lemma SmallHolds(c: Layout, head: Heads, st: BinState, x: int)
    requires BinsOk(c, head, st) && x in head && IsSmall(head[x].size) && c.InSegment(x)
    requires head[x].size % 8 == 0
    ensures |st.small| == NSMALLBINS
    ensures var i := head[x].size / 8;
      && i < NSMALLBINS && (x in st.binned <==> x in st.small[i])
      && (Bit(st.smallmap, i) <==> st.small[i] != [])
      && (st.small[i] != [] ==> RingOk(st.m.fd, st.m.bk, [c.SmallBinAt(i)] + st.small[i]))
      && x != c.SmallBinAt(i)
  {
    hide TreeBinOk, RingOk, TreeIndex;
    var i := head[x].size / 8;
    assert SmallBinOk(c, st.m.fd, st.m.bk, st.smallmap, i, st.small[i]);
    HeaderOutside(c, i);
    if x in st.binned { assert InItsBin(c, head, st.small, st.trees, x); }
  }

  lemma LargeHolds(c: Layout, head: Heads, st: BinState, x: int)
    requires BinsOk(c, head, st) && x in head && !IsSmall(head[x].size) && head[x].size < SIZE_T_RANGE
    ensures MIN_LARGE_SIZE <= head[x].size && TreeIndex(head[x].size) < NTREEBINS
    ensures |st.trees| == |st.treebins| == NTREEBINS
    ensures x in st.binned <==> x in Addrs(st.trees[TreeIndex(head[x].size)])
  {
    hide TreeBinOk, SmallBinOk, TreeIndex, Addrs;
    assert MIN_LARGE_SIZE <= head[x].size;
    TreeIndexInRange(head[x].size);
    if x in st.binned { assert InItsBin(c, head, st.small, st.trees, x); }
  }

  lemma Known(c: Layout, k: Core, p: int)
    requires CoreOk(c, k) && (p in k.chunks || p == k.top)
    ensures p in k.head && c.InSegment(p) && k.head[p].size % 8 == 0 && k.head[p].size < SIZE_T_RANGE
  {
    if p in k.chunks { assert ChunkOk(c, k, p); }
  }

  /** bin_find on a small size: along the ring of its bin. */
  method SmallBinFind(h: MallocState, x: int) returns (found: bool)
    requires h.Valid() && (x in h.chunks || x == h.top) && x in h.head && IsSmall(h.head[x].size)
    ensures found <==> x in h.binned
  {
    hide BinsOk, CoreOk, Bit, RingOk;
    Known(h.c, h.K({}), x);
    SmallHolds(h.c, h.head, h.State(), x);
    var i := h.head[x].size / 8;
    var b := h.c.SmallBinAt(i);
    found := false;
    if Bit(h.smallmap, i) {
      found := RingHas(h.fd, b, x, h.Mem(), [b] + h.small[i]);
    }
  }

  /** bin_find on a large size: down the trie of its bin by the bits of the size, then around one ring. */
  method TreeBinFind(h: MallocState, x: int) returns (found: bool)
    requires h.Valid() && (x in h.chunks || x == h.top) && x in h.head && !IsSmall(h.head[x].size)
    ensures found <==> x in h.binned
  {
    hide BinsOk, CoreOk, Bit, RingOk, TrieOk, Linked, Addrs, Pow2, Log2, Shl32, Seen, Root, TreeIndex, BinLo, BinBits,
      TreeBinOk;
    Known(h.c, h.K({}), x);
    LargeHolds(h.c, h.head, h.State(), x);
    var s := h.head[x].size;
    var i := TreeIndex(s);
    ghost var whole := h.trees[i];
    BinKnown(h.c, h.head, h.State(), i);
    SearchBinStart(h.c, h.head, h.Mem(), h.treemap, i, h.treebins[i], whole, s);
    found := false;
    if Bit(h.treemap, i) {
      var t := h.treebins[i];
      var sizebits := Shl32(s, LeftShiftForTreeIndex(i));
      ghost var w := View(whole, BinLo(i), BinBits(i), h.c.TreeBinAt(i));
      ViewNode(h.head, h.Mem(), i, whole, w);
      while t != 0 && h.head[t].size != s
        invariant Seen(h.head, h.Mem(), i, whole, w) && t == Root(w.t) && KeyAt(w, s, sizebits)
        invariant t != 0 <==> w.t.Node?
        invariant t != 0 ==> t in h.head && h.head[t].size == w.t.sz && t in h.child0 && t in h.child1
        invariant x in h.binned <==> x in Addrs(w.t)
        decreases w.t
      {
        FindStep(h.head, h.Mem(), i, whole, w, x, s, sizebits);
        ViewNode(h.head, h.Mem(), i, whole, w);
        var right := sizebits / 0x8000_0000 == 1;
        t := if right then h.child1[t] else h.child0[t];
        w := View(Child(w.t, right), HalfLo(w.lo, w.b, right), w.b - 1, Root(w.t));
        ViewNode(h.head, h.Mem(), i, whole, w);
        sizebits := Shl32(sizebits, 1);
      }
      if t != 0 {
        FoundHere(h.head, h.Mem(), i, whole, w, x);
        found := RingHas(h.fd, t, x, h.Mem(), w.t.ring);
      } else {
        NilHoldsNone(w.t, x);
      }
    } else {
      NilHoldsNone(whole, x);
    }
  }

  lemma NilHoldsNone(t: Trie, x: int)
    requires t.Nil?
    ensures x !in Addrs(t)
  {
  }

  /** bin_find: a chunk, or top, is found by its size exactly if it is binned. */
  method BinFind(h: MallocState, x: int) returns (found: bool)
    requires h.Valid() && (x in h.chunks || x == h.top) && x in h.head
    ensures found <==> x in h.binned
  {
    if IsSmall(h.head[x].size) {
      found := SmallBinFind(h, x);
    } else {
      found := TreeBinFind(h, x);
    }
  }
}
