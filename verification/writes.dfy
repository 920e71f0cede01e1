/** What the holder of a live chunk writes into it, up to and including the foot that it shares with the next one,
    leaves the heap as it was. */
module HeapWrites {
  import opened SizeClass
  import opened BinMap
  import opened Ring
  import opened Trie
  import opened Bins
  import opened BinOps
  import opened TreeSearch
  import opened Core
  import opened HeapOps

  /** The word at a meets the bytes from lo to hi. */
  predicate Meets(a: int, lo: int, hi: int)
  {
    a < hi && lo < a + 4
  }

  /** Two contents of the field at offset o, which differ at most where its word meets the bytes from lo to hi. There
      any contents will do, or none: what lies there is no longer known. */
  ghost predicate SameBut<T(!new)>(f: map<int, T>, f': map<int, T>, o: nat, lo: int, hi: int)
  {
    forall x :: !Meets(x + o, lo, hi) ==> (x in f <==> x in f') && (x in f ==> f'[x] == f[x])
  }

  ghost predicate LinksBut(m: Links, m': Links, lo: int, hi: int)
  {
    && SameBut(m.fd, m'.fd, 8, lo, hi) && SameBut(m.bk, m'.bk, 12, lo, hi)
    && SameBut(m.child0, m'.child0, 16, lo, hi) && SameBut(m.child1, m'.child1, 20, lo, hi)
    && SameBut(m.parent, m'.parent, 24, lo, hi) && SameBut(m.index, m'.index, 28, lo, hi)
  }

  /** The memory after any writes to the bytes that the holder of chunk p may use. */
  ghost predicate Written(st: BinState, k: Core, p: int, st': BinState, k': Core)
    requires p in k.head
  {
    var lo, hi := p + 8, Next(k.head, p) + 4;
    && SameBut(k.head, k'.head, 4, lo, hi) && SameBut(k.foot, k'.foot, 0, lo, hi)
    && k' == k.(head := k'.head, foot := k'.foot)
    && LinksBut(st.m, st'.m, lo, hi) && st' == st.(m := st'.m)
  }

  // ---- words the heap relies on ----

  lemma HeadAside(c: Layout, k: Core, p: int, q: int)
    requires Tiled(c, k) && InUse(k, p) && (q in k.chunks || q == k.top || q == c.end)
    ensures !Meets(q + 4, p + 8, Next(k.head, p) + 4)
  {
    assert ChunkOk(c, k, p);
    if q in k.chunks { assert ChunkOk(c, k, q) && Apart2(k, p, q) && Apart2(k, q, p); }
  }

  /** The foot of a free chunk. */
  lemma FootAside(c: Layout, k: Core, p: int, q: int)
    requires Tiled(c, k) && InUse(k, p) && IsFree(k, q)
    ensures !Meets(Next(k.head, q), p + 8, Next(k.head, p) + 4)
  {
    assert ChunkOk(c, k, p) && ChunkOk(c, k, q);
    FreeNext(c, k, q);
    NextUnique(c, k, p, q);
    var n := Next(k.head, q);
    if n != p { NextUnique(c, k, p, n); }
  }

  /** The link fields of a free chunk, as far as its size reaches. */
  lemma LinksAside(c: Layout, k: Core, p: int, x: int, o: nat)
    requires Tiled(c, k) && InUse(k, p) && IsFree(k, x) && 8 <= o && o + 4 <= k.head[x].size
    ensures !Meets(x + o, p + 8, Next(k.head, p) + 4)
  {
    assert ChunkOk(c, k, p) && ChunkOk(c, k, x);
    NextUnique(c, k, p, x);
    NextUnique(c, k, x, p);
  }

  /** The header of a small bin, which lies in the record of the heap's state. */
  lemma HeaderAside(c: Layout, k: Core, p: int, i: nat, o: nat)
    requires Tiled(c, k) && InUse(k, p) && i < NSMALLBINS && (o == 8 || o == 12)
    ensures !Meets(c.SmallBinAt(i) + o, p + 8, Next(k.head, p) + 4)
  {
    assert ChunkOk(c, k, p);
  }

  // ---- the invariants ----

  lemma ChunkWritten(c: Layout, st: BinState, k: Core, p: int, st': BinState, k': Core, q: int)
    requires Tiled(c, k) && InUse(k, p) && Written(st, k, p, st', k') && q in k.chunks
    ensures ChunkOk(c, k', q) && q in k.head && q in k'.head && k'.head[q] == k.head[q]
  {
    assert ChunkOk(c, k, q);
    HeadAside(c, k, p, q);
    HeadAside(c, k, p, Next(k.head, q));
    if !k.head[q].cinuse { FootAside(c, k, p, q); }
  }

  lemma BackWritten(c: Layout, st: BinState, k: Core, p: int, st': BinState, k': Core, q: int)
    requires Tiled(c, k) && InUse(k, p) && Written(st, k, p, st', k') && q in k.chunks
    ensures BackOk(k', q)
  {
    assert ChunkOk(c, k, q) && BackOk(k, q);
    HeadAside(c, k, p, q);
    if !k.head[q].pinuse {
      var r := q - k.foot[q];
      FootAside(c, k, p, r);
      HeadAside(c, k, p, r);
    }
  }

  lemma TiledWritten(c: Layout, st: BinState, k: Core, p: int, st': BinState, k': Core)
    requires Tiled(c, k) && InUse(k, p) && Written(st, k, p, st', k')
    ensures Tiled(c, k')
  {
    HeadAside(c, k, p, k.top);
    HeadAside(c, k, p, c.end);
    HeadAside(c, k, p, c.base);
    forall q | q in k'.chunks ensures ChunkOk(c, k', q) && BackOk(k', q) {
      ChunkWritten(c, st, k, p, st', k', q);
      BackWritten(c, st, k, p, st', k', q);
    }
    forall q, r | q in k'.chunks && r in k'.chunks ensures Apart2(k', q, r) {
      assert Apart2(k, q, r);
      ChunkWritten(c, st, k, p, st', k', q);
    }
  }

  lemma HeadsWritten(c: Layout, st: BinState, k: Core, p: int, st': BinState, k': Core)
    requires Tiled(c, k) && InUse(k, p) && Written(st, k, p, st', k')
    ensures forall q :: q in k.chunks ==> q in k.head && q in k'.head && k'.head[q] == k.head[q]
    ensures forall q :: IsFree(k', q) <==> IsFree(k, q)
    ensures Live(k') == Live(k)
  {
    hide Tiled, Written;
    forall q | q in k.chunks ensures q in k.head && q in k'.head && k'.head[q] == k.head[q] {
      ChunkWritten(c, st, k, p, st', k', q);
    }
    assert k'.chunks == k.chunks by { WrittenRest(st, k, p, st', k'); }
  }

  lemma WrittenRest(st: BinState, k: Core, p: int, st': BinState, k': Core)
    requires p in k.head && Written(st, k, p, st', k')
    ensures k' == k.(head := k'.head, foot := k'.foot) && st' == st.(m := st'.m)
  {
  }

  lemma SmallWritten(c: Layout, st: BinState, k: Core, p: int, st': BinState, k': Core, i: nat)
    requires HeapOk(c, st, k) && InUse(k, p) && Written(st, k, p, st', k') && i < NSMALLBINS
    ensures SmallBinOk(c, st'.m.fd, st'.m.bk, st'.smallmap, i, st'.small[i])
  {
    hide TreeBinOk, RingOk, Accounted;
    assert SmallBinOk(c, st.m.fd, st.m.bk, st.smallmap, i, st.small[i]);
    HeaderAside(c, k, p, i, 8);
    HeaderAside(c, k, p, i, 12);
    forall x | x in st.small[i] ensures Same(st.m.fd, st'.m.fd, x) && Same(st.m.bk, st'.m.bk, x) {
      BinnedSize(c, k, x);
      LinksAside(c, k, p, x, 8);
      LinksAside(c, k, p, x, 12);
    }
    SmallBinFrame(c, st.m.fd, st.m.bk, st.smallmap, st'.m.fd, st'.m.bk, st'.smallmap, i, st.small[i]);
  }

  lemma BinnedSize(c: Layout, k: Core, x: int)
    requires CoreOk(c, k) && x in k.binned
    ensures IsFree(k, x) && x in k.chunks && k.head[x].size >= MIN_CHUNK_SIZE
  {
    assert ChunkOk(c, k, x);
  }

  lemma TreeWritten(c: Layout, st: BinState, k: Core, p: int, st': BinState, k': Core, i: nat)
    requires HeapOk(c, st, k) && InUse(k, p) && Written(st, k, p, st', k') && i < NTREEBINS
    ensures |st.trees| == |st.treebins| == NTREEBINS
    ensures TreeBinOk(c, k'.head, st'.m, st'.treemap, i, st'.treebins[i], st'.trees[i])
  {
    hide Tiled, Accounted, SmallBinOk, BinsOk, Written, Same, Addrs;
    BinTrie(c, k.head, st, i);
    BinKnown(c, k.head, st, i);
    HeadsWritten(c, st, k, p, st', k');
    WrittenRest(st, k, p, st', k');
    forall x | x in Addrs(st.trees[i]) ensures SameAt(st.m, st'.m, x) && x in k'.head && x in k.head
        && k'.head[x].size == k.head[x].size {
      ChunkInBin(c, k.head, st, i, x);
      BinnedSize(c, k, x);
      LargeLinks(c, st, k, p, st', k', x);
    }
    TreeBinFrame(c, k.head, st.m, st.treemap, k'.head, st'.m, st'.treemap, i, st.treebins[i], st.trees[i]);
  }

  lemma LargeLinks(c: Layout, st: BinState, k: Core, p: int, st': BinState, k': Core, x: int)
    requires Tiled(c, k) && InUse(k, p) && Written(st, k, p, st', k') && IsFree(k, x)
    requires k.head[x].size >= MIN_LARGE_SIZE
    ensures SameAt(st.m, st'.m, x)
  {
    hide Tiled;
    LinksAside(c, k, p, x, 8);
    LinksAside(c, k, p, x, 12);
    LinksAside(c, k, p, x, 16);
    LinksAside(c, k, p, x, 20);
    LinksAside(c, k, p, x, 24);
    LinksAside(c, k, p, x, 28);
  }

  /** Whatever is written into a live chunk, the heap keeps its invariant and every chunk its size and state. */
  lemma PayloadWrite(c: Layout, st: BinState, k: Core, p: int, st': BinState, k': Core)
    requires HeapOk(c, st, k) && InUse(k, p) && Written(st, k, p, st', k')
    ensures HeapOk(c, st', k') && Live(k') == Live(k)
    ensures forall q :: IsFree(k', q) <==> IsFree(k, q)
  {
    hide Tiled, Written, SmallBinOk, TreeBinOk, BinnedOk, IsFree;
    TiledWritten(c, st, k, p, st', k');
    HeadsWritten(c, st, k, p, st', k');
    WrittenRest(st, k, p, st', k');
    forall i | 0 <= i < NSMALLBINS ensures SmallBinOk(c, st'.m.fd, st'.m.bk, st'.smallmap, i, st'.small[i]) {
      SmallWritten(c, st, k, p, st', k', i);
    }
    forall i | 0 <= i < NTREEBINS
      ensures TreeBinOk(c, k'.head, st'.m, st'.treemap, i, st'.treebins[i], st'.trees[i])
    {
      TreeWritten(c, st, k, p, st', k', i);
    }
    BinnedInChunks(c, k);
    BinnedFrame(c, k.head, k'.head, st.small, st.trees, st.binned);
    AccountedFrame(k, k');
  }

  lemma BinnedInChunks(c: Layout, k: Core)
    requires CoreOk(c, k)
    ensures forall x :: x in k.binned ==> x in k.chunks
  {
  }

  lemma AccountedFrame(k: Core, k': Core)
    requires Accounted(k) && k' == k.(head := k'.head, foot := k'.foot)
    requires forall q :: q in k.chunks ==> q in k.head && q in k'.head && k'.head[q] == k.head[q]
    requires forall q :: IsFree(k', q) <==> IsFree(k, q)
    ensures Accounted(k')
  {
  }
}
