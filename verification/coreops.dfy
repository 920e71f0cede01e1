/** Each elementary transition keeps the tiling and the account of free chunks,
    and does to the allocated chunks what it should. */
module CoreOps {
  import opened SizeClass
  import opened Ring
  import opened Trie
  import opened Bins
  import opened Core

  // -- SplitInUse --

  predicate CanSplit(k: Core, p: int, nb: nat)
  {
    InUse(k, p) && nb % 8 == 0 && MIN_CHUNK_SIZE <= nb && nb + MIN_CHUNK_SIZE <= k.head[p].size
  }

  lemma SplitPoint(c: Layout, k: Core, p: int, nb: nat)
    requires Tiled(c, k) && CanSplit(k, p, nb)
    ensures ChunkOk(c, k, p) && p + nb !in k.chunks && p + nb < k.top
  {
    assert ChunkOk(c, k, p);
    assert p + nb in k.chunks ==> Apart2(k, p, p + nb);
  }

  lemma SplitChunk(c: Layout, k: Core, p: int, nb: nat, q: int)
    requires Tiled(c, k) && CanSplit(k, p, nb) && q in SplitInUse(k, p, nb).chunks
    ensures ChunkOk(c, SplitInUse(k, p, nb), q)
  {
    SplitPoint(c, k, p, nb);
    if q in k.chunks {
      assert ChunkOk(c, k, q);
      if q != p { NextUnique(c, k, p, q); }
    }
  }

  lemma SplitBack(c: Layout, k: Core, p: int, nb: nat, q: int)
    requires Tiled(c, k) && CanSplit(k, p, nb) && q in SplitInUse(k, p, nb).chunks
    ensures BackOk(SplitInUse(k, p, nb), q)
  {
    SplitPoint(c, k, p, nb);
    if q in k.chunks { assert BackOk(k, q) && ChunkOk(c, k, q); }
  }

  lemma SplitApart(c: Layout, k: Core, p: int, nb: nat, q: int, r: int)
    requires Tiled(c, k) && CanSplit(k, p, nb)
    requires q in SplitInUse(k, p, nb).chunks && r in SplitInUse(k, p, nb).chunks
    ensures Apart2(SplitInUse(k, p, nb), q, r)
  {
    assert ChunkOk(c, k, p);
    assert q in k.chunks && r in k.chunks ==> Apart2(k, q, r);
    assert q in k.chunks ==> Apart2(k, q, p) && Apart2(k, p, q) && ChunkOk(c, k, q);
    assert r in k.chunks ==> Apart2(k, p, r);
  }

  lemma SplitTiled(c: Layout, k: Core, p: int, nb: nat)
    requires Tiled(c, k) && CanSplit(k, p, nb)
    ensures Tiled(c, SplitInUse(k, p, nb))
    ensures p + nb !in k.chunks
  {
    var k' := SplitInUse(k, p, nb);
    SplitPoint(c, k, p, nb);
    forall q | q in k'.chunks ensures ChunkOk(c, k', q) { SplitChunk(c, k, p, nb, q); }
    forall q | q in k'.chunks ensures BackOk(k', q) { SplitBack(c, k, p, nb, q); }
    forall q, r | q in k'.chunks && r in k'.chunks ensures Apart2(k', q, r) { SplitApart(c, k, p, nb, q, r); }
    hide ChunkOk, BackOk, Apart2;
    TiledFromParts(c, k');
  }

  lemma SplitFree(k: Core, p: int, nb: nat)
    requires CanSplit(k, p, nb) && p + nb !in k.chunks
    ensures forall q :: IsFree(SplitInUse(k, p, nb), q) <==> IsFree(k, q)
    ensures forall q :: IsFree(k, q) ==> SplitInUse(k, p, nb).head[q].size == k.head[q].size
    ensures Live(SplitInUse(k, p, nb)) == Live(k)[p := nb][p + nb := k.head[p].size - nb]
  {
  }

  lemma SplitOk(c: Layout, k: Core, p: int, nb: nat)
    requires CoreOk(c, k) && CanSplit(k, p, nb)
    ensures CoreOk(c, SplitInUse(k, p, nb)) && p + nb !in k.chunks
    ensures Live(SplitInUse(k, p, nb)) == Live(k)[p := nb][p + nb := k.head[p].size - nb]
    ensures Kept(k, SplitInUse(k, p, nb))
  {
    FreeInHead(c, k);
    SplitTiled(c, k, p, nb);
    SplitFree(k, p, nb);
    hide Tiled, Live;
  }

  // -- Free --

  predicate CanFree(k: Core, p: int)
  {
    InUse(k, p) && k.head[p].pinuse && InUse(k, Next(k.head, p))
  }

  lemma FreeChunk(c: Layout, k: Core, p: int, q: int)
    requires Tiled(c, k) && CanFree(k, p) && q in k.chunks
    ensures ChunkOk(c, Free(k, p), q) && BackOk(Free(k, p), q)
  {
    assert ChunkOk(c, k, p) && ChunkOk(c, k, q) && BackOk(k, q);
    if q != p { NextUnique(c, k, p, q); }
  }

  lemma FreeEnds(c: Layout, k: Core, p: int)
    requires Tiled(c, k) && CanFree(k, p)
    ensures EndsOk(c, Free(k, p))
  {
    assert ChunkOk(c, k, p);
  }

  lemma FreeApart(c: Layout, k: Core, p: int, q: int, r: int)
    requires Tiled(c, k) && CanFree(k, p) && q in k.chunks && r in k.chunks
    ensures Apart2(Free(k, p), q, r)
  {
    assert Apart2(k, q, r) && ChunkOk(c, k, q) && ChunkOk(c, k, p);
  }

  lemma FreeTiled(c: Layout, k: Core, p: int)
    requires Tiled(c, k) && CanFree(k, p)
    ensures Tiled(c, Free(k, p))
  {
    var k' := Free(k, p);
    FreeEnds(c, k, p);
    forall q | q in k'.chunks ensures ChunkOk(c, k', q) { FreeChunk(c, k, p, q); }
    forall q | q in k'.chunks ensures BackOk(k', q) { FreeChunk(c, k, p, q); }
    forall q, r | q in k'.chunks && r in k'.chunks ensures Apart2(k', q, r) { FreeApart(c, k, p, q, r); }
    hide ChunkOk, BackOk, Apart2;
    TiledFromParts(c, k');
  }

  lemma FreeFree(c: Layout, k: Core, p: int)
    requires Tiled(c, k) && CanFree(k, p)
    ensures forall q :: IsFree(Free(k, p), q) <==> IsFree(k, q) || q == p
    ensures forall q :: IsFree(k, q) ==> Free(k, p).head[q].size == k.head[q].size
    ensures Live(Free(k, p)) == Live(k) - {p}
  {
    assert ChunkOk(c, k, p);
  }

  lemma FreeOk(c: Layout, k: Core, p: int)
    requires CoreOk(c, k) && CanFree(k, p)
    ensures CoreOk(c, Free(k, p)) && Live(Free(k, p)) == Live(k) - {p} && Kept(k, Free(k, p))
  {
    FreeInHead(c, k);
    FreeTiled(c, k, p);
    FreeFree(c, k, p);
    hide Tiled, Live;
  }

  // -- MergeBack --

  predicate CanMerge(k: Core, p: int)
  {
    InUse(k, p) && !k.head[p].pinuse && p in k.foot && p - k.foot[p] in k.loose
  }

  lemma MergeFacts(c: Layout, k: Core, p: int)
    requires CoreOk(c, k) && CanMerge(k, p)
    ensures var q := p - k.foot[p];
      && IsFree(k, q) && k.head[q].size == k.foot[p] && k.head[q].pinuse && Next(k.head, q) == p && q != p
      && ChunkOk(c, k, q) && ChunkOk(c, k, p)
  {
    assert BackOk(k, p);
    assert ChunkOk(c, k, p) && ChunkOk(c, k, p - k.foot[p]);
  }

  lemma MergeChunk(c: Layout, k: Core, p: int, r: int)
    requires CoreOk(c, k) && CanMerge(k, p) && r in k.chunks && r != p
    ensures ChunkOk(c, MergeBack(k, p), r)
  {
    MergeFacts(c, k, p);
    assert ChunkOk(c, k, r);
    NextUnique(c, k, p, r);
    if r != p - k.foot[p] { NextUnique(c, k, p - k.foot[p], r); }
  }

  lemma MergeBackOk(c: Layout, k: Core, p: int, r: int)
    requires CoreOk(c, k) && CanMerge(k, p) && r in k.chunks && r != p
    ensures BackOk(MergeBack(k, p), r)
  {
    MergeFacts(c, k, p);
    assert BackOk(k, r) && ChunkOk(c, k, r);
  }

  lemma MergeApart(c: Layout, k: Core, p: int, r: int, t: int)
    requires CoreOk(c, k) && CanMerge(k, p) && r in k.chunks && r != p && t in k.chunks && t != p
    ensures Apart2(MergeBack(k, p), r, t)
  {
    MergeFacts(c, k, p);
    var q := p - k.foot[p];
    assert Apart2(k, r, t) && Apart2(k, p, t) && Apart2(k, q, t);
  }

  lemma MergeTiled(c: Layout, k: Core, p: int)
    requires CoreOk(c, k) && CanMerge(k, p)
    ensures Tiled(c, MergeBack(k, p))
  {
    var k' := MergeBack(k, p);
    MergeFacts(c, k, p);
    forall q | q in k'.chunks ensures ChunkOk(c, k', q) { MergeChunk(c, k, p, q); }
    forall q | q in k'.chunks ensures BackOk(k', q) { MergeBackOk(c, k, p, q); }
    forall q, r | q in k'.chunks && r in k'.chunks ensures Apart2(k', q, r) { MergeApart(c, k, p, q, r); }
    hide ChunkOk, BackOk, Apart2;
    TiledFromParts(c, k');
  }

  lemma MergeFree(c: Layout, k: Core, p: int)
    requires CoreOk(c, k) && CanMerge(k, p)
    ensures var q := p - k.foot[p];
      && (forall r :: IsFree(MergeBack(k, p), r) <==> IsFree(k, r) && r != q)
      && (forall r :: IsFree(k, r) && r != q ==> MergeBack(k, p).head[r].size == k.head[r].size)
      && Live(MergeBack(k, p)) == (Live(k) - {p})[q := k.foot[p] + k.head[p].size]
  {
    MergeFacts(c, k, p);
  }

  lemma MergeOk(c: Layout, k: Core, p: int)
    requires CoreOk(c, k) && CanMerge(k, p)
    ensures var q := p - k.foot[p];
      && CoreOk(c, MergeBack(k, p)) && InUse(MergeBack(k, p), q) && MergeBack(k, p).head[q].pinuse
      && Live(MergeBack(k, p)) == (Live(k) - {p})[q := k.foot[p] + k.head[p].size]
      && Next(MergeBack(k, p).head, q) == Next(k.head, p) && q !in Live(k) && Kept(k, MergeBack(k, p))
  {
    FreeInHead(c, k);
    MergeFacts(c, k, p);
    MergeTiled(c, k, p);
    MergeFree(c, k, p);
    hide Tiled, ChunkOk;
  }

  // -- GrowNext --

  predicate CanGrow(k: Core, p: int)
  {
    InUse(k, p) && Next(k.head, p) in k.loose
  }

  lemma GrowFacts(c: Layout, k: Core, p: int)
    requires CoreOk(c, k) && CanGrow(k, p)
    ensures var n := Next(k.head, p);
      && IsFree(k, n) && ChunkOk(c, k, p) && ChunkOk(c, k, n) && n != p && n != c.base
      && Next(k.head, n) in k.chunks && InUse(k, Next(k.head, n)) && Next(k.head, n) != n && p < n < Next(k.head, n)
  {
    assert ChunkOk(c, k, p);
    FreeNext(c, k, Next(k.head, p));
  }

  lemma GrowChunk(c: Layout, k: Core, p: int, r: int)
    requires CoreOk(c, k) && CanGrow(k, p) && r in k.chunks && r != Next(k.head, p)
    ensures ChunkOk(c, GrowNext(k, p), r)
  {
    GrowFacts(c, k, p);
    assert ChunkOk(c, k, r);
    if r != p { NextUnique(c, k, p, r); }
    NextUnique(c, k, Next(k.head, p), r);
  }

  lemma GrowBack(c: Layout, k: Core, p: int, r: int)
    requires CoreOk(c, k) && CanGrow(k, p) && r in k.chunks && r != Next(k.head, p)
    ensures BackOk(GrowNext(k, p), r)
  {
    GrowFacts(c, k, p);
    assert ChunkOk(c, k, r) && BackOk(k, r);
  }

  lemma GrowApart(c: Layout, k: Core, p: int, r: int, t: int)
    requires CoreOk(c, k) && CanGrow(k, p)
    requires r in k.chunks && r != Next(k.head, p) && t in k.chunks && t != Next(k.head, p)
    ensures Apart2(GrowNext(k, p), r, t)
  {
    GrowFacts(c, k, p);
    assert Apart2(k, r, t) && Apart2(k, Next(k.head, p), t);
  }

  lemma GrowTiled(c: Layout, k: Core, p: int)
    requires CoreOk(c, k) && CanGrow(k, p)
    ensures Tiled(c, GrowNext(k, p))
  {
    GrowFacts(c, k, p);
    var k' := GrowNext(k, p);
    forall q | q in k'.chunks ensures ChunkOk(c, k', q) { GrowChunk(c, k, p, q); }
    forall q | q in k'.chunks ensures BackOk(k', q) { GrowBack(c, k, p, q); }
    forall q, r | q in k'.chunks && r in k'.chunks ensures Apart2(k', q, r) { GrowApart(c, k, p, q, r); }
    hide ChunkOk, BackOk, Apart2;
    TiledFromParts(c, k');
  }

  lemma GrowFree(c: Layout, k: Core, p: int)
    requires CoreOk(c, k) && CanGrow(k, p)
    ensures var n := Next(k.head, p);
      && (forall r :: IsFree(GrowNext(k, p), r) <==> IsFree(k, r) && r != n)
      && (forall r :: IsFree(k, r) && r != n ==> GrowNext(k, p).head[r].size == k.head[r].size)
      && Live(GrowNext(k, p)) == Live(k)[p := k.head[p].size + k.head[n].size]
  {
    GrowFacts(c, k, p);
  }

  lemma GrowOk(c: Layout, k: Core, p: int)
    requires CoreOk(c, k) && CanGrow(k, p)
    ensures Next(k.head, p) in k.head
    ensures var n := Next(k.head, p);
      && CoreOk(c, GrowNext(k, p)) && InUse(GrowNext(k, p), p)
      && GrowNext(k, p).head[p] == Head(k.head[p].size + k.head[n].size, k.head[p].pinuse, true)
      && Live(GrowNext(k, p)) == Live(k)[p := k.head[p].size + k.head[n].size]
      && InUse(GrowNext(k, p), Next(GrowNext(k, p).head, p)) && Kept(k, GrowNext(k, p))
  {
    FreeInHead(c, k);
    GrowFacts(c, k, p);
    GrowTiled(c, k, p);
    GrowFree(c, k, p);
    hide Tiled, ChunkOk;
  }

  // -- FreeToTop --

  predicate CanFreeToTop(k: Core, p: int)
  {
    InUse(k, p) && k.head[p].pinuse && Next(k.head, p) == k.top
  }

  lemma ToTopChunk(c: Layout, k: Core, p: int, r: int)
    requires Tiled(c, k) && CanFreeToTop(k, p) && r in k.chunks && r != p
    ensures ChunkOk(c, FreeToTop(k, p), r) && BackOk(FreeToTop(k, p), r)
  {
    assert ChunkOk(c, k, p) && ChunkOk(c, k, r) && BackOk(k, r);
    NextUnique(c, k, p, r);
    assert Apart2(k, p, r) && Apart2(k, r, p);
  }

  lemma ToTopTiled(c: Layout, k: Core, p: int)
    requires Tiled(c, k) && CanFreeToTop(k, p)
    ensures Tiled(c, FreeToTop(k, p))
  {
    var k' := FreeToTop(k, p);
    assert ChunkOk(c, k, p);
    forall q | q in k'.chunks ensures ChunkOk(c, k', q) { ToTopChunk(c, k, p, q); }
    forall q | q in k'.chunks ensures BackOk(k', q) { ToTopChunk(c, k, p, q); }
    forall q, r | q in k'.chunks && r in k'.chunks ensures Apart2(k', q, r) { assert Apart2(k, q, r); }
    hide ChunkOk, BackOk, Apart2;
    TiledFromParts(c, k');
  }

  lemma ToTopFree(c: Layout, k: Core, p: int)
    requires Tiled(c, k) && CanFreeToTop(k, p)
    ensures forall r :: IsFree(FreeToTop(k, p), r) <==> IsFree(k, r)
    ensures forall r :: IsFree(k, r) ==> FreeToTop(k, p).head[r].size == k.head[r].size
    ensures Live(FreeToTop(k, p)) == Live(k) - {p}
  {
    assert ChunkOk(c, k, p);
  }

  lemma ToTopOk(c: Layout, k: Core, p: int)
    requires CoreOk(c, k) && CanFreeToTop(k, p)
    ensures CoreOk(c, FreeToTop(k, p)) && Live(FreeToTop(k, p)) == Live(k) - {p} && Kept(k, FreeToTop(k, p))
  {
    FreeInHead(c, k);
    ToTopTiled(c, k, p);
    ToTopFree(c, k, p);
    hide Tiled, Live;
  }

  // -- TopSplit --

  predicate CanCutTop(k: Core, nb: nat)
  {
    nb % 8 == 0 && MIN_CHUNK_SIZE <= nb < k.topsize
  }

  lemma TopChunk(c: Layout, k: Core, nb: nat, r: int)
    requires Tiled(c, k) && CanCutTop(k, nb) && r in TopSplit(k, nb).chunks
    ensures ChunkOk(c, TopSplit(k, nb), r) && BackOk(TopSplit(k, nb), r)
  {
    if r != k.top { assert ChunkOk(c, k, r) && BackOk(k, r); }
  }

  lemma TopApart(c: Layout, k: Core, nb: nat, q: int, r: int)
    requires Tiled(c, k) && CanCutTop(k, nb) && q in TopSplit(k, nb).chunks && r in TopSplit(k, nb).chunks
    ensures Apart2(TopSplit(k, nb), q, r)
  {
    if q != k.top { assert ChunkOk(c, k, q); }
    if r != k.top { assert ChunkOk(c, k, r); }
    if q != k.top && r != k.top { assert Apart2(k, q, r); }
  }

  lemma TopEnds(c: Layout, k: Core, nb: nat)
    requires Tiled(c, k) && CanCutTop(k, nb)
    ensures EndsOk(c, TopSplit(k, nb))
  {
    forall r | r in k.chunks ensures r != k.top + nb { assert ChunkOk(c, k, r); }
  }

  lemma TopTiled(c: Layout, k: Core, nb: nat)
    requires Tiled(c, k) && CanCutTop(k, nb)
    ensures Tiled(c, TopSplit(k, nb))
  {
    var k' := TopSplit(k, nb);
    TopEnds(c, k, nb);
    forall q | q in k'.chunks ensures ChunkOk(c, k', q) { TopChunk(c, k, nb, q); }
    forall q | q in k'.chunks ensures BackOk(k', q) { TopChunk(c, k, nb, q); }
    forall q, r | q in k'.chunks && r in k'.chunks ensures Apart2(k', q, r) { TopApart(c, k, nb, q, r); }
    hide ChunkOk, BackOk, Apart2;
    TiledFromParts(c, k');
  }

  lemma TopFree(c: Layout, k: Core, nb: nat)
    requires Tiled(c, k) && CanCutTop(k, nb)
    ensures forall r :: IsFree(TopSplit(k, nb), r) <==> IsFree(k, r)
    ensures forall r :: IsFree(k, r) ==> TopSplit(k, nb).head[r].size == k.head[r].size
    ensures Live(TopSplit(k, nb)) == Live(k)[k.top := nb] && k.top !in Live(k)
  {
    forall r | r in k.chunks ensures r != k.top && r != k.top + nb { assert ChunkOk(c, k, r); }
  }

  lemma TopOk(c: Layout, k: Core, nb: nat)
    requires CoreOk(c, k) && CanCutTop(k, nb)
    ensures CoreOk(c, TopSplit(k, nb)) && Live(TopSplit(k, nb)) == Live(k)[k.top := nb] && k.top !in Live(k)
    ensures Kept(k, TopSplit(k, nb))
  {
    FreeInHead(c, k);
    TopTiled(c, k, nb);
    TopFree(c, k, nb);
    hide Tiled, Live;
  }

  // -- GrowTop --

  predicate CanGrowTop(k: Core, p: int, nb: nat)
  {
    InUse(k, p) && Next(k.head, p) == k.top && nb % 8 == 0 && k.head[p].size < nb < k.head[p].size + k.topsize
  }

  lemma GrowTopChunk(c: Layout, k: Core, p: int, nb: nat, r: int)
    requires Tiled(c, k) && CanGrowTop(k, p, nb) && r in k.chunks
    ensures ChunkOk(c, GrowTop(k, p, nb), r) && BackOk(GrowTop(k, p, nb), r)
    ensures r < p + nb
  {
    assert ChunkOk(c, k, p) && ChunkOk(c, k, r) && BackOk(k, r);
    if r != p { NextUnique(c, k, p, r); }
  }

  lemma GrowTopApart(c: Layout, k: Core, p: int, nb: nat, q: int, r: int)
    requires Tiled(c, k) && CanGrowTop(k, p, nb) && q in k.chunks && r in k.chunks
    ensures Apart2(GrowTop(k, p, nb), q, r)
  {
    assert Apart2(k, q, r) && ChunkOk(c, k, q) && ChunkOk(c, k, r) && ChunkOk(c, k, p);
  }

  lemma GrowTopEnds(c: Layout, k: Core, p: int, nb: nat)
    requires Tiled(c, k) && CanGrowTop(k, p, nb)
    ensures EndsOk(c, GrowTop(k, p, nb))
  {
    assert ChunkOk(c, k, p);
    forall r | r in k.chunks ensures r != p + nb { GrowTopChunk(c, k, p, nb, r); }
  }

  lemma GrowTopTiled(c: Layout, k: Core, p: int, nb: nat)
    requires Tiled(c, k) && CanGrowTop(k, p, nb)
    ensures Tiled(c, GrowTop(k, p, nb))
  {
    var k' := GrowTop(k, p, nb);
    GrowTopEnds(c, k, p, nb);
    forall q | q in k'.chunks ensures ChunkOk(c, k', q) { GrowTopChunk(c, k, p, nb, q); }
    forall q | q in k'.chunks ensures BackOk(k', q) { GrowTopChunk(c, k, p, nb, q); }
    forall q, r | q in k'.chunks && r in k'.chunks ensures Apart2(k', q, r) { GrowTopApart(c, k, p, nb, q, r); }
    hide ChunkOk, BackOk, Apart2;
    TiledFromParts(c, k');
  }

  lemma GrowTopFree(c: Layout, k: Core, p: int, nb: nat)
    requires Tiled(c, k) && CanGrowTop(k, p, nb)
    ensures forall r :: IsFree(GrowTop(k, p, nb), r) <==> IsFree(k, r)
    ensures forall r :: IsFree(k, r) ==> GrowTop(k, p, nb).head[r].size == k.head[r].size
    ensures Live(GrowTop(k, p, nb)) == Live(k)[p := nb]
  {
    forall r | r in k.chunks ensures r != p + nb { GrowTopChunk(c, k, p, nb, r); }
  }

  lemma GrowTopOk(c: Layout, k: Core, p: int, nb: nat)
    requires CoreOk(c, k) && CanGrowTop(k, p, nb)
    ensures CoreOk(c, GrowTop(k, p, nb)) && Live(GrowTop(k, p, nb)) == Live(k)[p := nb] && Kept(k, GrowTop(k, p, nb))
  {
    FreeInHead(c, k);
    GrowTopTiled(c, k, p, nb);
    GrowTopFree(c, k, p, nb);
    hide Tiled, Live;
  }
}
