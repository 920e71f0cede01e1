/** The net effects on the heap of the cases of dlmalloc, dlfree and try_realloc_chunk,
    as sequences of elementary transitions. */
module HeapOps {
  import opened SizeClass
  import opened BinMap
  import opened Ring
  import opened Trie
  import opened Bins
  import opened Core
  import opened CoreOps

  /** The whole invariant of the heap, with some free chunks in the hands of the running operation. */
  ghost predicate HeapOk(c: Layout, st: BinState, k: Core)
  {
    CoreOk(c, k) && BinsOk(c, k.head, st) && st.binned == k.binned
  }

  lemma HeapStep(c: Layout, st: BinState, k: Core, k': Core)
    requires HeapOk(c, st, k) && CoreOk(c, k') && Kept(k, k')
    ensures HeapOk(c, st, k')
  {
    hide CoreOk, BinsOk;
    BinsFrame(c, k.head, k'.head, st);
  }

  /** Only chunks are allocated. */
  lemma LiveChunks(k: Core)
    ensures Live(k).Keys <= k.chunks
    ensures forall p :: p in Live(k) <==> InUse(k, p)
    ensures forall p :: p in Live(k) ==> Live(k)[p] == k.head[p].size
  {
  }

  // ---- taking part of a free chunk ----

  /** The first nb bytes of loose chunk p are taken; the rest is loose. */
  function TakeSplit(k: Core, p: int, nb: nat): Core
    requires p in k.head && nb <= k.head[p].size
  {
    var s, r := k.head[p].size, p + nb;
    k.(head := k.head[p := Head(nb, true, true)][r := Head(s - nb, true, false)],
       foot := k.foot[p + s := s - nb],
       chunks := k.chunks + {r}, loose := k.loose - {p} + {r})
  }

  predicate CanTakeSplit(k: Core, p: int, nb: nat)
  {
    p in k.loose && p in k.head && nb % 8 == 0 && MIN_CHUNK_SIZE <= nb && nb + MIN_CHUNK_SIZE <= k.head[p].size
  }

  lemma TakeSplitSteps(c: Layout, k: Core, p: int, nb: nat)
    requires CoreOk(c, k) && CanTakeSplit(k, p, nb)
    ensures CanSplit(Take(k, p), p, nb)
    ensures CanFree(SplitInUse(Take(k, p), p, nb), p + nb)
    ensures Free(SplitInUse(Take(k, p), p, nb), p + nb) == TakeSplit(k, p, nb)
  {
    assert IsFree(k, p);
    FreeNext(c, k, p);
    SplitPoint(c, Take(k, p), p, nb) by { TakeOk(c, k, p); }
    var n := Next(k.head, p);
    assert k.head[n] == Head(k.head[n].size, false, true);
  }

  lemma TakeSplitOk(c: Layout, k: Core, p: int, nb: nat)
    requires CoreOk(c, k) && CanTakeSplit(k, p, nb)
    ensures CoreOk(c, TakeSplit(k, p, nb)) && Kept(k, TakeSplit(k, p, nb))
    ensures Live(TakeSplit(k, p, nb)) == Live(k)[p := nb] && p !in Live(k) && p + nb in TakeSplit(k, p, nb).loose
  {
    hide CoreOk, Live, Tiled;
    TakeSplitSteps(c, k, p, nb);
    TakeOk(c, k, p);
    var k1 := Take(k, p);
    SplitOk(c, k1, p, nb);
    var k2 := SplitInUse(k1, p, nb);
    FreeOk(c, k2, p + nb);
    LiveChunks(k);
  }

  // ---- releasing a chunk ----

  /** Where the free chunk begins that chunk p becomes part of. */
  function Start(k: Core, p: int): int
    requires p in k.head && (!k.head[p].pinuse ==> p in k.foot)
  {
    if k.head[p].pinuse then p else p - k.foot[p]
  }

  predicate CanJoinBack(k: Core, p: int)
  {
    InUse(k, p) && (!k.head[p].pinuse ==> p in k.foot && p - k.foot[p] in k.loose)
  }

  function JoinBack(k: Core, p: int): Core
    requires CanJoinBack(k, p)
  {
    if k.head[p].pinuse then k else MergeBack(k, p)
  }

  lemma JoinBackOk(c: Layout, k: Core, p: int)
    requires CoreOk(c, k) && CanJoinBack(k, p)
    ensures var k1, q := JoinBack(k, p), Start(k, p);
      && CoreOk(c, k1) && InUse(k1, q) && k1.head[q].pinuse && Next(k1.head, q) == Next(k.head, p) && Kept(k, k1)
      && q in Live(k1) && Live(k1) - {q} == Live(k) - {p} && k1.foot == k.foot && k1.loose == k.loose - {q}
      && k1.top == k.top && (forall r :: r != q ==> (r in k1.head <==> r in k.head) && (r in k.head ==>
           k1.head[r] == k.head[r]))
      && k1.chunks == (if q == p then k.chunks else k.chunks - {p})
      && k1.dv == k.dv && k1.dvsize == k.dvsize && k1.topsize == k.topsize && k1.binned == k.binned
      && k1.head == (if q == p then k.head else k.head[q := Head(k1.head[q].size, true, true)])
      && k1.head[q].size == (if q == p then k.head[p].size else k.foot[p] + k.head[p].size)
  {
    hide CoreOk, Live, Tiled, Kept;
    if !k.head[p].pinuse { MergeOk(c, k, p); MergeFacts(c, k, p); } else { UnlooseUse(c, k, p); KeptSame(c, k); }
    LiveChunks(k);
    LiveChunks(JoinBack(k, p));
  }

  lemma UnlooseUse(c: Layout, k: Core, p: int)
    requires CoreOk(c, k) && InUse(k, p)
    ensures p !in k.loose && p !in k.binned
  {
    hide Tiled;
  }

  lemma KeptSame(c: Layout, k: Core)
    requires CoreOk(c, k)
    ensures Kept(k, k)
  {
    FreeInHead(c, k);
  }

  predicate CanRelease(k: Core, p: int)
  {
    && CanJoinBack(k, p) && Next(k.head, p) != k.top
    && (IsFree(k, Next(k.head, p)) ==> Next(k.head, p) in k.loose)
  }

  function Extend(k: Core, q: int): Core
    requires q in k.head
  {
    if Next(k.head, q) in k.loose && Next(k.head, q) in k.head then GrowNext(k, q) else k
  }

  /** Chunk p in use becomes free, together with its free neighbours. */
  function Release(k: Core, p: int): Core
    requires CanRelease(k, p) && Start(k, p) in JoinBack(k, p).head
  {
    var q := Start(k, p);
    Free(Extend(JoinBack(k, p), q), q)
  }

  lemma ExtendOk(c: Layout, k: Core, q: int)
    requires CoreOk(c, k) && InUse(k, q) && k.head[q].pinuse && Next(k.head, q) != k.top
    requires IsFree(k, Next(k.head, q)) ==> Next(k.head, q) in k.loose
    ensures var k1 := Extend(k, q);
      && CoreOk(c, k1) && CanFree(k1, q) && Kept(k, k1) && Live(k1) - {q} == Live(k) - {q}
      && k1.loose == k.loose - {Next(k.head, q)}
  {
    hide CoreOk, Live, Tiled, Kept;
    NextIsChunk(c, k, q);
    if Next(k.head, q) in k.loose {
      GrowOk(c, k, q);
    } else {
      KeptSame(c, k);
    }
  }

  lemma NextIsChunk(c: Layout, k: Core, q: int)
    requires CoreOk(c, k) && q in k.chunks
    ensures q in k.head && Next(k.head, q) in k.head && (Next(k.head, q) != k.top ==> Next(k.head, q) in k.chunks)
    ensures Next(k.head, q) in k.loose ==> IsFree(k, Next(k.head, q))
  {
    assert ChunkOk(c, k, q);
  }

  lemma ReleaseOk(c: Layout, k: Core, p: int)
    requires CoreOk(c, k) && CanRelease(k, p)
    ensures Start(k, p) in JoinBack(k, p).head
    ensures var k', q := Release(k, p), Start(k, p);
      && CoreOk(c, k') && Kept(k, k') && Live(k') == Live(k) - {p}
      && k'.loose == k.loose - {q, Next(k.head, p)} + {q}
  {
    hide CoreOk, Live, Tiled;
    var q, k1 := Start(k, p), JoinBack(k, p);
    JoinBackOk(c, k, p);
    NextApart(c, k, p);
    ExtendOk(c, k1, q);
    FreeOk(c, Extend(k1, q), q);
  }

  lemma NextApart(c: Layout, k: Core, p: int)
    requires CoreOk(c, k) && CanJoinBack(k, p)
    ensures Start(k, p) < Next(k.head, p)
    ensures p < Next(k.head, p)
  {
    assert ChunkOk(c, k, p);
    if !k.head[p].pinuse { MergeFacts(c, k, p); }
  }

  /** What is written when the next chunk is in use: set_free_with_pinuse. */
  lemma ReleaseAlone(c: Layout, k: Core, p: int, s: nat)
    requires CoreOk(c, k) && CanRelease(k, p) && InUse(k, Next(k.head, p))
    requires s == Next(k.head, p) - Start(k, p)
    ensures Start(k, p) in JoinBack(k, p).head
    ensures var q, n := Start(k, p), Next(k.head, p);
      Release(k, p) == k.(head := SetPinuse(k.head, n, false)[q := Head(s, true, false)], foot := k.foot[n := s],
                          chunks := if q == p then k.chunks else k.chunks - {p}, loose := k.loose + {q})
  {
    var q, n, k1 := Start(k, p), Next(k.head, p), JoinBack(k, p);
    JoinBackOk(c, k, p);
    NextApart(c, k, p);
    UnlooseUse(c, k, n);
    hide CoreOk, Live, Tiled;
    assert Extend(k1, q) == k1;
    assert k1.head[q].size == s;
  }

  /** What is written when the next chunk is free and is absorbed. */
  lemma ReleaseJoined(c: Layout, k: Core, p: int, s: nat)
    requires CoreOk(c, k) && CanRelease(k, p) && IsFree(k, Next(k.head, p))
    requires s == Next(k.head, Next(k.head, p)) - Start(k, p)
    ensures Start(k, p) in JoinBack(k, p).head
    ensures var q, n := Start(k, p), Next(k.head, p);
      Release(k, p) == k.(head := k.head[q := Head(s, true, false)], foot := k.foot[q + s := s],
                          chunks := if q == p then k.chunks - {n}
                              else k.chunks - {p} - {n}, loose := k.loose - {n} + {q})
  {
    var q, n, k1 := Start(k, p), Next(k.head, p), JoinBack(k, p);
    JoinBackOk(c, k, p);
    NextApart(c, k, p);
    FreeNext(c, k, n);
    hide CoreOk, Live, Tiled;
    assert Extend(k1, q) == GrowNext(k1, q);
    var e := Next(k.head, n);
    assert k.head[e] == Head(k.head[e].size, false, true);
    assert GrowNext(k1, q).head[q].size == s;
    assert SetPinuse(SetPinuse(k1.head[q := Head(s, true, true)], e, true)[q := Head(s, true, false)], e, false)
        == k.head[q := Head(s, true, false)];
  }

  /** Chunk p in use, bordering top, becomes part of top, together with the free chunk before it. */
  function ReleaseToTop(k: Core, p: int): Core
    requires CanJoinBack(k, p) && Start(k, p) in JoinBack(k, p).head
  {
    FreeToTop(JoinBack(k, p), Start(k, p))
  }

  lemma ReleaseToTopOk(c: Layout, k: Core, p: int)
    requires CoreOk(c, k) && CanJoinBack(k, p) && Next(k.head, p) == k.top
    ensures Start(k, p) in JoinBack(k, p).head && Start(k, p) < k.top
    ensures var k', q := ReleaseToTop(k, p), Start(k, p);
      && CoreOk(c, k') && Kept(k, k') && Live(k') == Live(k) - {p}
      && k' == k.(head := k.head[q := Head(k.topsize + (k.top - q), true, false)], chunks := k.chunks - {p} - {q},
                  loose := k.loose - {q}, top := q, topsize := k.topsize + (k.top - q))
  {
    hide CoreOk, Live, Tiled;
    JoinBackOk(c, k, p);
    NextApart(c, k, p);
    ToTopOk(c, JoinBack(k, p), Start(k, p));
  }

  // ---- what the running operation reads ----

  lemma FreeKinds(c: Layout, k: Core, p: int)
    requires CoreOk(c, k) && IsFree(k, p)
    ensures p in k.binned || p in k.loose || (k.dvsize != 0 && p == k.dv)
    ensures p == k.dv ==> k.dvsize != 0 && p !in k.binned && p !in k.loose
    ensures c.InSegment(p) && p > 0 && p != k.top && k.head[p].size % 8 == 0
      && MIN_CHUNK_SIZE <= k.head[p].size < SIZE_T_RANGE
    ensures p + k.head[p].size < k.top && p % 8 == 0 && k.head[p].pinuse
    ensures p in k.binned || p in k.loose ==> p != k.dv
    ensures !(p in k.binned && p in k.loose)
  {
    assert ChunkOk(c, k, p);
    FreeNext(c, k, p);
    assert ChunkOk(c, k, Next(k.head, p));
  }

  /** A clear pinuse bit leads to the free chunk before p. */
  lemma PrevIsFree(c: Layout, k: Core, p: int)
    requires CoreOk(c, k) && InUse(k, p) && !k.head[p].pinuse
    ensures p in k.foot && IsFree(k, p - k.foot[p]) && k.head[p - k.foot[p]].size == k.foot[p]
  {
    assert BackOk(k, p);
  }

  /** The word after chunk p is the head of the next chunk or of top. */
  lemma NextHead(c: Layout, k: Core, p: int)
    requires CoreOk(c, k) && p in k.chunks
    ensures p in k.head && Next(k.head, p) in k.head && p < Next(k.head, p) <= k.top && p != 0 && p % 8 == 0
      && k.top != 0
    ensures c.InSegment(p) && k.top + k.topsize == c.end
    ensures k.head[Next(k.head, p)].pinuse <==> k.head[p].cinuse
    ensures Next(k.head, p) == k.top ==> !k.head[Next(k.head, p)].cinuse && !IsFree(k, Next(k.head, p))
    ensures Next(k.head, p) != k.top ==> IsFree(k, Next(k.head, p)) != InUse(k, Next(k.head, p))
    ensures MIN_CHUNK_SIZE <= k.head[p].size < SIZE_T_RANGE && k.head[p].size % 8 == 0
  {
    assert ChunkOk(c, k, p);
  }

  lemma LiveFrame(k: Core, k': Core)
    requires k'.head == k.head && k'.chunks == k.chunks
    ensures Live(k') == Live(k)
  {
  }

  /** The designated victim, if any, can be taken in hand, and a chunk in hand can take its place. */
  lemma DropDvOk(c: Layout, st: BinState, k: Core)
    requires HeapOk(c, st, k)
    ensures HeapOk(c, st, DropDv(k)) && Live(DropDv(k)) == Live(k)
  {
    hide CoreOk, BinsOk, Live;
    Moves(c, k, 0);
    LiveFrame(k, DropDv(k));
  }

  lemma AdoptDvOk(c: Layout, st: BinState, k: Core, p: int)
    requires HeapOk(c, st, k) && p in k.loose && k.dvsize == 0
    ensures p in k.head && HeapOk(c, st, AdoptDv(k, p)) && Live(AdoptDv(k, p)) == Live(k)
  {
    hide CoreOk, BinsOk, Live;
    Moves(c, k, p);
    LiveFrame(k, AdoptDv(k, p));
  }

  lemma LooseInHead(c: Layout, k: Core)
    requires CoreOk(c, k)
    ensures forall p :: p in k.loose ==> IsFree(k, p)
    ensures forall p :: p in k.binned ==> IsFree(k, p)
    ensures k.dvsize != 0 ==> IsFree(k, k.dv) && k.head[k.dv].size == k.dvsize
    ensures k.dvsize == 0 ==> k.dv == 0
  {
    hide Tiled;
  }

  // ---- the same steps on the whole heap ----

  lemma HeapNext(c: Layout, st: BinState, k: Core, p: int)
    requires HeapOk(c, st, k) && InUse(k, p)
    ensures Next(k.head, p) in k.head && p < Next(k.head, p) <= k.top && k.head[Next(k.head, p)].pinuse && k.top != 0
    ensures Next(k.head, p) == k.top ==> !k.head[Next(k.head, p)].cinuse && !IsFree(k, Next(k.head, p))
    ensures Next(k.head, p) != k.top ==> IsFree(k, Next(k.head, p)) != InUse(k, Next(k.head, p))
    ensures p in Live(k) && Live(k)[p] == k.head[p].size
  {
    hide CoreOk, BinsOk;
    NextHead(c, k, p);
  }

  lemma HeapPrev(c: Layout, st: BinState, k: Core, p: int)
    requires HeapOk(c, st, k) && InUse(k, p) && !k.head[p].pinuse
    ensures p in k.foot
    ensures var q := p - k.foot[p];
      && IsFree(k, q) && k.head[q].size == k.foot[p] && q != 0
      && (q in k.binned || q in k.loose || (k.dvsize != 0 && q == k.dv))
      && (q == k.dv ==> k.dvsize != 0)
  {
    hide CoreOk, BinsOk;
    PrevIsFree(c, k, p);
    FreeKinds(c, k, p - k.foot[p]);
  }

  lemma HeapFree(c: Layout, st: BinState, k: Core, p: int)
    requires HeapOk(c, st, k) && IsFree(k, p)
    ensures p in k.binned || p in k.loose || (k.dvsize != 0 && p == k.dv)
    ensures p == k.dv ==> k.dvsize != 0 && k.head[p].size == k.dvsize && p !in k.binned && p !in k.loose
    ensures p != 0 && p != k.top
  {
    hide BinsOk, Tiled;
    FreeKinds(c, k, p);
  }

  lemma ReleaseHeap(c: Layout, st: BinState, k: Core, p: int)
    requires HeapOk(c, st, k) && CanRelease(k, p)
    ensures Start(k, p) in JoinBack(k, p).head
    ensures var k', q := Release(k, p), Start(k, p);
      HeapOk(c, st, k') && Live(k') == Live(k) - {p} && k'.loose == k.loose - {q, Next(k.head, p)} + {q}
  {
    hide CoreOk, BinsOk, Live;
    ReleaseOk(c, k, p);
    HeapStep(c, st, k, Release(k, p));
  }

  lemma ReleaseAloneHeap(c: Layout, st: BinState, k: Core, p: int, s: nat)
    requires HeapOk(c, st, k) && CanRelease(k, p) && InUse(k, Next(k.head, p)) && s == Next(k.head, p) - Start(k, p)
    ensures var q, n := Start(k, p), Next(k.head, p);
      var k' := k.(head := SetPinuse(k.head, n, false)[q := Head(s, true, false)], foot := k.foot[n := s],
                   chunks := if q == p then k.chunks else k.chunks - {p}, loose := k.loose + {q});
      HeapOk(c, st, k') && Live(k') == Live(k) - {p}
  {
    hide CoreOk, BinsOk, Live;
    ReleaseHeap(c, st, k, p);
    ReleaseAlone(c, k, p, s);
  }

  lemma ReleaseJoinedHeap(c: Layout, st: BinState, k: Core, p: int, s: nat)
    requires HeapOk(c, st, k) && CanRelease(k, p) && IsFree(k, Next(k.head, p))
      && s == Next(k.head, Next(k.head, p)) - Start(k, p)
    ensures var q, n := Start(k, p), Next(k.head, p);
      var k' := k.(head := k.head[q := Head(s, true, false)], foot := k.foot[q + s := s],
                   chunks := if q == p then k.chunks - {n} else k.chunks - {p} - {n}, loose := k.loose - {n} + {q});
      HeapOk(c, st, k') && Live(k') == Live(k) - {p}
  {
    hide CoreOk, BinsOk, Live;
    ReleaseHeap(c, st, k, p);
    ReleaseJoined(c, k, p, s);
  }

  lemma ReleaseToTopHeap(c: Layout, st: BinState, k: Core, p: int)
    requires HeapOk(c, st, k) && CanJoinBack(k, p) && Next(k.head, p) == k.top
    ensures Start(k, p) < k.top
    ensures var q := Start(k, p);
      var k' := k.(head := k.head[q := Head(k.topsize + (k.top - q), true, false)], chunks := k.chunks - {p} - {q},
                   loose := k.loose - {q}, top := q, topsize := k.topsize + (k.top - q));
      HeapOk(c, st, k') && Live(k') == Live(k) - {p}
  {
    hide CoreOk, BinsOk, Live;
    ReleaseToTopOk(c, k, p);
    HeapStep(c, st, k, ReleaseToTop(k, p));
  }

  /** A chunk in use is not the designated victim. */
  lemma DvIsNot(c: Layout, st: BinState, k: Core, p: int)
    requires HeapOk(c, st, k) && InUse(k, p)
    ensures p != k.dv && p != 0
  {
    hide BinsOk, Tiled;
    NextHead(c, k, p);
  }

  // ---- growing and shrinking a chunk in place ----

  lemma SplitHeap(c: Layout, st: BinState, k: Core, p: int, nb: nat)
    requires HeapOk(c, st, k) && CanSplit(k, p, nb)
    ensures HeapOk(c, st, SplitInUse(k, p, nb)) && p + nb !in Live(k)
    ensures Live(SplitInUse(k, p, nb)) - {p + nb} == Live(k)[p := nb]
    ensures InUse(SplitInUse(k, p, nb), p + nb)
  {
    hide CoreOk, BinsOk, Live;
    SplitOk(c, k, p, nb);
    HeapStep(c, st, k, SplitInUse(k, p, nb));
    LiveChunks(k);
  }

  lemma GrowHeap(c: Layout, st: BinState, k: Core, p: int)
    requires HeapOk(c, st, k) && CanGrow(k, p)
    ensures Next(k.head, p) in k.head
    ensures var n := Next(k.head, p); var s := k.head[p].size + k.head[n].size;
      && HeapOk(c, st, GrowNext(k, p)) && Live(GrowNext(k, p)) == Live(k)[p := s]
      && InUse(GrowNext(k, p), p) && GrowNext(k, p).head[p] == Head(s, k.head[p].pinuse, true)
      && p + s in k.head && k.head[p + s].cinuse && !k.head[p + s].pinuse
      && InUse(GrowNext(k, p), p + s) && k.head[n].size >= MIN_CHUNK_SIZE && k.head[n].size % 8 == 0
      && k.head[p].size >= MIN_CHUNK_SIZE && k.head[p].size % 8 == 0
  {
    hide CoreOk, BinsOk, Live, Tiled;
    GrowOk(c, k, p);
    GrowFacts(c, k, p);
    FreeNext(c, k, Next(k.head, p)) by { TiledPart(c, k); }
    HeapStep(c, st, k, GrowNext(k, p));
  }

  lemma TiledPart(c: Layout, k: Core)
    requires CoreOk(c, k)
    ensures Tiled(c, k)
  {
  }

  lemma GrowTopHeap(c: Layout, st: BinState, k: Core, p: int, nb: nat)
    requires HeapOk(c, st, k) && CanGrowTop(k, p, nb)
    ensures HeapOk(c, st, GrowTop(k, p, nb)) && Live(GrowTop(k, p, nb)) == Live(k)[p := nb]
  {
    hide CoreOk, BinsOk, Live;
    GrowTopOk(c, k, p, nb);
    HeapStep(c, st, k, GrowTop(k, p, nb));
  }

  /** Chunk p grows to nb bytes into the loose chunk after it; what is left of that one is loose. */
  function GrowPart(k: Core, p: int, nb: nat): Core
    requires p in k.head && Next(k.head, p) in k.head && nb <= k.head[p].size + k.head[Next(k.head, p)].size
  {
    var n, r := Next(k.head, p), p + nb;
    var e := p + k.head[p].size + k.head[n].size;
    k.(head := k.head[p := Head(nb, k.head[p].pinuse, true)][r := Head(e - r, true, false)],
       foot := k.foot[e := e - r], chunks := k.chunks - {n} + {r}, loose := k.loose - {n} + {r})
  }

  lemma GrowPartHeap(c: Layout, st: BinState, k: Core, p: int, nb: nat)
    requires HeapOk(c, st, k) && CanGrow(k, p) && Next(k.head, p) in k.head && nb % 8 == 0
    requires k.head[p].size < nb && nb + MIN_CHUNK_SIZE <= k.head[p].size + k.head[Next(k.head, p)].size
    ensures HeapOk(c, st, GrowPart(k, p, nb)) && Live(GrowPart(k, p, nb)) == Live(k)[p := nb]
    ensures p + nb in GrowPart(k, p, nb).loose && GrowPart(k, p, nb).dvsize == k.dvsize
  {
    hide CoreOk, BinsOk, Live, HeapOk;
    GrowHeap(c, st, k, p);
    var k1 := GrowNext(k, p);
    SplitHeap(c, st, k1, p, nb);
    var k2 := SplitInUse(k1, p, nb);
    FreeHeap(c, st, k2, p + nb);
    GrowPartIs(k, p, nb);
  }

  lemma FreeHeap(c: Layout, st: BinState, k: Core, p: int)
    requires HeapOk(c, st, k) && CanFree(k, p)
    ensures HeapOk(c, st, Free(k, p)) && Live(Free(k, p)) == Live(k) - {p}
  {
    hide CoreOk, BinsOk, Live;
    FreeOk(c, k, p);
    HeapStep(c, st, k, Free(k, p));
  }

  lemma GrowPartIs(k: Core, p: int, nb: nat)
    requires CanGrow(k, p) && Next(k.head, p) in k.head
    requires MIN_CHUNK_SIZE <= k.head[p].size < nb
      && nb + MIN_CHUNK_SIZE <= k.head[p].size + k.head[Next(k.head, p)].size
    requires var e := p + k.head[p].size + k.head[Next(k.head, p)].size; e in k.head && !k.head[e].pinuse
    ensures nb <= GrowNext(k, p).head[p].size && p + nb in SplitInUse(GrowNext(k, p), p, nb).head
    ensures Free(SplitInUse(GrowNext(k, p), p, nb), p + nb) == GrowPart(k, p, nb)
  {
    var e := p + k.head[p].size + k.head[Next(k.head, p)].size;
    assert k.head[e] == k.head[e].(pinuse := false);
  }

  /** Only the size of chunk p has changed, to nb bytes or a little more. */
  predicate Resized(live: map<int, nat>, live': map<int, nat>, p: int, nb: nat)
  {
    p in live' && nb <= live'[p] < nb + MIN_CHUNK_SIZE && live' == live[p := live'[p]]
  }

  /** The designated victim split, field by field. */
  lemma DvSplitIs(k: Core, nb: nat)
    requires k.loose == {} && k.dvsize != 0 && k.dv in k.head && k.head[k.dv].size == k.dvsize && 0 < nb < k.dvsize
    ensures var r, k1 := k.dv + nb, TakeSplit(DropDv(k), k.dv, nb);
      && r in k1.loose && k1.dvsize == 0 && r in k1.head
      && AdoptDv(k1, r) == k.(head := k.head[r := Head(k.dvsize - nb, true, false)][k.dv := Head(nb, true, true)],
                              foot := k.foot[r + (k.dvsize - nb) := k.dvsize - nb], chunks := k.chunks + {r},
                                  dv := r, dvsize := k.dvsize - nb)
  {
    var r := k.dv + nb;
    assert k.head[r := Head(k.dvsize - nb, true, false)][k.dv := Head(nb, true, true)]
        == k.head[k.dv := Head(nb, true, true)][r := Head(k.dvsize - nb, true, false)];
  }

  lemma SplitDvIs(k: Core, p: int, nb: nat, dsize: nat)
    requires CanGrow(DropDv(k), p) && Next(k.head, p) in k.head && MIN_CHUNK_SIZE <= dsize && 0 < nb && k.loose == {}
    requires Next(k.head, p) == k.dv && k.dvsize != 0
    requires nb + dsize == k.head[p].size + k.head[Next(k.head, p)].size
    requires p + nb + dsize in k.head && !k.head[p + nb + dsize].pinuse
    ensures nb <= k.head[p].size + k.head[k.dv].size && p + nb in GrowPart(DropDv(k), p, nb).head
    ensures var h1 := SetPinuse(k.head[p := k.head[p].(size := nb, cinuse := true)], p + nb, true);
      AdoptDv(GrowPart(DropDv(k), p, nb), p + nb)
        == k.(head := SetPinuse(h1[p + nb := Head(dsize, true, false)], p + nb + dsize, false),
              foot := k.foot[p + nb + dsize := dsize], chunks := k.chunks - {k.dv} + {p + nb}, dv := p + nb,
                  dvsize := dsize)
  {
    var n := p + nb + dsize;
    assert k.head[n] == k.head[n].(pinuse := false);
    var h1 := SetPinuse(k.head[p := k.head[p].(size := nb, cinuse := true)], p + nb, true);
    assert SetPinuse(h1[p + nb := Head(dsize, true, false)], n, false) == GrowPart(DropDv(k), p, nb).head;
    assert AdoptDv(GrowPart(DropDv(k), p, nb), p + nb).loose == {};
  }

  /** What is written when chunk p absorbs the chunk n after it and is cut again at nb bytes. */
  lemma GrowSplitIs(k: Core, p: int, nb: nat, rsize: nat)
    requires CanGrow(k, p) && Next(k.head, p) in k.head && rsize > 0 && k.head[p].size < nb
      && k.loose == {Next(k.head, p)}
    requires nb + rsize == k.head[p].size + k.head[Next(k.head, p)].size
    ensures var n, r := Next(k.head, p), p + nb;
      var h1 := SetPinuse(k.head[p := k.head[p].(size := nb, cinuse := true)], r, true);
      r in h1
      && SplitInUse(GrowNext(k, p), p, nb)
        == k.(head := SetPinuse(h1[r := h1[r].(size := rsize, cinuse := true)], r + rsize, true),
              chunks := k.chunks - {n} + {r}, loose := {})
  {
    var n, r := Next(k.head, p), p + nb;
    var h1 := SetPinuse(k.head[p := k.head[p].(size := nb, cinuse := true)], r, true);
    assert SetPinuse(h1[r := h1[r].(size := rsize, cinuse := true)], r + rsize, true) == SplitInUse(GrowNext(k, p),
        p, nb).head;
  }

  // ---- the initial heap ----

  lemma EmptyBins(c: Layout, head: Heads, st: BinState)
    requires c.Valid() && |st.small| == NSMALLBINS && |st.trees| == NTREEBINS && |st.treebins| == NTREEBINS
    requires st.smallmap == 0 && st.treemap == 0 && st.binned == {}
    requires forall i :: 0 <= i < NSMALLBINS ==> st.small[i] == []
    requires forall i :: 0 <= i < NTREEBINS ==> st.trees[i] == Nil && st.treebins[i] == 0
    ensures BinsOk(c, head, st)
  {
    ZeroHasNoBits();
  }

  lemma EmptyCore(c: Layout, k: Core)
    requires c.Valid() && k.chunks == {} && k.binned == {} && k.loose == {} && k.dv == 0 && k.dvsize == 0
    requires k.top == c.base && k.topsize > 0 && k.topsize % 8 == 0 && k.top + k.topsize == c.end
    requires k.top in k.head && k.head[k.top] == Head(k.topsize, true, false)
    requires c.end in k.head && k.head[c.end] == Head(TOP_FOOT_SIZE, false, false)
    ensures CoreOk(c, k) && Live(k) == map[]
  {
  }
}
