/** Boundary tags: how chunks tile the segment, what their head and foot words say about their
    neighbours, and the transitions that allocation and release make of them. */
module Core {
  import opened SizeClass
  import opened Ring
  import opened Trie
  import opened Bins

  /** The tiled part of the heap. A loose chunk is free but neither binned nor the designated victim:
      it is in the hands of the running operation. */
  datatype Core = Core(head: Heads, foot: map<int, nat>, chunks: set<int>, binned: set<int>, loose: set<int>,
                       dv: int, dvsize: nat, top: int, topsize: nat)

  function Next(head: Heads, p: int): int
    requires p in head
  {
    p + head[p].size
  }

  predicate IsFree(k: Core, p: int)
  {
    p in k.chunks && p in k.head && !k.head[p].cinuse
  }

  /** What the head of chunk p says, and what it says about the following chunk. */
  predicate ChunkOk(c: Layout, k: Core, p: int)
  {
    && c.base <= p && p % 8 == 0 && p in k.head
    && k.head[p].size >= MIN_CHUNK_SIZE && k.head[p].size % 8 == 0
    && Next(k.head, p) <= k.top
    && (Next(k.head, p) in k.chunks || Next(k.head, p) == k.top)
    && Next(k.head, p) in k.head && (k.head[Next(k.head, p)].pinuse <==> k.head[p].cinuse)
    && (!k.head[p].cinuse ==>
         k.head[p].pinuse && Next(k.head, p) in k.foot && k.foot[Next(k.head, p)] == k.head[p].size)
  }

  /** A clear pinuse bit leads back to the free chunk before p. */
  predicate BackOk(k: Core, p: int)
  {
    p in k.head && !k.head[p].pinuse ==>
      && p in k.foot
      && IsFree(k, p - k.foot[p]) && k.head[p - k.foot[p]].size == k.foot[p]
  }

  /** The two ends of the segment: the first chunk has no free chunk before it, top ends the segment and the fake
      chunk after it says so. */
  predicate EndsOk(c: Layout, k: Core)
  {
    && c.Valid() && c.base <= k.top && k.top % 8 == 0 && k.topsize > 0 && k.topsize % 8 == 0
    && k.top + k.topsize == c.end
    && k.top !in k.chunks && k.top in k.head && k.head[k.top] == Head(k.topsize, true, false)
    && (c.base in k.chunks || c.base == k.top)
    && c.base in k.head && k.head[c.base].pinuse
    && c.end in k.head && k.head[c.end] == Head(TOP_FOOT_SIZE, false, false)
  }

  /** The chunks and top tile the segment, and their boundary tags agree with the tiling. */
  ghost predicate Tiled(c: Layout, k: Core)
  {
    && EndsOk(c, k)
    && (forall p {:trigger ChunkOk(c, k, p)} :: p in k.chunks ==> ChunkOk(c, k, p))
    && (forall p {:trigger BackOk(k, p)} :: p in k.chunks ==> BackOk(k, p))
    && (forall p, q {:trigger Apart2(k, p, q)} :: p in k.chunks && q in k.chunks ==> Apart2(k, p, q))
  }

  /** Chunk p ends before any later chunk begins. */
  predicate Apart2(k: Core, p: int, q: int)
  {
    p < q ==> p in k.head && Next(k.head, p) <= q
  }

  /** The free chunks are the binned ones, the designated victim, and the loose ones. */
  ghost predicate Accounted(k: Core)
  {
    && (k.dvsize == 0 ==> k.dv == 0)
    && (k.dvsize != 0 ==> IsFree(k, k.dv) && k.head[k.dv].size == k.dvsize && k.dv !in k.binned && k.dv !in k.loose)
    && k.binned !! k.loose
    && (forall p :: p in k.binned || p in k.loose ==> IsFree(k, p))
    && (forall p :: IsFree(k, p) ==> p in k.binned || p in k.loose || (k.dvsize != 0 && p == k.dv))
  }

  ghost predicate CoreOk(c: Layout, k: Core)
  {
    Tiled(c, k) && Accounted(k)
  }

  /** The binned chunks keep their sizes. */
  predicate Kept(k: Core, k': Core)
  {
    k'.binned == k.binned && forall x :: x in k.binned ==>
      x in k.head && x in k'.head && k'.head[x].size == k.head[x].size
  }

  /** The allocated chunks and their sizes. */
  function Live(k: Core): map<int, nat>
  {
    map p | p in k.chunks && p in k.head && k.head[p].cinuse :: k.head[p].size
  }

  // ---- moving free chunks between bins, the designated victim and the running operation ----

  function Unbin(k: Core, p: int): Core { k.(binned := k.binned - {p}, loose := k.loose + {p}) }

  function Bin(k: Core, p: int): Core { k.(binned := k.binned + {p}, loose := k.loose - {p}) }

  function DropDv(k: Core): Core { k.(dv := 0, dvsize := 0,
          loose := if k.dvsize == 0 then k.loose else k.loose + {k.dv}) }

  function AdoptDv(k: Core, p: int): Core
    requires p in k.head
  {
    k.(dv := p, dvsize := k.head[p].size, loose := k.loose - {p})
  }

  lemma Moves(c: Layout, k: Core, p: int)
    requires CoreOk(c, k)
    ensures p in k.binned ==> CoreOk(c, Unbin(k, p))
    ensures p in k.loose ==> CoreOk(c, Bin(k, p))
    ensures CoreOk(c, DropDv(k))
    ensures p in k.loose && k.dvsize == 0 ==> p in k.head && CoreOk(c, AdoptDv(k, p))
  {
    FreeInHead(c, k);
    TiledFrame(c, k, Unbin(k, p));
    TiledFrame(c, k, Bin(k, p));
    TiledFrame(c, k, DropDv(k));
    if p in k.loose { TiledFrame(c, k, AdoptDv(k, p)); }
  }

  lemma FreeInHead(c: Layout, k: Core)
    requires CoreOk(c, k)
    ensures forall p :: p in k.binned || p in k.loose ==> p in k.head && p in k.chunks && p != 0 && k.head[p].size > 0
    ensures forall p :: p in k.chunks ==> p != 0
  {
    forall p | p in k.chunks ensures p != 0 && p in k.head && k.head[p].size > 0 { assert ChunkOk(c, k, p); }
  }

  lemma TiledFrame(c: Layout, k: Core, k': Core)
    requires Tiled(c, k)
    requires k'.head == k.head && k'.foot == k.foot && k'.chunks == k.chunks && k'.top == k.top
      && k'.topsize == k.topsize
    ensures Tiled(c, k')
  {
    forall p | p in k.chunks ensures ChunkOk(c, k', p) && BackOk(k', p) {
      assert ChunkOk(c, k, p) && BackOk(k, p);
    }
    forall p, q | p in k.chunks && q in k.chunks ensures Apart2(k', p, q) { assert Apart2(k, p, q); }
  }

  // ---- allocation ----

  function SetPinuse(head: Heads, n: int, b: bool): Heads
  {
    head[n := (if n in head then head[n] else Head(0, false, false)).(pinuse := b)]
  }

  /** set_inuse_and_pinuse on the whole of loose chunk p. */
  function Take(k: Core, p: int): Core
    requires p in k.head
  {
    var s := k.head[p].size;
    k.(head := SetPinuse(k.head[p := Head(s, true, true)], p + s, true), loose := k.loose - {p})
  }

  lemma NextUnique(c: Layout, k: Core, p: int, q: int)
    requires Tiled(c, k) && p in k.chunks && q in k.chunks && p != q
    ensures p in k.head && q in k.head && Next(k.head, p) != Next(k.head, q)
    ensures p < q ==> Next(k.head, p) <= q
    ensures p < Next(k.head, p)
  {
    assert ChunkOk(c, k, p) && ChunkOk(c, k, q) && Apart2(k, p, q) && Apart2(k, q, p);
  }

  lemma FreeNext(c: Layout, k: Core, p: int)
    requires Tiled(c, k) && IsFree(k, p)
    ensures ChunkOk(c, k, p) && Next(k.head, p) in k.chunks
    ensures Next(k.head, p) in k.head && k.head[Next(k.head, p)].cinuse && !k.head[Next(k.head, p)].pinuse
  {
    assert ChunkOk(c, k, p);
    var n := Next(k.head, p);
    assert n in k.chunks;
    assert ChunkOk(c, k, n);
  }

  lemma TakeChunk(c: Layout, k: Core, p: int, q: int)
    requires Tiled(c, k) && IsFree(k, p) && q in k.chunks
    ensures ChunkOk(c, Take(k, p), q)
  {
    FreeNext(c, k, p);
    assert ChunkOk(c, k, q);
    if q != p { NextUnique(c, k, p, q); }
  }

  lemma TakeBack(c: Layout, k: Core, p: int, q: int)
    requires Tiled(c, k) && IsFree(k, p) && q in k.chunks
    ensures BackOk(Take(k, p), q)
  {
    FreeNext(c, k, p);
    assert ChunkOk(c, k, q) && BackOk(k, q);
  }

  lemma TiledFromParts(c: Layout, k: Core)
    requires EndsOk(c, k)
    requires forall q :: q in k.chunks ==> ChunkOk(c, k, q)
    requires forall q :: q in k.chunks ==> BackOk(k, q)
    requires forall q, r :: q in k.chunks && r in k.chunks ==> Apart2(k, q, r)
    ensures Tiled(c, k)
  {
  }

  lemma TakeEnds(c: Layout, k: Core, p: int)
    requires Tiled(c, k) && IsFree(k, p)
    ensures EndsOk(c, Take(k, p))
  {
    FreeNext(c, k, p);
  }

  lemma TakeTiled(c: Layout, k: Core, p: int)
    requires Tiled(c, k) && IsFree(k, p)
    ensures Tiled(c, Take(k, p))
  {
    TakeEnds(c, k, p);
    var k' := Take(k, p);
    forall q | q in k.chunks ensures ChunkOk(c, k', q) { TakeChunk(c, k, p, q); }
    forall q | q in k.chunks ensures BackOk(k', q) { TakeBack(c, k, p, q); }
    forall q, r | q in k.chunks && r in k.chunks ensures Apart2(k', q, r) { TakeApart(c, k, p, q, r); }
    hide ChunkOk, BackOk, Apart2, EndsOk;
    TiledFromParts(c, k');
  }

  lemma TakeApart(c: Layout, k: Core, p: int, q: int, r: int)
    requires Tiled(c, k) && IsFree(k, p) && q in k.chunks && r in k.chunks
    ensures Apart2(Take(k, p), q, r)
  {
    assert Apart2(k, q, r) && ChunkOk(c, k, q) && ChunkOk(c, k, p);
  }

  lemma TakeFree(c: Layout, k: Core, p: int)
    requires Tiled(c, k) && IsFree(k, p)
    ensures forall q :: IsFree(Take(k, p), q) <==> IsFree(k, q) && q != p
    ensures Live(Take(k, p)) == Live(k)[p := k.head[p].size] && p !in Live(k)
    ensures forall q :: q in k.chunks && q in k.head ==>
      q in Take(k, p).head && Take(k, p).head[q].size == k.head[q].size
  {
    FreeNext(c, k, p);
  }

  /** What allocating the whole of a free chunk does. */
  lemma TakeOk(c: Layout, k: Core, p: int)
    requires CoreOk(c, k) && p in k.loose
    ensures p in k.head && CoreOk(c, Take(k, p)) && Live(Take(k, p)) == Live(k)[p := k.head[p].size] && p !in Live(k)
    ensures Kept(k, Take(k, p))
  {
    assert IsFree(k, p);
    FreeInHead(c, k);
    TakeTiled(c, k, p);
    TakeFree(c, k, p);
    hide Tiled, IsFree, Live;
  }

  // ---- the elementary transitions of release and reallocation ----

  /** Chunk p in use is cut in two chunks in use. */
  function SplitInUse(k: Core, p: int, nb: nat): Core
    requires p in k.head && nb <= k.head[p].size
  {
    var s, r := k.head[p].size, p + nb;
    k.(head := k.head[p := Head(nb, k.head[p].pinuse, true)][r := Head(s - nb, true, true)], chunks := k.chunks + {r})
  }

  /** Chunk p in use, between chunks in use, becomes free. */
  function Free(k: Core, p: int): Core
    requires p in k.head
  {
    var s := k.head[p].size;
    k.(head := SetPinuse(k.head[p := Head(s, true, false)], p + s, false),
       foot := k.foot[p + s := s], loose := k.loose + {p})
  }

  /** Chunk p in use is absorbed by the loose chunk before it, which becomes in use. */
  function MergeBack(k: Core, p: int): Core
    requires p in k.head && p in k.foot
  {
    var q := p - k.foot[p];
    k.(head := k.head[q := Head(k.foot[p] + k.head[p].size, true, true)], chunks := k.chunks - {p},
        loose := k.loose - {q})
  }

  /** Chunk p in use absorbs the loose chunk after it. */
  function GrowNext(k: Core, p: int): Core
    requires p in k.head && Next(k.head, p) in k.head
  {
    var n := Next(k.head, p);
    var s := k.head[p].size + k.head[n].size;
    k.(head := SetPinuse(k.head[p := Head(s, k.head[p].pinuse, true)], p + s, true),
       chunks := k.chunks - {n}, loose := k.loose - {n})
  }

  /** Chunk p in use, bordering top, becomes part of top. */
  function FreeToTop(k: Core, p: int): Core
    requires p in k.head
  {
    var s := k.topsize + k.head[p].size;
    k.(head := k.head[p := Head(s, true, false)], chunks := k.chunks - {p}, top := p, topsize := s)
  }

  /** A chunk of nb bytes is cut from top. */
  function TopSplit(k: Core, nb: nat): Core
    requires nb <= k.topsize
  {
    var p := k.top;
    k.(head := k.head[p + nb := Head(k.topsize - nb, true, false)][p := Head(nb, true, true)],
       chunks := k.chunks + {p}, top := p + nb, topsize := k.topsize - nb)
  }

  /** Chunk p in use, bordering top, grows to nb bytes. */
  function GrowTop(k: Core, p: int, nb: nat): Core
    requires p in k.head && nb <= k.head[p].size + k.topsize
  {
    var t := k.head[p].size + k.topsize - nb;
    k.(head := k.head[p := Head(nb, k.head[p].pinuse, true)][p + nb := Head(t, true, false)], top := p + nb,
        topsize := t)
  }

  predicate InUse(k: Core, p: int)
  {
    p in k.chunks && p in k.head && k.head[p].cinuse
  }
}
