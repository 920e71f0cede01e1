/** What an allocation does to the heap: the policy that picks a chunk, and where the remainder goes. */
module Alloc {
  import opened SizeClass
  import opened BinMap
  import opened Ring
  import opened Trie
  import opened Bins
  import opened BinOps
  import opened TreeSearch
  import opened Core
  import opened CoreOps
  import opened HeapOps

  /** The chunk size for a request; too large a request asks for a size that no chunk has. */
  function PaddedRequest(bytes: nat): (nb: nat)
    requires bytes < SIZE_T_RANGE
    ensures nb < SIZE_T_RANGE && nb >= MIN_CHUNK_SIZE
    ensures bytes < MAX_REQUEST ==> nb % 8 == 0 && bytes + 4 <= nb && (nb == MIN_CHUNK_SIZE || nb < bytes + 12)
    ensures IsSmall(nb) <==> bytes <= MAX_SMALL_REQUEST
  {
    if bytes >= MAX_REQUEST then SIZE_T_RANGE - 1 else Request2Size(bytes)
  }

  predicate Fits(k: Core, x: int, nb: nat)
  {
    IsFree(k, x) && k.head[x].size >= nb
  }

  ghost predicate NothingFits(k: Core, nb: nat)
  {
    forall x :: !Fits(k, x, nb)
  }

  /** A chunk of a small bin whose excess is too small to be a chunk. */
  predicate Remainderless(k: Core, x: int, nb: nat)
  {
    x in k.binned && x in k.head && IsSmall(k.head[x].size) && nb <= k.head[x].size < nb + MIN_CHUNK_SIZE
  }

  /** Which free chunk serves a request for nb bytes. */
  ghost predicate Policy(k: Core, nb: nat, p: int)
  {
    if p == k.top then NothingFits(k, nb) && nb < k.topsize
    else Fits(k, p, nb) && if IsSmall(nb) then SmallPolicy(k, nb, p) else LargePolicy(k, nb, p)
  }

  /** A small request takes a remainderless small chunk, else the designated victim, else the smallest binned chunk. */
  ghost predicate SmallPolicy(k: Core, nb: nat, p: int)
    requires Fits(k, p, nb)
  {
    if exists x :: Remainderless(k, x, nb) then
      Remainderless(k, p, nb) && forall x :: Remainderless(k, x, nb) ==> k.head[p].size <= k.head[x].size
    else if nb <= k.dvsize then p == k.dv
    else p in k.binned && forall x :: x in k.binned && Fits(k, x, nb) ==> k.head[p].size <= k.head[x].size
  }

  /** A large request takes the best fit, and the designated victim among equals. */
  ghost predicate LargePolicy(k: Core, nb: nat, p: int)
    requires Fits(k, p, nb)
  {
    && (forall x :: Fits(k, x, nb) ==> k.head[p].size <= k.head[x].size)
    && (k.dvsize == k.head[p].size ==> p == k.dv)
  }

  /** The heap after chunk p of heap k0 serves nb bytes, whole or cut in two. */
  predicate Carved(k0: Core, k: Core, nb: nat, p: int)
  {
    && p in k0.head && p in k.head
    && if p == k0.top then
         k.head[p].size == nb && k.top == p + nb && k.topsize == k0.topsize - nb && k.chunks == k0.chunks + {p}
         && k.dv == k0.dv && k.dvsize == k0.dvsize && k.binned == k0.binned
       else
         k.top == k0.top && k.topsize == k0.topsize
         && if k0.head[p].size - nb < MIN_CHUNK_SIZE then CarvedWhole(k0, k, p) else CarvedSplit(k0, k, nb, p)
  }

  predicate CarvedWhole(k0: Core, k: Core, p: int)
    requires p in k0.head && p in k.head
  {
    && k.head[p].size == k0.head[p].size && k.chunks == k0.chunks && k.binned == k0.binned - {p}
    && if p == k0.dv then k.dv == 0 && k.dvsize == 0 else k.dv == k0.dv && k.dvsize == k0.dvsize
  }

  /** The remainder becomes the designated victim, except after a large request served from a bin. */
  predicate CarvedSplit(k0: Core, k: Core, nb: nat, p: int)
    requires p in k0.head && p in k.head
  {
    var r := p + nb;
    && k.head[p].size == nb && k.chunks == k0.chunks + {r} && r in k.head && k.head[r].size == k0.head[p].size - nb
    && if p == k0.dv || IsSmall(nb) then
         && k.dv == r && k.dvsize == k.head[r].size
         && k.binned == k0.binned - {p} + if p == k0.dv || k0.dvsize == 0 then {} else {k0.dv}
       else k.dv == k0.dv && k.dvsize == k0.dvsize && k.binned == k0.binned - {p} + {r}
  }

  /** The whole effect of an allocation that succeeds. */
  ghost predicate Allocated(k0: Core, k: Core, nb: nat, p: int)
  {
    Policy(k0, nb, p) && Carved(k0, k, nb, p) && p !in Live(k0) && Live(k) == Live(k0)[p := k.head[p].size]
  }

  // ---- what becomes of bytes that are given back ----

  /** Where the free space begins that chunk p becomes part of: at the free chunk that ends where p begins, if any. */
  ghost predicate StartsAt(k0: Core, p: int, q: int)
  {
    if q == p then forall x :: IsFree(k0, x) ==> Next(k0.head, x) != p
    else IsFree(k0, q) && Next(k0.head, q) == p
  }

  /** The heap after chunk p has become free together with the free chunks around it, as one chunk or part of top from q
      on. That chunk is the designated victim if one of those joined was, and binned otherwise. */
  predicate FreedFrom(k0: Core, k: Core, p: int, q: int)
  {
    && p in k0.head
    && var n := Next(k0.head, p);
    if n == k0.top then
      && k.top == q && k.topsize == k0.topsize + (n - q) && k.chunks == k0.chunks - {p} - {q}
      && k.binned == k0.binned - {q}
      && if q == k0.dv then k.dv == 0 && k.dvsize == 0 else k.dv == k0.dv && k.dvsize == k0.dvsize
    else
      && k.top == k0.top && k.topsize == k0.topsize
      && k.chunks == k0.chunks - {p} - (if IsFree(k0, n) then {n} else {}) + {q}
      && IsFree(k, q) && q + k.head[q].size == (if IsFree(k0, n) then Next(k0.head, n) else n)
      && if q == k0.dv || n == k0.dv
         then k.dv == q && k.dvsize == k.head[q].size && k.binned == k0.binned - {q} - {n}
         else k.dv == k0.dv && k.dvsize == k0.dvsize && k.binned == k0.binned - {n} + {q}
  }

  ghost predicate Freed(k0: Core, k: Core, p: int)
  {
    exists q :: StartsAt(k0, p, q) && FreedFrom(k0, k, p, q)
  }

  /** The heap after chunk p in use has been given nb bytes where it is. Its end moves to where nb bytes end, and the
      free chunk, or top, behind it begins there; but too little for a chunk stays with p, and then a free chunk behind
      is gone. What begins there is the designated victim if what was behind p was, and binned otherwise. */
  predicate Fitted(k0: Core, k: Core, p: int, nb: nat)
  {
    && p in k0.head && p in k.head
    && var n, s, r := Next(k0.head, p), k0.head[p].size, p + nb;
    if nb <= s < nb + MIN_CHUNK_SIZE then k == k0
    else if n == k0.top then
      && k.head[p].size == nb && k.top == r && k.topsize == k0.topsize + (n - r) && k.chunks == k0.chunks
      && k.dv == k0.dv && k.dvsize == k0.dvsize && k.binned == k0.binned
    else
      && k.top == k0.top && k.topsize == k0.topsize
      && var e := if IsFree(k0, n) then Next(k0.head, n) else n;
      if e < r + MIN_CHUNK_SIZE then
        && p + k.head[p].size == e && k.chunks == k0.chunks - {n} && k.binned == k0.binned - {n}
        && if n == k0.dv then k.dv == 0 && k.dvsize == 0 else k.dv == k0.dv && k.dvsize == k0.dvsize
      else
        && k.head[p].size == nb && IsFree(k, r) && r + k.head[r].size == e
        && k.chunks == k0.chunks - (if IsFree(k0, n) then {n} else {}) + {r}
        && if n == k0.dv then k.dv == r && k.dvsize == e - r && k.binned == k0.binned - {n}
           else k.dv == k0.dv && k.dvsize == k0.dvsize && k.binned == k0.binned - {n} + {r}
  }

  /** A clear pinuse bit is the only sign of a free chunk before p. */
  lemma StartOf(c: Layout, k: Core, p: int)
    requires CoreOk(c, k) && InUse(k, p)
    ensures k.head[p].pinuse ==> StartsAt(k, p, p)
    ensures !k.head[p].pinuse ==> p in k.foot && k.foot[p] != 0 && StartsAt(k, p, p - k.foot[p])
  {
    if k.head[p].pinuse {
      forall x | IsFree(k, x) ensures Next(k.head, x) != p { assert ChunkOk(c, k, x); }
    } else {
      PrevIsFree(c, k, p);
      assert ChunkOk(c, k, p - k.foot[p]);
    }
  }

  /** It does not matter whether the chunk before was binned or in hand. */
  lemma FreedUnbinned(k0: Core, a: Core, k: Core, p: int, q: int)
    requires a == k0.(binned := a.binned, loose := a.loose)
    requires a.binned == k0.binned - {q} && FreedFrom(a, k, p, q)
    ensures FreedFrom(k0, k, p, q)
  {
  }

  /** The rest of a chunk that is cut in two in use, and then freed, begins where it is cut. */
  lemma CutStart(c: Layout, k: Core, p: int, nb: nat, q: int)
    requires CoreOk(c, k) && CanSplit(k, p, nb) && StartsAt(SplitInUse(k, p, nb), p + nb, q)
    ensures q == p + nb && q !in k.chunks && q !in k.binned && q != k.dv
  {
    hide BackOk;
    SplitPoint(c, k, p, nb);
    assert p + nb in k.binned ==> IsFree(k, p + nb);
    if q != p + nb {
      assert IsFree(k, q) && Next(k.head, q) == p + nb;
      NextUnique(c, k, p, q);
      NextUnique(c, k, q, p);
      assert false;
    }
    assert ChunkOk(c, k, p);
  }

  lemma FittedByCut(c: Layout, k0: Core, k: Core, p: int, nb: nat)
    requires CoreOk(c, k0) && CanSplit(k0, p, nb) && FreedFrom(SplitInUse(k0, p, nb), k, p + nb, p + nb)
    requires p + nb !in k0.chunks && p + nb !in k0.binned && p + nb != k0.dv
    requires p in k.head && k.head[p].size == nb
    ensures Fitted(k0, k, p, nb)
  {
    hide BackOk, Accounted;
    assert ChunkOk(c, k0, p);
    var n, k1 := Next(k0.head, p), SplitInUse(k0, p, nb);
    assert k1.chunks - {p + nb} == k0.chunks;
    if n != k0.top && IsFree(k0, n) { assert ChunkOk(c, k0, n); }
  }

  /** A free chunk n behind p was absorbed before the cut. */
  lemma FittedByGrowth(c: Layout, k0: Core, a: Core, k: Core, p: int, nb: nat)
    requires CoreOk(c, a) && CanGrow(a, p) && k0 == a.(binned := k0.binned, loose := {})
    requires var n := Next(a.head, p);
      a.binned == k0.binned - {n} && n != a.dv && a.head[p].size < nb
    requires CanSplit(GrowNext(a, p), p, nb) && FreedFrom(SplitInUse(GrowNext(a, p), p, nb), k, p + nb, p + nb)
    requires p + nb !in GrowNext(a, p).chunks && p + nb !in a.binned && p + nb != a.dv
    requires p in k.head && k.head[p].size == nb
    ensures Fitted(k0, k, p, nb)
  {
    hide Accounted;
    var n, r := Next(k0.head, p), p + nb;
    GrowFacts(c, a, p);
    FreeNext(c, a, n);
    var e := Next(k0.head, n);
    var k1 := GrowNext(a, p);
    var k2 := SplitInUse(k1, p, nb);
    assert ChunkOk(c, a, e);
    assert Next(k2.head, r) == e && !IsFree(k2, e);
    assert e != a.dv by { EndNotDv(c, a, e); }
    assert e !in a.binned by { EndNotDv(c, a, e); }
    assert k2.chunks - {r} == k0.chunks - {n};
  }

  lemma EndNotDv(c: Layout, k: Core, e: int)
    requires CoreOk(c, k) && InUse(k, e)
    ensures e != k.dv && e !in k.binned
  {
    assert ChunkOk(c, k, e);
  }

  // ---- taking chunk p ----

  lemma TakeHeap(c: Layout, st: BinState, k: Core, p: int)
    requires HeapOk(c, st, k) && p in k.loose
    ensures p in k.head && HeapOk(c, st, Take(k, p)) && Live(Take(k, p)) == Live(k)[p := k.head[p].size]
      && p !in Live(k)
    ensures p + k.head[p].size != p
  {
    hide CoreOk, BinsOk, Live;
    TakeOk(c, k, p);
    LooseInHead(c, k);
    FreeKinds(c, k, p);
    HeapStep(c, st, k, Take(k, p));
  }

  lemma TakeSplitHeap(c: Layout, st: BinState, k: Core, p: int, nb: nat)
    requires HeapOk(c, st, k) && CanTakeSplit(k, p, nb)
    ensures HeapOk(c, st, TakeSplit(k, p, nb)) && Live(TakeSplit(k, p, nb)) == Live(k)[p := nb] && p !in Live(k)
  {
    hide CoreOk, BinsOk, Live;
    TakeSplitOk(c, k, p, nb);
    HeapStep(c, st, k, TakeSplit(k, p, nb));
  }

  lemma TopSplitHeap(c: Layout, st: BinState, k: Core, nb: nat)
    requires HeapOk(c, st, k) && CanCutTop(k, nb)
    ensures HeapOk(c, st, TopSplit(k, nb)) && Live(TopSplit(k, nb)) == Live(k)[k.top := nb] && k.top !in Live(k)
      && k.top in k.head
  {
    hide CoreOk, BinsOk, Live;
    TopOk(c, k, nb);
    HeapStep(c, st, k, TopSplit(k, nb));
    TopInHead(c, k);
  }

  lemma TopInHead(c: Layout, k: Core)
    requires CoreOk(c, k)
    ensures k.top in k.head && !IsFree(k, k.top)
  {
  }

  // ---- the policy ----

  /** Free chunks are the binned ones and the designated victim. */
  lemma FreeAre(c: Layout, k: Core, x: int)
    requires CoreOk(c, k) && k.loose == {}
    ensures IsFree(k, x) <==> x in k.binned || (k.dvsize != 0 && x == k.dv)
    ensures x in k.binned ==> x != k.dv
    ensures k.dvsize != 0 && x == k.dv ==> x in k.head && k.head[x].size == k.dvsize
    ensures IsFree(k, x) ==> x != k.top && k.head[x].size % 8 == 0 && k.head[x].size >= MIN_CHUNK_SIZE
  {
    hide Tiled;
    if IsFree(k, x) { FreeKinds(c, k, x); }
  }

  /** Every small binned chunk marks its bin. */
  lemma SmallMarked(c: Layout, head: Heads, st: BinState, x: int)
    requires BinsOk(c, head, st) && x in st.binned && x in head && IsSmall(head[x].size)
    ensures Bit(st.smallmap, head[x].size / 8)
  {
    hide TreeBinOk, Bit;
    SmallBinnedWhere(c, head, st, x);
    assert SmallBinOk(c, st.m.fd, st.m.bk, st.smallmap, head[x].size / 8, st.small[head[x].size / 8]);
  }

  /** The first chunk of a marked small bin. */
  lemma SmallFirst(c: Layout, head: Heads, st: BinState, i: nat)
    requires BinsOk(c, head, st) && i < NSMALLBINS && Bit(st.smallmap, i)
    ensures |st.small| == NSMALLBINS && st.small[i] != [] && c.SmallBinAt(i) in st.m.fd
    ensures var p := st.m.fd[c.SmallBinAt(i)];
      p == st.small[i][0] && p in st.binned && p in head && head[p].size == 8 * i
  {
    hide TreeBinOk, Bit;
    var s := st.small[i];
    assert SmallBinOk(c, st.m.fd, st.m.bk, st.smallmap, i, s);
    assert s[0] in s;
    RingFirst(st.m.fd, st.m.bk, c.SmallBinAt(i), s);
  }

  lemma RingFirst(fd: Field, bk: Field, b: int, s: seq<int>)
    requires s != [] && RingOk(fd, bk, [b] + s)
    ensures b in fd && fd[b] == s[0]
  {
    assert ([b] + s)[1..] == s;
  }

  /** The exact bin, or the next one, is marked. */
  lemma ExactPolicy(c: Layout, st: BinState, k: Core, nb: nat, i: nat, p: int)
    requires HeapOk(c, st, k) && k.loose == {} && IsSmall(nb) && nb % 8 == 0 && nb / 8 <= i <= nb / 8 + 1
      && i < NSMALLBINS
    requires p in k.binned && p in k.head && k.head[p].size == 8 * i
    requires i > nb / 8 ==> !Bit(st.smallmap, nb / 8)
    ensures Policy(k, nb, p)
  {
    hide CoreOk, BinsOk, Bit;
    FreeAre(c, k, p);
    assert Remainderless(k, p, nb);
    forall x | Remainderless(k, x, nb) ensures k.head[p].size <= k.head[x].size { SmallMarked(c, k.head, st, x); }
  }

  /** No bin can serve the request without a remainder. */
  lemma NoRemainderless(c: Layout, st: BinState, k: Core, nb: nat)
    requires HeapOk(c, st, k) && IsSmall(nb) && nb % 8 == 0 && k.loose == {}
    requires !Bit(st.smallmap, nb / 8) && !Bit(st.smallmap, nb / 8 + 1)
    ensures forall x :: !Remainderless(k, x, nb)
  {
    hide CoreOk, BinsOk, Bit;
    forall x ensures !Remainderless(k, x, nb) {
      if Remainderless(k, x, nb) {
        SmallMarked(c, k.head, st, x);
        FreeAre(c, k, x);
      }
    }
  }

  lemma NextSmallPolicy(c: Layout, st: BinState, k: Core, nb: nat, i: nat, p: int)
    requires HeapOk(c, st, k) && k.loose == {} && IsSmall(nb) && nb % 8 == 0 && nb / 8 + 1 < i < NSMALLBINS
      && k.dvsize < nb
    requires forall x :: !Remainderless(k, x, nb)
    requires p in k.binned && p in k.head && k.head[p].size == 8 * i && forall j :: nb / 8 <= j < i ==>
      !Bit(st.smallmap, j)
    ensures Policy(k, nb, p) && k.head[p].size >= nb + MIN_CHUNK_SIZE
  {
    hide CoreOk, BinsOk, Bit;
    FreeAre(c, k, p);
    forall x | x in k.binned && Fits(k, x, nb) ensures k.head[p].size <= k.head[x].size {
      if IsSmall(k.head[x].size) { SmallMarked(c, k.head, st, x); }
    }
  }

  lemma SmallestPolicy(c: Layout, st: BinState, k: Core, nb: nat, p: int)
    requires HeapOk(c, st, k) && k.loose == {} && IsSmall(nb) && nb % 8 == 0 && k.dvsize < nb
    requires forall x :: !Remainderless(k, x, nb)
    requires forall j :: nb / 8 <= j < NSMALLBINS ==> !Bit(st.smallmap, j)
    requires p in k.binned && p in k.head && !IsSmall(k.head[p].size)
    requires forall x :: x in k.binned && x in k.head && !IsSmall(k.head[x].size) ==> k.head[x].size >= k.head[p].size
    ensures Policy(k, nb, p)
  {
    hide CoreOk, BinsOk, Bit;
    FreeAre(c, k, p);
    forall x | x in k.binned && Fits(k, x, nb) ensures k.head[p].size <= k.head[x].size {
      if IsSmall(k.head[x].size) { SmallMarked(c, k.head, st, x); }
    }
  }

  /** The best fit among the bins beats the designated victim. */
  lemma BestFitPolicy(c: Layout, k: Core, nb: nat, p: int, rsize: nat)
    requires CoreOk(c, k) && k.loose == {} && !IsSmall(nb) && p != 0 && BestFit(k.head, k.binned, nb, p, rsize)
    requires k.dvsize >= nb ==> rsize < k.dvsize - nb
    ensures Policy(k, nb, p)
  {
    hide CoreOk;
    FreeAre(c, k, p);
    forall x | Fits(k, x, nb) ensures k.head[p].size <= k.head[x].size { FreeAre(c, k, x); }
  }

  lemma DvPolicySmall(c: Layout, k: Core, nb: nat)
    requires CoreOk(c, k) && k.loose == {} && IsSmall(nb) && 0 < nb <= k.dvsize && forall x :: !Remainderless(k, x, nb)
    ensures Policy(k, nb, k.dv)
  {
    hide CoreOk;
    FreeAre(c, k, k.dv);
  }

  lemma DvPolicyLarge(c: Layout, k: Core, nb: nat)
    requires CoreOk(c, k) && k.loose == {} && !IsSmall(nb) && 0 < nb <= k.dvsize
    requires forall x :: x in k.binned && x in k.head && k.head[x].size >= nb ==> k.head[x].size >= k.dvsize
    ensures Policy(k, nb, k.dv)
  {
    hide CoreOk;
    FreeAre(c, k, k.dv);
    forall x | Fits(k, x, nb) ensures k.dvsize <= k.head[x].size { FreeAre(c, k, x); }
  }

  lemma NothingFitsBins(c: Layout, k: Core, nb: nat)
    requires CoreOk(c, k) && k.loose == {} && k.dvsize < nb
    requires forall x :: x in k.binned && x in k.head ==> k.head[x].size < nb
    ensures NothingFits(k, nb)
  {
    hide CoreOk;
    forall x ensures !Fits(k, x, nb) { FreeAre(c, k, x); }
  }

  lemma NoSmallNoTree(c: Layout, st: BinState, k: Core, nb: nat)
    requires HeapOk(c, st, k) && st.treemap == 0
    requires IsSmall(nb) ==> forall j :: nb / 8 <= j < NSMALLBINS ==> !Bit(st.smallmap, j)
    ensures forall x :: x in k.binned && x in k.head ==> k.head[x].size < nb
  {
    hide CoreOk, BinsOk, Bit, TreeIndex;
    forall x | x in k.binned && x in k.head ensures k.head[x].size < nb {
      if IsSmall(k.head[x].size) {
        SmallMarked(c, k.head, st, x);
      } else {
        LargeBinned(c, k.head, st, x);
        ZeroHasNoBits();
      }
    }
  }
}
