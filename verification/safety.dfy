/** What the heap invariant means to callers. */
module HeapSafety {
  import opened SizeClass
  import opened BinMap
  import opened Ring
  import opened Trie
  import opened TrieOps
  import opened Bins
  import opened BinOps
  import opened TreeSearch
  import opened Core
  import opened CoreOps
  import opened HeapOps
  import opened Alloc

  predicate Holds(k: Core, p: int, a: int)
  {
    p in k.chunks && p in k.head && p <= a < Next(k.head, p)
  }

  /** Walking from chunk to chunk reaches the one that holds a. */
  lemma {:induction false} WalkReaches(c: Layout, k: Core, p: int, a: int)
    requires Tiled(c, k) && p in k.chunks && p <= a < k.top
    ensures exists q :: Holds(k, q, a)
    decreases a - p
  {
    assert ChunkOk(c, k, p);
    if a < Next(k.head, p) {
      assert Holds(k, p, a);
    } else {
      WalkReaches(c, k, Next(k.head, p), a);
    }
  }

  /** The chunks tile the segment below top: every address lies in exactly one of them. */
  lemma TilesExactly(c: Layout, k: Core, a: int)
    requires CoreOk(c, k) && c.base <= a < k.top
    ensures exists p :: Holds(k, p, a)
    ensures forall p, q :: Holds(k, p, a) && Holds(k, q, a) ==> p == q
  {
    WalkReaches(c, k, c.base, a);
    forall p, q | Holds(k, p, a) && Holds(k, q, a) ensures p == q {
      assert Apart2(k, p, q) && Apart2(k, q, p);
    }
  }

  /** No two neighbouring chunks are free, and none borders top. */
  lemma NoFreeNeighbours(c: Layout, k: Core, p: int)
    requires CoreOk(c, k) && IsFree(k, p)
    ensures InUse(k, Next(k.head, p)) && Next(k.head, p) != k.top
    ensures forall q :: IsFree(k, q) ==> Next(k.head, q) != p
  {
    FreeNext(c, k, p);
    assert EndsOk(c, k);
    forall q | IsFree(k, q) ensures Next(k.head, q) != p { FreeNext(c, k, q); }
  }

  /** The bytes that the holder of live chunk p may use: up to and including the next chunk's prev_foot. */
  predicate InPayload(k: Core, p: int, a: int)
  {
    p in Live(k) && p + 8 <= a < p + Live(k)[p] + 4
  }

  /** The bytes that the heap relies on in chunk q: its head word and, if it is free, its link fields and the foot
      after it. */
  predicate InMetadata(k: Core, q: int, a: int)
  {
    && q in k.chunks && q in k.head
    && (q + 4 <= a < q + 8 || (!k.head[q].cinuse && q + 8 <= a < Next(k.head, q) + 4))
  }

  /** Live chunks never overlap, stay inside the segment, and their use never touches what the heap relies on. */
  lemma LiveApart(c: Layout, k: Core, p: int, q: int, a: int)
    requires CoreOk(c, k) && InPayload(k, p, a)
    ensures p % 8 == 0 && c.base + 8 <= a < k.top + 4
    ensures InPayload(k, q, a) ==> q == p
    ensures !InMetadata(k, q, a)
  {
    LiveChunks(k);
    assert ChunkOk(c, k, p);
    if q in k.chunks { assert Apart2(k, p, q) && Apart2(k, q, p) && ChunkOk(c, k, q); }
  }

  /** What the caller of a successful allocation gets. */
  lemma Served(c: Layout, k0: Core, k: Core, nb: nat, p: int)
    requires CoreOk(c, k0) && CoreOk(c, k) && Allocated(k0, k, nb, p) && nb >= MIN_CHUNK_SIZE
    ensures p in Live(k) && p !in Live(k0) && p % 8 == 0 && c.base <= p && p + Live(k)[p] <= k.top
    ensures nb <= Live(k)[p] < nb + MIN_CHUNK_SIZE
    ensures Live(k) - {p} == Live(k0)
    ensures forall q, a :: q in Live(k0) && p <= a < p + Live(k)[p] ==> !Holds(k0, q, a)
  {
    LiveChunks(k);
    LiveChunks(k0);
    assert ChunkOk(c, k, p);
    ServedSize(k0, k, nb, p);
    forall q, a | q in Live(k0) && p <= a < p + Live(k)[p] ensures !Holds(k0, q, a) { OldLiveAside(c, k0, k, p, q, a); }
  }

  lemma ServedSize(k0: Core, k: Core, nb: nat, p: int)
    requires Allocated(k0, k, nb, p)
    ensures nb <= k.head[p].size < nb + MIN_CHUNK_SIZE
  {
    hide SmallPolicy, LargePolicy, Live;
  }

  lemma OldLiveAside(c: Layout, k0: Core, k: Core, p: int, q: int, a: int)
    requires CoreOk(c, k) && p in Live(k) && q in Live(k0) && q != p && p <= a < p + Live(k)[p]
    requires q in Live(k) && Live(k)[q] == Live(k0)[q]
    ensures !Holds(k0, q, a)
  {
    LiveChunks(k);
    LiveChunks(k0);
    assert Apart2(k, p, q) && Apart2(k, q, p) && ChunkOk(c, k, p) && ChunkOk(c, k, q);
  }

  // ---- the search in a tree bin ----

  lemma BinLoAligned(i: nat)
    requires i < NTREEBINS
    ensures BinLo(i) % 8 == 0 && BinBits(i) >= 3
  {
    BinRange(i);
    if i < NTREEBINS - 1 {
      Pow2Add(3, BinBits(i) - 3);
      assert Pow2(3) == 8;
      MultipleOf8(2 + i % 2, Pow2(BinBits(i) - 3));
    }
  }

  lemma MultipleOf8(a: nat, b: nat)
    ensures a * (8 * b) % 8 == 0
  {
    assert a * (8 * b) == 8 * (a * b);
  }

  /** A search of tree bin i visits at most two nodes fewer than the bin has distinguishing bits. */
  lemma BinHeight(c: Layout, head: Heads, st: BinState, i: nat)
    requires BinsOk(c, head, st) && i < NTREEBINS
    ensures Height(st.trees[i]) <= BinBits(i) - 2
  {
    hide BinsOk, TrieOk, TreeIndex, Height;
    BinTrie(c, head, st, i);
    BinLoAligned(i);
    forall z | z in Sizes(st.trees[i]) ensures z % 8 == 0 {
      SizeHasChunk(head, st.trees[i], BinLo(i), BinBits(i), z);
      var x :| x in Addrs(st.trees[i]) && x in head && head[x].size == z;
      ChunkInBin(c, head, st, i, x);
      BinnedAligned(c, head, st, x);
    }
    HeightBound(head, st.trees[i], BinLo(i), BinBits(i));
  }

  lemma BinnedAligned(c: Layout, head: Heads, st: BinState, x: int)
    requires BinsOk(c, head, st) && x in st.binned
    ensures x in head && head[x].size % 8 == 0
  {
    hide SmallBinOk, TreeBinOk;
    assert InItsBin(c, head, st.small, st.trees, x);
  }

  // ---- head words ----

  /** The head word: the chunk size, with PINUSE_BIT and CINUSE_BIT in its low bits. */
  function Word(h: Head): nat
  {
    h.size + (if h.pinuse then 1 else 0) + (if h.cinuse then 2 else 0)
  }

  /** pinuse, cinuse and chunksize read back what was written. */
  lemma WordReadsBack(h: Head)
    requires h.size % 8 == 0 && h.size < SIZE_T_RANGE
    ensures Word(h) < SIZE_T_RANGE && Pow2(32) == SIZE_T_RANGE
    ensures And(Word(h), 1) != 0 <==> h.pinuse
    ensures And(Word(h), 2) != 0 <==> h.cinuse
    ensures And(Word(h), Not(7, 32)) == h.size
  {
    var w := Word(h);
    Pow2Values();
    LowBitsOfWord(w);
    assert w / 8 == h.size / 8;
    MaskLow3(w, 0x1FFF_FFFF);
    AndAll(w / 8, 29);
    Pow2At29();
  }

  lemma LowBitsOfWord(w: nat)
    ensures And(w, 1) == w % 2 && And(w, 2) == 2 * (w / 2 % 2)
  {
    OneBit(w);
    OneBit(w / 2);
    AndDouble(w, 1);
  }

  lemma Pow2At29()
    ensures Pow2(29) == 0x2000_0000
  {
    Pow2Values();
    Pow2Add(29, 3);
    assert Pow2(3) == 8;
  }

  lemma MaskLow3(w: nat, m: nat)
    requires m > 0
    ensures And(w, 8 * m) == 8 * And(w / 8, m)
  {
    AndDouble(w, 4 * m);
    AndDouble(w / 2, 2 * m);
    AndDouble(w / 4, m);
    assert w / 2 / 2 == w / 4 && w / 4 / 2 == w / 8;
  }

  lemma AndDouble(w: nat, m: nat)
    ensures And(w, 2 * m) == 2 * And(w / 2, m)
  {
    assert 2 * m / 2 == m && 2 * m % 2 == 0;
  }

  lemma {:induction false} AndAll(x: nat, n: nat)
    requires x < Pow2(n)
    ensures And(x, Pow2(n) - 1) == x
  {
    if n > 0 {
      assert (Pow2(n) - 1) / 2 == Pow2(n - 1) - 1;
      AndAll(x / 2, n - 1);
    }
  }
}
