/** The virtual-range allocator: worst fit over a free list sorted by size, with recursive coalescing. */
module Vremap {
  import opened PageSize
  import opened Sequences
  import opened FreeLists
  import opened Intervals

  const QWORD_MAX: int := 0xffff_ffff_ffff_ffff
  const WORD: int := 0x1_0000_0000

  class VremapData {
    const list: FreeList
    const address: nat
    const pagesTotal: nat
    var pagesBusy: nat

    /** How many more chunk descriptors the chunk cache can supply. */
    var supply: nat

    // what the list represents, and the ranges handed out
    ghost var free: seq<Interval>
    ghost var live: map<int, nat>

    /** The chunks of the list are the free intervals. */
    ghost predicate Listed()
      reads `free, list, list.s
    {
      list.Valid() && Matched(list.s, free)
    }

    /** Every chunk has the index that orders it by descending size. */
    ghost predicate Indexed()
      reads list, list.s
    {
      forall c :: c in list.s ==> IndexOk(c)
    }

    ghost predicate Inside(v: Interval)
    {
      address <= v.a && v.End() <= End()
    }

    ghost function End(): int { address + PAGE_SIZE * pagesTotal }

    ghost predicate FreeOk()
      reads `free, list, list.s
    {
      Listed() && Canonical(free) && Within(free, address, End())
    }

    /** Live ranges are disjoint, and what is not free is live. */
    ghost predicate LiveOk(l: map<int, nat>, f: seq<Interval>)
    {
      && (forall a :: a in l ==> l[a] > 0 && Inside(Interval(a, l[a])))
      && (forall a, b :: a in l && b in l && a != b ==> Disjoint(Interval(a, l[a]), Interval(b, l[b])))
      && (forall x :: address <= x < address + PAGE_SIZE * pagesTotal ==> (Free(f, x) <==> !InLive(l, x)))
    }

    /** Only the one chunk of a new allocator has no index. */
    ghost predicate Valid()
      reads this, list, list.s
    {
      && FreeOk() && LiveOk(live, free) && pagesBusy + Pages(free) == pagesTotal && End() <= WORD
      && (Indexed() || (|list.s| == 1 && live == map[]))
    }

    /** vremap_data_new, with the chunk that its cache returns: it becomes the head of the list without being inserted,
        so its links must be null. */
    constructor (base: nat, pages: nat, chunk: FreeChunk, supply: nat)
      requires pages > 0 && base + PAGE_SIZE * pages <= WORD
      modifies chunk`address, chunk`pages
      ensures Valid() <==> old(chunk.next) == null && old(chunk.prev) == null
      ensures address == base && pagesTotal == pages && pagesBusy == 0 && live == map[] && this.supply == supply
      ensures fresh(list) && list.s == [chunk] && list.head == chunk && free == [Interval(base, pages)]
    {
      address, pagesTotal, pagesBusy, this.supply := base, pages, 0, supply;
      list := new FreeList.Adopt(chunk);
      free, live := [Interval(base, pages)], map[];
      new;
      chunk.address, chunk.pages := base, pages;
      assert Pages(free) == pages by { assert free[1..] == []; }
      forall x ensures Free(free, x) <==> Interval(base, pages).Has(x) {
        if Interval(base, pages).Has(x) { assert free[0].Has(x); }
      }
    }

    lemma ChunksDistinct()
      requires Listed()
      ensures forall i, j :: 0 <= i < |list.s| && 0 <= j < |list.s| && list.s[i] == list.s[j] ==> i == j
    {
    }

    /** vm_region_vremap_find: only the head of the list is looked at. */
    method Find(pages: nat) returns (chunk: FreeChunk?)
      requires Listed()
      ensures chunk == if free == [] || free[0].n < pages then null else list.s[0]
    {
      if list.head == null || list.head.pages < pages { return null; }
      chunk := list.head;
    }

    /** Chunk k, whose fields may have changed, leaves the list. */
    method TakeOut(found: FreeChunk, ghost k: nat)
      requires list.Valid() && |list.s| == |free| && k < |free| && list.s[k] == found
      requires forall i :: 0 <= i < |list.s| && i != k ==> ChunkIs(list.s[i], free[i])
      modifies list, list.s`next, list.s`prev, `free
      ensures Listed() && free == Without(old(free), k) && list.s == old(list.s)[..k] + old(list.s)[k + 1..]
        && found !in list.s
      ensures forall c :: c in list.s ==> c in old(list.s)
      ensures (forall i :: 0 <= i < |old(list.s)| && i != k ==> old(IndexOk(list.s[i]))) ==> Indexed()
    {
      hide ChunkIs, NoDup, Without, Matched, IndexOk;
      ghost var s0, f0 := list.s, free;
      NoDupWithout(s0, k) by { ListNoDup(); }
      list.Remove(found, k);
      MatchedWithout(s0, f0, k);
      free := Without(f0, k);
    }

    lemma ListNoDup()
      requires list.Valid()
      ensures NoDup(list.s)
    {
    }

    /** A chunk enters the list, at the place for its size if all others have their index. */
    method PutIn(chunk: FreeChunk) returns (ghost k: nat)
      requires Listed() && chunk !in list.s
      modifies list, list.s`next, list.s`prev, chunk`next, chunk`prev, chunk`index, `free
      ensures Listed() && k <= |old(free)| && free == With(old(free), k, Interval(chunk.address, chunk.pages))
      ensures old(Indexed()) ==> Indexed() && free == Inserted(old(free), Interval(chunk.address, chunk.pages))
      ensures forall c :: c in list.s <==> c in old(list.s) || c == chunk
      ensures chunk.address == old(chunk.address) && chunk.pages == old(chunk.pages)
    {
      hide With, ChunkIs, NoDup, Matched, Indexed, PlaceOf;
      ghost var s0, f0, v, idx := list.s, free, Interval(chunk.address, chunk.pages), Indexed();
      MatchedSizes();
      if idx { IndexedSizes(); }
      k := list.Insert(chunk, QWORD_MAX - chunk.pages);
      if idx { SizesBefore(s0, f0, k, v); }
      free := With(f0, k, v);
      IsChunk(chunk, v);
      MatchedWith(s0, f0, k, chunk, v);
      WithElements(s0, chunk, k);
      if idx { StillIndexed(s0, chunk); }
    }

    lemma IndexedSizes()
      requires Listed() && Indexed()
      ensures forall c :: c in list.s ==> IndexOk(c)
      ensures |list.s| == |free| && forall i :: 0 <= i < |free| ==> list.s[i].index == QWORD_MAX - free[i].n
    {
      MatchedSizes();
      forall i | 0 <= i < |free| ensures list.s[i].index == QWORD_MAX - free[i].n { assert IndexOk(list.s[i]); }
    }

    lemma StillIndexed(s0: seq<FreeChunk>, chunk: FreeChunk)
      requires forall c :: c in list.s <==> c in s0 || c == chunk
      requires IndexOk(chunk) && forall c :: c in s0 ==> IndexOk(c)
      ensures Indexed()
    {
    }

    lemma WithElements(s0: seq<FreeChunk>, e: FreeChunk, k: nat)
      requires k <= |s0|
      ensures forall c :: c in s0[..k] + [e] + s0[k..] <==> c in s0 || c == e
    {
      var s := s0[..k] + [e] + s0[k..];
      forall c | c in s0 ensures c in s {
        var i :| 0 <= i < |s0| && s0[i] == c;
        assert s[if i < k then i else i + 1] == c;
      }
    }

    lemma MatchedSizes()
      requires Listed()
      ensures |list.s| == |free|
      ensures forall i :: 0 <= i < |free| ==> list.s[i].pages == free[i].n
    {
    }

    lemma IsChunk(chunk: FreeChunk, v: Interval)
      requires v == Interval(chunk.address, chunk.pages)
      ensures ChunkIs(chunk, v)
    {
    }

    lemma SizesBefore(s0: seq<FreeChunk>, f0: seq<Interval>, k: nat, v: Interval)
      requires |s0| == |f0| && k <= |f0|
      requires forall i :: 0 <= i < |s0| ==> s0[i].index == QWORD_MAX - f0[i].n
      requires forall i :: 0 <= i < k ==> s0[i].index < QWORD_MAX - v.n
      requires k < |f0| ==> s0[k].index >= QWORD_MAX - v.n
      ensures PlaceOf(f0, v) == k
    {
      PlaceIs(f0, v, k);
    }

    /** vremap_data_try_merge: the range joins the free chunks that border it, one after the other. A range that begins
        where a free chunk does halts the kernel. */
    method TryMerge(addr: nat, pages: nat) returns (merged: bool)
      requires Listed() && NoDoubleFree(free, Interval(addr, pages)) && (Indexed() || |list.s| <= 1)
      modifies list, list.s, `free, `supply
      ensures old(Indexed()) || merged ==> Indexed()
      ensures Listed() && (forall c :: c in list.s ==> c in old(list.s)) && (!merged ==> list.s == old(list.s))
      ensures var r := Absorbed(old(free), Interval(addr, pages));
        && (merged <==> r.merges > 0)
        && free == (if merged then Inserted(r.rest, r.v) else old(free))
        && supply == if merged then old(supply) + r.merges - 1 else old(supply)
      decreases |free|, 1
    {
      hide Matched, ChunkIs, Inserted, Adjacent;
      ghost var v, s0, f0 := Interval(addr, pages), list.s, free;
      var chunk, found: FreeChunk? := list.head, null;
      ghost var k := 0;
      OpenList();
      while chunk != null
        invariant k <= |s0| && chunk == (if k < |s0| then s0[k] else null)
        invariant forall i :: 0 <= i < k ==> !Adjacent(free[i], v)
        modifies {}
        decreases |s0| - k
      {
        list.Place(k);
        ChunkAt(k);
        Bordering(free[k], v);
        if addr + PAGE_SIZE * pages == chunk.address || chunk.address + PAGE_SIZE * chunk.pages == addr {
          found := chunk;
          break;
        } else if chunk.address == addr {
          assert false;
        }
        chunk := chunk.next;
        k := k + 1;
      }
      FirstIs(f0, v, k);
      if found == null { return false; }
      Grow(found, addr, pages, k);
      Absorb(found, k, v, f0);
      merged := true;
    }

    lemma Bordering(u: Interval, v: Interval)
      ensures Adjacent(u, v) <==> v.a + PAGE_SIZE * v.n == u.a || u.a + PAGE_SIZE * u.n == v.a
    {
    }

    lemma OpenList()
      requires Listed()
      ensures |list.s| == |free| && forall i :: 0 <= i < |list.s| ==> ChunkIs(list.s[i], free[i])
      ensures list.Valid()
    {
    }

    lemma ChunkAt(k: nat)
      requires Listed() && k < |free|
      ensures |list.s| == |free| && list.s[k].address == free[k].a && list.s[k].pages == free[k].n
    {
      assert ChunkIs(list.s[k], free[k]);
    }

    lemma OthersIndexed(k: nat)
      requires Indexed() || |list.s| <= 1
      ensures forall i :: 0 <= i < |list.s| && i != k && k < |list.s| ==> IndexOk(list.s[i])
    {
    }

    /** A chunk that borders a range takes it over, frontwards or backwards. */
    method Grow(chunk: FreeChunk, addr: nat, pages: nat, ghost k: nat)
      requires Listed() && k < |list.s| && k < |free| && list.s[k] == chunk && Adjacent(free[k], Interval(addr, pages))
      requires Indexed() || |list.s| <= 1
      modifies chunk`address, chunk`pages
      ensures forall i :: 0 <= i < |list.s| && i != k ==> IndexOk(list.s[i])
      ensures list.Valid() && |list.s| == |free| && forall i :: 0 <= i < |list.s| && i != k ==>
        ChunkIs(list.s[i], free[i])
      ensures Interval(chunk.address, chunk.pages) == Joined(free[k], Interval(addr, pages))
    {
      ChunkAt(k);
      ChunksDistinct();
      OthersIndexed(k);
      hide Indexed, IndexOk;
      if addr + PAGE_SIZE * pages == chunk.address {
        chunk.address := addr;
        chunk.pages := chunk.pages + pages;
      } else {
        chunk.pages := chunk.pages + pages;
      }
    }

    /** Chunk k has absorbed v: it leaves the list and is merged further or put back. */
    method Absorb(found: FreeChunk, ghost k: nat, ghost v: Interval, ghost f0: seq<Interval>)
      requires list.Valid() && free == f0 && |list.s| == |f0| && k < |f0| && list.s[k] == found
      requires FirstBorder(f0, v) == k && NoDoubleFree(f0, v)
      requires forall i :: 0 <= i < |list.s| && i != k ==> ChunkIs(list.s[i], f0[i]) && IndexOk(list.s[i])
      requires Interval(found.address, found.pages) == Joined(f0[k], v)
      modifies list, list.s, `free, `supply
      ensures Listed() && Indexed() && forall c :: c in list.s ==> c in old(list.s)
      ensures var r := Absorbed(f0, v);
        r.merges > 0 && free == Inserted(r.rest, r.v) && supply == old(supply) + r.merges - 1
      decreases |free|, 0
    {
      hide Listed, Joined, ChunkIs, Inserted, With, Without, Absorbed, NoDoubleFree, FirstBorder, Indexed, IndexOk;
      AbsorbStep(f0, v, k);
      TakeOut(found, k);
      var merged := TryMerge(found.address, found.pages);
      if !merged {
        ghost var _ := PutIn(found);
      } else {
        supply := supply + 1;
      }
    }

    /** vm_region_vremap_release, of any range at all. It fails only when the range borders no free chunk and no new
        chunk can be made. Of a part of the live range at a, it frees exactly that part. Where a new chunk goes is known
        if all others have their index. */
    method Release(virt: nat, pages: nat, ghost a: int) returns (result: int, ghost merges: nat)
      requires Listed() && NoDoubleFree(free, Interval(virt, pages)) && (Indexed() || |list.s| <= 1)
      modifies this, list, list.s
      ensures old(Indexed()) || merges > 0 ==> Indexed()
      ensures Listed() && forall c :: c in list.s ==> c in old(list.s) || fresh(c)
      ensures merges == Absorbed(old(free), Interval(virt, pages)).merges
      ensures result == if merges == 0 && old(supply) == 0 then -1 else 0
      ensures result == -1 ==> free == old(free) && live == old(live) && pagesBusy == old(pagesBusy)
      ensures result == -1 ==> list.s == old(list.s)
      ensures result == 0 ==> pagesBusy == (old(pagesBusy) - pages) % WORD
      ensures result == 0 && (old(Indexed()) || merges > 0) ==> free == Released(old(free), Interval(virt, pages))
      ensures result == 0 && merges == 0 ==>
        exists k :: 0 <= k <= |old(free)| && free == With(old(free), k, Interval(virt, pages))
      ensures live == if result == 0 && old(Valid()) && PartOf(old(live), a, virt, pages)
        then Isolated(old(live), a, virt, pages) - {virt} else old(live)
      ensures old(Valid()) && PartOf(old(live), a, virt, pages) ==>
        && Valid() && merges == |Borders(old(free), Interval(virt, pages))| <= 2
        && (result == 0 ==>
             && pagesBusy == old(pagesBusy) - pages
             && (forall x :: Free(free, x) <==> Free(old(free), x) || Interval(virt, pages).Has(x))
             && (forall x :: InLive(live, x) <==> InLive(old(live), x) && !Interval(virt, pages).Has(x)))
    {
      hide Listed, Canonical, LiveOk, InLive, PartOf, Isolated, Free, Pages, Borders, Absorbed, Inserted, Separate,
        Within, With, Indexed;
      ghost var part := Valid() && PartOf(live, a, virt, pages);
      ghost var v, f0, l0, busy := Interval(virt, pages), free, live, pagesBusy;
      merges := Absorbed(f0, v).merges;
      if part { PartReleased(a, virt, pages); }
      result := 0;
      var merged := TryMerge(virt, pages);
      if !merged {
        if supply == 0 { return -1, merges; }
        supply := supply - 1;
        var chunk := new FreeChunk(virt, pages);
        NothingAbsorbed(f0, v);
        ghost var k := PutIn(chunk);
        assert free == With(f0, k, v);
      }
      pagesBusy := (pagesBusy - pages) % WORD;
      if part {
        live := Isolated(l0, a, virt, pages) - {virt};
        PartGone(l0, a, virt, pages, f0, busy);
      }
    }

    lemma NothingAbsorbed(f: seq<Interval>, v: Interval)
      requires Absorbed(f, v).merges == 0
      ensures Absorbed(f, v) == Absorption(f, v, 0)
    {
    }

    /** What a release of a part of a live range is about to do to the list. */
    lemma PartReleased(a: int, virt: nat, pages: nat)
      requires Valid() && PartOf(live, a, virt, pages)
      ensures Indexed()
      ensures var v := Interval(virt, pages);
        && Canonical(Released(free, v)) && Within(Released(free, v), address, End())
        && Pages(Released(free, v)) == Pages(free) + pages
        && Absorbed(free, v).merges == |Borders(free, v)| <= 2 && NoDoubleFree(free, v)
        && forall x :: Free(Released(free, v), x) <==> Free(free, x) || v.Has(x)
    {
      hide Listed, Canonical, LiveOk, Free, Pages, Borders, Isolated, InLive, Within, Released, NoDoubleFree,
        Absorbed, Indexed;
      var v := Interval(virt, pages);
      IsolatedOk(live, a, virt, pages, free);
      LiveApart(Isolated(live, a, virt, pages), virt);
      AtMostTwo(free, v);
      ReleasedOk(free, v, address, End());
    }

    lemma PartGone(l0: map<int, nat>, a: int, virt: nat, pages: nat, f0: seq<Interval>, busy: nat)
      requires Listed() && LiveOk(l0, f0) && PartOf(l0, a, virt, pages)
      requires busy + Pages(f0) == pagesTotal && End() <= WORD
      requires Canonical(free) && Within(free, address, End()) && Pages(free) == Pages(f0) + pages
      requires pagesBusy == (busy - pages) % WORD && live == Isolated(l0, a, virt, pages) - {virt} && Indexed()
      requires forall x :: Free(free, x) <==> Free(f0, x) || Interval(virt, pages).Has(x)
      ensures Valid() && pagesBusy == busy - pages
      ensures forall x :: InLive(live, x) <==> InLive(l0, x) && !Interval(virt, pages).Has(x)
    {
      hide Listed, Canonical, LiveOk, InLive, PartOf, Isolated, Free, Pages, Within;
      FitsWithin();
      IsolatedOk(l0, a, virt, pages, f0);
      LiveWithout(Isolated(l0, a, virt, pages), virt, f0, free);
      LiveLess(Isolated(l0, a, virt, pages), virt, f0);
    }

    /** No more pages are free than there are. */
    lemma FitsWithin()
      requires Canonical(free) && Within(free, address, End())
      ensures Pages(free) <= pagesTotal
    {
      hide Pages;
      FitsInside(free, address, End());
    }

    /** A live range is inside the region and disjoint from every free chunk. */
    lemma LiveApart(l: map<int, nat>, a: int)
      requires FreeOk() && LiveOk(l, free) && a in l
      ensures l[a] > 0 && Inside(Interval(a, l[a]))
      ensures forall i :: 0 <= i < |free| ==> Disjoint(free[i], Interval(a, l[a]))
    {
      hide Pages, Separate;
      var v := Interval(a, l[a]);
      forall i | 0 <= i < |free| ensures Disjoint(free[i], v) {
        var x := if free[i].a < v.a then v.a else free[i].a;
        HasFree(free, i, x);
        assert v.Has(x) ==> InLive(l, x);
      }
    }

    lemma CutIsNew(l: map<int, nat>, a: int, k: nat, f: seq<Interval>)
      requires LiveOk(l, f) && a in l && 0 < k < l[a]
      ensures a + PAGE_SIZE * k !in l
    {
      var b := a + PAGE_SIZE * k;
      assert b in l ==> l[b] > 0 && Disjoint(Interval(b, l[b]), Interval(a, l[a]));
    }

    lemma SplitSame(l: map<int, nat>, a: int, k: nat, x: int)
      requires a in l && 0 < k < l[a] && a + PAGE_SIZE * k !in l
      ensures InLive(SplitAt(l, a, k), x) <==> InLive(l, x)
    {
      var m, b := SplitAt(l, a, k), a + PAGE_SIZE * k;
      if InLive(l, x) {
        var c :| c in l && Interval(c, l[c]).Has(x);
        var e := if c != a then c else if x < b then a else b;
        assert e in m && Interval(e, m[e]).Has(x);
      }
      if InLive(m, x) {
        var c :| c in m && Interval(c, m[c]).Has(x);
        var e := if c == b then a else c;
        assert e in l && Interval(e, l[e]).Has(x);
      }
    }

    /** A live range cut in two is as good as one. */
    lemma SplitOk(l: map<int, nat>, a: int, k: nat, f: seq<Interval>)
      requires LiveOk(l, f) && a in l && 0 < k < l[a]
      ensures LiveOk(SplitAt(l, a, k), f) && forall x :: InLive(SplitAt(l, a, k), x) <==> InLive(l, x)
    {
      hide Free, InLive;
      CutIsNew(l, a, k, f);
      var m := SplitAt(l, a, k);
      assert Inside(Interval(a, l[a]));
      forall c, d | c in m && d in m && c != d ensures Disjoint(Interval(c, m[c]), Interval(d, m[d])) {
        PieceDisjoint(l, a, k, c, d, f);
      }
      forall x ensures InLive(m, x) <==> InLive(l, x) { SplitSame(l, a, k, x); }
    }

    lemma PieceDisjoint(l: map<int, nat>, a: int, k: nat, c: int, d: int, f: seq<Interval>)
      requires LiveOk(l, f) && a in l && 0 < k < l[a] && a + PAGE_SIZE * k !in l
      requires var m := SplitAt(l, a, k); c in m && d in m && c != d
      ensures var m := SplitAt(l, a, k); Disjoint(Interval(c, m[c]), Interval(d, m[d]))
    {
      var b := a + PAGE_SIZE * k;
      var c', d' := if c == b then a else c, if d == b then a else d;
      assert c' in l && d' in l;
      if c' != d' { assert Disjoint(Interval(c', l[c']), Interval(d', l[d'])); }
    }

    lemma IsolatedOk(l: map<int, nat>, a: int, virt: nat, pages: nat, f: seq<Interval>)
      requires LiveOk(l, f) && PartOf(l, a, virt, pages)
      ensures var m := Isolated(l, a, virt, pages);
        && virt in m && m[virt] == pages && LiveOk(m, f) && forall x :: InLive(m, x) <==> InLive(l, x)
    {
      hide LiveOk, InLive;
      var k := (virt - a) / PAGE_SIZE;
      if k > 0 { SplitOk(l, a, k, f); }
      var m := if k > 0 then SplitAt(l, a, k) else l;
      if pages < m[virt] { SplitOk(m, virt, pages, f); }
    }

    lemma LiveLess(l: map<int, nat>, a: int, f: seq<Interval>)
      requires LiveOk(l, f) && a in l
      ensures forall x :: InLive(l - {a}, x) <==> InLive(l, x) && !Interval(a, l[a]).Has(x)
    {
      forall x ensures InLive(l - {a}, x) <==> InLive(l, x) && !Interval(a, l[a]).Has(x) {
        if InLive(l, x) && !Interval(a, l[a]).Has(x) {
          var b :| b in l && Interval(b, l[b]).Has(x);
          assert b in l - {a};
        }
        if InLive(l - {a}, x) {
          var b :| b in l - {a} && Interval(b, (l - {a})[b]).Has(x);
          assert b in l && Disjoint(Interval(b, l[b]), Interval(a, l[a]));
        }
      }
    }

    lemma LiveWithout(l0: map<int, nat>, a: int, f0: seq<Interval>, f: seq<Interval>)
      requires LiveOk(l0, f0) && a in l0 && forall x :: Free(f, x) <==> Free(f0, x) || Interval(a, l0[a]).Has(x)
      ensures LiveOk(l0 - {a}, f)
    {
      hide Free;
      var live := l0 - {a};
      forall x | address <= x < address + PAGE_SIZE * pagesTotal ensures Free(f, x) <==> !InLive(live, x) {
        if InLive(l0, x) && !Interval(a, l0[a]).Has(x) {
          var b :| b in l0 && Interval(b, l0[b]).Has(x);
          assert b in live && Interval(b, live[b]).Has(x);
        }
        if InLive(live, x) {
          var b :| b in live && Interval(b, live[b]).Has(x);
          assert b in l0 && Interval(b, l0[b]).Has(x) && Disjoint(Interval(b, l0[b]), Interval(a, l0[a]));
        }
      }
    }

    /** vm_region_vremap_ensure: -1 exactly when no contiguous free run is that long. */
    method Ensure(pages: nat) returns (addr: int)
      requires Listed() && (Indexed() || |list.s| <= 1)
      modifies this, list, list.s
      ensures Listed() && forall c :: c in list.s ==> c in old(list.s)
      ensures (addr, free) == Ensured(old(free), pages) && (addr != -1 ==> Indexed())
      ensures addr == -1 ==> live == old(live) && pagesBusy == old(pagesBusy) && supply == old(supply)
      ensures addr != -1 ==> addr >= 0 && pagesBusy == (old(pagesBusy) + pages) % WORD
      ensures addr != -1 ==> supply == if old(free)[0].n == pages then old(supply) + 1 else old(supply)
      ensures addr != -1 ==> live == if pages == 0 then old(live) else old(live)[addr := pages]
      ensures old(Valid()) ==>
        && Valid() && (pages > 0 ==> (addr == -1 <==> !exists a :: FreeRun(old(free), a, pages)))
        && (pages == 0 ==> (addr == -1 <==> old(free) == []))
        && (addr != -1 ==>
             && FreeRun(old(free), addr, pages) && pagesBusy == old(pagesBusy) + pages
             && (pages > 0 ==> addr !in old(live))
             && forall x :: Free(free, x) <==> Free(old(free), x) && !Interval(addr, pages).Has(x))
    {
      hide Listed, Canonical, Separate, Free, Pages, FreeRun, LiveOk, InLive, Within, Inserted, Without, Indexed;
      ghost var f0, l0, was, busy := free, live, Valid(), pagesBusy;
      OpenList();
      if was && pages > 0 { HeadDecides(f0, pages); }
      var chunk := Find(pages);
      if chunk == null { return -1; }
      ChunkAt(0);
      addr := chunk.address;
      Carve(chunk, pages);
      pagesBusy := (pagesBusy + pages) % WORD;
      if pages > 0 { live := live[addr := pages]; }
      if was {
        EnsuredOk(f0, pages, address, End());
        Taken(addr, pages, f0, l0, busy);
      }
    }

    lemma Taken(addr: int, pages: nat, f0: seq<Interval>, l0: map<int, nat>, busy: nat)
      requires Listed() && Indexed() && LiveOk(l0, f0) && busy + Pages(f0) == pagesTotal && End() <= WORD
      requires Canonical(free) && Within(free, address, End()) && Pages(free) + pages == Pages(f0)
      requires address <= addr && addr + PAGE_SIZE * pages <= End() && FreeRun(f0, addr, pages)
      requires forall x :: Free(free, x) <==> Free(f0, x) && !Interval(addr, pages).Has(x)
      requires pagesBusy == (busy + pages) % WORD && live == if pages == 0 then l0 else l0[addr := pages]
      ensures Valid() && pagesBusy == busy + pages && (pages > 0 ==> addr !in l0)
    {
      hide Listed, Canonical, Free, Pages, FreeRun, LiveOk, InLive, Within;
      if pages > 0 { LiveWith(l0, Interval(addr, pages), f0, free); } else { LiveSame(l0, f0, free); }
    }

    /** The first pages of the head chunk leave the list. */
    method Carve(chunk: FreeChunk, pages: nat)
      requires Listed() && free != [] && list.s != [] && list.s[0] == chunk && pages <= free[0].n
      requires Indexed() || |list.s| <= 1
      modifies list, list.s, `free, `supply
      ensures Listed() && Indexed() && free == Ensured(old(free), pages).1
      ensures forall c :: c in list.s ==> c in old(list.s)
      ensures supply == if old(free)[0].n == pages then old(supply) + 1 else old(supply)
    {
      hide Listed, Without, ChunkIs, Inserted;
      OpenList();
      ChunkAt(0);
      TakeOut(chunk, 0);
      if chunk.pages == pages {
        supply := supply + 1;
      } else {
        chunk.address := chunk.address + PAGE_SIZE * pages;
        chunk.pages := chunk.pages - pages;
        ghost var _ := PutIn(chunk);
      }
    }

    lemma LiveSame(l: map<int, nat>, f0: seq<Interval>, f: seq<Interval>)
      requires LiveOk(l, f0) && forall x :: Free(f, x) <==> Free(f0, x)
      ensures LiveOk(l, f)
    {
    }

    lemma LiveWith(l0: map<int, nat>, v: Interval, f0: seq<Interval>, f: seq<Interval>)
      requires LiveOk(l0, f0) && v.n > 0 && Inside(v) && FreeRun(f0, v.a, v.n)
      requires forall x :: Free(f, x) <==> Free(f0, x) && !v.Has(x)
      ensures LiveOk(l0[v.a := v.n], f) && v.a !in l0
    {
      hide Free;
      var live := l0[v.a := v.n];
      forall b | b in l0 ensures Disjoint(Interval(b, l0[b]), v) && b != v.a {
        var u := Interval(b, l0[b]);
        var x := if u.a < v.a then v.a else u.a;
        assert u.Has(x) ==> InLive(l0, x);
        assert v.Has(x) ==> Free(f0, x);
      }
      forall x | address <= x < address + PAGE_SIZE * pagesTotal ensures Free(f, x) <==> !InLive(live, x) {
        if InLive(l0, x) {
          var b :| b in l0 && Interval(b, l0[b]).Has(x);
          assert b in live && Interval(b, live[b]).Has(x);
        }
        if v.Has(x) { assert Interval(v.a, live[v.a]).Has(x); }
        if InLive(live, x) {
          var b :| b in live && Interval(b, live[b]).Has(x);
          if b != v.a { assert b in l0 && Interval(b, l0[b]).Has(x); }
        }
      }
    }
  }

  predicate InLive(live: map<int, nat>, x: int)
  {
    exists a :: a in live && Interval(a, live[a]).Has(x)
  }

  /** Some pages of the live range at a. */
  predicate PartOf(live: map<int, nat>, a: int, virt: nat, pages: nat)
  {
    && a in live && pages > 0 && a <= virt && (virt - a) % PAGE_SIZE == 0
    && virt + PAGE_SIZE * pages <= a + PAGE_SIZE * live[a]
  }

  /** The live range at a, cut after k pages. */
  function SplitAt(live: map<int, nat>, a: int, k: nat): map<int, nat>
    requires a in live && k <= live[a]
  {
    live[a := k][a + PAGE_SIZE * k := live[a] - k]
  }

  /** The live ranges with the part cut out as one of its own. */
  function Isolated(live: map<int, nat>, a: int, virt: nat, pages: nat): map<int, nat>
    requires PartOf(live, a, virt, pages)
  {
    var k := (virt - a) / PAGE_SIZE;
    var m := if k > 0 then SplitAt(live, a, k) else live;
    if pages < m[virt] then SplitAt(m, virt, pages) else m
  }

  /** The chunks of s are the intervals of f, in order. */
  ghost predicate Matched(s: seq<FreeChunk>, f: seq<Interval>)
    reads s`address, s`pages
  {
    |s| == |f| && forall i :: 0 <= i < |s| ==> ChunkIs(s[i], f[i])
  }

  lemma MatchedWith(s: seq<FreeChunk>, f: seq<Interval>, k: nat, chunk: FreeChunk, v: Interval)
    requires Matched(s, f) && k <= |s| && ChunkIs(chunk, v)
    ensures Matched(s[..k] + [chunk] + s[k..], With(f, k, v))
  {
    WithAt(f, k, v);
    hide With, ChunkIs;
    var t, g := s[..k] + [chunk] + s[k..], With(f, k, v);
    forall i | 0 <= i < |t| ensures ChunkIs(t[i], g[i]) {
      if i < k { assert t[i] == s[i]; } else if i > k { assert t[i] == s[i - 1]; }
    }
  }

  lemma MatchedWithout(s: seq<FreeChunk>, f: seq<Interval>, k: nat)
    requires |s| == |f| && k < |s| && forall i :: 0 <= i < |s| && i != k ==> ChunkIs(s[i], f[i])
    ensures Matched(s[..k] + s[k + 1..], Without(f, k))
  {
    WithoutAt(f, k);
    hide Without, ChunkIs;
    var t, g := s[..k] + s[k + 1..], Without(f, k);
    forall i | 0 <= i < |t| ensures ChunkIs(t[i], g[i]) { assert t[i] == s[if i < k then i else i + 1]; }
  }

  predicate ChunkIs(c: FreeChunk, v: Interval)
    reads c`address, c`pages
  {
    c.address == v.a && c.pages == v.n
  }

  predicate IndexOk(c: FreeChunk)
    reads c`index, c`pages
  {
    c.index == QWORD_MAX - c.pages
  }

  /** The head of a longer list leaves it and is used again for a new allocator, whose list then goes on into the other
      one: chunks are cleared when their slab is made, and not when they are handed out. */
  method RecycledHead(l: FreeList, base: nat, pages: nat) returns (d: VremapData)
    requires l.Valid() && |l.s| > 1 && pages > 0 && base + PAGE_SIZE * pages <= WORD
    modifies l, l.s
    ensures !d.Valid() && d.list.head != null && d.list.head.next == l.head != null
  {
    var e := l.head;
    l.Remove(e, 0);
    d := new VremapData(base, pages, e, 0);
  }
}
