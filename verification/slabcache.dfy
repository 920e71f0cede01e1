/** A cache of small objects: one slab of its own, and the slabs on its full, partial and free lists. */
module SlabLists {
  import opened PageSize
  import opened Sequences
  import opened BinMap
  import SizeClass
  import opened SlabCaches

  /** The blocks in use of each slab. */
  type Usage = map<Slab, set<nat>>

  /** Every slab lies in a page of its own. */
  ghost predicate Layout(u: Usage)
  {
    && (forall s :: s in u ==> s.Fits() && forall i :: i in u[s] ==> i < s.objectCount)
    && forall s, t :: s in u && t in u && s != t ==> s.page != t.page
  }

  /** The addresses of the objects in use. */
  function Live(u: Usage): set<nat>
  {
    set s, i | s in u && i in u[s] :: s.Address(i)
  }

  lemma AddressInPage(s: Slab, i: nat)
    requires s.Fits() && i < s.objectCount
    ensures s.Address(i) / PAGE_SIZE * PAGE_SIZE == s.page && s.page < s.Address(i)
    ensures (s.Address(i) - s.data) / s.size == i
  {
    assert i * s.size + s.size <= s.objectCount * s.size by {
      SizeClass.MulMono(i + 1, s.objectCount, s.size);
      assert (i + 1) * s.size == i * s.size + s.size;
    }
    var x := s.Address(i) - s.page;
    assert 0 < x < PAGE_SIZE;
    PageOfSum(s.page, x);
    QuotientUnique(i * s.size, s.size, i, 0);
  }

  lemma PageOfSum(page: nat, x: nat)
    requires page % PAGE_SIZE == 0 && x < PAGE_SIZE
    ensures (page + x) / PAGE_SIZE * PAGE_SIZE == page
  {
  }

  /** Distinct objects have distinct addresses. */
  lemma AddressUnique(u: Usage, s: Slab, i: nat, t: Slab, j: nat)
    requires Layout(u) && s in u && t in u && i < s.objectCount && j < t.objectCount && s.Address(i) == t.Address(j)
    ensures s == t && i == j
  {
    AddressInPage(s, i);
    AddressInPage(t, j);
  }

  lemma LiveWith(u: Usage, s: Slab, block: nat)
    requires Layout(u) && s in u && block < s.objectCount && block !in u[s]
    ensures s.Address(block) !in Live(u) && Layout(u[s := u[s] + {block}])
    ensures Live(u[s := u[s] + {block}]) == Live(u) + {s.Address(block)}
  {
    var u', p := u[s := u[s] + {block}], s.Address(block);
    forall t, j | t in u && j in u[t] ensures t.Address(j) != p {
      if t.Address(j) == p { AddressUnique(u, t, j, s, block); }
    }
    forall x | x in Live(u) + {p} ensures x in Live(u') {
      if x in Live(u) {
        var t, j :| t in u && j in u[t] && t.Address(j) == x;
        assert t in u' && j in u'[t];
      } else {
        assert s in u' && block in u'[s];
      }
    }
    forall x | x in Live(u') ensures x in Live(u) + {p} {
      var t, j :| t in u' && j in u'[t] && t.Address(j) == x;
      assert x != p ==> j in u[t];
    }
  }

  lemma LiveWithout(u: Usage, s: Slab, block: nat)
    requires Layout(u) && s in u && block in u[s]
    ensures s.Address(block) in Live(u) && Layout(u[s := u[s] - {block}])
    ensures Live(u[s := u[s] - {block}]) == Live(u) - {s.Address(block)}
  {
    var v := u[s := u[s] - {block}];
    assert Layout(v);
    LiveWith(v, s, block);
    assert v[s := v[s] + {block}] == u by { assert u[s] - {block} + {block} == u[s]; }
  }

  lemma LiveNew(u: Usage, s: Slab)
    requires s !in u
    ensures Live(u[s := {}]) == Live(u)
  {
    var u' := u[s := {}];
    forall x | x in Live(u) ensures x in Live(u') {
      var t, j :| t in u && j in u[t] && t.Address(j) == x;
      assert t in u' && j in u'[t];
    }
  }

  // ---- counting ----

  function SumUsed(slabs: seq<Slab>, u: Usage): nat
    requires forall s :: s in slabs ==> s in u
  {
    if slabs == [] then 0 else |u[slabs[0]]| + SumUsed(slabs[1..], u)
  }

  lemma {:induction false} LiveCount(u: Usage, slabs: seq<Slab>)
    requires Layout(u) && NoDup(slabs)
    requires forall s :: s in slabs ==> s in u
    requires forall s :: s in u && s !in slabs ==> u[s] == {}
    ensures |Live(u)| == SumUsed(slabs, u)
  {
    if slabs == [] {
      assert Live(u) == {};
    } else {
      CountRest(u, slabs[0], slabs[1..]) by { Tail(slabs); }
      LiveCount(u[slabs[0] := {}], slabs[1..]) by { Tail(slabs); OneSlab(u, slabs[0], u[slabs[0]]); }
    }
  }

  /** What the first slab of a list adds. */
  lemma CountRest(u: Usage, s: Slab, rest: seq<Slab>)
    requires Layout(u) && s in u && s !in rest && forall x :: x in rest ==> x in u
    ensures |Live(u)| == |Live(u[s := {}])| + |u[s]|
    ensures (forall x :: x in rest ==> x in u[s := {}]) && SumUsed(rest, u) == SumUsed(rest, u[s := {}])
  {
    OneSlab(u, s, u[s]);
    SumSame(rest, u, u[s := {}]);
  }

  lemma Tail(slabs: seq<Slab>)
    requires NoDup(slabs) && slabs != []
    ensures NoDup(slabs[1..]) && slabs[0] !in slabs[1..]
    ensures forall x :: x in slabs[1..] ==> x in slabs
    ensures forall x :: x in slabs && x != slabs[0] ==> x in slabs[1..]
  {
    assert slabs == [slabs[0]] + slabs[1..];
    assert forall i :: 0 <= i < |slabs| - 1 ==> slabs[1..][i] == slabs[i + 1];
  }

  lemma {:induction false} SumSame(slabs: seq<Slab>, u: Usage, v: Usage)
    requires forall s :: s in slabs ==> s in u && s in v && u[s] == v[s]
    ensures SumUsed(slabs, u) == SumUsed(slabs, v)
  {
    if slabs != [] {
      assert forall s :: s in slabs[1..] ==> s in slabs;
      SumSame(slabs[1..], u, v);
    }
  }

  lemma {:induction false} OneSlab(u: Usage, s: Slab, blocks: set<nat>)
    requires Layout(u) && s in u && u[s] == blocks
    ensures |Live(u)| == |Live(u[s := {}])| + |blocks| && Layout(u[s := {}])
    decreases blocks
  {
    if b :| b in blocks {
      var v := u[s := blocks - {b}];
      LiveWithout(u, s, b);
      OneSlab(v, s, blocks - {b});
      assert v[s := {}] == u[s := {}];
    } else {
      assert blocks == {};
      assert u[s := {}] == u;
    }
  }

  lemma {:induction false} SumJoin(a: seq<Slab>, b: seq<Slab>, u: Usage)
    requires forall s :: s in a + b ==> s in u
    ensures (forall s :: s in a ==> s in u) && (forall s :: s in b ==> s in u)
    ensures SumUsed(a + b, u) == SumUsed(a, u) + SumUsed(b, u)
  {
    assert forall s :: s in a ==> s in a + b;
    assert forall s :: s in b ==> s in a + b;
    if a == [] {
      assert a + b == b;
    } else {
      assert (a + b)[1..] == a[1..] + b;
      SumJoin(a[1..], b, u);
    }
  }

  function SumCount(slabs: seq<Slab>): nat
  {
    if slabs == [] then 0 else slabs[0].objectCount + SumCount(slabs[1..])
  }

  lemma {:induction false} CountJoin(a: seq<Slab>, b: seq<Slab>)
    ensures SumCount(a + b) == SumCount(a) + SumCount(b)
  {
    if a == [] {
      assert a + b == b;
    } else {
      assert (a + b)[1..] == a[1..] + b;
      CountJoin(a[1..], b);
    }
  }

  lemma {:induction false} FreeUnused(slabs: seq<Slab>, u: Usage)
    requires forall s :: s in slabs ==> s in u && |u[s]| == 0
    ensures SumUsed(slabs, u) == 0
  {
    if slabs != [] {
      assert forall s :: s in slabs[1..] ==> s in slabs;
      FreeUnused(slabs[1..], u);
    }
  }

  // ---- the lists ----

  /** Each slab but the cache's own is on the list that its state names, once. */
  ghost predicate Listed(u: Usage, own: Slab, full: seq<Slab>, partial: seq<Slab>, free: seq<Slab>)
  {
    && own in u && NoDup(full) && NoDup(partial) && NoDup(free)
    && (forall s :: s in full ==> s in u && s != own && |u[s]| == s.objectCount)
    && (forall s :: s in partial ==> s in u && s != own && 0 < |u[s]| < s.objectCount)
    && (forall s :: s in free ==> s in u && s != own && |u[s]| == 0)
    && forall s :: s in u ==> s == own || s in full || s in partial || s in free
  }

  lemma Pushed(s: Slab, slabs: seq<Slab>)
    requires NoDup(slabs) && s !in slabs
    ensures NoDup([s] + slabs) && forall x :: x in [s] + slabs <==> x == s || x in slabs
  {
  }

  lemma DisjointJoin(a: seq<Slab>, b: seq<Slab>)
    requires NoDup(a) && NoDup(b) && forall s :: s in a ==> s !in b
    ensures NoDup(a + b) && forall s :: s in a + b <==> s in a || s in b
  {
    forall i, j | 0 <= i < j < |a + b| ensures (a + b)[i] != (a + b)[j] {
      if i < |a| <= j { assert a[i] in a && b[j - |a|] in b; }
    }
  }

  lemma {:induction false} NoDupCard(slabs: seq<Slab>, all: set<Slab>)
    requires NoDup(slabs) && (forall s :: s in slabs ==> s in all) && forall s :: s in all ==> s in slabs
    ensures |all| == |slabs|
  {
    if slabs == [] {
      assert all == {};
    } else {
      Tail(slabs);
      NoDupCard(slabs[1..], all - {slabs[0]});
    }
  }

  /** The cache's own slab and the three lists are all slabs, each once. */
  lemma AllSlabs(u: Usage, own: Slab, full: seq<Slab>, partial: seq<Slab>, free: seq<Slab>)
    requires Listed(u, own, full, partial, free) && forall s :: s in full ==> s.objectCount > 0
    ensures var all := [own] + full + partial + free;
      && NoDup(all) && (forall s :: s in all ==> s in u) && (forall s :: s in u ==> s in all) && |all| == |u|
      && SumUsed(all, u) == |u[own]| + SumUsed(full, u) + SumUsed(partial, u) + SumUsed(free, u)
      && SumCount(all) == own.objectCount + SumCount(full) + SumCount(partial) + SumCount(free)
  {
    hide SumUsed, SumCount;
    var a, b := [own] + full, [own] + full + partial;
    DisjointJoin([own], full);
    DisjointJoin(a, partial);
    DisjointJoin(b, free);
    SumJoin([own], full, u);
    SumJoin(a, partial, u);
    SumJoin(b, free, u);
    CountJoin([own], full);
    CountJoin(a, partial);
    CountJoin(b, free);
    Singles(own, u);
    NoDupCard(b + free, u.Keys);
  }

  lemma NoSlabs(u: Usage)
    ensures SumUsed([], u) == 0 && SumCount([]) == 0
  {
  }

  lemma Singles(s: Slab, u: Usage)
    requires s in u
    ensures SumUsed([s], u) == |u[s]| && SumCount([s]) == s.objectCount
  {
  }

  /** What the cache's own slab holds is no matter for the lists. */
  lemma OwnChanges(u: Usage, own: Slab, full: seq<Slab>, partial: seq<Slab>, free: seq<Slab>, blocks: set<nat>)
    requires Listed(u, own, full, partial, free)
    ensures Listed(u[own := blocks], own, full, partial, free)
  {
  }

  /** A slab taken off its list. */
  lemma FullTakenOff(u: Usage, own: Slab, full: seq<Slab>, partial: seq<Slab>, free: seq<Slab>, s: Slab)
    requires Listed(u, own, full, partial, free) && s in u && s != own && s.objectCount > 0 && |u[s]| == s.objectCount
    ensures s in full && Listed(u - {s}, own, Removed(full, s), partial, free)
  {
    hide NoDup;
    RemovedElements(full, s);
  }

  lemma PartialTakenOff(u: Usage, own: Slab, full: seq<Slab>, partial: seq<Slab>, free: seq<Slab>, s: Slab)
    requires Listed(u, own, full, partial, free) && s in u && s != own && s.objectCount > 0
      && 0 < |u[s]| < s.objectCount
    ensures s in partial && Listed(u - {s}, own, full, Removed(partial, s), free)
  {
    hide NoDup;
    RemovedElements(partial, s);
  }

  lemma FreeTakenOff(u: Usage, own: Slab, full: seq<Slab>, partial: seq<Slab>, free: seq<Slab>, s: Slab)
    requires Listed(u, own, full, partial, free) && s in u && s != own && s.objectCount > 0 && |u[s]| == 0
    ensures s in free && Listed(u - {s}, own, full, partial, Removed(free, s))
  {
    hide NoDup;
    RemovedElements(free, s);
  }

  lemma LayoutAt(u: Usage, s: Slab)
    requires Layout(u) && s in u
    ensures s.Fits() && forall i :: i in u[s] ==> i < s.objectCount
  {
  }

  lemma LayoutWith(u: Usage, s: Slab)
    requires Layout(u) && s.Fits() && forall t :: t in u ==> t.page != s.page
    ensures Layout(u[s := {}])
  {
  }

  /** A slab put at the head of the list that its state names. */
  lemma PutOn(u: Usage, own: Slab, full: seq<Slab>, partial: seq<Slab>, free: seq<Slab>, s: Slab, blocks: set<nat>)
    requires Listed(u, own, full, partial, free) && s !in u
    ensures |blocks| == s.objectCount ==> Listed(u[s := blocks], own, [s] + full, partial, free)
    ensures 0 < |blocks| < s.objectCount ==> Listed(u[s := blocks], own, full, [s] + partial, free)
    ensures |blocks| == 0 ==> Listed(u[s := blocks], own, full, partial, [s] + free)
  {
    hide NoDup;
    Pushed(s, full);
    Pushed(s, partial);
    Pushed(s, free);
  }

  // ---- the cache ----

  class SmallCache {
    /** The slab that shares its page with the cache. */
    const own: Slab
    const size: nat
    /** Where the objects of a slab begin, and how many there are: the layout of its page. */
    const offset: nat
    const count: nat

    var full: seq<Slab>
    var partial: seq<Slab>
    var free: seq<Slab>
    var slabsPerAlloc: nat

    /** The slab at each page, and the pages that the page allocator will hand out, in turn. */
    var pages: map<nat, Slab>
    var supply: seq<nat>

    ghost var usage: Usage

    ghost predicate SlabsOk()
      reads `usage, usage.Keys, set s | s in usage :: s.bitmap
    {
      && (forall s :: s in usage ==> s.Valid() && s.used == usage[s] && s.size == size)
      && forall s, t :: s in usage && t in usage && s != t ==> s.bitmap != t.bitmap
    }

    ghost predicate PagesOk(slabs: set<Slab>)
      reads `pages, `supply
    {
      && (forall s :: s in slabs ==> s.page in pages && pages[s.page] == s)
      && (forall p :: p in pages ==> pages[p] in slabs && pages[p].page == p)
      && (forall i, j :: 0 <= i < j < |supply| ==> supply[i] != supply[j])
      && forall i :: 0 <= i < |supply| ==> supply[i] % PAGE_SIZE == 0 && supply[i] !in pages
    }

    ghost predicate Valid()
      reads this, usage.Keys, set s | s in usage :: s.bitmap
    {
      && SlabsOk() && PagesOk(usage.Keys) && Layout(usage) && Listed(usage, own, full, partial, free)
      && slabsPerAlloc > 0 && count > 0 && size > 0 && 0 < offset && offset + count * size <= PAGE_SIZE
    }

    ghost function Bitmaps(): set<array<nat>>
      reads `usage
    {
      set s | s in usage :: s.bitmap
    }

    /** kmem_cache_create: the slab in the cache's own page can be used at once. */
    constructor (own: Slab, offset: nat, count: nat, supply: seq<nat>)
      requires own.Valid() && own.used == {} && count > 0 && 0 < offset && offset + count * own.size <= PAGE_SIZE
      requires forall i, j :: 0 <= i < j < |supply| ==> supply[i] != supply[j]
      requires forall i :: 0 <= i < |supply| ==> supply[i] % PAGE_SIZE == 0 && supply[i] != own.page
      ensures Valid() && usage == map[own := {}] && Live(usage) == {} && slabsPerAlloc == 1 && this.supply == supply
    {
      this.own, size, this.offset, this.count := own, own.size, offset, count;
      full, partial, free, slabsPerAlloc := [], [], [], 1;
      pages, this.supply, usage := map[own.page := own], supply, map[own := {}];
    }

    lemma SlabAt(s: Slab)
      requires SlabsOk() && s in usage
      ensures s.Valid() && s.used == usage[s] && s.objectUsed == |usage[s]| && s.state == s.StateOf(|usage[s]|)
        && s.bitmap in Bitmaps()
    {
      hide Shows;
    }

    /** The first free block of a slab that is not full. */
    method TakeBlock(s: Slab) returns (block: nat)
      requires SlabsOk() && Layout(usage) && s in usage && |usage[s]| < s.objectCount
      modifies s, s.bitmap, `usage
      ensures block < s.objectCount && block !in old(usage)[s] && usage == old(usage)[s := old(usage)[s] + {block}]
      ensures forall i: nat :: i < block ==> i in old(usage)[s]
      ensures SlabsOk() && s.state == if |usage[s]| == s.objectCount then Full else Partial
    {
      hide Slab.Valid, Layout;
      SlabAt(s);
      // no slab ever records a hint, so every search starts at 0
      var r := s.SearchFree(0);
      SlabCount(s);
      block := r;
      s.Take(block);
      usage := usage[s := usage[s] + {block}];
      SlabCount(s);
    }

    lemma SlabCount(s: Slab)
      requires s.Valid()
      ensures s.objectUsed == |s.used| && s.state == s.StateOf(|s.used|) && s.objectCount > 0
    {
      hide Shows;
    }

    /** A used block of a slab is freed. */
    method DropBlock(s: Slab, block: nat)
      requires SlabsOk() && s in usage && block in usage[s] && block < s.objectCount
      modifies s, s.bitmap, `usage
      ensures usage == old(usage)[s := old(usage)[s] - {block}]
      ensures SlabsOk() && s.state == if |usage[s]| == 0 then Empty else Partial
    {
      hide Slab.Valid;
      SlabAt(s);
      s.Drop(block);
      usage := usage[s := usage[s] - {block}];
      SlabCount(s);
      StillUsed(s, block);
    }

    lemma StillUsed(s: Slab, block: nat)
      requires s.Valid() && block !in s.used && block < s.objectCount
      ensures |s.used| < s.objectCount
    {
      CountBelow(s.used, s.objectCount);
    }

    /** p is the first free block of slab s, and is taken. */
    ghost predicate FirstTaken(u: Usage, u': Usage, s: Slab, p: nat)
    {
      s in u && exists b: nat ::
        b !in u[s] && p == s.Address(b) && u' == u[s := u[s] + {b}] && forall i: nat :: i < b ==> i in u[s]
    }

    /** The slab that comes first once the cache's own is full: a free one if there is any, and the head of its list. */
    ghost function NextSlab(): Slab
      requires free != [] || partial != []
      reads `free, `partial
    {
      if free != [] then free[0] else partial[0]
    }

    /** A slab without objects in use comes before one with some. */
    lemma FreeFirst()
      requires Valid() && (free != [] || partial != [])
      ensures var s := NextSlab(); s in usage && s != own
      ensures (exists t :: t in usage && t != own && |usage[t]| == 0) ==> |usage[NextSlab()]| == 0
    {
      hide SlabsOk, PagesOk, Layout;
      HeadListed(NextSlab());
      if t :| t in usage && t != own && |usage[t]| == 0 {
        SlabRoom(usage, t);
        assert t in free;
      }
    }

    /** __kmem_cache_alloc: there is nothing left exactly when every slab is full. The cache's own slab comes first. */
    method Alloc() returns (found: bool, p: nat)
      requires Valid()
      modifies this, usage.Keys, Bitmaps()
      ensures Valid() && usage.Keys == old(usage.Keys)
      ensures found <==> exists s :: s in old(usage) && |old(usage)[s]| < s.objectCount
      ensures found ==> p !in Live(old(usage)) && Live(usage) == Live(old(usage)) + {p}
      ensures |old(usage)[own]| < own.objectCount ==> FirstTaken(old(usage), usage, own, p)
      ensures found && |old(usage)[own]| == own.objectCount ==>
        && (old(free) != [] || old(partial) != [])
        && FirstTaken(old(usage), usage, old(NextSlab()), p)
      ensures !found ==> usage == old(usage)
    {
      hide Slab.Valid, Live, NoDup, SlabsOk, Layout, Listed, PagesOk;
      OwnListed();
      SlabAt(own);
      OwnState();
      if own.state != Full {
        ghost var u := usage;
        var block := TakeBlock(own);
        LiveWith(u, own, block);
        OwnChanges(u, own, full, partial, free, usage[own]);
        assert usage.Keys == u.Keys;
        found, p := true, own.Address(block);
      } else {
        found, p := AllocSmall();
      }
    }

    lemma OwnListed()
      requires Listed(usage, own, full, partial, free)
      ensures own in usage
    {
    }

    lemma OwnState()
      requires SlabsOk() && Layout(usage) && own in usage
      ensures own.state == Full <==> |usage[own]| == own.objectCount
      ensures |usage[own]| <= own.objectCount
    {
      hide Shows;
    }

    lemma SlabRoom(u: Usage, s: Slab)
      requires Layout(u) && s in u
      ensures s.objectCount > 0
    {
    }

    /** __small_kmem_cache_alloc: a free slab comes first, then a partial one. */
    method AllocSmall() returns (found: bool, p: nat)
      requires Valid() && |usage[own]| == own.objectCount
      modifies this, usage.Keys, Bitmaps()
      ensures Valid() && usage.Keys == old(usage.Keys)
      ensures found <==> exists s :: s in old(usage) && |old(usage)[s]| < s.objectCount
      ensures found ==> p !in Live(old(usage)) && Live(usage) == Live(old(usage)) + {p}
      ensures found ==>
        && (old(free) != [] || old(partial) != [])
        && FirstTaken(old(usage), usage, old(NextSlab()), p)
      ensures !found ==> usage == old(usage)
    {
      hide Slab.Valid, Live, NoDup, SlabsOk, Layout, PagesOk, Listed, Removed;
      if free == [] && partial == [] {
        NoneListed();
        return false, 0;
      }
      ghost var u := usage;
      var s := if free != [] then free[0] else partial[0];
      HeadListed(s);
      SlabRoom(u, s);
      if free != [] {
        FreeTakenOff(u, own, full, partial, free, s);
        free := Removed(free, s);
      } else {
        PartialTakenOff(u, own, full, partial, free, s);
        partial := Removed(partial, s);
      }
      var block := TakeBlock(s);
      LiveWith(u, s, block);
      PutOn(u - {s}, own, full, partial, free, s, usage[s]);
      assert (u - {s})[s := usage[s]] == usage && usage.Keys == u.Keys;
      if s.state == Full { full := [s] + full; } else { partial := [s] + partial; }
      found, p := true, s.Address(block);
    }

    lemma NoneListed()
      requires Listed(usage, own, full, [], []) && |usage[own]| == own.objectCount
      ensures forall s :: s in usage ==> |usage[s]| == s.objectCount
    {
    }

    lemma HeadListed(s: Slab)
      requires Listed(usage, own, full, partial, free)
      requires if free != [] then s == free[0] else partial != [] && s == partial[0]
      ensures s in usage && s != own && if free != [] then |usage[s]| == 0 else 0 < |usage[s]| < s.objectCount
    {
    }

    /** __kmem_cache_free and __small_kmem_cache_free, of an object in use. */
    method Free(p: nat)
      requires Valid() && p in Live(usage)
      modifies this, usage.Keys, Bitmaps()
      ensures Valid() && usage.Keys == old(usage.Keys)
      ensures Live(usage) == Live(old(usage)) - {p}
    {
      hide Slab.Valid, Live, NoDup, SlabsOk, Layout, PagesOk, Listed, Removed;
      ghost var u := usage;
      ghost var t, i := BlockOf(u, p);
      PageOf(t);
      OwnListed();
      var s := pages[p / PAGE_SIZE * PAGE_SIZE];
      var block := (p - s.data) / s.size;
      LiveWithout(u, s, block);
      SlabAt(s);
      if s == own {
        DropBlock(s, block);
        OwnChanges(u, own, full, partial, free, usage[own]);
        assert usage.Keys == u.Keys;
      } else {
        FreeSmall(s, block);
      }
    }

    /** The slab and the block of an object in use. */
    lemma BlockOf(u: Usage, p: nat) returns (s: Slab, i: nat)
      requires Layout(u) && p in Live(u)
      ensures
        && s in u && i in u[s] && i < s.objectCount && p == s.Address(i) && s.data <= p && s.size > 0
        && p / PAGE_SIZE * PAGE_SIZE == s.page && (p - s.data) / s.size == i
    {
      s, i :| s in u && i in u[s] && s.Address(i) == p;
      LayoutAt(u, s);
      AddressInPage(s, i);
    }

    lemma PageOf(s: Slab)
      requires PagesOk(usage.Keys) && s in usage
      ensures s.page in pages && pages[s.page] == s
    {
    }

    method FreeSmall(s: Slab, block: nat)
      requires Valid() && s in usage && s != own && block in usage[s] && block < s.objectCount
      modifies this, s, s.bitmap
      ensures Valid() && usage == old(usage)[s := old(usage)[s] - {block}] && usage.Keys == old(usage.Keys)
    {
      hide Slab.Valid, Live, NoDup, SlabsOk, Layout, PagesOk, Listed, Removed;
      ghost var u := usage;
      SlabAt(s);
      SlabRoom(u, s);
      UsedState(s);
      if s.state == Full {
        FullTakenOff(u, own, full, partial, free, s);
        full := Removed(full, s);
      } else {
        PartialTakenOff(u, own, full, partial, free, s);
        partial := Removed(partial, s);
      }
      LiveWithout(u, s, block);
      DropBlock(s, block);
      PutOn(u - {s}, own, full, partial, free, s, usage[s]);
      assert (u - {s})[s := usage[s]] == usage && usage.Keys == u.Keys;
      UsedState(s);
      if s.state == Empty { free := [s] + free; } else { partial := [s] + partial; }
    }

    lemma UsedState(s: Slab)
      requires SlabsOk() && s in usage
      ensures |usage[s]| <= s.objectCount && s.state == s.StateOf(|usage[s]|) && s.objectCount > 0
    {
      hide Shows;
    }

    /** __small_kmem_cache_grow. */
    method Grow() returns (r: int)
      requires Valid()
      modifies this
      ensures Valid() && Live(usage) == Live(old(usage)) && fresh(usage.Keys - old(usage.Keys))
        && old(usage.Keys) <= usage.Keys
      ensures r == -1 <==> old(supply) == []
      ensures var n := if |old(supply)| < old(slabsPerAlloc) then |old(supply)| else old(slabsPerAlloc);
        |free| == |old(free)| + n && supply == old(supply)[n..] && full == old(full) && partial == old(partial)
      ensures slabsPerAlloc == if |old(supply)| < old(slabsPerAlloc) then old(slabsPerAlloc) else 2 * old(slabsPerAlloc)
    {
      hide Live, SlabsOk, Layout, PagesOk, Listed;
      var i := 0;
      while i < slabsPerAlloc
        invariant Valid() && i <= slabsPerAlloc == old(slabsPerAlloc) && i <= |old(supply)|
        invariant Live(usage) == Live(old(usage)) && fresh(usage.Keys - old(usage.Keys))
          && old(usage.Keys) <= usage.Keys
        invariant |free| == |old(free)| + i && supply == old(supply)[i..] && full == old(full)
          && partial == old(partial)
      {
        if supply == [] { return if i == 0 then -1 else 0; }
        AddSlab();
        i := i + 1;
      }
      slabsPerAlloc := 2 * slabsPerAlloc;
      r := 0;
    }

    /** One more slab, in the next page. */
    method AddSlab()
      requires Valid() && supply != []
      modifies this
      ensures Valid() && Live(usage) == Live(old(usage)) && fresh(usage.Keys - old(usage.Keys))
        && old(usage.Keys) <= usage.Keys
      ensures |free| == |old(free)| + 1 && supply == old(supply)[1..]
      ensures full == old(full) && partial == old(partial) && slabsPerAlloc == old(slabsPerAlloc)
    {
      hide Live, Listed, Slab.Valid, Layout, SlabsOk;
      ghost var u := usage;
      var s := new Slab(supply[0], supply[0] + offset, size, count);
      SlabsWith(s);
      Link(s);
    }

    lemma SlabsWith(s: Slab)
      requires SlabsOk() && s.Valid() && s.used == {} && s.size == size && s.bitmap !in Bitmaps()
      ensures forall x :: x in usage[s := {}] ==> x.Valid() && x.used == usage[s := {}][x] && x.size == size
      ensures forall x, y :: x in usage[s := {}] && y in usage[s := {}] && x != y ==> x.bitmap != y.bitmap
    {
      hide Slab.Valid;
    }

    method Link(s: Slab)
      requires Valid() && supply != [] && s !in usage && s.Fits() && s.page == supply[0]
      requires forall x :: x in usage[s := {}] ==> x.Valid() && x.used == usage[s := {}][x] && x.size == size
      requires forall x, y :: x in usage[s := {}] && y in usage[s := {}] && x != y ==> x.bitmap != y.bitmap
      modifies this
      ensures Valid() && Live(usage) == Live(old(usage)) && usage == old(usage)[s := {}]
      ensures free == [s] + old(free) && supply == old(supply)[1..]
      ensures full == old(full) && partial == old(partial) && slabsPerAlloc == old(slabsPerAlloc)
    {
      hide Live, Listed, Slab.Valid, Layout;
      LiveNew(usage, s);
      LayoutWith(usage, s);
      PutOn(usage, own, full, partial, free, s, {});
      pages := pages[supply[0] := s];
      supply := supply[1..];
      free := [s] + free;
      usage := usage[s := {}];
    }

    // ---- usage ----

    /** The size of n objects. */
    function Bytes(n: nat): nat { size * n }

    lemma BytesAdd(a: nat, b: nat)
      ensures Bytes(a + b) == Bytes(a) + Bytes(b) && Bytes(0) == 0
    {
    }

    /** One list: the bytes in use, and the bytes there are. */
    method UsageOf(slabs: seq<Slab>) returns (used: nat, usable: nat)
      requires SlabsOk() && forall s :: s in slabs ==> s in usage
      ensures used == Bytes(SumUsed(slabs, usage)) && usable == Bytes(SumCount(slabs))
    {
      hide SlabsOk, SumUsed, SumCount, Slab.Valid, Bytes;
      used, usable := 0, 0;
      var k := 0;
      assert slabs[..0] == [];
      NoSlabs(usage);
      BytesAdd(0, 0);
      while k < |slabs|
        invariant k <= |slabs| && (forall s :: s in slabs[..k] ==> s in usage)
        invariant used == Bytes(SumUsed(slabs[..k], usage)) && usable == Bytes(SumCount(slabs[..k]))
      {
        var s := slabs[k];
        SlabAt(s);
        assert slabs[..k + 1] == slabs[..k] + [s];
        SumJoin(slabs[..k], [s], usage);
        CountJoin(slabs[..k], [s]);
        Singles(s, usage);
        BytesAdd(SumUsed(slabs[..k], usage), s.objectUsed);
        BytesAdd(SumCount(slabs[..k]), s.objectCount);
        used := used + Bytes(s.objectUsed);
        usable := usable + Bytes(s.objectCount);
        k := k + 1;
      }
      assert slabs[..|slabs|] == slabs;
    }

    /** kmem_cache_get_usage: the bytes in use are those of the objects in use, in one page for each slab. */
    method GetUsage() returns (used: nat, usable: nat, total: nat)
      requires Valid()
      ensures used == size * |Live(usage)|
      ensures usable == size * SumCount([own] + full + partial + free)
      ensures total == PAGE_SIZE * |usage|
    {
      used, usable, total := AddUp();
    }

    method AddUp() returns (used: nat, usable: nat, total: nat)
      requires Valid()
      ensures used == Bytes(|Live(usage)|) && usable == Bytes(SumCount([own] + full + partial + free))
      ensures total == PAGE_SIZE * |usage|
    {
      hide Slab.Valid, Live, SlabsOk, Layout, PagesOk, SumUsed, SumCount, NoDup, Bytes;
      SlabAt(own);
      Totals(usage, own, full, partial, free);
      var f, fAll := UsageOf(full);
      var p, pAll := UsageOf(partial);
      var _, rAll := UsageOf(free);
      used, usable := f + p + Bytes(own.objectUsed), fAll + pAll + rAll + Bytes(own.objectCount);
      total := (1 + |full| + |partial| + |free|) * PAGE_SIZE;
      BytesAdd(SumUsed(full, usage), SumUsed(partial, usage));
      BytesAdd(SumUsed(full, usage) + SumUsed(partial, usage), own.objectUsed);
      BytesAdd(SumCount(full), SumCount(partial));
      BytesAdd(SumCount(full) + SumCount(partial), SumCount(free));
      BytesAdd(SumCount(full) + SumCount(partial) + SumCount(free), own.objectCount);
    }

    static lemma Totals(u: Usage, own: Slab, full: seq<Slab>, partial: seq<Slab>, free: seq<Slab>)
      requires Layout(u) && Listed(u, own, full, partial, free)
      ensures |Live(u)| == SumUsed(full, u) + SumUsed(partial, u) + |u[own]|
      ensures SumCount([own] + full + partial + free) ==
          SumCount(full) + SumCount(partial) + SumCount(free) + own.objectCount
      ensures |u| == 1 + |full| + |partial| + |free|
    {
      forall s | s in full ensures s.objectCount > 0 { LayoutAt(u, s); }
      hide Live, SumUsed, SumCount, NoDup, Layout;
      AllSlabs(u, own, full, partial, free);
      FreeUnused(free, u);
      LiveCount(u, [own] + full + partial + free);
    }
  }
}
