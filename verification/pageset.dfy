/** Page sets, which keep a radix tree of frames, and the update of page tables from them. */
module PageSets {
  import opened PageSize
  import opened BinMap
  import opened PageTables
  import opened Regions
  import opened Translation
  import opened RadixKeys
  import opened RadixTrees
  import opened RadixHeap

  /** The tree's data and tags, page by page. */
  ghost function Slots(t: Tree): (c: seq<Translation.Slot>)
    requires Ok(t, 0)
    ensures |c| == PAGES
  {
    seq(PAGES, d requires 0 <= d < PAGES => Translation.Slot(Value(t, d * PAGE_SIZE, 0), Tag(t, d * PAGE_SIZE, 0)))
  }

  /** Only frames, at offsets of pages. */
  ghost predicate OnlyFrames(t: Tree)
    requires Ok(t, 0)
  {
    forall k :: 0 <= k < KEY_RANGE && Value(t, k, 0) != 0 ==>
      k < BYTES && k % PAGE_SIZE == 0 && Value(t, k, 0) < BYTES && Value(t, k, 0) % PAGE_SIZE == 0
  }

  function PageOf(pageno: nat): (page: nat)
    ensures page <= pageno
  {
    pageno / PAGE_SIZE * PAGE_SIZE
  }

  /** r is t but for the data and the tag of one key. */
  ghost predicate Differs(t: Tree, r: Tree, key: nat, data: nat, tag: nat)
    requires Ok(t, 0) && Ok(r, 0)
  {
    forall k :: 0 <= k < KEY_RANGE ==>
      && Value(r, k, 0) == (if k == key then data else Value(t, k, 0))
      && Tag(r, k, 0) == (if k == key then tag else Tag(t, k, 0))
  }

  lemma DiffersSlots(t: Tree, r: Tree, pageno: nat, phys: nat, tag: nat)
    requires Ok(t, 0) && Ok(r, 0) && OnlyFrames(t) && pageno < BYTES && phys < BYTES && phys % PAGE_SIZE == 0
    requires Differs(t, r, PageOf(pageno), phys, tag)
    ensures OnlyFrames(r) && Slots(r) == Slots(t)[pageno / PAGE_SIZE := Translation.Slot(phys, tag)]
  {
    hide Ok, Value, Tag;
    var d := pageno / PAGE_SIZE;
    forall k | 0 <= k < PAGES ensures Slots(r)[k] == Slots(t)[d := Translation.Slot(phys, tag)][k] {
      assert k * PAGE_SIZE == PageOf(pageno) <==> k == d;
    }
  }

  lemma PutDiffers(t: Tree, u: Tree, r: Tree, key: nat, data: nat)
    requires Ok(t, 0) && Ok(u, 0) && Ok(r, 0) && key < KEY_RANGE
    requires forall k :: 0 <= k < KEY_RANGE ==> Value(u, k, 0) == if k == key then data else Value(t, k, 0)
    requires forall k :: 0 <= k < KEY_RANGE ==> Tag(u, k, 0) == Tag(t, k, 0)
    requires Differs(u, r, key, Value(u, key, 0), 1)
    ensures Differs(t, r, key, data, 1)
  {
    hide Ok, Value, Tag;
  }

  lemma SameSlots(t: Tree, r: Tree)
    requires Ok(t, 0) && Ok(r, 0) && OnlyFrames(t)
    requires forall k :: 0 <= k < KEY_RANGE ==> Value(r, k, 0) == Value(t, k, 0)
    requires forall k :: 0 <= k < KEY_RANGE ==> Tag(r, k, 0) == Tag(t, k, 0)
    ensures OnlyFrames(r) && Slots(r) == Slots(t)
  {
    hide Ok, Value, Tag;
  }

  lemma PageKey(pageno: nat)
    requires pageno < BYTES
    ensures PageOf(pageno) < BYTES && PageOf(pageno) % 64 == 0 && PageOf(pageno) < KEY_RANGE
  {
    var q := pageno / PAGE_SIZE;
    assert q * PAGE_SIZE <= pageno;
    MultipleOf(q * 64, 64);
  }

  lemma MultipleOf(q: nat, d: nat)
    requires d > 0
    ensures q * d % d == 0
  {
    QuotientUnique(q * d, d, q, 0);
  }

  lemma SlotAt(t: Tree, pageno: nat)
    requires Ok(t, 0) && OnlyFrames(t) && pageno < BYTES
    ensures PageOf(pageno) < KEY_RANGE && pageno / PAGE_SIZE < PAGES
    ensures Slots(t)[pageno / PAGE_SIZE] == Translation.Slot(Value(t, PageOf(pageno), 0), Tag(t, PageOf(pageno), 0))
    ensures Value(t, PageOf(pageno), 0) < BYTES && Value(t, PageOf(pageno), 0) % PAGE_SIZE == 0
  {
    hide Ok, Value, Tag;
  }

  lemma FrameHasSlot(t: Tree, pageno: nat)
    requires Ok(t, 0) && pageno < BYTES && pageno / PAGE_SIZE < PAGES
    ensures Slots(t)[pageno / PAGE_SIZE].phys != 0 ==> HasSlot(t, PageOf(pageno), 0)
  {
    hide Ok, At;
  }

  lemma SlotIsRoot(t: Tree, key: nat)
    requires Ok(t, 0) && key < KEY_RANGE && HasSlot(t, key, 0)
    ensures !t.Nil?
  {
  }

  lemma TaggedHasSlot(t: Tree, r: Tree, key: nat, data: nat, tag: nat)
    requires Ok(t, 0) && Ok(r, 0) && key < KEY_RANGE && Differs(t, r, key, data, tag) && tag != 0
    ensures HasSlot(r, key, 0)
  {
    hide Ok, At;
    assert Tag(r, key, 0) == tag;
  }

  lemma TagDiffers(t: Tree, key: nat, tag: nat)
    requires Ok(t, 0) && key < KEY_RANGE && HasSlot(t, key, 0)
    ensures Ok(SetTag(t, key, 0, tag), 0) && Differs(t, SetTag(t, key, 0, tag), key, Value(t, key, 0), tag)
  {
    hide Ok, Value, Tag, SetTag, HasSlot;
    SetTagOnly(t, key, 0, tag, key);
    forall k | 0 <= k < KEY_RANGE
      ensures var r := SetTag(t, key, 0, tag);
        && Value(r, k, 0) == (if k == key then Value(t, key, 0) else Value(t, k, 0))
        && Tag(r, k, 0) == (if k == key then tag else Tag(t, k, 0))
    {
      SetTagOnly(t, key, 0, tag, k);
    }
  }

  class PageSet {
    const tree: RadixTree
    /** vp_pages. */
    var pages: int

    ghost predicate Valid()
      reads this, tree, tree.nodes
    {
      tree.Valid() && Ok(tree.tree, 0) && OnlyFrames(tree.tree)
    }

    ghost function Contents(): (c: seq<Translation.Slot>)
      requires Valid()
      reads this, tree, tree.nodes
      ensures |c| == PAGES
    {
      Slots(tree.tree)
    }

    /** vm_page_set_new. */
    constructor (supply: nat)
      ensures Valid() && pages == 0 && fresh(tree) && tree.nodes == {} && tree.root == null
        && Contents() == seq(PAGES, _ => Translation.Slot(0, 0))
    {
      tree := new RadixTree(supply);
      pages := 0;
    }

    /** There is a slot for the page. */
    ghost predicate HasPage(pageno: nat)
      reads this, tree, tree.nodes
    {
      pageno < BYTES && Valid() && HasSlot(tree.tree, PageOf(pageno), 0)
    }

    /** The allocator can supply the nodes that the page needs. */
    ghost predicate Affords(pageno: nat)
      reads this, tree, tree.nodes
    {
      pageno < BYTES && Valid() && NodesFor(tree.tree, PageOf(pageno)) <= tree.supply
    }

    lemma AffordsWhen(pageno: nat)
      requires Valid() && pageno < BYTES
      ensures tree.supply >= 2 || HasPage(pageno) || Contents()[pageno / PAGE_SIZE].phys != 0 ==> Affords(pageno)
      ensures tree.root == null ==> (Affords(pageno) <==> tree.supply >= 1)
      ensures tree.supply == 0 ==> (Affords(pageno) <==> HasPage(pageno))
    {
      hide Ok, HasSlot, OnlyFrames, Slots, NodesFor, RadixTree.Valid;
      PageKey(pageno);
      tree.ValidOk();
      NodesForSlot(tree.tree, PageOf(pageno));
      FrameHasSlot(tree.tree, pageno);
    }

    /** vm_page_set_put. A page that has had a frame always gets its new one; otherwise two nodes in supply are
        enough, and one for a set without nodes. If the allocator cannot supply them no page changes. */
    method Put(pageno: nat, phys: nat) returns (ok: bool)
      requires Valid() && pageno < BYTES && phys < BYTES && phys % PAGE_SIZE == 0
      modifies this, tree, tree.nodes
      ensures Valid()
      ensures ok <==> old(Affords(pageno))
      ensures old(tree.supply) >= 2 ==> ok
      ensures old(HasPage(pageno)) || old(Contents())[pageno / PAGE_SIZE].phys != 0 ==> ok
      ensures old(tree.root) == null ==> (ok <==> old(tree.supply) >= 1)
      ensures old(tree.supply) == 0 ==> (ok <==> old(HasPage(pageno)))
      ensures |tree.nodes| + tree.supply == |old(tree.nodes)| + old(tree.supply) && (!ok ==> tree.supply == 0)
      ensures ok ==> HasPage(pageno)
      ensures Contents() == if ok then old(Contents())[pageno / PAGE_SIZE := Translation.Slot(phys, 1)]
          else old(Contents())
      ensures pages == (if ok then old(pages) + 1 else old(pages)) && fresh(tree.nodes - old(tree.nodes))
    {
      hide RadixTree.Valid, Ok, Value, Tag, HasSlot, OnlyFrames, Slots, SetTag, Differs;
      var page := PageOf(pageno);
      PageKey(pageno);
      ghost var t := tree.tree;
      AffordsWhen(pageno);
      ok := tree.Set(page, phys);
      tree.ValidOk();
      ghost var u := tree.tree;
      if !ok {
        SameSlots(t, u);
        return;
      }
      SlotIsRoot(u, page);
      TagDiffers(u, page, 1);
      var tagged := tree.WriteTag(page, 1);
      tree.ValidOk();
      PutDiffers(t, u, tree.tree, page, phys);
      TaggedHasSlot(t, tree.tree, page, phys, 1);
      DiffersSlots(t, tree.tree, pageno, phys, 1);
      pages := pages + 1;
    }

    /** vm_page_set_translate. */
    method Translate(pageno: nat) returns (phys: Option<nat>)
      requires Valid() && pageno < BYTES
      ensures var s := Contents()[pageno / PAGE_SIZE]; phys == if s.tag % 2 == 1 then Some(s.phys) else None
    {
      var page := PageOf(pageno);
      var found, data, tag := tree.Lookup(page);
      phys := if found && tag % 2 == 1 then Some(data) else None;
    }

    /** vm_page_set_walk with a callback that never fails: the calls it makes. */
    method Walk() returns (visits: seq<Visit>)
      requires Valid()
      ensures Visits(Contents(), visits)
    {
      hide RadixTree.Valid, Ok, Value, Tag, OnlyFrames, Slots, Visits;
      var walked;
      walked, visits := tree.TreeWalk(v => true);
      assert walked;
      WalkPages(tree.tree, visits);
    }

    /** A set that has a frame has a root; a new one has none. */
    lemma FrameMeansRoot(d: nat)
      requires Valid() && d < PAGES && Contents()[d].phys != 0
      ensures tree.root != null
    {
      hide Ok, Slots;
      tree.ValidOk();
      if tree.tree.Nil? { NoSlots(d); }
    }

    lemma NoSlots(d: nat)
      requires Valid() && d < PAGES && tree.tree.Nil?
      ensures Contents()[d].phys == 0
    {
    }

    /** vm_page_set_remove, on a set that has had a page: the root is not tested before it is followed. */
    method Remove(pageno: nat) returns (ok: bool)
      requires Valid() && pageno < BYTES && tree.root != null
      modifies this, tree, tree.nodes
      ensures Valid()
      ensures var d, c := pageno / PAGE_SIZE,
          old(Contents()); Contents() == c[d := c[d].(tag := c[d].tag - c[d].tag % 2)]
      ensures pages == old(pages) - old(Contents())[pageno / PAGE_SIZE].tag % 2 && tree.nodes == old(tree.nodes)
      ensures ok <==> old(HasPage(pageno))
      ensures old(Contents())[pageno / PAGE_SIZE].phys != 0 ==> ok
    {
      hide RadixTree.Valid, Ok, Value, Tag, HasSlot, OnlyFrames, Slots, SetTag, Differs;
      var page := PageOf(pageno);
      PageKey(pageno);
      SlotAt(tree.tree, pageno);
      FrameHasSlot(tree.tree, pageno);
      var found, data, tag := tree.Lookup(page);
      if !found { return false; }
      if tag % 2 == 1 {
        ghost var t := tree.tree;
        TagDiffers(t, page, tag - 1);
        var tagged := tree.WriteTag(page, tag - 1);
        tree.ValidOk();
        DiffersSlots(t, tree.tree, pageno, data, tag - 1);
        pages := pages - 1;
      }
      ok := true;
    }
  }

  // ---- vm_update_region ----

  ghost function Entries(p: Paging): Hardware
    requires PagingOk(p)
  {
    seq(PAGES, page requires 0 <= page < PAGES => EntryOf(p, page))
  }

  lemma MappedIsRanged(p: Paging, p': Paging, first: nat, phys: nat, n: nat, flags: nat)
    requires PagingOk(p) && PagingOk(p') && MappedBy(p, p', first, phys, n, flags)
    ensures Entries(p') == Ranged(Entries(p), first, phys, n, flags)
  {
    hide PagingOk, EntryOf, Above;
  }

  /** vm_update_region for a range map: on failure, cut is the page it stopped at. */
  method UpdateRange(dir: PageDirectory, start: nat, end: nat, phys: nat, access: nat)
    returns (ok: bool, ghost cut: nat)
    requires dir.Valid() && SpanOk(Span(start, end)) && phys < BYTES && phys % PAGE_SIZE == 0
    modifies dir`tables, dir`supply, dir.dir, dir.tables.Values
    ensures dir.Valid() && fresh(dir.tables.Values - old(dir.tables.Values))
    ensures Entries(dir.Snapshot()) == Translation.Updated(old(Entries(dir.Snapshot())), Area(Span(start, end),
        access, RangeMap(phys)), cut)
    ensures if ok then cut >= PAGES else cut < PAGES && dir.supply == []
    ensures ok <==> old(dir.Affords(Needs(Area(Span(start, end), access, RangeMap(phys)))))
  {
    hide PagingOk, EntryOf, MappedBy, Ranged, X86Flags, Units, Size, PageDirectory.Valid, PageDirectory.Snapshot,
      PageDirectory.Affords, Paid, SlotsToMap;
    dir.ValidPaging();
    ghost var p, a := dir.Snapshot(), Area(Span(start, end), access, RangeMap(phys));
    UnitsIsSize(a);
    ghost var done;
    ok, done := dir.MapRange(start, phys, Units(Area(Span(start, end), access, RangeMap(phys))), X86Flags(access));
    dir.ValidPaging();
    MappedIsRanged(p, dir.Snapshot(), start / PAGE_SIZE, phys / PAGE_SIZE, done, X86Flags(access));
    cut := if ok then PAGES else done;
  }

  /** One more page of the set takes at most the one table it falls in. */
  lemma SlotsReached(start: nat, c: seq<Translation.Slot>, visits: seq<Visit>, i: nat)
    requires |c| == PAGES && Visits(c, visits) && i < |visits|
    ensures var first, d := start / PAGE_SIZE, visits[i].key / PAGE_SIZE;
      SlotsOfSet(first, c, CutAt(visits, i + 1)) == SlotsOfSet(first, c, CutAt(visits, i)) + {SlotAfter(first, d)}
  {
    hide SlotAfter, CutAt, Visits;
    var first, d := start / PAGE_SIZE, visits[i].key / PAGE_SIZE;
    Visited(c, visits, i);
    assert d < PAGES && c[d].phys != 0;
    forall x | 0 <= x < ENTRIES
      ensures FrameHit(first, c, CutAt(visits, i + 1), x) <==>
        FrameHit(first, c, CutAt(visits, i), x) || x == SlotAfter(first, d)
    {
      Reached(c, visits, i, d);
      if FrameHit(first, c, CutAt(visits, i + 1), x) {
        var e :| 0 <= e < |c| && e < CutAt(visits, i + 1) && c[e].phys != 0 && SlotAfter(first, e) == x;
        Reached(c, visits, i, e);
      }
      if FrameHit(first, c, CutAt(visits, i), x) {
        var e :| 0 <= e < |c| && e < CutAt(visits, i) && c[e].phys != 0 && SlotAfter(first, e) == x;
        Reached(c, visits, i, e);
      }
    }
  }

  lemma SlotsBefore(first: nat, c: seq<Translation.Slot>, visits: seq<Visit>)
    requires |c| == PAGES && Visits(c, visits)
    ensures SlotsOfSet(first, c, CutAt(visits, 0)) == {}
  {
    hide Visits;
    forall d | 0 <= d < PAGES && c[d].phys != 0 ensures d >= CutAt(visits, 0) { FirstVisit(c, visits, d); }
  }

  lemma SlotsCut(first: nat, c: seq<Translation.Slot>, cut: nat)
    requires |c| == PAGES
    ensures SlotsOfSet(first, c, cut) <= SlotsOfSet(first, c, PAGES)
  {
    forall x | x in SlotsOfSet(first, c, cut) ensures x in SlotsOfSet(first, c, PAGES) {
      var d :| 0 <= d < |c| && d < cut && c[d].phys != 0 && SlotAfter(first, d) == x;
      assert FrameHit(first, c, PAGES, x);
    }
  }

  /** The one slot of a page. */
  lemma OneSlot(start: nat, key: nat)
    requires start < BYTES && start % PAGE_SIZE == 0 && key < BYTES && key % PAGE_SIZE == 0
    ensures SlotsToMap((start + key) % BYTES / PAGE_SIZE, 1) == {SlotAfter(start / PAGE_SIZE, key / PAGE_SIZE)}
  {
    var d, at := key / PAGE_SIZE, (start + key) % BYTES / PAGE_SIZE;
    assert key == d * PAGE_SIZE;
    Addresses(start, d);
    PageAfterNone(at);
    NoSlots(at);
    SlotsMore(at, 0);
  }

  /** What a map of one page tells. */
  lemma OnePaid(t1: set<nat>, n1: nat, slot: nat, t2: set<nat>, n2: nat, t0: set<nat>, n0: nat, needs: set<nat>)
    requires Paid(t0, n0, needs, t1, n1) && Paid(t1, n1, {slot}, t2, n2)
    ensures Paid(t0, n0, needs + {slot}, t2, n2)
  {
    PayMore(t0, n0, needs, t1, n1, slot);
    if slot in t1 {
      assert {slot} - t1 == {} && t1 + {slot} == t1;
    } else {
      assert {slot} - t1 == {slot};
    }
  }

  lemma NothingPaid(t: set<nat>, n: nat)
    ensures Paid(t, n, {}, t, n)
  {
    assert {} - t == {} && t + {} == t;
  }

  lemma KeyFits(c: seq<Translation.Slot>, v: Visit)
    requires |c| == PAGES && VisitsPage(c, v)
    ensures v.key < BYTES && v.key % PAGE_SIZE == 0
  {
  }

  lemma NotAfforded(t1: set<nat>, n1: nat, slot: nat)
    requires |{slot} - t1| > n1
    ensures slot !in t1 && n1 == 0
  {
    assert slot in t1 ==> {slot} - t1 == {};
    assert slot !in t1 ==> {slot} - t1 == {slot};
  }

  lemma RangedNone(hw: Hardware, first: nat, phys: nat, flags: nat)
    ensures Ranged(hw, first, phys, 0, flags) == hw
  {
  }

  /** The visits are the pages of c that have a frame, in order. */
  ghost predicate Visits(c: seq<Translation.Slot>, visits: seq<Visit>)
    requires |c| == PAGES
  {
    && (forall i :: 0 <= i < |visits| ==> VisitsPage(c, visits[i]))
    && (forall i, j :: 0 <= i < j < |visits| ==> visits[i].key < visits[j].key)
    && forall d :: 0 <= d < PAGES && c[d].phys != 0 ==> exists i :: 0 <= i < |visits| && visits[i].key == d * PAGE_SIZE
  }

  predicate VisitsPage(c: seq<Translation.Slot>, v: Visit)
    requires |c| == PAGES
  {
    && v.key < BYTES && v.key % PAGE_SIZE == 0 && c[v.key / PAGE_SIZE] == Translation.Slot(v.data, v.tag)
    && 0 < v.data < BYTES && v.data % PAGE_SIZE == 0
  }

  lemma VisitFits(c: seq<Translation.Slot>, v: Visit)
    requires |c| == PAGES && VisitsPage(c, v)
    ensures v.data < BYTES && v.data % PAGE_SIZE == 0
  {
  }

  /** The page of the set that a walk has reached after i calls. */
  function CutAt(visits: seq<Visit>, i: nat): nat
  {
    if i < |visits| then visits[i].key / PAGE_SIZE else PAGES
  }

  lemma WalkPages(t: Tree, visits: seq<Visit>)
    requires Ok(t, 0) && OnlyFrames(t) && Ascending(visits)
    requires forall v :: v in visits ==>
      v.key < KEY_RANGE && v.data != 0 && Value(t, v.key, 0) == v.data && Tag(t, v.key, 0) == v.tag
    requires forall k :: 0 <= k < KEY_RANGE && Value(t, k, 0) != 0 ==> Visit(k, Value(t, k, 0), Tag(t, k, 0)) in visits
    ensures Visits(Slots(t), visits)
  {
    hide Ok, Value, Tag;
    var c := Slots(t);
    forall i | 0 <= i < |visits| ensures VisitsPage(c, visits[i]) {
      var v := visits[i];
      assert v in visits && v.key == v.key / PAGE_SIZE * PAGE_SIZE;
    }
    forall d | 0 <= d < PAGES && c[d].phys != 0 ensures exists i ::
         0 <= i < |visits| && visits[i].key == d * PAGE_SIZE {
      var k := d * PAGE_SIZE;
      var i :| 0 <= i < |visits| && visits[i] == Visit(k, Value(t, k, 0), Tag(t, k, 0));
    }
  }

  lemma FilledNone(hw: Hardware, first: nat, c: seq<Translation.Slot>, access: nat, visits: seq<Visit>)
    requires |c| == PAGES && Visits(c, visits)
    ensures Filled(hw, first, c, access, CutAt(visits, 0)) == hw
  {
    hide Above, X86Flags, Perms;
    forall d | 0 <= d < CutAt(visits, 0) && d < PAGES ensures c[d].phys == 0 {
      if c[d].phys != 0 { FirstVisit(c, visits, d); }
    }
  }

  lemma FirstVisit(c: seq<Translation.Slot>, visits: seq<Visit>, d: nat)
    requires |c| == PAGES && Visits(c, visits) && d < PAGES && c[d].phys != 0
    ensures CutAt(visits, 0) <= d
  {
    var i :| 0 <= i < |visits| && visits[i].key == d * PAGE_SIZE;
    if i > 0 { PagesAscend(c, visits, 0, i); }
  }

  lemma VisitOf(c: seq<Translation.Slot>, visits: seq<Visit>, d: nat) returns (j: nat)
    requires |c| == PAGES && Visits(c, visits) && d < PAGES && c[d].phys != 0
    ensures j < |visits| && visits[j].key / PAGE_SIZE == d
  {
    j :| 0 <= j < |visits| && visits[j].key == d * PAGE_SIZE;
  }

  /** What the i-th call adds to the pages reached. */
  lemma Reached(c: seq<Translation.Slot>, visits: seq<Visit>, i: nat, d: nat)
    requires |c| == PAGES && Visits(c, visits) && i < |visits| && d < PAGES && c[d].phys != 0
    ensures d < CutAt(visits, i + 1) <==> d < CutAt(visits, i) || d == visits[i].key / PAGE_SIZE
  {
    hide Visits, VisitsPage;
    var j := VisitOf(c, visits, d);
    if j < i { PagesAscend(c, visits, j, i); }
    if i < j { PagesAscend(c, visits, i, j); }
    if i + 1 < |visits| {
      PagesAscend(c, visits, i, i + 1);
      if i + 1 < j { PagesAscend(c, visits, i + 1, j); }
    }
  }

  /** One more page mapped. */
  lemma FilledMore(hw: Hardware, start: nat, c: seq<Translation.Slot>, access: nat, visits: seq<Visit>, i: nat)
    requires |c| == PAGES && Visits(c, visits) && i < |visits| && start < BYTES && start % PAGE_SIZE == 0
    ensures var v, first := visits[i], start / PAGE_SIZE;
      Ranged(Filled(hw, first, c, access, CutAt(visits, i)), (start + v.key) % BYTES / PAGE_SIZE, v.data / PAGE_SIZE, 1,
             X86Flags(Perms(access, v.tag)))
      == Filled(hw, first, c, access, CutAt(visits, i + 1))
  {
    hide Above, X86Flags, Perms, Visits, CutAt;
    var v, first := visits[i], start / PAGE_SIZE;
    Visited(c, visits, i);
    var a, b := Filled(hw, first, c, access, CutAt(visits, i)), Filled(hw, first, c, access, CutAt(visits, i + 1));
    var at, flags := (start + v.key) % BYTES / PAGE_SIZE, X86Flags(Perms(access, v.tag));
    forall page | 0 <= page < PAGES ensures Ranged(a, at, v.data / PAGE_SIZE, 1, flags)[page] == b[page] {
      var d := Above(page, first);
      WherePage(page, start, v.key);
      Frames(v.data, Above(page, at));
      if c[d].phys != 0 { Reached(c, visits, i, d); }
    }
  }

  lemma Visited(c: seq<Translation.Slot>, visits: seq<Visit>, i: nat)
    requires |c| == PAGES && Visits(c, visits) && i < |visits|
    ensures VisitsPage(c, visits[i])
  {
  }

  lemma PagesAscend(c: seq<Translation.Slot>, visits: seq<Visit>, i: nat, j: nat)
    requires |c| == PAGES && Visits(c, visits) && i < j < |visits|
    ensures visits[i].key / PAGE_SIZE < visits[j].key / PAGE_SIZE
  {
    assert VisitsPage(c, visits[i]) && VisitsPage(c, visits[j]);
  }

  lemma WherePage(page: nat, start: nat, key: nat)
    requires page < PAGES && start < BYTES && start % PAGE_SIZE == 0 && key < BYTES && key % PAGE_SIZE == 0
    ensures var at := (start + key) % BYTES / PAGE_SIZE;
      Above(page, at) < 1 <==> Above(page, start / PAGE_SIZE) == key / PAGE_SIZE
  {
    var d, first := key / PAGE_SIZE, start / PAGE_SIZE;
    assert key == d * PAGE_SIZE && start == first * PAGE_SIZE;
    Addresses(start, d);
    AboveIs(page, first, d);
    AboveIs(page, PageAfter(first, d), 0);
  }

  lemma Frames(data: nat, above: nat)
    requires data < BYTES && data % PAGE_SIZE == 0
    ensures above < 1 ==> (data / PAGE_SIZE + above) % PAGES * PAGE_SIZE == data
  {
  }

  /** The entries and the tables after i calls of the walk. */
  ghost predicate Progress(dir: PageDirectory, hw: Hardware, first: nat, c: seq<Translation.Slot>, access: nat,
                           cut: nat, t0: set<nat>, n0: nat)
    reads dir, dir.dir, dir.tables.Values
  {
    && dir.Valid() && |c| == PAGES
    && Entries(dir.Snapshot()) == Filled(hw, first, c, access, cut)
    && Paid(t0, n0, SlotsOfSet(first, c, cut), dir.Tables(), |dir.supply|)
  }

  /** __map_pages, the i-th call. */
  method MapVisit(dir: PageDirectory, start: nat, visits: seq<Visit>, i: nat, access: nat,
                  ghost c: seq<Translation.Slot>, ghost hw: Hardware, ghost t0: set<nat>, ghost n0: nat)
    returns (ok: bool)
    requires |c| == PAGES && Visits(c, visits) && i < |visits| && start < BYTES && start % PAGE_SIZE == 0
    requires Progress(dir, hw, start / PAGE_SIZE, c, access, CutAt(visits, i), t0, n0)
    modifies dir`tables, dir`supply, dir.dir, dir.tables.Values
    ensures dir.Valid() && fresh(dir.tables.Values - old(dir.tables.Values))
    ensures ok ==> Progress(dir, hw, start / PAGE_SIZE, c, access, CutAt(visits, i + 1), t0, n0)
    ensures !ok ==>
      && Entries(dir.Snapshot()) == Filled(hw, start / PAGE_SIZE, c, access, CutAt(visits, i)) && dir.supply == []
      && |SlotsOfSet(start / PAGE_SIZE, c, PAGES) - t0| > n0
  {
    hide PagingOk, EntryOf, MappedBy, Ranged, X86Flags, Perms, PageDirectory.Valid, PageDirectory.Snapshot, Filled,
      Visits, VisitsPage, Paid, SlotsToMap, SlotsOfSet, SlotAfter, TablesIn;
    dir.ValidPaging();
    ghost var p, cut, first := dir.Snapshot(), CutAt(visits, i), start / PAGE_SIZE;
    var v := visits[i];
    Visited(c, visits, i);
    VisitFits(c, v);
    KeyFits(c, v);
    var flags := X86Flags(Perms(access, v.tag));
    ghost var done, t1, n1, slot := 0, dir.Tables(), |dir.supply|, SlotAfter(first, v.key / PAGE_SIZE);
    OneSlot(start, v.key);
    SlotsReached(start, c, visits, i);
    ok, done := dir.MapRange((start + v.key) % BYTES, v.data, 1, flags);
    dir.ValidPaging();
    MappedIsRanged(p, dir.Snapshot(), (start + v.key) % BYTES / PAGE_SIZE, v.data / PAGE_SIZE, done, flags);
    if !ok {
      NotAfforded(t1, n1, slot);
      SlotsCut(first, c, CutAt(visits, i + 1));
      CannotPay(t0, n0, SlotsOfSet(first, c, cut), t1, slot, SlotsOfSet(first, c, PAGES));
      RangedNone(Entries(p), (start + v.key) % BYTES / PAGE_SIZE, v.data / PAGE_SIZE, flags);
      return;
    }
    FilledMore(hw, start, c, access, visits, i);
    OnePaid(t1, n1, slot, dir.Tables(), |dir.supply|, t0, n0, SlotsOfSet(first, c, cut));
  }

  /** vm_update_region for a page set: on failure, cut is the page of the set it stopped at. */
  method UpdateSet(dir: PageDirectory, start: nat, pageSet: PageSet, access: nat) returns (ok: bool, ghost cut: nat)
    requires dir.Valid() && pageSet.Valid() && start < BYTES && start % PAGE_SIZE == 0
    modifies dir`tables, dir`supply, dir.dir, dir.tables.Values
    ensures dir.Valid() && fresh(dir.tables.Values - old(dir.tables.Values))
    ensures pageSet.Valid() && pageSet.Contents() == old(pageSet.Contents())
    ensures Entries(dir.Snapshot()) == Filled(old(Entries(dir.Snapshot())), start / PAGE_SIZE, pageSet.Contents(),
        access, cut)
    ensures if ok then cut >= PAGES else cut < PAGES && dir.supply == []
    ensures ok <==> old(dir.Affords(SlotsOfSet(start / PAGE_SIZE, pageSet.Contents(), PAGES)))
  {
    hide PagingOk, EntryOf, PageDirectory.Valid, PageDirectory.Snapshot, PageSet.Valid, PageSet.Contents, Slots,
      Filled, Visits, VisitsPage, Paid, SlotsOfSet, TablesIn;
    ok := true;
    ghost var c := pageSet.Contents();
    var visits := pageSet.Walk();
    dir.ValidPaging();
    ghost var hw, t0, n0, first := Entries(dir.Snapshot()), dir.Tables(), |dir.supply|, start / PAGE_SIZE;
    FilledNone(hw, first, c, access, visits);
    SlotsBefore(first, c, visits);
    NothingPaid(t0, n0);
    cut := CutAt(visits, 0);
    var i := 0;
    while i < |visits|
      invariant i <= |visits| && fresh(dir.tables.Values - old(dir.tables.Values)) && cut == CutAt(visits, i)
      invariant pageSet.Valid() && pageSet.Contents() == c && Visits(c, visits)
      invariant Progress(dir, hw, first, c, access, cut, t0, n0)
    {
      ok := MapVisit(dir, start, visits, i, access, c, hw, t0, n0);
      if !ok {
        Visited(c, visits, i);
        CutBelow(c, visits[i]);
        return;
      }
      i := i + 1;
      cut := CutAt(visits, i);
    }
    dir.PaidEnough(t0, n0, SlotsOfSet(first, c, PAGES), dir.Tables(), |dir.supply|);
  }

  lemma CutBelow(c: seq<Translation.Slot>, v: Visit)
    requires |c| == PAGES && VisitsPage(c, v)
    ensures v.key / PAGE_SIZE < PAGES
  {
  }
}
