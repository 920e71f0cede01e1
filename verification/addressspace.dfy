/** An address space put together: the tree of regions, their page sets, and the page tables. */
module AddressSpaces {
  import opened PageSize
  import opened PageTables
  import R = Regions
  import opened Translation
  import opened SpaceRuns
  import opened VmSpaces
  import opened PageSets
  import opened RadixHeap
  import T = RadixTrees

  /** What is behind a region: frames from phys on, or a page set. */
  class Part {
    const access: nat
    const phys: nat
    const pages: PageSet?

    constructor (access: nat, phys: nat, pages: PageSet?)
      ensures this.access == access && this.phys == phys && this.pages == pages
    {
      this.access, this.phys, this.pages := access, phys, pages;
    }

    ghost predicate Shows(a: Area)
      reads if pages == null then {} else {pages, pages.tree} + pages.tree.nodes
    {
      && access == a.access
      && match a.backing
         case RangeMap(p) => pages == null && phys == p
         case PageMap(c) => pages != null && pages.Valid() && pages.Contents() == c
    }
  }

  class AddressSpace {
    const space: VmSpace
    const dir: PageDirectory
    /** What is behind the region at each key. */
    var parts: map<nat, Part>

    /** The state that regions, page sets and page tables are in. */
    ghost var state: State
    // the page sets, and what they consist of
    ghost var sets: set<PageSet>
    ghost var trees: set<RadixTree>
    ghost var nodes: set<T.RadixNode>

    ghost predicate SpaceShows(spans: R.Space)
      reads space, space.tree, space.tree.nodes, space.regions.Values
    {
      space.Valid() && space.Spans() == spans
    }

    ghost predicate DirShows(hw: Hardware)
      reads dir, dir.dir, dir.tables.Values
    {
      dir.Valid() && Entries(dir.Snapshot()) == hw
    }

    /** No two regions share a page set. */
    ghost predicate Apart()
      reads `parts, `sets, `trees, `nodes, trees
    {
      && (forall k :: k in parts && parts[k].pages != null ==> parts[k].pages in sets)
      && (forall s :: s in sets ==> s.tree in trees && s.tree.nodes <= nodes)
      && (forall j, k :: j in parts && k in parts && j != k && parts[j].pages != null ==>
           parts[j].pages != parts[k].pages)
      && forall s, t :: s in sets && t in sets && s != t ==> s.tree != t.tree && s.tree.nodes !! t.tree.nodes
    }

    ghost predicate PartsShow(areas: map<nat, Area>)
      requires Apart()
      reads `parts, `sets, `trees, `nodes, sets, trees, nodes
    {
      parts.Keys == areas.Keys && forall k :: k in areas ==> parts[k].Shows(areas[k])
    }

    ghost predicate Valid()
      reads this, sets, trees, nodes
      reads space, space.tree, space.tree.nodes, space.regions.Values, dir, dir.dir, dir.tables.Values
    {
      Inv(state) && SpaceShows(Spans(state)) && DirShows(state.hw) && Apart() && PartsShow(state.areas)
    }

    /** A new space, with an empty directory. */
    constructor (supply: seq<nat>)
      requires SupplyOk(supply, {})
      ensures Valid() && state == NEW
    {
      hide Inv, PagingOk, EntryOf, SupplyOk, VmSpace.Valid, PageDirectory.Valid, PageDirectory.Snapshot, Entries;
      space := new VmSpace();
      dir := new PageDirectory(supply);
      parts, sets, trees, nodes, state := map[], {}, {}, {}, NEW;
      new;
      NewOk();
      assert Spans(NEW) == map[];
      dir.ValidPaging();
      NoEntries(dir.Snapshot());
    }

    /** What the page tables in memory make of an address is what the regions say. */
    lemma WalkTranslates(addr: nat)
      requires Valid() && addr < BYTES
      ensures AreasOk(state) && PagingOk(dir.Snapshot()) && Translates(state, dir.Snapshot(), addr)
    {
      hide Inv, Apart, PartsShow, SpaceShows, Translates, PageDirectory.Snapshot, PagingOk, EntryOf;
      dir.ValidPaging();
      EntriesHold(dir.Snapshot(), state.hw);
      InvTranslates(state, dir.Snapshot(), addr);
    }

    lemma EntriesHold(p: Paging, hw: Hardware)
      requires PagingOk(p) && Entries(p) == hw
      ensures SpaceRuns.Holds(p, hw)
    {
    }

    lemma NoEntries(p: Paging)
      requires PagingOk(p) && forall page :: 0 <= page < PAGES ==> EntryOf(p, page) == 0
      ensures Entries(p) == NEW.hw
    {
    }

    /** vm_region_translate_page. */
    method TranslatePage(part: Part, page: nat, start: nat, end: nat, ghost a: Area) returns (phys: Option<nat>)
      requires AreaOk(a) && a.span == R.Span(start, end) && part.Shows(a)
      requires page < BYTES && page % PAGE_SIZE == 0
      ensures Covers(a, page / PAGE_SIZE) ==> phys == Soft(a, page / PAGE_SIZE)
    {
      hide PageSet.Valid, PageSet.Contents;
      if Covers(a, page / PAGE_SIZE) { PageFits(a, page); }
      if part.pages == null {
        phys := if page < start || page > end then None else Some((page - start + part.phys) % BYTES);
      } else {
        phys := part.pages.Translate((page - start) % BYTES);
      }
    }

    lemma PageFits(a: Area, page: nat)
      requires AreaOk(a) && page < BYTES && page % PAGE_SIZE == 0 && Covers(a, page / PAGE_SIZE)
      ensures a.span.first <= page <= a.span.last < BYTES
      ensures (page - a.span.first) / PAGE_SIZE == page / PAGE_SIZE - FirstPage(a)
      ensures page / PAGE_SIZE * PAGE_SIZE == page
    {
      AddressInside(a, page);
      assert page - a.span.first == (page / PAGE_SIZE - FirstPage(a)) * PAGE_SIZE;
    }

    /** vm_space_find_region, on the regions that spans says. */
    method RegionFor(virt: nat, ghost spans: R.Space) returns (region: VmRegion?)
      requires SpaceShows(spans) && R.Keyed(spans) && virt < BYTES
      modifies space.tree`cachedKey, space.tree`cachedNode, space.tree`cachedMode
      ensures SpaceShows(spans)
      ensures var k := R.RegionAt(spans, virt);
        && (region == null <==> k !in spans)
        && (k in spans ==> k == region.virtStart && spans[k] == R.Span(region.virtStart, region.virtEnd))
    {
      hide VmSpace.Valid, VmSpace.Spans, VmSpace.Named, R.RegionAt;
      region := space.FindRegion(virt);
      ghost var k := R.RegionAt(spans, virt);
      space.NamedIff(k);
      if region != null { space.NamedSpan(k); }
    }

    /** virt2phys. */
    method VirtToPhys(virt: nat) returns (phys: nat)
      requires Valid() && virt < BYTES
      modifies space.tree`cachedKey, space.tree`cachedNode, space.tree`cachedMode
      ensures Valid() && state == old(state) && phys == PhysOf(state, virt)
    {
      hide Inv, DirShows, PartsShow, Apart, AreaOk, Covers, Soft, Part.Shows, R.RegionAt, Spans, SpaceShows, R.Keyed;
      RegionHere(state, virt) by { InvAreas(state); }
      KeysAreStarts(state);
      var region := RegionFor(virt, Spans(state));
      if region == null { return 0; }
      ghost var k := R.RegionAt(Spans(state), virt);
      PartAt(k);
      var page := virt / PAGE_SIZE * PAGE_SIZE;
      var found := TranslatePage(parts[region.virtStart], page, region.virtStart, region.virtEnd, state.areas[k]);
      phys := match found case None => 0 case Some(f) => f + virt % PAGE_SIZE;
    }

    lemma InvAreas(s: State)
      requires Inv(s)
      ensures AreasOk(s)
    {
      hide AreasOk;
    }

    lemma KeysAreStarts(s: State)
      requires Inv(s)
      ensures R.Keyed(Spans(s)) && forall k :: k in s.areas ==> k in Spans(s) && Spans(s)[k] == s.areas[k].span
    {
      hide R.Ordered, AreaOk, R.Keyed;
    }

    /** What is behind a region. */
    lemma PartAt(k: nat)
      requires Apart() && PartsShow(state.areas) && k in state.areas
      ensures k in parts && parts[k].Shows(state.areas[k])
    {
      hide Part.Shows;
    }

    /** vm_update_region: what is behind the region goes into the page tables. */
    method UpdatePart(part: Part, start: nat, end: nat, ghost a: Area, ghost hw: Hardware)
      returns (ok: bool, ghost cut: nat)
      requires DirShows(hw) && AreaOk(a) && a.span == R.Span(start, end) && part.Shows(a)
      modifies dir`tables, dir`supply, dir.dir, dir.tables.Values
      ensures DirShows(Updated(hw, a, cut)) && fresh(dir.tables.Values - old(dir.tables.Values)) && part.Shows(a)
      ensures (ok <==> cut >= PAGES) && (ok <==> old(dir.Affords(Needs(a))))
    {
      hide PagingOk, EntryOf, SupplyOk, PageDirectory.Valid, PageDirectory.Snapshot, Entries, Ranged, Filled,
        PageSet.Valid, PageSet.Contents, Size, PageDirectory.Affords, SlotsOfSet, SlotsToMap, Units;
      if part.pages == null {
        ok, cut := UpdateRange(dir, start, end, part.phys, part.access);
      } else {
        ok, cut := UpdateSet(dir, start, part.pages, part.access);
      }
    }

    /** vm_update_region, of the region at key k. It succeeds, and leaves the region up to date, exactly if there are
        pages enough for the tables that are missing. */
    method Update(k: nat, region: VmRegion) returns (ok: bool, ghost cut: nat)
      requires Valid() && space.Valid() && k in parts && space.Named(k) == region
      modifies `state, dir`tables, dir`supply, dir.dir, dir.tables.Values
      ensures Valid() && fresh(dir.tables.Values - old(dir.tables.Values))
      ensures Enabled(old(state), Event.Update(k, cut)) && state == Step(old(state), Event.Update(k, cut))
      ensures ok <==> k !in state.stale
      ensures k in old(state).areas && (ok <==> old(dir.Affords(Needs(state.areas[k]))))
    {
      hide PageDirectory.Affords, Needs;
      hide Inv, SpaceShows, DirShows, PartsShow, Apart, Updated, AreaOk, Step, Spans, VmSpace.Valid, VmSpace.Named,
        Part.Shows;
      ghost var s0 := state;
      RegionArea(k, region);
      ok, cut := UpdatePart(parts[k], region.virtStart, region.virtEnd, state.areas[k], state.hw);
      StepKeeps(s0, Event.Update(k, cut));
      UpdateIs(s0, k, cut);
      state := Step(s0, Event.Update(k, cut));
    }

    lemma UpdateIs(s: State, k: nat, cut: nat)
      requires Enabled(s, Event.Update(k, cut))
      ensures var t := Step(s, Event.Update(k, cut));
        && t.areas == s.areas && Spans(t) == Spans(s) && t.hw == Updated(s.hw, s.areas[k], cut)
        && (cut >= PAGES <==> k !in t.stale)
    {
      hide Updated, AreaOk;
    }

    /** The region at a key and what is behind it are the area of the state. */
    lemma RegionArea(k: nat, region: VmRegion)
      requires Valid() && space.Valid() && k in parts && space.Named(k) == region
      ensures k in state.areas && AreaOk(state.areas[k]) && parts[k].Shows(state.areas[k])
      ensures state.areas[k].span == R.Span(region.virtStart, region.virtEnd)
    {
      hide Inv, VmSpace.Valid, VmSpace.Spans, VmSpace.Named, AreaOk, DirShows, Part.Shows, Spans;
      AreaAt(state, k);
      space.NamedSpan(k);
    }

    /** The bounds of the region change in the tree. */
    method ResizeInTree(k: nat, region: VmRegion, pages: nat, agrees: bool, ghost spans: R.Space) returns (ok: bool)
      requires SpaceShows(spans) && space.Valid() && space.Named(k) == region && k < BYTES && 0 < pages < PAGES
      modifies region`virtStart, region`virtEnd
      ensures var e := R.Resize(k, k, pages);
        ok == (agrees && R.Accepts(spans, e)) && SpaceShows(if agrees then R.Step(spans, e) else spans)
    {
      hide VmSpace.Valid, VmSpace.Spans, VmSpace.SpansOf, VmSpace.Registered, VmSpace.Named, R.Accepts, R.Step;
      NodeKey(k, region);
      ok := space.Resize(region, k, pages, agrees);
      SpansBack();
    }

    lemma SpansBack()
      requires space.Valid()
      ensures space.Spans() == space.SpansOf(space.tree.Contents())
    {
    }

    lemma NodeKey(k: nat, region: VmRegion)
      requires space.Valid() && space.Named(k) == region
      ensures region.node != null && region.node.key == k
    {
      hide VmSpace.SpansOf;
    }

    /** vm_region_resize, of the region at key k to more pages from the same start; agrees is the answer of the region's
        own resize operation. The region is up to date again after an update. */
    method Grow(k: nat, region: VmRegion, pages: nat, agrees: bool) returns (ok: bool)
      requires Valid() && space.Valid() && space.Named(k) == region && Enabled(state, Event.Grow(k, pages))
      modifies `state, region`virtStart, region`virtEnd
      ensures Valid() && ok == (agrees && R.Accepts(Spans(old(state)), R.Resize(k, k, pages)))
      ensures state == if agrees then Step(old(state), Event.Grow(k, pages)) else old(state)
    {
      hide Inv, SpaceShows, DirShows, PartsShow, Apart, AreaOk, Step, Spans, VmSpace.Valid, VmSpace.Named, Part.Shows,
        R.Accepts, R.Step, Size;
      ghost var s0 := state;
      GrowIs(s0, k, pages);
      ok := ResizeInTree(k, region, pages, agrees, Spans(s0));
      if agrees {
        PartsKept(s0.areas, Step(s0, Event.Grow(k, pages)).areas);
        StepKeeps(s0, Event.Grow(k, pages));
        state := Step(s0, Event.Grow(k, pages));
      }
    }

    lemma PartsKept(areas: map<nat, Area>, areas': map<nat, Area>)
      requires Apart() && PartsShow(areas) && areas'.Keys == areas.Keys
      requires forall k :: k in areas ==> areas'[k].access == areas[k].access && areas'[k].backing == areas[k].backing
      ensures PartsShow(areas')
    {
    }

    lemma StartBelow(a: Area)
      requires R.SpanOk(a.span)
      ensures a.span.first < BYTES
    {
    }

    lemma GrowIs(s: State, k: nat, pages: nat)
      requires Inv(s) && Enabled(s, Event.Grow(k, pages))
      ensures k < BYTES && 0 < pages < PAGES
      ensures var t := Step(s, Event.Grow(k, pages));
        && t.areas.Keys == s.areas.Keys && t.hw == s.hw && Spans(t) == R.Step(Spans(s), R.Resize(k, k, pages))
        && forall j :: j in s.areas ==>
             t.areas[j].access == s.areas[j].access && t.areas[j].backing == s.areas[j].backing
    {
      hide AreaOk, R.Accepts, R.NewSpan, NothingOutside, NothingFrameless, Synced, R.Ordered;
      AreaAt(s, k);
      KeysAreStarts(s);
      SpanOfOk(s.areas[k]);
      StartBelow(s.areas[k]);
      var t := Step(s, Event.Grow(k, pages));
      assert Spans(t) == R.Step(Spans(s), R.Resize(k, k, pages));
    }

    // ---- one page set among the others ----

    /** The area with what the page set at k holds now. */
    ghost predicate SetChanged(k: nat, areas: map<nat, Area>, c: seq<Slot>)
      requires Apart() && k in areas && areas[k].backing.PageMap?
      reads `parts, `sets, `trees, `nodes, sets, trees, nodes
    {
      PartsShow(areas[k := areas[k].(backing := PageMap(c))])
    }

    /** Every region but the one at k is as areas says. */
    ghost predicate OthersShow(k: nat, areas: map<nat, Area>)
      requires Apart()
      reads `parts, `sets, `trees, `nodes, sets, trees, nodes
    {
      parts.Keys == areas.Keys && forall j :: j in areas && j != k ==> parts[j].Shows(areas[j])
    }

    lemma SetAt(k: nat, areas: map<nat, Area>)
      requires Apart() && PartsShow(areas) && k in areas && parts[k].pages != null
      ensures var s := parts[k].pages; s in sets && s.tree in trees && s.tree.nodes <= nodes && s.Valid()
      ensures areas[k].backing.PageMap? && parts[k].pages.Contents() == areas[k].backing.pages && OthersShow(k, areas)
      ensures parts[k].access == areas[k].access
    {
    }

    lemma SetBack(k: nat, areas: map<nat, Area>, c: seq<Slot>)
      requires Apart() && OthersShow(k, areas) && k in areas && areas[k].backing.PageMap?
        && parts[k].access == areas[k].access
      requires parts[k].pages != null && parts[k].pages.Valid() && parts[k].pages.Contents() == c
      ensures SetChanged(k, areas, c)
    {
    }

    method PutAt(k: nat, pageno: nat, phys: nat, ghost areas: map<nat, Area>) returns (ok: bool)
      requires Apart() && PartsShow(areas) && k in areas && parts[k].pages != null && areas[k].backing.PageMap?
      requires pageno < BYTES && phys < BYTES && phys % PAGE_SIZE == 0 && |areas[k].backing.pages| == PAGES
      modifies `nodes, parts[k].pages, parts[k].pages.tree, parts[k].pages.tree.nodes
      ensures Apart() && SetChanged(k, areas, if ok
          then areas[k].backing.pages[pageno / PAGE_SIZE := Slot(phys, 1)] else areas[k].backing.pages)
      ensures ok <==> old(parts[k].pages.Affords(pageno))
    {
      hide PageSet.Valid, PageSet.Contents, PageSet.Affords, PageSet.HasPage, PartsShow, SetChanged, Part.Shows;
      SetAt(k, areas);
      var s := parts[k].pages;
      ok := s.Put(pageno, phys);
      nodes := nodes + s.tree.nodes;
      SetBack(k, areas, if ok then areas[k].backing.pages[pageno / PAGE_SIZE := Slot(phys, 1)]
          else areas[k].backing.pages);
    }

    /** vm_page_set_put, through the region at key k: pageno counts bytes from the region's start. */
    method Put(k: nat, pageno: nat, phys: nat) returns (ok: bool)
      requires Valid() && k in parts && parts[k].pages != null && k in state.areas
      requires pageno < BYTES && pageno / PAGE_SIZE < Size(state.areas[k]) && 0 < phys < BYTES && phys % PAGE_SIZE == 0
      modifies `state, `nodes, parts[k].pages, parts[k].pages.tree, parts[k].pages.tree.nodes
      ensures Valid()
      ensures ok <==> old(parts[k].pages.Affords(pageno))
      ensures old(parts[k].pages.tree.supply) >= 2 ==> ok
      ensures old(parts[k].pages.tree.root) == null ==> (ok <==> old(parts[k].pages.tree.supply) >= 1)
      ensures old(HasHad(state, k, pageno / PAGE_SIZE)) ==> ok
      ensures ok ==> Enabled(old(state), Event.Put(k, pageno / PAGE_SIZE, phys)) && state == Step(old(state),
          Event.Put(k, pageno / PAGE_SIZE, phys))
      ensures !ok ==> state == old(state)
    {
      hide Inv, SpaceShows, DirShows, AreaOk, Step, Spans, Part.Shows, Apart, Enabled, PageSet.Valid, OthersShow,
        PartsShow, PageSet.Contents, PageSet.Affords;
      ghost var s0, d := state, pageno / PAGE_SIZE;
      SetAt(k, s0.areas);
      PutIs(s0, k, d, phys);
      parts[k].pages.AffordsWhen(pageno);
      ok := PutAt(k, pageno, phys, s0.areas);
      SameBack(s0.areas, k);
      if ok {
        StepKeeps(s0, Event.Put(k, d, phys));
        state := Step(s0, Event.Put(k, d, phys));
      }
    }

    /** The page at offset d of the region at k has a frame, removed or not. */
    ghost predicate HasHad(s: State, k: nat, d: nat)
    {
      && k in s.areas && s.areas[k].backing.PageMap? && d < |s.areas[k].backing.pages|
      && s.areas[k].backing.pages[d].phys != 0
    }

    lemma SameBack(areas: map<nat, Area>, k: nat)
      requires k in areas && areas[k].backing.PageMap?
      ensures areas[k := areas[k].(backing := PageMap(areas[k].backing.pages))] == areas
    {
    }

    lemma PutIs(s: State, k: nat, d: nat, phys: nat)
      requires Inv(s) && k in s.areas && s.areas[k].backing.PageMap? && d < Size(s.areas[k]) && 0 < phys < BYTES
        && phys % PAGE_SIZE == 0
      ensures d < |s.areas[k].backing.pages| == PAGES && Enabled(s, Event.Put(k, d, phys))
      ensures var t := Step(s, Event.Put(k, d, phys));
        && t.areas == s.areas[k := WithSlot(s.areas[k], d, Slot(phys, 1))] && Spans(t) == Spans(s) && t.hw == s.hw
    {
      AreaAt(s, k);
      UnitsIsSize(s.areas[k]);
      hide Inv;
      var t := Step(s, Event.Put(k, d, phys));
      assert Spans(t) == Spans(s);
    }

    method RemoveAt(k: nat, pageno: nat, ghost areas: map<nat, Area>) returns (ok: bool)
      requires Apart() && PartsShow(areas) && k in areas && parts[k].pages != null && areas[k].backing.PageMap?
        && pageno < BYTES
      requires |areas[k].backing.pages| == PAGES && parts[k].pages.tree.root != null
      modifies parts[k].pages, parts[k].pages.tree, parts[k].pages.tree.nodes
      ensures Apart()
      ensures var d, c := pageno / PAGE_SIZE, areas[k].backing.pages;
        SetChanged(k, areas, c[d := c[d].(tag := c[d].tag - c[d].tag % 2)]) && (c[d].phys != 0 ==> ok)
      ensures ok <==> old(parts[k].pages.HasPage(pageno))
    {
      hide PageSet.Valid, PageSet.Contents, PageSet.Affords, PageSet.HasPage, PartsShow, SetChanged, Part.Shows;
      SetAt(k, areas);
      var s := parts[k].pages;
      ok := s.Remove(pageno);
      ghost var d, c := pageno / PAGE_SIZE, areas[k].backing.pages;
      SetBack(k, areas, c[d := c[d].(tag := c[d].tag - c[d].tag % 2)]);
    }

    /** vm_page_set_remove, through the region at key k, whose page set has had a page. */
    method Remove(k: nat, pageno: nat) returns (ok: bool)
      requires Valid() && k in parts && parts[k].pages != null && pageno < BYTES
        && Enabled(state, Event.Remove(k, pageno / PAGE_SIZE))
      modifies `state, parts[k].pages, parts[k].pages.tree, parts[k].pages.tree.nodes
      ensures Valid() && state == Step(old(state), Event.Remove(k, pageno / PAGE_SIZE))
      ensures ok <==> old(parts[k].pages.HasPage(pageno))
      ensures old(HasHad(state, k, pageno / PAGE_SIZE)) ==> ok
    {
      hide Inv, SpaceShows, DirShows, AreaOk, Step, Spans, Part.Shows, Apart, PageSet.Valid, OthersShow, PartsShow;
      ghost var s0, d := state, pageno / PAGE_SIZE;
      SetAt(k, s0.areas);
      RemoveIs(s0, k, d);
      HasRoot(k, s0.areas);
      ok := RemoveAt(k, pageno, s0.areas);
      StepKeeps(s0, Event.Remove(k, d));
      state := Step(s0, Event.Remove(k, d));
    }

    lemma HasRoot(k: nat, areas: map<nat, Area>)
      requires Apart() && PartsShow(areas) && k in areas && parts[k].pages != null && areas[k].backing.PageMap?
      requires |areas[k].backing.pages| == PAGES && HasHadPage(areas[k].backing.pages)
      ensures parts[k].pages.tree.root != null
    {
      hide PageSet.Valid, PageSet.Contents;
      SetAt(k, areas);
      var d :| 0 <= d < PAGES && areas[k].backing.pages[d].phys != 0;
      parts[k].pages.FrameMeansRoot(d);
    }

    lemma RemoveIs(s: State, k: nat, d: nat)
      requires Inv(s) && Enabled(s, Event.Remove(k, d))
      ensures |s.areas[k].backing.pages| == PAGES && HasHadPage(s.areas[k].backing.pages)
      ensures var t, slot := Step(s, Event.Remove(k, d)), s.areas[k].backing.pages[d];
        && t.areas == s.areas[k := WithSlot(s.areas[k], d, slot.(tag := slot.tag - slot.tag % 2))]
        && Spans(t) == Spans(s) && t.hw == s.hw
    {
      AreaAt(s, k);
      hide Inv, HasHadPage;
      var t := Step(s, Event.Remove(k, d));
      assert Spans(t) == Spans(s);
    }

    // ---- a new region ----

    /** What is behind the new region joins what there is. */
    method AddPart(k: nat, part: Part, ghost a: Area, ghost areas: map<nat, Area>)
      requires Apart() && PartsShow(areas) && part.Shows(a) && k !in areas
      requires part.pages != null ==> part.pages !in sets && part.pages.tree !in trees && part.pages.tree.nodes !! nodes
      modifies `parts, `sets, `trees, `nodes
      ensures Apart() && PartsShow(areas[k := a]) && parts == old(parts)[k := part]
    {
      hide Part.Shows;
      parts := parts[k := part];
      if part.pages != null {
        sets, trees, nodes := sets + {part.pages}, trees + {part.pages.tree}, nodes + part.pages.tree.nodes;
      }
    }

    /** The region joins the tree. */
    method AddToTree(id: int, region: VmRegion, nodeAvailable: bool, ghost spans: R.Space) returns (ok: bool)
      requires SpaceShows(spans) && id !in space.regions && region !in space.regions.Values
      requires R.SpanOk(R.Span(region.virtStart, region.virtEnd))
      modifies space`regions, space.tree, space.tree.nodes, region`node
      ensures var e := R.Add(R.Span(region.virtStart, region.virtEnd));
        ok == (nodeAvailable && R.Accepts(spans, e)) && SpaceShows(if ok then R.Step(spans, e) else spans)
    {
      hide VmSpace.Valid, VmSpace.Spans, R.Accepts, R.SpanOk;
      ok := space.AddRegion(id, region, nodeAvailable);
    }

    /** vm_space_add_region. What the update of the page tables returns is not looked at: a region that is added is up
        to date exactly if there are pages enough for the tables that it misses. */
    method AddRegion(id: int, region: VmRegion, part: Part, nodeAvailable: bool, ghost a: Area)
      returns (ok: bool, ghost cut: nat)
      requires Valid() && id !in space.regions && region !in space.regions.Values
      requires AreaOk(a) && a.span == R.Span(region.virtStart, region.virtEnd) && part.Shows(a)
      requires part.pages != null ==> part.pages !in sets && part.pages.tree !in trees && part.pages.tree.nodes !! nodes
      modifies `state, `parts, `sets, `trees, `nodes, space`regions, space.tree, space.tree.nodes, region`node
      modifies dir`tables, dir`supply, dir.dir, dir.tables.Values
      ensures Valid() && ok == (nodeAvailable && R.Accepts(Spans(old(state)), R.Add(a.span)))
      ensures state == if ok then Step(old(state), Event.AddRegion(a, cut)) else old(state)
      ensures ok ==> (a.span.first !in state.stale <==> old(dir.Affords(Needs(a))))
    {
      hide PageDirectory.Affords, Needs;
      hide Inv, DirShows, SpaceShows, AreaOk, Step, Spans, Part.Shows, Apart, PartsShow, Updated, R.Accepts, R.SpanOk,
        R.Step;
      ghost var s0 := state;
      cut := 0;
      AreaSpan(a);
      ok := AddToTree(id, region, nodeAvailable, Spans(s0));
      if !ok { return; }
      cut := LinkRegion(region, part, a);
    }

    /** The rest, once the region is in the tree. */
    method LinkRegion(region: VmRegion, part: Part, ghost a: Area) returns (ghost cut: nat)
      requires Inv(state) && DirShows(state.hw) && Apart() && PartsShow(state.areas)
      requires AreaOk(a) && R.Accepts(Spans(state), R.Add(a.span)) && SpaceShows(R.Step(Spans(state), R.Add(a.span)))
      requires a.span == R.Span(region.virtStart, region.virtEnd) && part.Shows(a)
      requires part.pages != null ==> part.pages !in sets && part.pages.tree !in trees && part.pages.tree.nodes !! nodes
      modifies `state, `parts, `sets, `trees, `nodes, dir`tables, dir`supply, dir.dir, dir.tables.Values
      ensures Valid() && state == Step(old(state), Event.AddRegion(a, cut))
      ensures a.span.first !in state.stale <==> old(dir.Affords(Needs(a)))
    {
      hide PageDirectory.Affords, Needs;
      hide Inv, DirShows, SpaceShows, AreaOk, Step, Spans, Part.Shows, Apart, PartsShow, Updated, R.Accepts, R.SpanOk,
        R.Step;
      NewKey(state, a);
      AddPart(region.virtStart, part, a, state.areas);
      cut := FillTables(region, part, a);
    }

    method FillTables(region: VmRegion, part: Part, ghost a: Area) returns (ghost cut: nat)
      requires Inv(state) && DirShows(state.hw) && Apart() && PartsShow(state.areas[a.span.first := a])
      requires AreaOk(a) && R.Accepts(Spans(state), R.Add(a.span)) && SpaceShows(R.Step(Spans(state), R.Add(a.span)))
      requires a.span == R.Span(region.virtStart, region.virtEnd) && part.Shows(a)
      modifies `state, dir`tables, dir`supply, dir.dir, dir.tables.Values
      ensures Valid() && state == Step(old(state), Event.AddRegion(a, cut))
      ensures a.span.first !in state.stale <==> old(dir.Affords(Needs(a)))
    {
      hide PageDirectory.Affords, Needs;
      hide Inv, DirShows, SpaceShows, AreaOk, Step, Spans, Part.Shows, Apart, PartsShow, Updated, R.Accepts, R.SpanOk,
        R.Step;
      ghost var s0 := state;
      var done;
      done, cut := UpdatePart(part, region.virtStart, region.virtEnd, a, s0.hw);
      AddIs(s0, a, cut);
      SpaceRuns.StepKeeps(s0, Event.AddRegion(a, cut));
      state := Step(s0, Event.AddRegion(a, cut));
    }

    lemma AreaSpan(a: Area)
      requires AreaOk(a)
      ensures R.SpanOk(a.span)
    {
    }

    lemma NewKey(s: State, a: Area)
      requires Inv(s) && AreaOk(a) && R.Accepts(Spans(s), R.Add(a.span))
      ensures a.span.first !in s.areas
    {
      hide AreaOk, R.Accepts;
      R.AddKeeps(Spans(s), a.span);
    }

    lemma AddIs(s: State, a: Area, cut: nat)
      requires Inv(s) && AreaOk(a) && R.Accepts(Spans(s), R.Add(a.span))
      ensures Enabled(s, Event.AddRegion(a, cut))
      ensures var t := Step(s, Event.AddRegion(a, cut));
        && t.areas == s.areas[a.span.first := a] && t.hw == Updated(s.hw, a, cut)
        && Spans(t) == R.Step(Spans(s), R.Add(a.span)) && (cut >= PAGES <==> a.span.first !in t.stale)
    {
      hide Inv, AreaOk, R.Accepts, Updated;
      var t := Step(s, Event.AddRegion(a, cut));
      assert Spans(t) == Spans(s)[a.span.first := a.span];
    }
  }
}
