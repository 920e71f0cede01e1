/** Runs of an address space: regions added, pages put and removed, regions updated, in any order. */
module SpaceRuns {
  import opened PageSize
  import opened BinMap
  import opened PageTables
  import opened Regions
  import opened Translation

  /** The regions by key, the table entries, and which regions were written since their last complete update. */
  datatype State = State(areas: map<nat, Area>, hw: Hardware, stale: set<nat>)

  /** cut says how many pages an update covers before the page allocator runs dry. */
  datatype Event =
    | AddRegion(area: Area, cut: nat)
    | Put(key: nat, page: nat, phys: nat)
    | Remove(key: nat, page: nat)
    | Update(key: nat, cut: nat)
    | Grow(key: nat, pages: nat)

  function Spans(s: State): Space
  {
    map k | k in s.areas :: s.areas[k].span
  }

  function Marked(stale: set<nat>, key: nat, cut: nat): set<nat>
  {
    if cut >= PAGES then stale - {key} else stale + {key}
  }

  function WithSlot(a: Area, page: nat, slot: Slot): Area
    requires a.backing.PageMap? && page < |a.backing.pages|
  {
    a.(backing := PageMap(a.backing.pages[page := slot]))
  }

  /** Frames come from the page allocator, and so are not null, and are put inside the region; pages are removed only
      from a set that has had a page, since the lookup of the tag starts at the root of its tree. A resize keeps the
      start and gives up no page (anonmap_resize), and its size does not wrap. */
  predicate Enabled(s: State, e: Event)
  {
    match e
    case AddRegion(a, _) => AreaOk(a)
    case Put(k, page, phys) =>
      && k in s.areas && s.areas[k].backing.PageMap? && page < |s.areas[k].backing.pages| && page < Size(s.areas[k])
      && 0 < phys < BYTES && phys % PAGE_SIZE == 0
    case Remove(k, page) =>
      && k in s.areas && s.areas[k].backing.PageMap? && page < |s.areas[k].backing.pages|
      && HasHadPage(s.areas[k].backing.pages)
    case Update(k, _) => k in s.areas && AreaOk(s.areas[k])
    case Grow(k, pages) => k in s.areas && 0 < Size(s.areas[k]) <= pages < PAGES
  }

  /** Frames are never taken out of a page set. */
  predicate HasHadPage(c: seq<Slot>)
  {
    exists d :: 0 <= d < |c| && c[d].phys != 0
  }

  ghost function Step(s: State, e: Event): State
    requires Enabled(s, e)
  {
    match e
    case AddRegion(a, cut) =>
      if Accepts(Spans(s), Add(a.span))
      then State(s.areas[a.span.first := a], Updated(s.hw, a, cut), Marked(s.stale, a.span.first, cut))
      else s
    case Put(k, page, phys) =>
      s.(areas := s.areas[k := WithSlot(s.areas[k], page, Slot(phys, 1))], stale := s.stale + {k})
    case Remove(k, page) =>
      var slot := s.areas[k].backing.pages[page];
      s.(areas := s.areas[k := WithSlot(s.areas[k], page, slot.(tag := slot.tag - slot.tag % 2))],
          stale := s.stale + {k})
    case Update(k, cut) =>
      s.(hw := Updated(s.hw, s.areas[k], cut), stale := Marked(s.stale, k, cut))
    case Grow(k, pages) => if Accepts(Spans(s), Resize(k, k, pages)) then Resized(s, k, pages) else s
  }

  /** vm_region_resize to the same start: the page tables stay as they are. */
  function Resized(s: State, k: nat, pages: nat): State
    requires k in s.areas
  {
    s.(areas := s.areas[k := s.areas[k].(span := NewSpan(k, pages))], stale := s.stale + {k})
  }

  /** The entry that a page of a region has after an update. */
  predicate PageSynced(entry: nat, a: Area, page: nat)
    requires AreaOk(a) && Covers(a, page)
  {
    match a.backing
    case RangeMap(phys) => entry == (phys / PAGE_SIZE + (page - FirstPage(a))) % PAGES * PAGE_SIZE + X86Flags(a.access)
    case PageMap(c) =>
      var slot := c[page - FirstPage(a)];
      if slot.phys != 0 then entry == slot.phys + X86Flags(Perms(a.access, slot.tag)) else !Present(entry)
  }

  ghost predicate Synced(hw: Hardware, a: Area)
    requires AreaOk(a)
  {
    forall page :: 0 <= page < PAGES && Covers(a, page) ==> PageSynced(hw[page], a, page)
  }

  /** A page that was never given a frame. */
  predicate Frameless(a: Area, page: nat)
    requires AreaOk(a) && Covers(a, page)
  {
    a.backing.PageMap? && a.backing.pages[page - FirstPage(a)].phys == 0
  }

  ghost predicate Outside(s: State, page: nat)
  {
    forall k :: k in s.areas ==> !Covers(s.areas[k], page)
  }

  ghost predicate NothingOutside(s: State)
  {
    forall page :: 0 <= page < PAGES && Outside(s, page) ==> !Present(s.hw[page])
  }

  ghost predicate NothingFrameless(hw: Hardware, a: Area)
    requires AreaOk(a)
  {
    forall page :: 0 <= page < PAGES && Covers(a, page) && Frameless(a, page) ==> !Present(hw[page])
  }

  ghost predicate AreasOk(s: State)
  {
    && (forall k :: k in s.areas ==> AreaOk(s.areas[k]))
    && Ordered(Spans(s)) && Keyed(Spans(s))
  }

  ghost predicate Inv(s: State)
  {
    && AreasOk(s) && NothingOutside(s)
    && (forall k :: k in s.areas ==> NothingFrameless(s.hw, s.areas[k]))
    && forall k :: k in s.areas && k !in s.stale ==> Synced(s.hw, s.areas[k])
  }

  // ---- one update ----

  lemma UpdatedElsewhere(hw: Hardware, a: Area, cut: nat, page: nat)
    requires AreaOk(a) && page < PAGES && !Covers(a, page)
    ensures Updated(hw, a, cut)[page] == hw[page]
  {
    hide X86Flags, Perms, Units;
    UnitsIsSize(a);
    assert Above(page, FirstPage(a)) >= Size(a);
  }

  lemma UpdatedHere(hw: Hardware, a: Area, cut: nat, page: nat)
    requires AreaOk(a) && page < PAGES && Covers(a, page)
    ensures cut >= PAGES && (Frameless(a, page) ==> !Present(hw[page])) ==>
      PageSynced(Updated(hw, a, cut)[page], a, page)
    ensures Frameless(a, page) ==> Updated(hw, a, cut)[page] == hw[page]
    ensures PageSynced(hw[page], a, page) ==> PageSynced(Updated(hw, a, cut)[page], a, page)
  {
    hide X86Flags, Perms, Units;
    UnitsIsSize(a);
    assert Above(page, FirstPage(a)) == page - FirstPage(a);
  }

  /** Disjoint regions cover different pages. */
  lemma CoverOnce(s: State, j: nat, k: nat, page: nat)
    requires AreasOk(s) && j in s.areas && k in s.areas && Covers(s.areas[j], page) && Covers(s.areas[k], page)
    ensures j == k
  {
    hide AreaOk;
    SpanOfOk(s.areas[j]);
    SpanOfOk(s.areas[k]);
    PageInside(s.areas[j], page);
    PageInside(s.areas[k], page);
    assert Spans(s)[j] == s.areas[j].span && Spans(s)[k] == s.areas[k].span;
  }

  lemma PageInside(a: Area, page: nat)
    requires SpanOk(a.span)
    ensures Covers(a, page) <==> In(page * PAGE_SIZE, a.span)
    ensures Covers(a, page) ==> page < PAGES
  {
    var n := a.span.last + 1 - a.span.first;
    assert n == Size(a) * PAGE_SIZE && a.span.first == FirstPage(a) * PAGE_SIZE;
  }

  /** An update of a region of s keeps what holds of the others and settles what holds of it. */
  lemma UpdateKeeps(s: State, k: nat, cut: nat)
    requires AreasOk(s) && NothingOutside(s) && k in s.areas
    requires forall j :: j in s.areas ==> NothingFrameless(s.hw, s.areas[j])
    requires forall j :: j in s.areas && j != k && j !in s.stale ==> Synced(s.hw, s.areas[j])
    ensures Inv(s.(hw := Updated(s.hw, s.areas[k], cut), stale := Marked(s.stale, k, cut)))
  {
    hide Updated, PageSynced, Frameless, Covers, AreaOk, Ordered, Keyed;
    SpanOfOk(s.areas[k]);
    var a, s' := s.areas[k], s.(hw := Updated(s.hw, s.areas[k], cut), stale := Marked(s.stale, k, cut));
    forall page | 0 <= page < PAGES && Outside(s', page) ensures !Present(s'.hw[page]) {
      UpdatedElsewhere(s.hw, a, cut, page);
      assert Outside(s, page);
    }
    forall j, page | j in s.areas && 0 <= page < PAGES && Covers(s.areas[j], page)
      ensures Frameless(s.areas[j], page) ==> !Present(s'.hw[page])
      ensures j !in s'.stale ==> PageSynced(s'.hw[page], s.areas[j], page)
    {
      if j == k {
        UpdatedHere(s.hw, a, cut, page);
      } else {
        if Covers(a, page) { CoverOnce(s, j, k, page); }
        UpdatedElsewhere(s.hw, a, cut, page);
      }
    }
    assert Spans(s') == Spans(s);
  }

  // ---- the steps ----

  lemma AddRegionKeeps(s: State, a: Area, cut: nat)
    requires Inv(s) && AreaOk(a) && Accepts(Spans(s), Add(a.span))
    ensures Inv(Step(s, AddRegion(a, cut)))
  {
    hide Updated, PageSynced, Frameless, Covers, AreaOk, Ordered, Keyed, Accepts;
    AddKeeps(Spans(s), a.span);
    var s1 := s.(areas := s.areas[a.span.first := a]);
    assert Spans(s1) == Spans(s)[a.span.first := a.span];
    SpanOfOk(a);
    KeyedWith(Spans(s), a.span);
    forall page | 0 <= page < PAGES && Covers(a, page) ensures Outside(s, page) { NewIsOutside(s, a, page); }
    forall page | 0 <= page < PAGES && Outside(s1, page) ensures Outside(s, page) {
      forall k | k in s.areas
        ensures !Covers(s.areas[k], page)
      {
        assert k != a.span.first && s1.areas[k] == s.areas[k];
      }
    }
    UpdateKeeps(s1, a.span.first, cut);
  }

  /** The pages of a region that is accepted were no region's. */
  lemma NewIsOutside(s: State, a: Area, page: nat)
    requires Inv(s) && AreaOk(a) && Accepts(Spans(s), Add(a.span)) && Covers(a, page)
    ensures Outside(s, page)
  {
    hide AreaOk, Ordered, Accepts, Covers, NothingOutside, NothingFrameless, Synced;
    AddKeeps(Spans(s), a.span);
    var s1 := s.(areas := s.areas[a.span.first := a]);
    assert Spans(s1) == Spans(s)[a.span.first := a.span];
    KeyedWith(Spans(s), a.span);
    forall k | k in s.areas ensures !Covers(s.areas[k], page) {
      if Covers(s.areas[k], page) {
        assert s1.areas[k] == s.areas[k];
        CoverOnce(s1, k, a.span.first, page);
      }
    }
  }

  /** A page of a region just added agrees with software exactly if the update got past it or it has no frame. */
  lemma AddedAgreesIff(s: State, a: Area, cut: nat, page: nat)
    requires Inv(s) && AreaOk(a) && Accepts(Spans(s), Add(a.span)) && page < PAGES && Covers(a, page)
    ensures Agrees(Step(s, AddRegion(a, cut)).hw[page], Soft(a, page)) <==>
      page - FirstPage(a) < cut || Soft(a, page).None?
  {
    hide Accepts, Inv, X86Flags, Perms, Units, Bit;
    NewIsOutside(s, a, page);
    NotPresentOutside(s, page);
    UnitsIsSize(a);
    var d := Above(page, FirstPage(a));
    assert d == page - FirstPage(a);
    match a.backing
    case RangeMap(phys) =>
      EntryBits((phys / PAGE_SIZE + d) % PAGES * PAGE_SIZE, X86Flags(a.access));
      assert page * PAGE_SIZE - a.span.first == d * PAGE_SIZE;
      Addresses(phys, d);
    case PageMap(c) =>
      EntryBits(c[d].phys, X86Flags(Perms(a.access, c[d].tag)));
      PermBits(a.access, c[d].tag, 0);
  }

  lemma NotPresentOutside(s: State, page: nat)
    requires Inv(s) && page < PAGES && Outside(s, page)
    ensures !Present(s.hw[page])
  {
  }

  /** A region of one page is added when no page is left for its table: it is there, and its page is not mapped. */
  lemma AddedUnmapped()
    ensures var a := Area(Span(0x1000, 0x1fff), 1, RangeMap(0));
      && AreaOk(a) && Accepts(Spans(NEW), Add(a.span)) && |Needs(a) - TablesIn(seq(ENTRIES, _ => 0))| > 0
      && var s := Step(NEW, AddRegion(a, 0));
      && 0x1000 in s.areas && 0x1000 in s.stale && Covers(a, 1) && Soft(a, 1) == Some(0) && !Present(s.hw[1])
  {
    var a := Area(Span(0x1000, 0x1fff), 1, RangeMap(0));
    assert Spans(NEW) == map[];
    assert SlotAfter(FirstPage(a), 0) in Needs(a) - TablesIn(seq(ENTRIES, _ => 0));
    assert AreaOk(a);
    NewOk();
    hide Inv, Updated;
    NewIsOutside(NEW, a, 1);
    UnmappedAt(a);
  }

  lemma UnmappedAt(a: Area)
    requires a.backing.RangeMap?
    ensures Updated(NEW.hw, a, 0)[1] == 0
  {
  }

  lemma SpanOfOk(a: Area)
    requires AreaOk(a)
    ensures SpanOk(a.span) && (a.backing.PageMap? ==> |a.backing.pages| == PAGES)
  {
  }

  lemma AreaAt(s: State, k: nat)
    requires Inv(s) && k in s.areas
    ensures AreaOk(s.areas[k]) && k in Spans(s) && Spans(s)[k] == s.areas[k].span
  {
    hide AreaOk;
  }

  lemma KeyedWith(m: Space, v: Span)
    requires Keyed(m)
    ensures Keyed(m[v.first := v])
  {
  }

  /** Writing a slot concerns no page table, and marks the region. */
  lemma SlotKeeps(s: State, k: nat, page: nat, slot: Slot)
    requires Inv(s) && k in s.areas && s.areas[k].backing.PageMap? && page < PAGES && FrameOk(slot)
    requires slot.phys != 0 ==> page < Size(s.areas[k])
    requires slot.phys == 0 ==> s.areas[k].backing.pages[page].phys == 0
    ensures Inv(s.(areas := s.areas[k := WithSlot(s.areas[k], page, slot)], stale := s.stale + {k}))
  {
    hide FrameOk, PageSynced, Ordered, Keyed, SpanOk;
    var a, a' := s.areas[k], WithSlot(s.areas[k], page, slot);
    var s' := s.(areas := s.areas[k := a'], stale := s.stale + {k});
    assert Spans(s') == Spans(s);
    assert AreaOk(a');
    assert forall q: nat :: Covers(a', q) <==> Covers(a, q);
    forall q | 0 <= q < PAGES && Outside(s', q) ensures Outside(s, q) {
      forall j | j in s.areas ensures !Covers(s.areas[j], q) { assert !Covers(s'.areas[j], q); }
    }
    assert NothingFrameless(s.hw, a);
    assert NothingFrameless(s'.hw, a');
  }

  /** The new bounds of region k. */
  lemma ResizedSpan(s: State, k: nat, pages: nat)
    requires AreasOk(s) && k in s.areas && 0 < pages < PAGES && Accepts(Spans(s), Resize(k, k, pages))
    ensures var a, a' := s.areas[k], Resized(s, k, pages).areas[k];
      && SpanOk(a.span) && SpanOk(a'.span) && a'.span.first == k == a.span.first && Size(a') == pages
      && FirstPage(a') == FirstPage(a)
    ensures Spans(Resized(s, k, pages)) == Spans(s)[k := NewSpan(k, pages)]
    ensures Ordered(Spans(Resized(s, k, pages))) && Keyed(Spans(Resized(s, k, pages)))
  {
    hide AreaOk, Ordered, Accepts, NewSpan, NewStart, NewEnd, SpanOk;
    var m := Spans(s);
    assert k in m && m[k] == s.areas[k].span && m[k].first == k;
    SpanOfOk(s.areas[k]);
    ResizesRegion(m, k, k, pages);
    ResizeKeepsIff(m, k, k, pages);
    assert Spans(Resized(s, k, pages)) == m[k := NewSpan(k, pages)];
    OrderedSpan(m[k := NewSpan(k, pages)], k);
    FirstAligned(s.areas[k].span);
    SpanOfSize(k, pages);
  }

  lemma OrderedSpan(m: Space, k: nat)
    requires Ordered(m) && k in m
    ensures SpanOk(m[k])
  {
  }

  lemma FirstAligned(v: Span)
    requires SpanOk(v)
    ensures v.first % PAGE_SIZE == 0 && v.first < BYTES
  {
  }

  lemma SpanOfSize(k: nat, pages: nat)
    requires k % PAGE_SIZE == 0 && k < BYTES && 0 < pages < PAGES && SpanOk(NewSpan(k, pages))
    ensures NewSpan(k, pages).first == k && NewSpan(k, pages).last + 1 - k == pages * PAGE_SIZE
  {
    var x := k + pages * PAGE_SIZE;
    assert NewStart(k) == k;
    assert x < 2 * BYTES;
    assert NewEnd(k, pages) == if x < BYTES then x else x - BYTES;
  }

  /** A grown region keeps what it had. */
  lemma GrownArea(a: Area, a': Area)
    requires AreaOk(a) && SpanOk(a'.span) && a'.backing == a.backing && a'.access == a.access
    requires FirstPage(a') == FirstPage(a) && Size(a) <= Size(a') < PAGES
    ensures AreaOk(a') && forall page: nat :: Covers(a, page) ==> Covers(a', page)
  {
  }

  lemma GrowKeeps(s: State, k: nat, pages: nat)
    requires Inv(s) && Enabled(s, Grow(k, pages)) && Accepts(Spans(s), Resize(k, k, pages))
    ensures Inv(Resized(s, k, pages))
  {
    hide AreaOk, Ordered, Keyed, Accepts, NewSpan, Covers, SpanOk, Size, FirstPage, PageSynced, Frameless;
    ResizedSpan(s, k, pages);
    var a, s' := s.areas[k], Resized(s, k, pages);
    var a' := s'.areas[k];
    GrownArea(a, a');
    forall j | j in s'.areas ensures AreaOk(s'.areas[j]) && (j != k ==> s'.areas[j] == s.areas[j]) {}
    assert AreasOk(s');
    forall page | 0 <= page < PAGES && Outside(s', page) ensures !Present(s'.hw[page]) {
      forall j | j in s.areas ensures !Covers(s.areas[j], page) { assert !Covers(s'.areas[j], page); }
    }
    forall page | 0 <= page < PAGES && Covers(a', page) && Frameless(a', page) ensures !Present(s'.hw[page]) {
      if Covers(a, page) {
        SameFrameless(a, a', page);
      } else {
        NewPageOutside(s, k, pages, page);
      }
    }
  }

  lemma SameFrameless(a: Area, a': Area, page: nat)
    requires AreaOk(a) && AreaOk(a') && a'.backing == a.backing && FirstPage(a') == FirstPage(a)
    requires Covers(a, page) && Covers(a', page)
    ensures Frameless(a, page) <==> Frameless(a', page)
  {
  }

  lemma NewPageOutside(s: State, k: nat, pages: nat, page: nat)
    requires AreasOk(s) && k in s.areas && AreasOk(Resized(s, k, pages)) && !Covers(s.areas[k], page)
    requires Covers(Resized(s, k, pages).areas[k], page)
    ensures Outside(s, page)
  {
    hide AreaOk, Ordered, Keyed, Covers, NewSpan;
    var s' := Resized(s, k, pages);
    forall j | j in s.areas ensures !Covers(s.areas[j], page) {
      if Covers(s.areas[j], page) {
        assert s'.areas[j] == s.areas[j];
        CoverOnce(s', j, k, page);
      }
    }
  }

  lemma StepKeeps(s: State, e: Event)
    requires Inv(s) && Enabled(s, e)
    ensures Inv(Step(s, e))
  {
    hide Updated, PageSynced, Frameless, Covers, Ordered, Keyed, Accepts, NothingOutside, NothingFrameless, Synced;
    match e
    case AddRegion(a, cut) => if Accepts(Spans(s), Add(a.span)) { AddRegionKeeps(s, a, cut); }
    case Put(k, page, phys) => SlotKeeps(s, k, page, Slot(phys, 1));
    case Remove(k, page) =>
      var slot := s.areas[k].backing.pages[page];
      SlotKeeps(s, k, page, slot.(tag := slot.tag - slot.tag % 2));
    case Update(k, cut) => UpdateKeeps(s, k, cut);
    case Grow(k, pages) => if Accepts(Spans(s), Resize(k, k, pages)) { GrowKeeps(s, k, pages); }
  }

  ghost predicate CanRun(s: State, es: seq<Event>)
    decreases |es|
  {
    es == [] || (Enabled(s, es[0]) && CanRun(Step(s, es[0]), es[1..]))
  }

  ghost function Run(s: State, es: seq<Event>): State
    requires CanRun(s, es)
    decreases |es|
  {
    if es == [] then s else Run(Step(s, es[0]), es[1..])
  }

  lemma {:induction false} RunKeeps(s: State, es: seq<Event>)
    requires Inv(s) && CanRun(s, es)
    ensures Inv(Run(s, es))
    decreases |es|
  {
    if es != [] {
      StepKeeps(s, es[0]);
      RunKeeps(Step(s, es[0]), es[1..]);
    }
  }

  const NEW: State := State(map[], seq(PAGES, _ => 0), {})

  lemma NewOk()
    ensures Inv(NEW)
  {
    assert Spans(NEW) == map[];
  }

  ghost predicate Holds(p: Paging, hw: Hardware)
  {
    PagingOk(p) && forall page :: 0 <= page < PAGES ==> EntryOf(p, page) == hw[page]
  }

  /** The processor's walk of the page tables finds, for an address of a region that was not written since its last
      complete update, the very frame that software translation finds, with the region's rights, and faults where
      software finds none; outside all regions it faults. */
  ghost predicate Translates(s: State, p: Paging, addr: nat)
    requires AreasOk(s) && PagingOk(p) && addr < BYTES
  {
    && (forall k :: k in s.areas && In(addr, s.areas[k].span) && k !in s.stale ==>
          && Covers(s.areas[k], addr / PAGE_SIZE)
          && Walk(p, addr) == match Soft(s.areas[k], addr / PAGE_SIZE)
                              case None => Fault
                              case Some(f) => To(f + addr % PAGE_SIZE, Bit(s.areas[k].access, 2),
                                  Bit(s.areas[k].access, 8)))
    && ((forall k :: k in s.areas ==> !In(addr, s.areas[k].span)) ==> Walk(p, addr) == Fault)
  }

  lemma InvTranslates(s: State, p: Paging, addr: nat)
    requires Inv(s) && Holds(p, s.hw) && addr < BYTES
    ensures AreasOk(s) && Translates(s, p, addr)
  {
    hide Walk, EntryOf, PagingOk, Covers, In, Ordered, Keyed, AreaOk, X86Flags, Perms, Bit, PageSynced, Soft;
    var page := addr / PAGE_SIZE;
    WalkByEntry(p, addr);
    forall k | k in s.areas ensures In(addr, s.areas[k].span) <==> Covers(s.areas[k], page) {
      SpanOfOk(s.areas[k]);
      AddressInside(s.areas[k], addr);
    }
    forall k | k in s.areas && In(addr, s.areas[k].span) && k !in s.stale
      ensures Walk(p, addr) == match Soft(s.areas[k], page)
                               case None => Fault
                               case Some(f) => To(f + addr % PAGE_SIZE, Bit(s.areas[k].access, 2),
                                   Bit(s.areas[k].access, 8))
    {
      SyncedEntry(s.hw[page], s.areas[k], page);
    }
  }

  /** After any run on a new space hardware and software translation agree on every address. */
  lemma HardwareIsSoftware(es: seq<Event>, p: Paging, addr: nat)
    requires CanRun(NEW, es) && Holds(p, Run(NEW, es).hw) && addr < BYTES
    ensures AreasOk(Run(NEW, es)) && Translates(Run(NEW, es), p, addr)
  {
    hide Translates, Holds;
    NewOk();
    RunKeeps(NEW, es);
    InvTranslates(Run(NEW, es), p, addr);
  }

  /** virt2phys: the physical address of addr, or 0. */
  ghost function PhysOf(s: State, addr: nat): nat
  {
    var k := RegionAt(Spans(s), addr);
    if k >= 0 && k in s.areas && AreaOk(s.areas[k]) && Covers(s.areas[k], addr / PAGE_SIZE) then
      match Soft(s.areas[k], addr / PAGE_SIZE)
      case None => 0
      case Some(f) => f + addr % PAGE_SIZE
    else 0
  }

  /** What virt2phys makes of pages. */
  ghost function FramesOf(s: State): nat -> nat
  {
    (page: nat) => if page < BYTES && page % PAGE_SIZE == 0 then PhysOf(s, page) else 0
  }

  lemma FramesOfOk(s: State, page: nat)
    ensures FramesOf(s)(page) < BYTES && FramesOf(s)(page) % PAGE_SIZE == 0
  {
    if page < BYTES && page % PAGE_SIZE == 0 && PhysOf(s, page) != 0 {
      var k := RegionAt(Spans(s), page);
      SoftAligned(s.areas[k], page / PAGE_SIZE);
    }
  }

  lemma SoftAligned(a: Area, page: nat)
    requires AreaOk(a) && Covers(a, page)
    ensures Soft(a, page).Some? ==> Soft(a, page).value < BYTES && Soft(a, page).value % PAGE_SIZE == 0
  {
    var n := page * PAGE_SIZE - a.span.first;
    assert n == (page - FirstPage(a)) * PAGE_SIZE;
    if a.backing.RangeMap? { Addresses(a.backing.phys, page - FirstPage(a)); }
  }

  /** What virt2phys finds in a region that is up to date is where the processor gets to, and where it finds nothing
      the processor faults, or the frame of the page is the null frame. */
  lemma PhysIsWalk(s: State, p: Paging, addr: nat)
    requires Inv(s) && Holds(p, s.hw) && addr < BYTES
    requires forall k :: k in s.areas && In(addr, s.areas[k].span) ==> k !in s.stale
    ensures AreasOk(s)
    ensures match Walk(p, addr)
      case Fault => PhysOf(s, addr) == 0
      case To(phys, _, _) => PhysOf(s, addr) == phys
  {
    hide Walk, PagingOk, Soft, Ordered, Keyed, AreaOk, Covers, NothingOutside, NothingFrameless, Synced;
    InvTranslates(s, p, addr);
    RegionHere(s, addr);
  }

  /** The region that the search finds at an address is the one that covers its page. */
  lemma RegionHere(s: State, addr: nat)
    requires AreasOk(s) && addr < BYTES
    ensures var k := RegionAt(Spans(s), addr);
      && (k == -1 <==> forall j :: j in s.areas ==> !In(addr, s.areas[j].span))
      && (k != -1 ==>
           && k >= 0 && k in s.areas && In(addr, s.areas[k].span) && AreaOk(s.areas[k])
           && Covers(s.areas[k], addr / PAGE_SIZE))
      && (k in Spans(s) <==> k != -1)
  {
    hide Ordered, Keyed, AreaOk, RegionAt, Covers, In;
    SearchesExact(Spans(s), 0, PAGE_SIZE - 1, addr);
    forall j | j in s.areas ensures j in Spans(s) && Spans(s)[j] == s.areas[j].span {}
    forall j | j in Spans(s) ensures j in s.areas {}
    var k := RegionAt(Spans(s), addr);
    if k != -1 {
      SpanOfOk(s.areas[k]);
      AddressInside(s.areas[k], addr);
    }
  }

  lemma AddressInside(a: Area, addr: nat)
    requires SpanOk(a.span)
    ensures In(addr, a.span) <==> Covers(a, addr / PAGE_SIZE)
  {
    var n := a.span.last + 1 - a.span.first;
    assert n == Size(a) * PAGE_SIZE && a.span.first == FirstPage(a) * PAGE_SIZE;
  }

  lemma SyncedEntry(entry: nat, a: Area, page: nat)
    requires AreaOk(a) && page < PAGES && Covers(a, page) && PageSynced(entry, a, page)
    ensures Agrees(entry, Soft(a, page))
    ensures Present(entry) ==> (Bit(entry, 1) <==> Bit(a.access, 2)) && (Bit(entry, 2) <==> Bit(a.access, 8))
  {
    hide X86Flags, Perms, Bit;
    match a.backing
    case RangeMap(phys) =>
      EntryBits((phys / PAGE_SIZE + (page - FirstPage(a))) % PAGES * PAGE_SIZE, X86Flags(a.access));
      Addresses(phys, page - FirstPage(a));
      assert page * PAGE_SIZE - a.span.first == (page - FirstPage(a)) * PAGE_SIZE;
    case PageMap(c) =>
      var slot := c[page - FirstPage(a)];
      EntryBits(slot.phys, X86Flags(Perms(a.access, slot.tag)));
      PermBits(a.access, slot.tag, 0);
      PermBits(a.access, slot.tag, 2);
      PermBits(a.access, slot.tag, 8);
  }
}
