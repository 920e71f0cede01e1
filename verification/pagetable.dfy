/** Two-level page tables of 32-bit paging, and the loops that fill them. */
module PageTables {
  import opened PageSize
  import opened BinMap

  const ENTRIES: nat := 1024
  /** Pages, and bytes, of the 32-bit address space. */
  const PAGES: nat := 0x10_0000
  const BYTES: nat := 0x1_0000_0000

  /** PAGE_TABLE_DFL_FLAGS | PAGE_FLAG_USERLAND: present, writable, user. */
  const TABLE_FLAGS: nat := 7

  predicate Present(entry: nat) { entry % 2 == 1 }

  function Frame(entry: nat): nat { entry / PAGE_SIZE }

  /** The directory and the tables, by the page that holds them. */
  datatype Paging = Paging(dir: seq<nat>, tables: map<nat, seq<nat>>)

  /** Each entry of the directory is empty, or leads to a table of its own. */
  ghost predicate PagingOk(p: Paging)
  {
    && |p.dir| == ENTRIES
    && (forall f :: f in p.tables ==> |p.tables[f]| == ENTRIES)
    && (forall i :: 0 <= i < ENTRIES ==> SlotOk(p, i))
    && (forall i, j :: 0 <= i < j < ENTRIES && Present(p.dir[i]) && Present(p.dir[j]) ==>
         Frame(p.dir[i]) != Frame(p.dir[j]))
  }

  predicate SlotOk(p: Paging, i: nat)
    requires i < |p.dir|
  {
    Present(p.dir[i]) ==> Frame(p.dir[i]) in p.tables && p.dir[i] % PAGE_SIZE == TABLE_FLAGS
  }

  /** The table entry that decides about a page; 0 where there is no table. */
  function EntryOf(p: Paging, page: nat): nat
    requires PagingOk(p) && page < PAGES
  {
    var d := p.dir[page / ENTRIES];
    assert SlotOk(p, page / ENTRIES);
    if Present(d) then p.tables[Frame(d)][page % ENTRIES] else 0
  }

  datatype Access = Fault | To(phys: nat, writable: bool, user: bool)

  /** The translation of a linear address by 32-bit paging with 4-KByte pages (Intel SDM, Volume 3A,
      section 4.3): both levels must be present, and both grant each right. */
  function Walk(p: Paging, addr: nat): Access
    requires PagingOk(p) && addr < BYTES
  {
    var pde := p.dir[addr / 0x40_0000];
    assert SlotOk(p, addr / 0x40_0000);
    if !Present(pde) then Fault
    else
      var pte := p.tables[Frame(pde)][addr / PAGE_SIZE % ENTRIES];
      if !Present(pte) then Fault
      else To(Frame(pte) * PAGE_SIZE + addr % PAGE_SIZE, Bit(pde, 1) && Bit(pte, 1), Bit(pde, 2) && Bit(pte, 2))
  }

  /** The hardware faults on a page or gives the frame and the rights of its table entry alone. */
  lemma WalkByEntry(p: Paging, addr: nat)
    requires PagingOk(p) && addr < BYTES
    ensures var e := EntryOf(p, addr / PAGE_SIZE);
      Walk(p, addr) == if Present(e) then To(Frame(e) * PAGE_SIZE + addr % PAGE_SIZE, Bit(e, 1), Bit(e, 2)) else Fault
  {
    var i := addr / 0x40_0000;
    assert addr / PAGE_SIZE / ENTRIES == i;
    if Present(p.dir[i]) {
      assert SlotOk(p, i);
      var pde := p.dir[i];
      assert pde / 2 % 2 == 1 && pde / 4 % 2 == 1 by { assert pde == Frame(pde) * PAGE_SIZE + TABLE_FLAGS; }
      assert Bit(pde, 1) == Bit(pde / 2, 0) && Bit(pde, 2) == Bit(pde / 2, 1) == Bit(pde / 2 / 2, 0);
      assert pde / 2 / 2 == pde / 4;
    }
  }

  /** How far a page is above another, counting round the address space. */
  function Above(page: nat, first: nat): (d: nat)
    ensures d < PAGES
  {
    (page - first) % PAGES
  }

  lemma AboveIs(page: nat, first: nat, n: nat)
    requires page < PAGES
    ensures (first + Above(page, first)) % PAGES == page
    ensures Above(page, first) == n % PAGES <==> page == (first + n) % PAGES
  {
  }

  lemma AboveStep(page: nat, first: nat, phys: nat, n: nat)
    requires page < PAGES
    ensures page == (first + n) % PAGES ==>
      Above(page, first) < n + 1 && (phys + Above(page, first)) % PAGES == (phys + n) % PAGES
    ensures page != (first + n) % PAGES ==> (Above(page, first) < n + 1 <==> Above(page, first) < n)
  {
    AboveIs(page, first, n);
    if Above(page, first) == n { assert n % PAGES == n; }
  }

  /** The n pages from virt on lead to the frames from phys on, and every other page has the entry it had. */
  ghost predicate MappedBy(p: Paging, p': Paging, virt: nat, phys: nat, n: nat, flags: nat)
    requires PagingOk(p) && PagingOk(p')
  {
    forall page :: 0 <= page < PAGES ==>
      EntryOf(p', page) ==
        if Above(page, virt) < n then (phys + Above(page, virt)) % PAGES * PAGE_SIZE + flags else EntryOf(p, page)
  }

  ghost predicate SameEntries(p: Paging, p': Paging)
    requires PagingOk(p) && PagingOk(p')
  {
    forall page :: 0 <= page < PAGES ==> EntryOf(p', page) == EntryOf(p, page)
  }

  /** A new, empty table. */
  function WithTable(p: Paging, i: nat, f: nat): Paging
    requires i < |p.dir|
  {
    Paging(p.dir[i := f * PAGE_SIZE + TABLE_FLAGS], p.tables[f := seq(ENTRIES, _ => 0)])
  }

  lemma TableEntry(f: nat)
    ensures var e := f * PAGE_SIZE + TABLE_FLAGS; Present(e) && Frame(e) == f && e % PAGE_SIZE == TABLE_FLAGS
  {
    QuotientUnique(f * PAGE_SIZE + TABLE_FLAGS, PAGE_SIZE, f, TABLE_FLAGS);
    assert f * PAGE_SIZE + TABLE_FLAGS == 2 * (2048 * f + 3) + 1;
  }

  lemma WithTableOk(p: Paging, i: nat, f: nat)
    requires PagingOk(p) && i < ENTRIES && !Present(p.dir[i]) && f !in p.tables
    ensures PagingOk(WithTable(p, i, f)) && SameEntries(p, WithTable(p, i, f))
  {
    var p' := WithTable(p, i, f);
    TableEntry(f);
    forall j | 0 <= j < ENTRIES ensures SlotOk(p', j) { assert SlotOk(p, j); }
    forall j, k | 0 <= j < k < ENTRIES && Present(p'.dir[j]) && Present(p'.dir[k])
      ensures Frame(p'.dir[j]) != Frame(p'.dir[k])
    {
      assert SlotOk(p, j) && SlotOk(p, k);
    }
    forall page | 0 <= page < PAGES ensures EntryOf(p', page) == EntryOf(p, page) { assert SlotOk(p, page / ENTRIES); }
  }

  /** One entry of one table written. */
  function WithEntry(p: Paging, page: nat, entry: nat): Paging
    requires PagingOk(p) && page < PAGES && Present(p.dir[page / ENTRIES])
  {
    assert SlotOk(p, page / ENTRIES);
    var f := Frame(p.dir[page / ENTRIES]);
    var table: seq<nat> := p.tables[f][page % ENTRIES := entry];
    p.(tables := p.tables[f := table])
  }

  lemma WithEntryOk(p: Paging, page: nat, entry: nat)
    requires PagingOk(p) && page < PAGES && Present(p.dir[page / ENTRIES])
    ensures var p' := WithEntry(p, page, entry);
      PagingOk(p') && forall q :: 0 <= q < PAGES ==> EntryOf(p', q) == if q == page then entry else EntryOf(p, q)
  {
    var p' := WithEntry(p, page, entry);
    forall i | 0 <= i < ENTRIES ensures SlotOk(p', i) { assert SlotOk(p, i); }
    assert SlotOk(p, page / ENTRIES);
    forall q | 0 <= q < PAGES ensures EntryOf(p', q) == if q == page then entry else EntryOf(p, q) {
      assert SlotOk(p, q / ENTRIES);
      assert q == q / ENTRIES * ENTRIES + q % ENTRIES && page == page / ENTRIES * ENTRIES + page % ENTRIES;
    }
  }

  /** The i-th page after an address, as an address and as a page number. */
  function AddressAfter(addr: nat, i: nat): (r: nat)
    ensures r < BYTES
  {
    (addr + i * PAGE_SIZE) % BYTES
  }

  function PageAfter(page: nat, i: nat): (r: nat)
    ensures r < PAGES
  {
    (page + i) % PAGES
  }

  lemma Addresses(addr: nat, i: nat)
    requires addr < BYTES
    ensures AddressAfter(addr, i) / PAGE_SIZE == PageAfter(addr / PAGE_SIZE, i)
    ensures addr % PAGE_SIZE == 0 ==> AddressAfter(addr, i) == PageAfter(addr / PAGE_SIZE, i) * PAGE_SIZE
  {
    var x, r := addr + i * PAGE_SIZE, AddressAfter(addr, i);
    assert x / PAGE_SIZE == addr / PAGE_SIZE + i && x % PAGE_SIZE == addr % PAGE_SIZE;
    assert r / PAGE_SIZE == x / PAGE_SIZE % PAGES && r % PAGE_SIZE == x % PAGE_SIZE;
  }

  lemma PageSteps(page: nat, i: nat)
    ensures PageAfter(page, i + 1) == if PageAfter(page, i) + 1 == PAGES then 0 else PageAfter(page, i) + 1
  {
    var q, r := (page + i) / PAGES, (page + i) % PAGES;
    assert page + i == q * PAGES + r;
    if r + 1 == PAGES {
      QuotientUnique(page + i + 1, PAGES, q + 1, 0);
    } else {
      QuotientUnique(page + i + 1, PAGES, q, r + 1);
    }
  }

  lemma SameQuotient(a: nat)
    requires (a + 1) % ENTRIES != 0
    ensures (a + 1) / ENTRIES == a / ENTRIES
  {
    var q, r := a / ENTRIES, a % ENTRIES;
    assert a == q * ENTRIES + r;
    if r + 1 == ENTRIES {
      QuotientUnique(a + 1, ENTRIES, q + 1, 0);
      assert false;
    }
    QuotientUnique(a + 1, ENTRIES, q, r + 1);
  }

  lemma PageAfterNone(page: nat)
    requires page < PAGES
    ensures PageAfter(page, 0) == page
  {
  }

  lemma MappedNone(p: Paging, p': Paging, virt: nat, phys: nat, flags: nat)
    requires PagingOk(p) && PagingOk(p') && SameEntries(p, p')
    ensures MappedBy(p, p', virt, phys, 0, flags)
  {
  }

  lemma MappedSame(p: Paging, p': Paging, p'': Paging, virt: nat, phys: nat, n: nat, flags: nat)
    requires PagingOk(p) && PagingOk(p') && PagingOk(p'')
    requires MappedBy(p, p', virt, phys, n, flags) && SameEntries(p', p'')
    ensures MappedBy(p, p'', virt, phys, n, flags)
  {
    hide EntryOf, PagingOk, Above;
  }

  lemma MappedMore(p: Paging, p': Paging, p'': Paging, virt: nat, phys: nat, n: nat, flags: nat)
    requires PagingOk(p) && PagingOk(p') && PagingOk(p'') && MappedBy(p, p', virt, phys, n, flags)
    requires forall q :: 0 <= q < PAGES ==>
      EntryOf(p'', q) == if q == PageAfter(virt, n) then PageAfter(phys, n) * PAGE_SIZE + flags else EntryOf(p', q)
    ensures MappedBy(p, p'', virt, phys, n + 1, flags)
  {
    hide EntryOf, PagingOk, Above;
    forall q | 0 <= q < PAGES
      ensures EntryOf(p'', q) ==
        if Above(q, virt) < n + 1 then (phys + Above(q, virt)) % PAGES * PAGE_SIZE + flags else EntryOf(p, q)
    {
      AboveStep(q, virt, phys, n);
    }
  }

  /** Fresh pages: none twice, none in use. */
  ghost predicate SupplyOk(supply: seq<nat>, used: set<nat>)
  {
    && (forall i, j :: 0 <= i < j < |supply| ==> supply[i] != supply[j])
    && forall i :: 0 <= i < |supply| ==> supply[i] < PAGES && supply[i] !in used
  }

  // ---- the tables that a range takes ----

  /** The slots of a directory that lead to tables. */
  ghost function TablesIn(dir: seq<nat>): set<nat>
  {
    set i | 0 <= i < |dir| && Present(dir[i])
  }

  /** The directory slots of the n pages from first on. */
  ghost function SlotsOf(first: nat, n: nat): set<nat>
  {
    set i | 0 <= i < ENTRIES && SlotHit(first, n, i)
  }

  ghost predicate SlotHit(first: nat, n: nat, i: nat)
  {
    exists j :: 0 <= j < n && SlotAfter(first, j) == i
  }

  function SlotAfter(first: nat, j: nat): (i: nat)
    ensures i < ENTRIES
  {
    PageAfter(first, j) / ENTRIES
  }

  /** The slots that a map of n pages prepares: that of the first page in any case. */
  ghost function SlotsToMap(first: nat, n: nat): set<nat>
  {
    {SlotAfter(first, 0)} + SlotsOf(first, n)
  }

  lemma SlotsMore(first: nat, i: nat)
    ensures SlotsToMap(first, i + 1) == SlotsToMap(first, i) + {SlotAfter(first, i)}
  {
    hide SlotAfter;
    var a, b := SlotsOf(first, i), SlotsOf(first, i + 1);
    forall x | x in b ensures x in a || x == SlotAfter(first, i) {
      var j :| 0 <= j < i + 1 && SlotAfter(first, j) == x;
      if j < i { assert SlotHit(first, i, x); }
    }
    forall x | x in a ensures x in b {
      var j :| 0 <= j < i && SlotAfter(first, j) == x;
      assert SlotHit(first, i + 1, x);
    }
    assert SlotHit(first, i + 1, SlotAfter(first, i));
  }

  lemma NoSlots(first: nat)
    ensures SlotsToMap(first, 0) == {SlotAfter(first, 0)}
  {
  }

  lemma SlotsGrow(first: nat, i: nat, n: nat)
    requires i < n
    ensures SlotsToMap(first, i) + {SlotAfter(first, i)} <= SlotsToMap(first, n)
  {
    hide SlotAfter;
    forall x | x in SlotsOf(first, i) ensures x in SlotsOf(first, n) {
      var j :| 0 <= j < i && SlotAfter(first, j) == x;
      assert SlotHit(first, n, x);
    }
    assert SlotHit(first, n, SlotAfter(first, i));
  }

  /** With the tables t0 and n0 pages in supply at first, the needs so far have been met: t tables, n pages left. */
  predicate Paid(t0: set<nat>, n0: nat, needs: set<nat>, t: set<nat>, n: nat)
  {
    t == t0 + needs && n + |needs - t0| == n0
  }

  lemma PayMore(t0: set<nat>, n0: nat, needs: set<nat>, t: set<nat>, n: nat, slot: nat)
    requires Paid(t0, n0, needs, t, n)
    ensures slot in t ==> Paid(t0, n0, needs + {slot}, t, n)
    ensures slot !in t && n > 0 ==> Paid(t0, n0, needs + {slot}, t + {slot}, n - 1)
  {
    if slot in t {
      assert (needs + {slot}) - t0 == needs - t0;
    } else {
      assert (needs + {slot}) - t0 == (needs - t0) + {slot};
    }
  }

  lemma CannotPay(t0: set<nat>, n0: nat, needs: set<nat>, t: set<nat>, slot: nat, all: set<nat>)
    requires Paid(t0, n0, needs, t, 0) && slot !in t && needs + {slot} <= all
    ensures |all - t0| > n0
  {
    var more := (needs - t0) + {slot};
    assert all - t0 == more + ((all - t0) - more);
  }

  class PageDirectory {
    const dir: array<nat>
    /** What lies at each page that holds a table. */
    var tables: map<nat, array<nat>>
    /** The pages that the page allocator will hand out, in turn. */
    var supply: seq<nat>

    ghost function Snapshot(): Paging
      reads `tables, dir, tables.Values
    {
      Paging(dir[..], map f | f in tables :: tables[f][..])
    }

    /** The slots that lead to tables. */
    ghost function Tables(): set<nat>
      reads dir
    {
      TablesIn(dir[..])
    }

    /** There are pages enough for the tables still missing. */
    ghost predicate Affords(needs: set<nat>)
      reads dir, `supply
    {
      |needs - Tables()| <= |supply|
    }

    ghost predicate Valid()
      reads this, dir, tables.Values
    {
      && PagingOk(Snapshot()) && SupplyOk(supply, tables.Keys)
      && dir !in tables.Values && forall f, g :: f in tables && g in tables && f != g ==> tables[f] != tables[g]
    }

    /** x86_alloc_new_pagedir. */
    constructor (supply: seq<nat>)
      requires SupplyOk(supply, {})
      ensures Valid() && fresh(dir) && tables == map[] && this.supply == supply
      ensures forall page :: 0 <= page < PAGES ==> EntryOf(Snapshot(), page) == 0
    {
      dir := new nat[ENTRIES](_ => 0);
      tables, this.supply := map[], supply;
    }

    lemma DirLength()
      requires Valid()
      ensures dir.Length == ENTRIES
    {
    }

    lemma FirstOfSupply()
      requires SupplyOk(supply, tables.Keys) && supply != []
      ensures supply[0] !in tables && SupplyOk([supply[0]] + supply[1..], tables.Keys)
    {
      assert [supply[0]] + supply[1..] == supply;
    }

    lemma TableAt(f: nat)
      requires Valid() && f in tables
      ensures tables[f].Length == ENTRIES && tables[f] != dir && Snapshot().tables[f] == tables[f][..]
      ensures |Snapshot().dir| == dir.Length == ENTRIES
    {
      assert tables[f] in tables.Values;
      assert |Snapshot().tables[f]| == ENTRIES;
    }

    /** x86_prepare_page_table. */
    method PreparePageTable(addr: nat) returns (ok: bool)
      requires Valid() && addr < BYTES
      modifies `tables, `supply, dir
      ensures Valid() && fresh(tables.Values - old(tables.Values))
      ensures SameEntries(old(Snapshot()), Snapshot())
      ensures ok <==> Present(dir[addr / 0x40_0000])
      ensures !ok ==> old(supply) == [] == supply
      ensures var slot := addr / 0x40_0000;
        && (ok <==> slot in old(Tables()) || old(supply) != [])
        && (slot in old(Tables()) ==> Tables() == old(Tables()) && |supply| == |old(supply)|)
        && (slot !in old(Tables()) && ok ==> Tables() == old(Tables()) + {slot} && |supply| == |old(supply)| - 1)
        && (!ok ==> Tables() == old(Tables()))
    {
      hide PagingOk, SupplyOk, EntryOf, Present, SameEntries;
      SameAsItself();
      DirLength();
      var i := addr / 0x40_0000;
      if Present(dir[i]) { return true; }
      if supply == [] { return false; }
      var f := supply[0];
      ghost var d := dir[..];
      FirstOfSupply();
      supply := supply[1..];
      var table := new nat[ENTRIES](_ => 0);
      TableEntry(f);
      AddTable(i, f, table);
      TableAdded(d, i, f);
      ok := true;
    }

    lemma TableAdded(d: seq<nat>, i: nat, f: nat)
      requires i < |d|
      ensures TablesIn(d[i := f * PAGE_SIZE + TABLE_FLAGS]) == TablesIn(d) + {i}
    {
      TableEntry(f);
    }

    lemma RestOfSupply(f: nat, rest: seq<nat>, used: set<nat>)
      requires SupplyOk([f] + rest, used)
      ensures SupplyOk(rest, used + {f})
    {
      assert f == ([f] + rest)[0];
      assert forall j :: 0 <= j < |rest| ==> rest[j] == ([f] + rest)[j + 1];
    }

    lemma SameAsItself()
      requires Valid()
      ensures SameEntries(Snapshot(), Snapshot())
    {
    }

    method AddTable(i: nat, f: nat, table: array<nat>)
      requires PagingOk(Snapshot()) && i < dir.Length == ENTRIES && !Present(dir[i]) && f !in tables
        && SupplyOk([f] + supply, tables.Keys)
      requires dir !in tables.Values && table != dir && table !in tables.Values && table[..] == seq(ENTRIES, _ => 0)
      requires forall f, g :: f in tables && g in tables && f != g ==> tables[f] != tables[g]
      modifies `tables, dir
      ensures Valid() && tables == old(tables)[f := table] && dir[..] == old(dir[..])[i := f * PAGE_SIZE + TABLE_FLAGS]
      ensures SameEntries(old(Snapshot()), Snapshot())
    {
      hide PagingOk, EntryOf, SameEntries, SupplyOk, Present;
      ghost var p := Snapshot();
      WithTableOk(p, i, f);
      RestOfSupply(f, supply, tables.Keys);
      tables := tables[f := table];
      dir[i] := f * PAGE_SIZE + TABLE_FLAGS;
      assert Snapshot() == WithTable(p, i, f);
      assert tables.Keys == old(tables.Keys) + {f};
    }

    ghost predicate IsTable(table: array<nat>, page: nat)
      reads `tables, dir
    {
      && page < PAGES && dir.Length == ENTRIES && Present(dir[page / ENTRIES])
      && Frame(dir[page / ENTRIES]) in tables && table == tables[Frame(dir[page / ENTRIES])]
    }

    lemma ValidPaging()
      requires Valid()
      ensures PagingOk(Snapshot())
    {
    }

    lemma NextPage(table: array<nat>, v: nat, i: nat)
      requires IsTable(table, PageAfter(v, i))
      ensures PageAfter(v, i + 1) % ENTRIES != 0 ==> IsTable(table, PageAfter(v, i + 1))
    {
      hide PageAfter;
      PageSteps(v, i);
      var a := PageAfter(v, i);
      if (a + 1) % ENTRIES != 0 { SameQuotient(a); }
    }

    /** x86_get_page_table. */
    method GetPageTable(addr: nat) returns (table: array<nat>)
      requires Valid() && addr < BYTES && Present(dir[addr / 0x40_0000])
      ensures IsTable(table, addr / PAGE_SIZE) && table in tables.Values
    {
      var i := addr / 0x40_0000;
      assert SlotOk(Snapshot(), i);
      table := tables[Frame(dir[i])];
    }

    /** pagetable[PAGE_ENTRY (page)] = entry. */
    method StoreEntry(table: array<nat>, page: nat, entry: nat)
      requires Valid() && IsTable(table, page)
      modifies table
      ensures Valid() && IsTable(table, page) && dir[..] == old(dir[..])
      ensures forall q :: 0 <= q < PAGES ==>
        EntryOf(Snapshot(), q) == if q == page then entry else EntryOf(old(Snapshot()), q)
    {
      ghost var p := Snapshot();
      ghost var f := Frame(dir[page / ENTRIES]);
      TableAt(f);
      WithEntryOk(p, page, entry);
      table[page % ENTRIES] := entry;
      assert Snapshot() == WithEntry(p, page, entry);
    }

    /** A page in the middle of a table at hand has its slot filled. */
    lemma InTables(table: array<nat>, v: nat, i: nat)
      ensures IsTable(table, PageAfter(v, i)) ==> SlotAfter(v, i) in Tables()
    {
    }

    /** The i-th page of a range, in the table at hand or, at the start of another, in that. */
    method MapPage(table: array<nat>, virt: nat, phys: nat, i: nat, flags: nat, ghost p: Paging,
                   ghost t0: set<nat>, ghost n0: nat)
      returns (ok: bool, pagetable: array<nat>)
      requires Valid() && virt < BYTES && phys < BYTES && phys % PAGE_SIZE == 0 && flags < PAGE_SIZE
      requires PagingOk(p) && PagingOk(Snapshot()) && table in tables.Values
      requires MappedBy(p, Snapshot(), virt / PAGE_SIZE, phys / PAGE_SIZE, i, flags)
      requires PageAfter(virt / PAGE_SIZE, i) % ENTRIES != 0 ==> IsTable(table, PageAfter(virt / PAGE_SIZE, i))
      requires Paid(t0, n0, SlotsToMap(virt / PAGE_SIZE, i), Tables(), |supply|)
      modifies `tables, `supply, dir, tables.Values
      ensures Valid() && fresh(tables.Values - old(tables.Values)) && PagingOk(Snapshot())
        && (ok ==> pagetable in tables.Values)
      ensures MappedBy(p, Snapshot(), virt / PAGE_SIZE, phys / PAGE_SIZE, if ok then i + 1 else i, flags)
      ensures ok ==> PageAfter(virt / PAGE_SIZE, i + 1) % ENTRIES != 0 ==>
        IsTable(pagetable, PageAfter(virt / PAGE_SIZE, i + 1))
      ensures !ok ==> supply == []
      ensures ok ==> Paid(t0, n0, SlotsToMap(virt / PAGE_SIZE, i + 1), Tables(), |supply|)
      ensures !ok ==> Paid(t0, n0, SlotsToMap(virt / PAGE_SIZE, i), Tables(), |supply|)
      ensures !ok ==> SlotAfter(virt / PAGE_SIZE, i) !in Tables()
    {
      hide MappedBy, SameEntries, EntryOf, PagingOk, SupplyOk, Snapshot, Above, Valid, IsTable, AddressAfter, PageAfter,
        Paid, SlotsToMap, TablesIn;
      ok, pagetable := true, table;
      ghost var v, f := virt / PAGE_SIZE, phys / PAGE_SIZE;
      PayMore(t0, n0, SlotsToMap(v, i), Tables(), |supply|, SlotAfter(v, i));
      SlotsMore(v, i);
      InTables(table, v, i);
      var thisVirt, thisPhys := AddressAfter(virt, i), AddressAfter(phys, i);
      Addresses(virt, i);
      Addresses(phys, i);
      if thisVirt / PAGE_SIZE % ENTRIES == 0 {
        ghost var q := Snapshot();
        ok := PreparePageTable(thisVirt);
        ValidPaging();
        MappedSame(p, q, Snapshot(), v, f, i, flags);
        if !ok { return; }
        pagetable := GetPageTable(thisVirt);
      }
      ghost var q := Snapshot();
      StoreEntry(pagetable, thisVirt / PAGE_SIZE, thisPhys + flags);
      ValidPaging();
      MappedMore(p, q, Snapshot(), v, f, i, flags);
      NextPage(pagetable, v, i);
    }

    /** x86_pagedir_map_range. It fails only when the allocator has no page left for a table, and has then mapped
        the pages before the one it could not map. */
    method MapRange(virt: nat, phys: nat, pages: nat, flags: nat) returns (ok: bool, ghost done: nat)
      requires Valid() && virt < BYTES && phys < BYTES && phys % PAGE_SIZE == 0 && flags < PAGE_SIZE && pages < BYTES
      modifies `tables, `supply, dir, tables.Values
      ensures Valid() && fresh(tables.Values - old(tables.Values))
      ensures MappedBy(old(Snapshot()), Snapshot(), virt / PAGE_SIZE, phys / PAGE_SIZE, done, flags)
      ensures if ok then done == pages else (done < pages || done == 0) && supply == []
      ensures ok <==> old(Affords(SlotsToMap(virt / PAGE_SIZE, pages)))
      ensures ok ==> Paid(old(Tables()), |old(supply)|, SlotsToMap(virt / PAGE_SIZE, pages), Tables(), |supply|)
      ensures !ok ==> exists slot :: slot in SlotsToMap(virt / PAGE_SIZE, pages) && slot !in Tables()
    {
      hide MappedBy, SameEntries, EntryOf, PagingOk, SupplyOk, Snapshot, Above, Valid, IsTable, AddressAfter, PageAfter,
        Paid, SlotsToMap, TablesIn;
      ValidPaging();
      ghost var p, t0, n0 := Snapshot(), Tables(), |supply|;
      ghost var v, f := virt / PAGE_SIZE, phys / PAGE_SIZE;
      FirstSlot(t0, n0, virt, pages);
      done := 0;
      ok := PreparePageTable(virt);
      ValidPaging();
      MappedNone(p, Snapshot(), v, f, flags);
      Addresses(virt, 0);
      PageAfterNone(v);
      if !ok { return; }
      assert Paid(t0, n0, SlotsToMap(v, 0), Tables(), |supply|);
      var pagetable := GetPageTable(virt);
      var i := 0;
      while i < pages
        invariant i <= pages && done == i && Valid() && fresh(tables.Values - old(tables.Values))
        invariant PagingOk(p) && PagingOk(Snapshot()) && pagetable in tables.Values
        invariant MappedBy(p, Snapshot(), v, f, i, flags)
        invariant PageAfter(v, i) % ENTRIES != 0 ==> IsTable(pagetable, PageAfter(v, i))
        invariant Paid(t0, n0, SlotsToMap(v, i), Tables(), |supply|)
      {
        ok, pagetable := MapPage(pagetable, virt, phys, i, flags, p, t0, n0);
        if !ok {
          SlotsGrow(v, i, pages);
          CannotPay(t0, n0, SlotsToMap(v, i), Tables(), SlotAfter(v, i), SlotsToMap(v, pages));
          return;
        }
        i := i + 1;
        done := i;
      }
      PaidEnough(t0, n0, SlotsToMap(v, pages), Tables(), |supply|);
    }

    lemma PaidEnough(t0: set<nat>, n0: nat, needs: set<nat>, t: set<nat>, n: nat)
      requires Paid(t0, n0, needs, t, n)
      ensures |needs - t0| <= n0
    {
    }

    /** The first page's slot is prepared in any case. */
    lemma FirstSlot(t0: set<nat>, n0: nat, virt: nat, pages: nat)
      requires virt < BYTES
      ensures var slot := virt / 0x40_0000;
        && slot == SlotAfter(virt / PAGE_SIZE, 0) && slot in SlotsToMap(virt / PAGE_SIZE, pages)
        && (slot in t0 ==> Paid(t0, n0, SlotsToMap(virt / PAGE_SIZE, 0), t0, n0))
        && (slot !in t0 && n0 > 0 ==> Paid(t0, n0, SlotsToMap(virt / PAGE_SIZE, 0), t0 + {slot}, n0 - 1))
        && (slot !in t0 && n0 == 0 ==> |SlotsToMap(virt / PAGE_SIZE, pages) - t0| > n0)
    {
      var v, slot := virt / PAGE_SIZE, virt / 0x40_0000;
      PageAfterNone(v);
      assert v / ENTRIES == slot;
      NoSlots(v);
      assert SlotsToMap(v, 0) == {} + {slot};
      assert {} - t0 == {} && t0 + {} == t0;
      PayMore(t0, n0, {}, t0, n0, slot);
      if slot !in t0 { assert slot in SlotsToMap(v, pages) - t0; }
    }
  }
}
