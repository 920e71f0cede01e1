/** Software translation through regions and page sets against the page tables built from them. */
module Translation {
  import opened PageSize
  import opened BinMap
  import opened PageTables
  import opened Regions

  datatype Option<T> = None | Some(value: T)

  /** A page of a page set: its frame's address, 0 for none, and the tag. */
  datatype Slot = Slot(phys: nat, tag: nat)

  /** What is behind a region: consecutive frames, or a page set, page by page. */
  datatype Backing = RangeMap(phys: nat) | PageMap(pages: seq<Slot>)

  datatype Area = Area(span: Span, access: nat, backing: Backing)

  /** The table entry of every page. */
  type Hardware = hw: seq<nat> | |hw| == PAGES witness seq(PAGES, _ => 0)

  function FirstPage(a: Area): nat { a.span.first / PAGE_SIZE }

  /** How many pages a region has. */
  function Size(a: Area): int { (a.span.last + 1 - a.span.first) / PAGE_SIZE }

  /** Whole pages from page-aligned frames; a range map is mapped present (vm_region_remap) and is not the whole
      address space; a page set has frames only inside its region, and no page is present without a frame. */
  predicate AreaOk(a: Area)
  {
    && SpanOk(a.span)
    && match a.backing
       case RangeMap(phys) => phys < BYTES && phys % PAGE_SIZE == 0 && Bit(a.access, 0) && Size(a) < PAGES
       case PageMap(c) => |c| == PAGES && forall d :: 0 <= d < PAGES ==>
         FrameOk(c[d]) && (c[d].phys != 0 ==> d < Size(a))
  }

  predicate FrameOk(s: Slot)
  {
    s.phys < BYTES && s.phys % PAGE_SIZE == 0 && (s.phys == 0 ==> s.tag % 2 == 0)
  }

  /** __vm_flags_to_x86_flags. */
  function X86Flags(flags: nat): (r: nat)
    ensures r < PAGE_SIZE && (Present(r) <==> Bit(flags, 0)) && (Bit(r, 1) <==> Bit(flags, 2))
      && (Bit(r, 2) <==> Bit(flags, 8))
  {
    FlagBits(Flag(flags, 0), Flag(flags, 2), Flag(flags, 8), Flag(flags, 4), Flag(flags, 5), Flag(flags, 6));
    Flag(flags, 0) + 2 * Flag(flags, 2) + 4 * Flag(flags, 8) + 32 * Flag(flags, 4) + 64 * Flag(flags, 5)
      + 256 * Flag(flags, 6)
  }

  /** Accessed, dirty and global follow the kernel's flags as well, and no other bit is set. */
  lemma X86FlagBits(flags: nat)
    ensures var r := X86Flags(flags);
      && (Bit(r, 5) <==> Bit(flags, 4)) && (Bit(r, 6) <==> Bit(flags, 5)) && (Bit(r, 8) <==> Bit(flags, 6))
      && r < 512 && !Bit(r, 3) && !Bit(r, 4) && !Bit(r, 7)
  {
    hide Bit;
    FlagBits(Flag(flags, 0), Flag(flags, 2), Flag(flags, 8), Flag(flags, 4), Flag(flags, 5), Flag(flags, 6));
  }

  function Flag(flags: nat, i: nat): nat { if Bit(flags, i) then 1 else 0 }

  /** A word, from its lowest bit. */
  function Word(bits: seq<nat>): nat
  {
    if bits == [] then 0 else bits[0] + 2 * Word(bits[1..])
  }

  lemma {:induction false} WordBit(bits: seq<nat>, i: nat)
    requires i < |bits| && forall b :: b in bits ==> b < 2
    ensures Bit(Word(bits), i) <==> bits[i] == 1
  {
    if i > 0 {
      assert forall b :: b in bits[1..] ==> b in bits;
      assert Word(bits) / 2 == Word(bits[1..]) by { assert bits[0] in bits; }
      WordBit(bits[1..], i - 1);
    } else {
      assert bits[0] in bits;
    }
  }

  lemma FlagBits(p: nat, w: nat, u: nat, a: nat, d: nat, g: nat)
    requires p < 2 && w < 2 && u < 2 && a < 2 && d < 2 && g < 2
    ensures var r := p + 2 * w + 4 * u + 32 * a + 64 * d + 256 * g;
      && (Present(r) <==> p == 1) && (Bit(r, 1) <==> w == 1) && (Bit(r, 2) <==> u == 1)
      && (Bit(r, 5) <==> a == 1) && (Bit(r, 6) <==> d == 1) && (Bit(r, 8) <==> g == 1)
      && !Bit(r, 3) && !Bit(r, 4) && !Bit(r, 7)
  {
    var bits := [p, w, u, 0, 0, a, d, 0, g];
    WordValue(p, w, u, a, d, g);
    assert Bit(Word(bits), 0) <==> Present(Word(bits));
    hide Bit, Word;
    forall i | 0 <= i < 9 ensures Bit(Word(bits), i) <==> bits[i] == 1 { WordBit(bits, i); }
  }

  lemma WordValue(p: nat, w: nat, u: nat, a: nat, d: nat, g: nat)
    ensures Word([p, w, u, 0, 0, a, d, 0, g]) == p + 2 * w + 4 * u + 32 * a + 64 * d + 256 * g
  {
    WordOf(0, [g]);
    WordOf(d, [0, g]);
    WordOf(a, [d, 0, g]);
    WordOf(0, [a, d, 0, g]);
    WordOf(0, [0, a, d, 0, g]);
    WordOf(u, [0, 0, a, d, 0, g]);
    WordOf(w, [u, 0, 0, a, d, 0, g]);
    WordOf(p, [w, u, 0, 0, a, d, 0, g]);
    assert Word([g]) == g;
    hide Word;
  }

  lemma WordOf(bit: nat, bits: seq<nat>)
    ensures Word([bit] + bits) == bit + 2 * Word(bits)
  {
    assert ([bit] + bits)[1..] == bits;
  }

  lemma Halves(x: nat, b: nat)
    requires b < 2
    ensures (2 * x + b) / 2 == x && (2 * x + b) % 2 == b
  {
  }

  /** Bits 1 and 2 of a word. */
  lemma BitValues(x: nat)
    ensures Bit(x, 1) <==> x / 2 % 2 == 1
    ensures Bit(x, 2) <==> x / 2 / 2 % 2 == 1
  {
    assert Bit(x, 1) == Bit(x / 2, 0) && Bit(x, 2) == Bit(x / 2, 1) == Bit(x / 2 / 2, 0);
  }

  /** The region's access with the page's own present bit. */
  function Perms(access: nat, tag: nat): nat { access / 2 * 2 + tag % 2 }

  lemma PermBits(access: nat, tag: nat, i: nat)
    ensures Bit(Perms(access, tag), i) <==> if i == 0 then tag % 2 == 1 else Bit(access, i)
  {
    assert Perms(access, tag) / 2 == access / 2;
  }

  // ---- the two translations ----

  predicate Covers(a: Area, page: nat)
  {
    FirstPage(a) <= page < FirstPage(a) + Size(a)
  }

  /** vm_region_translate_page for a page of the region. */
  function Soft(a: Area, page: nat): Option<nat>
    requires AreaOk(a) && Covers(a, page)
  {
    match a.backing
    case RangeMap(phys) => Some((page * PAGE_SIZE - a.span.first + phys) % BYTES)
    case PageMap(c) =>
      var s := c[page - FirstPage(a)];
      if s.tag % 2 == 1 then Some(s.phys) else None
  }

  predicate Agrees(entry: nat, soft: Option<nat>)
  {
    if soft.None? then !Present(entry) else Present(entry) && Frame(entry) * PAGE_SIZE == soft.value
  }

  /** vm_update_region of a range map that gets as far as page cut of the region. */
  function Ranged(hw: Hardware, first: nat, phys: nat, n: nat, flags: nat): Hardware
  {
    seq(PAGES, page requires 0 <= page < PAGES =>
      if Above(page, first) < n then (phys + Above(page, first)) % PAGES * PAGE_SIZE + flags else hw[page])
  }

  /** vm_update_region of a page set that gets as far as page cut of the set. */
  function Filled(hw: Hardware, first: nat, c: seq<Slot>, access: nat, cut: nat): Hardware
    requires |c| == PAGES
  {
    seq(PAGES, page requires 0 <= page < PAGES =>
      var d := Above(page, first);
      if d < cut && c[d].phys != 0 then c[d].phys + X86Flags(Perms(access, c[d].tag)) else hw[page])
  }

  /** __UNITS of the size of the region, which is 0 in 32 bits for the whole address space. */
  function Units(a: Area): nat
  {
    ((a.span.last - a.span.first + 1) % BYTES + PAGE_SIZE - 1) % BYTES / PAGE_SIZE
  }

  function Updated(hw: Hardware, a: Area, cut: nat): Hardware
    requires a.backing.PageMap? ==> |a.backing.pages| == PAGES
  {
    match a.backing
    case RangeMap(phys) => Ranged(hw, FirstPage(a), phys / PAGE_SIZE, if Units(a) < cut then Units(a)
        else cut, X86Flags(a.access))
    case PageMap(c) => Filled(hw, FirstPage(a), c, a.access, cut)
  }

  /** The directory slots of the pages before page cut of the set that have a frame. */
  ghost function SlotsOfSet(first: nat, c: seq<Slot>, cut: nat): set<nat>
  {
    set i | 0 <= i < ENTRIES && FrameHit(first, c, cut, i)
  }

  ghost predicate FrameHit(first: nat, c: seq<Slot>, cut: nat, i: nat)
  {
    exists d :: 0 <= d < |c| && d < cut && c[d].phys != 0 && SlotAfter(first, d) == i
  }

  /** The directory slots that a complete update of the region fills. */
  ghost function Needs(a: Area): set<nat>
  {
    match a.backing
    case RangeMap(_) => SlotsToMap(FirstPage(a), Units(a))
    case PageMap(c) => SlotsOfSet(FirstPage(a), c, PAGES)
  }

  lemma UnitsIsSize(a: Area)
    requires SpanOk(a.span)
    ensures Units(a) == (if Size(a) == PAGES then 0 else Size(a)) && 0 < Size(a) <= PAGES
      && FirstPage(a) + Size(a) <= PAGES
  {
    var n := a.span.last + 1 - a.span.first;
    assert n == Size(a) * PAGE_SIZE;
  }

  /** A complete update makes hardware and software agree on a page of the region exactly if the page has a frame of its
      own, or they agreed before: the walk skips null slots, and a region of the whole address space counts 0 pages. */
  lemma UpdateAgreesIff(hw: Hardware, a: Area, page: nat)
    requires SpanOk(a.span) && Covers(a, page) && page < PAGES
    requires match a.backing
      case RangeMap(phys) => phys < BYTES && phys % PAGE_SIZE == 0
      case PageMap(c) => |c| == PAGES && forall d :: 0 <= d < PAGES ==> c[d].phys < BYTES && c[d].phys % PAGE_SIZE == 0
    ensures match a.backing
      case RangeMap(phys) =>
        Agrees(Updated(hw, a, PAGES)[page], Some((page * PAGE_SIZE - a.span.first + phys) % BYTES)) <==>
          if Size(a) < PAGES then Bit(a.access, 0)
              else Agrees(hw[page], Some((page * PAGE_SIZE - a.span.first + phys) % BYTES))
      case PageMap(c) =>
        var s := c[page - FirstPage(a)];
        var soft := if s.tag % 2 == 1 then Some(s.phys) else None;
        Agrees(Updated(hw, a, PAGES)[page], soft) <==> s.phys != 0 || Agrees(hw[page], soft)
  {
    hide X86Flags, Perms, Units, Bit;
    UnitsIsSize(a);
    var d := Above(page, FirstPage(a));
    assert d == page - FirstPage(a);
    match a.backing
    case RangeMap(phys) =>
      var f := (phys / PAGE_SIZE + d) % PAGES;
      EntryBits(f * PAGE_SIZE, X86Flags(a.access));
      assert page * PAGE_SIZE - a.span.first == d * PAGE_SIZE;
      Addresses(phys, d);
    case PageMap(c) =>
      EntryBits(c[d].phys, X86Flags(Perms(a.access, c[d].tag)));
      PermBits(a.access, c[d].tag, 0);
  }

  lemma EntryBits(phys: nat, flags: nat)
    requires phys % PAGE_SIZE == 0 && flags < PAGE_SIZE
    ensures Frame(phys + flags) * PAGE_SIZE == phys && (Present(phys + flags) <==> Present(flags))
    ensures Bit(phys + flags, 1) == Bit(flags, 1) && Bit(phys + flags, 2) == Bit(flags, 2)
  {
    hide Bit;
    var q := phys / PAGE_SIZE;
    assert phys == q * PAGE_SIZE;
    QuotientUnique(phys + flags, PAGE_SIZE, q, flags);
    BitValues(phys + flags);
    BitValues(flags);
    Halves(2048 * q + flags / 2, flags % 2);
    Halves(1024 * q + flags / 2 / 2, flags / 2 % 2);
    Halves(512 * q + flags / 2 / 2 / 2, flags / 2 / 2 % 2);
  }

  /** A range map of the whole address space maps no page at all: its size in bytes is 0 in 32 bits. */
  lemma WholeSpaceUnmapped(hw: Hardware, access: nat)
    ensures Updated(hw, Area(Span(0, BYTES - 1), access, RangeMap(0)), PAGES) == hw
  {
    var a := Area(Span(0, BYTES - 1), access, RangeMap(0));
    UnitsIsSize(a);
    assert Size(a) == PAGES;
  }

  /** A page that is put with the null frame is present to software, and the tables keep what they had. */
  lemma NullFrameUnmapped(hw: Hardware, first: nat, c: seq<Slot>, access: nat, d: nat)
    requires |c| == PAGES && d < PAGES && c[d] == Slot(0, 1) && first + d < PAGES
    ensures Filled(hw, first, c, access, PAGES)[first + d] == hw[first + d]
  {
    assert Above(first + d, first) == d;
  }
}
