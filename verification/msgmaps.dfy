/** The mapping of message bodies into the address range of a queue, and the test of the unmapping. */
module MsgMaps {
  import opened PageSize
  import opened Sequences
  import opened Intervals
  import opened Vremap

  const ENOMEM: int := 12
  const EINVAL: int := 22

  /** A message, as far as mapping goes: the size of its body, and where it is mapped, 0 for nowhere. */
  class MappedMsg {
    const size: nat
    var virt: nat

    constructor (size: nat)
      ensures this.size == size && virt == 0
    {
      this.size, virt := size, 0;
    }

    /** A body without contents is never mapped. */
    predicate Valid()
      reads `virt
    {
      size < WORD && (size == 0 ==> virt == 0)
    }
  }

  /** __UNITS of the size of a body, in 32 bits. */
  function Units(size: nat): nat
  {
    (size + PAGE_SIZE - 1) % WORD / PAGE_SIZE
  }

  /** What the test of __msg_unmap_m refuses: exactly the mapped messages. */
  predicate Refused(size: nat, virt: nat)
  {
    size > 0 && virt != 0
  }

  /** A release of n pages at address 0 finds no chunk that begins behind them, and no memory for a chunk. */
  predicate NoEffect(f: seq<Interval>, n: nat, supply: nat)
  {
    supply == 0 && forall i :: 0 <= i < |f| ==> f[i].a != PAGE_SIZE * n
  }

  // ---- releases at address 0 ----

  /** A range at address 0 stays there, whatever it absorbs. */
  lemma {:induction false} StaysAtZero(f: seq<Interval>, v: Interval)
    requires v.a == 0 && forall i :: 0 <= i < |f| ==> f[i].a > 0
    ensures NoDoubleFree(f, v) && Absorbed(f, v).v.a == 0
    decreases |f|
  {
    var k := FirstBorder(f, v);
    if k < |f| {
      WithoutAt(f, k);
      StaysAtZero(Without(f, k), Joined(f[k], v));
    }
  }

  lemma BordersAtZero(f: seq<Interval>, n: nat, lo: int, hi: int)
    requires Within(f, lo, hi) && lo > 0
    ensures Absorbed(f, Interval(0, n)).merges == 0 <==> forall i :: 0 <= i < |f| ==> f[i].a != PAGE_SIZE * n
  {
    var v := Interval(0, n);
    var k := FirstBorder(f, v);
    forall i | 0 <= i < |f| ensures Adjacent(f[i], v) <==> f[i].a == PAGE_SIZE * n { assert lo <= f[i].a; }
  }

  /** The list after such a release has a chunk at address 0. */
  lemma ReleasedAtZero(f: seq<Interval>, n: nat, lo: int, hi: int)
    requires Within(f, lo, hi) && lo > 0
    ensures NoDoubleFree(f, Interval(0, n))
    ensures var r := Released(f, Interval(0, n)); HasZero(r) && !Within(r, lo, hi)
    ensures forall k :: 0 <= k <= |f| ==>
      HasZero(With(f, k, Interval(0, n))) && !Within(With(f, k, Interval(0, n)), lo, hi)
  {
    hide Absorbed, NoDoubleFree;
    forall i | 0 <= i < |f| ensures f[i].a > 0 { assert lo <= f[i].a; }
    StaysAtZero(f, Interval(0, n));
    var r := Absorbed(f, Interval(0, n));
    var k := PlaceOf(r.rest, r.v);
    WithAt(r.rest, k, r.v);
    assert Released(f, Interval(0, n))[k].a == 0;
    forall j | 0 <= j <= |f|
      ensures HasZero(With(f, j, Interval(0, n))) && !Within(With(f, j, Interval(0, n)), lo, hi)
    {
      WithAt(f, j, Interval(0, n));
      assert With(f, j, Interval(0, n))[j].a == 0;
    }
  }

  predicate HasZero(f: seq<Interval>)
  {
    exists i :: 0 <= i < |f| && f[i].a == 0
  }

  // ---- the operations ----

  /** __msg_unmap_m. The allocator comes out of it valid exactly if the message is mapped, and so is refused, or the
      release of the range at 0 that it asks for instead has no effect. */
  method UnmapM(d: VremapData, m: MappedMsg) returns (r: int)
    requires d.Valid() && d.address > 0 && m.Valid()
    modifies d, d.list, d.list.s, m
    ensures d.Listed() && m.Valid() && d.live == old(d.live)
    ensures forall c :: c in d.list.s ==> c in old(d.list.s) || fresh(c)
    ensures r == if Refused(m.size, old(m.virt)) then -EINVAL else 0
    ensures m.virt == if Refused(m.size, old(m.virt)) then old(m.virt) else 0
    ensures d.Valid() <==> Refused(m.size, old(m.virt)) || NoEffect(old(d.free), Units(m.size), old(d.supply))
    ensures d.Valid() ==> d.free == old(d.free) && d.pagesBusy == old(d.pagesBusy)
    ensures !d.Valid() ==> HasZero(d.free)
    ensures !d.Valid() && (old(d.Indexed()) || Absorbed(old(d.free), Interval(0, Units(m.size))).merges > 0) ==>
      d.free == Released(old(d.free), Interval(0, Units(m.size)))
  {
    hide Canonical, VremapData.Listed, VremapData.LiveOk, Pages, Within, Released, NoDoubleFree, Absorbed, Units,
      InLive;
    if m.size > 0 && m.virt != 0 { return -EINVAL; }
    ghost var n := Units(m.size);
    ReleasedAtZero(d.free, n, d.address, d.End());
    BordersAtZero(d.free, n, d.address, d.End());
    NothingLiveAtZero(d, n);
    var _, _ := d.Release(m.virt, Units(m.size), 0);
    m.virt := 0;
    r := 0;
  }

  lemma NothingLiveAtZero(d: VremapData, n: nat)
    requires d.Valid() && d.address > 0
    ensures !PartOf(d.live, 0, 0, n)
  {
  }

  /** A message that was never mapped is unmapped from a fresh queue: the chunk grows down to address 0, which is the
      next address handed out. */
  lemma UnmapOfUnmapped()
    ensures Released([Interval(0x1000, 256)], Interval(0, Units(4096))) == [Interval(0, 257)]
    ensures Ensured([Interval(0, 257)], 1).0 == 0
  {
    var f, v, w := [Interval(0x1000, 256)], Interval(0, 1), Interval(0, 257);
    assert Units(4096) == 1;
    assert FirstBorder(f, v) == 0 && Joined(f[0], v) == w;
    assert Without(f, 0) == [];
    assert Absorbed([], w) == Absorption([], w, 0);
  }

  /** One page is mapped; two pages that never were are unmapped: the mapped page is free. */
  lemma UnmapFreesMapped()
    ensures var f := Released([Interval(0x2000, 255)], Interval(0, Units(8192)));
      f == [Interval(0, 257)] && Free(f, 0x1000)
  {
    var f, v, w := [Interval(0x2000, 255)], Interval(0, 2), Interval(0, 257);
    assert Units(8192) == 2;
    assert FirstBorder(f, v) == 0 && Joined(f[0], v) == w;
    assert Without(f, 0) == [];
    assert Absorbed([], w) == Absorption([], w, 0);
    assert [w][0].Has(0x1000);
  }

  // ---- mapping ----

  /** What an ensure has taken can be given back without memory, unless it took all of a chunk. */
  lemma GivesBack(f: seq<Interval>, n: nat)
    requires f != [] && f[0].n > n
    ensures Absorbed(Ensured(f, n).1, Interval(f[0].a, n)).merges > 0
  {
    hide Absorbed, Inserted;
    var v, w := Interval(f[0].a, n), Interval(f[0].a + PAGE_SIZE * n, f[0].n - n);
    var rest := Without(f, 0);
    InsertedAt(rest, w);
    BorderAbsorbs(Inserted(rest, w), v, PlaceOf(rest, w));
  }

  lemma InsertedAt(f: seq<Interval>, v: Interval)
    ensures PlaceOf(f, v) < |Inserted(f, v)| && Inserted(f, v)[PlaceOf(f, v)] == v
  {
  }

  lemma BorderAbsorbs(f: seq<Interval>, v: Interval, k: nat)
    requires k < |f| && Adjacent(f[k], v)
    ensures Absorbed(f, v).merges > 0
  {
    assert FirstBorder(f, v) <= k;
  }

  /** A release of no pages where a chunk begins changes nothing but the order of chunks of one size. */
  lemma NothingReleased(f: seq<Interval>, k: nat, lo: int, hi: int)
    requires Canonical(f) && Within(f, lo, hi) && k < |f|
    ensures var v := Interval(f[k].a, 0);
      && NoDoubleFree(f, v) && Canonical(Released(f, v)) && Within(Released(f, v), lo, hi)
      && Pages(Released(f, v)) == Pages(f) && forall x :: Free(Released(f, v), x) <==> Free(f, x)
  {
    hide Canonical, Pages, Free, Inserted;
    var v, rest := Interval(f[k].a, 0), Without(f, k);
    OnlyBorder(f, k);
    WithoutCanonical(f, k);
    WithinWithout(f, k, lo, hi);
    PagesWithout(f, k);
    NotEmpty(f);
    SeparateBorders(rest, f[k]);
    InsertedOk(rest, f[k], lo, hi);
    forall x ensures Free(Released(f, v), x) <==> Free(f, x) {
      WithoutFree(f, k, x);
      HasFree(f, k, x);
    }
  }

  lemma OnlyBorder(f: seq<Interval>, k: nat)
    requires Canonical(f) && k < |f|
    ensures FirstBorder(f, Interval(f[k].a, 0)) == k && Joined(f[k], Interval(f[k].a, 0)) == f[k]
    ensures forall i :: 0 <= i < |f| && i != k ==> f[i].a != f[k].a
  {
    SeparateSymmetric(f, k);
    forall i | 0 <= i < k ensures !Adjacent(f[i], Interval(f[k].a, 0)) { assert Separate(f[i], f[k]); }
    FirstIs(f, Interval(f[k].a, 0), k);
  }

  lemma SeparateBorders(f: seq<Interval>, v: Interval)
    requires forall i :: 0 <= i < |f| ==> f[i].n > 0 && Separate(f[i], v)
    requires v.n > 0
    ensures FirstBorder(f, v) == |f| && NoDoubleFree(f, v) && Absorbed(f, v) == Absorption(f, v, 0)
  {
    FirstIs(f, v, |f|);
  }

  /** vm_region_vremap_release of the range that an ensure has just returned. */
  method GiveBack(d: VremapData, addr: nat, n: nat, ghost f0: seq<Interval>, ghost l0: map<int, nat>)
    requires d.Indexed() && d.Valid() && f0 != [] && f0[0].n >= n && (addr, d.free) == Ensured(f0, n) && Canonical(f0)
    requires d.supply > 0 || f0[0].n != n
    requires if n > 0 then addr !in l0 && d.live == l0[addr := n] else d.live == l0
    requires forall x :: Free(d.free, x) <==> Free(f0, x) && !Interval(addr, n).Has(x)
    requires FreeRun(f0, addr, n)
    modifies d, d.list, d.list.s
    ensures d.Valid() && d.live == l0 && d.pagesBusy == old(d.pagesBusy) - n
    ensures forall x :: Free(d.free, x) <==> Free(f0, x)
    ensures forall c :: c in d.list.s ==> c in old(d.list.s) || fresh(c)
  {
    hide Canonical, VremapData.Listed, VremapData.LiveOk, Pages, Within, Released, NoDoubleFree, Absorbed,
      Inserted, InLive, Free, FreeRun, Isolated, PartOf;
    ghost var f1, l1 := d.free, d.live;
    if f0[0].n != n { GivesBack(f0, n); }
    if n > 0 {
      WholePart(l0, addr, n);
      d.PartReleased(addr, addr, n);
      HasFrees(f0, addr, n);
    } else {
      HeadIsSomewhere(f0);
      ghost var k :| 0 <= k < |f1| && f1[k].a == addr;
      NothingReleased(f1, k, d.address, d.End());
      NoPart(l1, addr);
    }
    var _, _ := d.Release(addr, n, addr);
    if n == 0 { d.LiveSame(l1, f1, d.free); }
  }

  lemma WholePart(l0: map<int, nat>, a: nat, n: nat)
    requires n > 0 && a !in l0
    ensures var l := l0[a := n]; PartOf(l, a, a, n) && Isolated(l, a, a, n) - {a} == l0
  {
  }

  lemma NoPart(l: map<int, nat>, a: nat)
    ensures !PartOf(l, a, a, 0)
  {
  }

  lemma HasFrees(f: seq<Interval>, a: int, n: nat)
    requires FreeRun(f, a, n)
    ensures forall x :: Interval(a, n).Has(x) ==> Free(f, x)
  {
  }

  /** An ensure of no pages puts its chunk back. */
  lemma HeadIsSomewhere(f: seq<Interval>)
    requires Canonical(f) && f != []
    ensures var (a, t) := Ensured(f, 0); exists k :: 0 <= k < |t| && t[k].a == a
  {
    NotEmpty(f);
    hide Canonical, Inserted;
    var rest, w := Without(f, 0), Interval(f[0].a + PAGE_SIZE * 0, f[0].n - 0);
    InsertedAt(rest, w);
    assert Ensured(f, 0).1[PlaceOf(rest, w)].a == f[0].a;
  }

  lemma HeadInside(d: VremapData)
    requires d.Valid()
    ensures Canonical(d.free) && (d.free != [] ==> d.address <= d.free[0].a)
  {
  }

  /** __msg_remap_flags; mapped tells whether the pages of the body can be put into the region's page set. */
  method RemapFlags(d: VremapData, m: MappedMsg, mapped: bool) returns (r: int)
    requires d.Valid() && d.address > 0 && m.Valid()
    modifies d, d.list, d.list.s, m
    ensures d.Valid() && m.Valid() && forall c :: c in d.list.s ==> c in old(d.list.s) || fresh(c)
    ensures m.size == 0 ==> r == 0 && d.free == old(d.free) && d.supply == old(d.supply)
    ensures m.size > 0 ==> (r == -1 <==> !mapped || old(d.free) == [] || old(d.free)[0].n < Units(m.size))
    ensures r == 0 || r == -1
    ensures r == -1 || m.size == 0 ==>
      && m.virt == old(m.virt) && d.live == old(d.live) && d.pagesBusy == old(d.pagesBusy)
      && forall x :: Free(d.free, x) <==> Free(old(d.free), x)
    ensures r == 0 && m.size > 0 ==>
      && m.virt >= d.address && FreeRun(old(d.free), m.virt, Units(m.size))
      && d.live == (if Units(m.size) == 0 then old(d.live) else old(d.live)[m.virt := Units(m.size)])
      && (Units(m.size) > 0 ==> m.virt !in old(d.live))
  {
    hide Canonical, VremapData.Listed, VremapData.LiveOk, Pages, Within, Released, NoDoubleFree, Absorbed, Units,
      InLive, Free, FreeRun;
    if m.size == 0 { return 0; }
    ghost var f0, l0 := d.free, d.live;
    HeadInside(d);
    var addr := d.Ensure(Units(m.size));
    assert forall i :: 0 <= i < |d.list.s| ==> d.list.s[i] in old(d.list.s);
    if addr == -1 { return -1; }
    if !mapped {
      GiveBack(d, addr, Units(m.size), f0, l0);
      return -1;
    }
    m.virt := addr;
    r := 0;
  }

  /** __msg_map; updated tells whether the page tables take the region up. If they do not, the unmapping that is meant
      to undo the mapping refuses: the caller is told of a failure and the range stays taken. Of a body without
      contents it releases a range that was never taken. */
  method Map(d: VremapData, m: MappedMsg, mapped: bool, updated: bool) returns (r: int)
    requires d.Valid() && d.address > 0 && m.Valid()
    modifies d, d.list, d.list.s, m
    ensures m.Valid() && d.Listed()
    ensures var fits := m.size == 0 || (mapped && old(d.free) != [] && old(d.free)[0].n >= Units(m.size));
      && r == (if fits && updated then m.virt else -ENOMEM)
      && (if fits && m.size > 0
          then m.virt >= d.address && (Units(m.size) > 0 ==>
                 d.live == old(d.live)[m.virt := Units(m.size)] && m.virt !in old(d.live))
          else m.virt == old(m.virt) && d.live == old(d.live))
    ensures d.Valid() <==> m.size > 0 || updated || old(d.supply) == 0
  {
    hide Canonical, VremapData.Listed, VremapData.LiveOk, Pages, Within, Released, NoDoubleFree, Absorbed,
      InLive, Free, FreeRun;
    ghost var f0 := d.free;
    NoneAtZero(d);
    r := RemapFlags(d, m, mapped);
    if r == -1 { return -ENOMEM; }
    if !updated {
      assert forall i :: 0 <= i < |d.list.s| ==> d.list.s[i] in old(d.list.s) || fresh(d.list.s[i]);
      r := UnmapM(d, m);
      return -ENOMEM;
    }
    r := m.virt;
  }

  lemma NoneAtZero(d: VremapData)
    requires d.Valid() && d.address > 0
    ensures forall i :: 0 <= i < |d.free| ==> d.free[i].a != 0
  {
  }

  /** __msg_release, of the range: a mapped message is refused, so its range is never given back. */
  method ReleaseRange(d: VremapData, m: MappedMsg)
    requires d.Valid() && d.address > 0 && m.Valid()
    modifies d, d.list, d.list.s, m
    ensures d.Valid() && d.live == old(d.live) && d.free == old(d.free) && d.pagesBusy == old(d.pagesBusy)
    ensures m.virt == old(m.virt)
  {
    if m.virt != 0 {
      var _ := UnmapM(d, m);
    }
  }
}
