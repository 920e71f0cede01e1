/** Address spaces as sorted regions: what the searches that look only at tree neighbours find, over every run. */
module Regions {
  import opened PageSize
  import opened PageTables

  /** The bytes of a region, both ends included. */
  datatype Span = Span(first: nat, last: nat)

  /** The regions by the key of their tree node. A resize moves a region without moving its node. */
  type Space = map<nat, Span>

  predicate SpanOk(v: Span)
  {
    v.first <= v.last < BYTES && v.first % PAGE_SIZE == 0 && v.last % PAGE_SIZE == PAGE_SIZE - 1
  }

  /** Page-aligned regions, in the order of their nodes and so pairwise disjoint. */
  predicate Ordered(m: Space)
  {
    && (forall k :: k in m ==> SpanOk(m[k]) && k % PAGE_SIZE == 0 && k < BYTES)
    && forall j, k :: j in m && k in m && j < k ==> m[j].last < m[k].first
  }

  predicate Meets(v: Span, w: Span) { v.first <= w.last && w.first <= v.last }

  predicate In(a: nat, v: Span) { v.first <= a <= v.last }

  // ---- the neighbours of an address ----

  /** k is the greatest key up to a, or -1 if there is none. */
  predicate IsFloor(m: Space, a: int, k: int)
  {
    (if k == -1 then true else k >= 0 && k in m && k <= a) && forall j :: j in m && j <= a ==> j <= k
  }

  /** k is the least key from a on, or -1 if there is none. */
  predicate IsCeiling(m: Space, a: int, k: int)
  {
    if k == -1 then forall j :: j in m ==> j < a
    else k >= 0 && k in m && k >= a && forall j :: j in m && j >= a ==> j >= k
  }

  lemma {:induction false} FloorExists(m: Space, a: int)
    ensures exists k: int :: IsFloor(m, a, k)
    decreases |m|
  {
    if j :| j in m && j <= a {
      var rest := m - {j};
      assert |rest| < |m| by { assert m == rest[j := m[j]]; }
      FloorExists(rest, a);
      var k: int :| IsFloor(rest, a, k);
      assert forall i :: i in m ==> i == j || i in rest;
      assert IsFloor(m, a, if k < j then j else k);
    } else {
      assert IsFloor(m, a, -1);
    }
  }

  lemma {:induction false} CeilingExists(m: Space, a: int)
    ensures exists k: int :: IsCeiling(m, a, k)
    decreases |m|
  {
    if j :| j in m && j >= a {
      var rest := m - {j};
      assert |rest| < |m| by { assert m == rest[j := m[j]]; }
      CeilingExists(rest, a);
      var k: int :| IsCeiling(rest, a, k);
      assert forall i :: i in m ==> i == j || i in rest;
      assert IsCeiling(m, a, if k == -1 || k > j then j else k);
    } else {
      assert IsCeiling(m, a, -1);
    }
  }

  ghost function Floor(m: Space, a: int): (k: int)
    ensures IsFloor(m, a, k)
  {
    FloorExists(m, a);
    var k: int :| IsFloor(m, a, k);
    k
  }

  ghost function Ceiling(m: Space, a: int): (k: int)
    ensures IsCeiling(m, a, k)
  {
    CeilingExists(m, a);
    var k: int :| IsCeiling(m, a, k);
    k
  }

  // ---- the searches ----

  /** start + pages * PAGE_SIZE - 1 in 32 bits. */
  function RangeLast(start: nat, pages: nat): (r: nat)
    ensures r < BYTES
  {
    (start + pages * PAGE_SIZE - 1) % BYTES
  }

  /** The key that vm_space_find_first_in_range settles on, from the neighbours of start; -1 for NULL. */
  function Pick(m: Space, start: nat, last: nat, left: int, right: int): int
    requires IsFloor(m, start, left) && IsCeiling(m, start, right)
  {
    if left != -1 && start <= m[left].last then left
    else if right != -1 && m[right].first < last then right
    else -1
  }

  ghost function FirstInRange(m: Space, start: nat, last: nat): int
  {
    Pick(m, start, last, Floor(m, start), Ceiling(m, start))
  }

  lemma FirstInRangeIs(m: Space, start: nat, last: nat)
    ensures FirstInRange(m, start, last) == -1 || FirstInRange(m, start, last) in m
  {
  }

  /** The key of vm_space_find_region; -1 for NULL. */
  ghost function RegionAt(m: Space, virt: nat): int
  {
    var k := Floor(m, virt);
    if k != -1 && In(virt, m[k]) then k else -1
  }

  /** A page-aligned range of whole pages. */
  predicate RangeOk(start: nat, last: nat) { SpanOk(Span(start, last)) }

  /** No region in the way is ever overlooked, wherever resizes have moved regions. */
  lemma NullMeansFree(m: Space, start: nat, last: nat)
    requires Ordered(m) && RangeOk(start, last) && FirstInRange(m, start, last) == -1
    ensures forall k :: k in m ==> !Meets(m[k], Span(start, last))
  {
    var l, r := Floor(m, start), Ceiling(m, start);
    forall k | k in m ensures !Meets(m[k], Span(start, last)) {
      if k <= start {
        assert l != -1 && k <= l;
      } else {
        assert r != -1 && r <= k;
      }
    }
  }

  ghost predicate InTheWay(m: Space, start: nat, last: nat)
  {
    var r := FirstInRange(m, start, last);
    r != -1 ==> Meets(m[r], Span(start, last))
  }

  /** What is found is in the way, for every range, exactly if each region still covers the key of its node. */
  lemma FoundIsInTheWay(m: Space)
    requires Ordered(m)
    ensures (forall start, last :: RangeOk(start, last) ==> InTheWay(m, start, last)) <==> forall k :: k in m ==>
      In(k, m[k])
  {
    hide SpanOk;
    if k :| k in m && !In(k, m[k]) {
      UncoveredKeyMisleads(m, k);
    } else {
      forall start, last | RangeOk(start, last) ensures InTheWay(m, start, last) {
        RangeInOrder(start, last);
        var r := FirstInRange(m, start, last);
        if r != -1 { assert In(r, m[r]); }
      }
    }
  }

  lemma RangeInOrder(start: nat, last: nat)
    requires RangeOk(start, last)
    ensures start <= last
  {
  }

  lemma UncoveredKeyMisleads(m: Space, k: nat)
    requires Ordered(m) && k in m && !In(k, m[k])
    ensures RangeOk(k, k + PAGE_SIZE - 1) && !InTheWay(m, k, k + PAGE_SIZE - 1)
  {
    hide SpanOk;
    OnePage(k, m[k]);
    assert Floor(m, k) == k && Ceiling(m, k) == k;
  }

  lemma OnePage(k: nat, v: Span)
    requires k % PAGE_SIZE == 0 && k < BYTES && SpanOk(v)
    ensures SpanOk(Span(k, k + PAGE_SIZE - 1)) && v.first <= v.last && (k < v.first ==> k + PAGE_SIZE <= v.first)
  {
  }

  /** vm_space_find_region is right about every address exactly if no region has begun before its node's key,
      or reaches the key of the next node. */
  lemma FindRegionExact(m: Space)
    requires Ordered(m)
    ensures (forall virt, k :: 0 <= virt < BYTES && k in m ==> (In(virt, m[k]) <==> RegionAt(m, virt) == k))
      <==> forall k :: k in m ==> k <= m[k].first && forall j :: j in m && k < j ==> m[k].last < j
  {
    if forall k :: k in m ==> k <= m[k].first && forall j :: j in m && k < j ==> m[k].last < j {
      forall virt, k | 0 <= virt < BYTES && k in m ensures In(virt, m[k]) <==> RegionAt(m, virt) == k {
        if In(virt, m[k]) { assert k <= Floor(m, virt); }
      }
    } else {
      var k :| k in m && !(k <= m[k].first && forall j :: j in m && k < j ==> m[k].last < j);
      if m[k].first < k {
        assert In(m[k].first, m[k]) && Floor(m, m[k].first) != k;
        assert RegionAt(m, m[k].first) != k;
      } else {
        var j :| j in m && k < j && j <= m[k].last;
        assert In(m[k].last, m[k]) && Floor(m, m[k].last) >= j;
        assert RegionAt(m, m[k].last) != k;
      }
    }
  }

  /** Each region begins at the key of its node, as when it was added. */
  predicate Keyed(m: Space)
  {
    forall k :: k in m ==> m[k].first == k
  }

  /** With regions at their keys both searches are exact, and the first region in the range is the one found. */
  lemma SearchesExact(m: Space, start: nat, last: nat, virt: nat)
    requires Ordered(m) && Keyed(m) && RangeOk(start, last) && virt < BYTES
    ensures var r := FirstInRange(m, start, last);
      && (r == -1 <==> forall k :: k in m ==> !Meets(m[k], Span(start, last)))
      && (r != -1 ==> r in m && Meets(m[r], Span(start, last)) && forall k :: k in m && k < r ==>
           !Meets(m[k], Span(start, last)))
    ensures var r := RegionAt(m, virt);
      && (r == -1 <==> forall k :: k in m ==> !In(virt, m[k]))
      && (r != -1 ==> r in m && In(virt, m[r]) && forall k :: k in m && In(virt, m[k]) ==> k == r)
  {
    FoundIsInTheWay(m);
    FindRegionExact(m);
    assert InTheWay(m, start, last);
    var r := FirstInRange(m, start, last);
    if r == -1 { NullMeansFree(m, start, last); }
    else {
      forall k | k in m && k < r ensures !Meets(m[k], Span(start, last)) {
        var l := Floor(m, start);
        if r != l && k <= start { assert k <= l; }
      }
    }
  }

  // ---- adding and resizing ----

  /** The number of pages that vm_space_add_region asks about. */
  function PagesOf(v: Span): nat
  {
    (v.last + 1 - v.first) % BYTES / PAGE_SIZE
  }

  /** The range asked about is the region, even if it is the whole address space and counts 0 pages. */
  lemma RangeIsRegion(v: Span)
    requires SpanOk(v)
    ensures RangeLast(v.first, PagesOf(v)) == v.last
  {
    var n := v.last + 1 - v.first;
    assert n % PAGE_SIZE == 0;
    if n == BYTES { assert PagesOf(v) == 0; } else { assert PagesOf(v) * PAGE_SIZE == n; }
  }

  /** What vm_region_resize computes for the new bounds. */
  function NewStart(start: nat): nat { start / PAGE_SIZE * PAGE_SIZE }

  function NewEnd(start: nat, pages: nat): nat { (NewStart(start) + pages * PAGE_SIZE) % BYTES }

  function NewSpan(start: nat, pages: nat): Span
  {
    Span(NewStart(start), (NewEnd(start, pages) - 1) % BYTES)
  }

  /** The tests of vm_region_resize against the tree neighbours of the node. */
  predicate ResizeFits(m: Space, k: nat, start: nat, pages: nat, before: int, after: int)
    requires k in m && IsFloor(m, k - 1, before) && IsCeiling(m, k + 1, after)
  {
    && NewEnd(start, pages) >= NewStart(start)
    && (before != -1 ==> m[before].last < NewStart(start))
    && (after != -1 ==> NewEnd(start, pages) <= m[after].first)
  }

  datatype Event = Add(region: Span) | Resize(key: nat, start: nat, pages: nat)

  ghost predicate Accepts(m: Space, e: Event)
  {
    match e
    case Add(v) => SpanOk(v) && FirstInRange(m, v.first, v.last) == -1
    case Resize(k, start, pages) =>
      k in m && start < BYTES
      && ResizeFits(m, k, start, pages, Floor(m, k - 1), Ceiling(m, k + 1))
  }

  ghost function Step(m: Space, e: Event): Space
  {
    if !Accepts(m, e) then m
    else
      match e
      case Add(v) => m[v.first := v]
      case Resize(k, start, pages) => m[k := NewSpan(start, pages)]
  }

  lemma SpanFacts(v: Span)
    requires SpanOk(v)
    ensures v.first <= v.last < BYTES && v.first % PAGE_SIZE == 0
  {
  }

  /** A new region never takes over the node of another one. */
  lemma AddKeeps(m: Space, v: Span)
    requires Ordered(m) && Accepts(m, Add(v))
    ensures v.first !in m && Ordered(Step(m, Add(v)))
  {
    hide SpanOk;
    SpanFacts(v);
    NullMeansFree(m, v.first, v.last);
    var l, r := Floor(m, v.first), Ceiling(m, v.first);
    if l != -1 { SpanFacts(m[l]); }
    assert v.first in m ==> l == v.first && r == v.first;
    var m' := Step(m, Add(v));
    forall j, k | j in m' && k in m' && j < k ensures m'[j].last < m'[k].first {
      if k == v.first {
        assert l != -1 && j <= l;
      } else if j == v.first {
        assert r != -1 && r <= k;
        SpanFacts(m[r]);
        assert !Meets(m[r], v);
      }
    }
  }

  lemma NewSpanIs(start: nat, pages: nat)
    requires start < BYTES && NewEnd(start, pages) >= NewStart(start)
    ensures var v := NewSpan(start, pages);
      && v.first == NewStart(start)
      && if pages % PAGES != 0 then SpanOk(v) && v.last == NewEnd(start, pages) - 1
      else v.last == (if NewStart(start) == 0 then BYTES - 1 else NewStart(start) - 1)
  {
    var s, n := NewStart(start), pages % PAGES;
    assert (s + pages * PAGE_SIZE) % BYTES == (s + n * PAGE_SIZE) % BYTES by {
      var q := pages / PAGES;
      assert pages == q * PAGES + n;
      assert s + pages * PAGE_SIZE == s + n * PAGE_SIZE + q * BYTES;
      ModPlus(s + n * PAGE_SIZE, q);
    }
    assert s % PAGE_SIZE == 0 && s < BYTES && n * PAGE_SIZE < BYTES;
    assert s + n * PAGE_SIZE >= BYTES ==> NewEnd(start, pages) == s + n * PAGE_SIZE - BYTES;
    assert NewEnd(start, pages) == s + n * PAGE_SIZE;
  }

  lemma {:induction false} ModPlus(x: nat, q: nat)
    ensures (x + q * BYTES) % BYTES == x % BYTES
  {
    if q > 0 { ModPlus(x, q - 1); assert x + q * BYTES == (x + (q - 1) * BYTES) + BYTES; }
  }

  /** An accepted resize keeps the regions in order exactly if the size is not a multiple of the address space,
      or the whole space is asked for and no region follows: the size wraps to 0 before it is tested. */
  lemma ResizeKeepsIff(m: Space, k: nat, start: nat, pages: nat)
    requires Ordered(m) && Accepts(m, Resize(k, start, pages))
    ensures Ordered(Step(m, Resize(k, start, pages))) <==>
      pages % PAGES != 0 || (NewStart(start) == 0 && forall j :: j in m ==> j <= k)
  {
    hide NewSpan, NewStart, NewEnd, SpanOk;
    NewSpanIs(start, pages);
    if pages % PAGES != 0 || (NewStart(start) == 0 && forall j :: j in m ==> j <= k) {
      WholeSpace();
      ResizedInOrder(m, k, start, pages);
    } else {
      EmptyOrAll(m, k, start, pages);
    }
  }

  lemma WholeSpace()
    ensures SpanOk(Span(0, BYTES - 1))
  {
  }

  lemma ResizedInOrder(m: Space, k: nat, start: nat, pages: nat)
    requires Ordered(m) && Accepts(m, Resize(k, start, pages))
    requires var v := NewSpan(start, pages);
      && SpanOk(v) && v.first == NewStart(start) && (v.last == NewEnd(start, pages) - 1 || forall j :: j in m ==>
           j <= k)
    ensures Ordered(Step(m, Resize(k, start, pages)))
  {
    hide NewSpan, NewStart, NewEnd, SpanOk, ResizeFits, Accepts, Floor, Ceiling;
    ResizesRegion(m, k, start, pages);
    var m' := m[k := NewSpan(start, pages)];
    forall i, j | i in m' && j in m' && i < j ensures m'[i].last < m'[j].first {
      if j == k {
        ResizedAfter(m, k, start, pages, i);
      } else if i == k {
        ResizedBefore(m, k, start, pages, j);
      }
    }
  }

  lemma ResizesRegion(m: Space, k: nat, start: nat, pages: nat)
    requires Accepts(m, Resize(k, start, pages))
    ensures k in m && Step(m, Resize(k, start, pages)) == m[k := NewSpan(start, pages)]
  {
  }

  lemma ResizedAfter(m: Space, k: nat, start: nat, pages: nat, i: nat)
    requires Ordered(m) && Accepts(m, Resize(k, start, pages)) && i in m && i < k
    ensures m[i].last < NewStart(start)
  {
    hide NewStart, NewEnd, SpanOk, Floor, Ceiling;
    var before := Floor(m, k - 1);
    assert before != -1 && i <= before;
    RangeInOrder(m[before].first, m[before].last);
  }

  lemma ResizedBefore(m: Space, k: nat, start: nat, pages: nat, j: nat)
    requires Ordered(m) && Accepts(m, Resize(k, start, pages)) && j in m && j > k
    ensures NewEnd(start, pages) <= m[j].first
  {
    hide NewStart, NewEnd, SpanOk, Floor, Ceiling;
    var after := Ceiling(m, k + 1);
    assert after != -1 && after <= j;
    RangeInOrder(m[after].first, m[after].last);
  }

  lemma EmptyOrAll(m: Space, k: nat, start: nat, pages: nat)
    requires Ordered(m) && k in m
    requires var v := NewSpan(start, pages);
      && v.first == NewStart(start) && v.last == (if NewStart(start) == 0 then BYTES - 1 else NewStart(start) - 1)
    requires NewStart(start) != 0 || exists j :: j in m && j > k
    ensures !Ordered(m[k := NewSpan(start, pages)])
  {
    hide NewSpan, NewStart, NewEnd;
    var m' := m[k := NewSpan(start, pages)];
    if NewStart(start) == 0 {
      var j :| j in m && j > k;
      assert m'[j] == m[j] && SpanOk(m[j]);
    }
    assert Ordered(m') ==> SpanOk(m'[k]);
  }

  predicate Sane(e: Event) { e.Resize? ==> e.pages % PAGES != 0 }

  predicate StartKept(m: Space, e: Event) { e.Resize? && e.key in m ==> NewStart(e.start) == m[e.key].first }

  ghost function Run(m: Space, es: seq<Event>): Space
    decreases |es|
  {
    if es == [] then m else Run(Step(m, es[0]), es[1..])
  }

  /** No resize along the run moves the start of a region. */
  ghost predicate StartsKept(m: Space, es: seq<Event>)
    decreases |es|
  {
    es != [] ==> StartKept(m, es[0]) && StartsKept(Step(m, es[0]), es[1..])
  }

  lemma StepKeeps(m: Space, e: Event)
    requires Ordered(m) && Sane(e)
    ensures Ordered(Step(m, e))
    ensures Keyed(m) && StartKept(m, e) ==> Keyed(Step(m, e))
  {
    if Accepts(m, e) {
      match e
      case Add(v) => AddKeeps(m, v);
      case Resize(k, start, pages) => ResizeKeepsIff(m, k, start, pages);
    }
  }

  /** Over every run of additions and resizes the regions stay aligned and pairwise disjoint, and no range that meets
      a region is ever taken for free; if resizes keep the starts, both searches stay exact. */
  lemma {:induction false} RunKeeps(m: Space, es: seq<Event>)
    requires Ordered(m) && forall e :: e in es ==> Sane(e)
    ensures Ordered(Run(m, es))
    ensures forall j, k :: j in Run(m, es) && k in Run(m, es) && j != k ==> !Meets(Run(m, es)[j], Run(m, es)[k])
    ensures Keyed(m) && StartsKept(m, es) ==> Keyed(Run(m, es))
    decreases |es|
  {
    if es != [] {
      assert es[0] in es;
      StepKeeps(m, es[0]);
      RunKeeps(Step(m, es[0]), es[1..]);
    } else {
      forall j, k | j in m && k in m && j != k ensures !Meets(m[j], m[k]) { assert j < k || k < j; }
    }
  }

  /** A region that grew into the gap that its neighbour left behind is missed, since the neighbour's node still
      stands there. */
  lemma MovedRegionMissed()
    ensures var m := map[0x1000 := Span(0x1000, 0x1fff), 0x3000 := Span(0x3000, 0x3fff)];
      var m' := map[0x1000 := Span(0x1000, 0x4fff), 0x3000 := Span(0x8000, 0x8fff)];
      && Ordered(m) && Run(m, [Resize(0x3000, 0x8000, 1), Resize(0x1000, 0x1000, 4)]) == m'
      && In(0x3800, m'[0x1000]) && RegionAt(m', 0x3800) == -1
  {
    var m := map[0x1000 := Span(0x1000, 0x1fff), 0x3000 := Span(0x3000, 0x3fff)];
    var e1, e2 := Resize(0x3000, 0x8000, 1), Resize(0x1000, 0x1000, 4);
    assert Floor(m, 0x2fff) == 0x1000 && Ceiling(m, 0x3001) == -1;
    var m1 := Step(m, e1);
    assert m1 == map[0x1000 := Span(0x1000, 0x1fff), 0x3000 := Span(0x8000, 0x8fff)];
    assert Floor(m1, 0xfff) == -1 && Ceiling(m1, 0x1001) == 0x3000;
    var m2 := Step(m1, e2);
    assert m2 == map[0x1000 := Span(0x1000, 0x4fff), 0x3000 := Span(0x8000, 0x8fff)];
    assert Run(m, [e1, e2]) == Run(m1, [e2]) == m2 by { assert [e1, e2][1..] == [e2]; }
    assert 0x3000 in m2 && Floor(m2, 0x3800) >= 0x3000;
  }

  /** A resize to the size of the whole address space is accepted, and leaves a region that ends before it begins. */
  lemma ResizeToNothing()
    ensures var m := map[0x1000 := Span(0x1000, 0x1fff)];
      var e := Resize(0x1000, 0x1000, 0x10_0000);
      Ordered(m) && Accepts(m, e) && Step(m, e) == map[0x1000 := Span(0x1000, 0xfff)] && !Ordered(Step(m, e))
  {
    var m := map[0x1000 := Span(0x1000, 0x1fff)];
    var e := Resize(0x1000, 0x1000, 0x10_0000);
    assert Floor(m, 0xfff) == -1 && Ceiling(m, 0x1001) == -1;
    assert Step(m, e) == map[0x1000 := Span(0x1000, 0xfff)];
    assert !SpanOk(Step(m, e)[0x1000]);
  }

  /** A region that moved away is still found where its node stands, although nothing is there any more. */
  lemma MovedRegionInTheWay()
    ensures var m := map[0x3000 := Span(0x3000, 0x3fff)];
      var m' := Step(m, Resize(0x3000, 0x8000, 1));
      && Ordered(m) && m' == map[0x3000 := Span(0x8000, 0x8fff)]
      && FirstInRange(m', 0x3000, 0x3fff) == 0x3000 && !Meets(m'[0x3000], Span(0x3000, 0x3fff))
  {
    var m := map[0x3000 := Span(0x3000, 0x3fff)];
    assert Floor(m, 0x2fff) == -1 && Ceiling(m, 0x3001) == -1;
    var m' := Step(m, Resize(0x3000, 0x8000, 1));
    assert m' == map[0x3000 := Span(0x8000, 0x8fff)];
    assert 0x3000 in m' && Floor(m', 0x3000) == 0x3000 && Ceiling(m', 0x3000) == 0x3000;
  }
}
