/** Free lists as lists of page intervals: when they are canonical, and what that implies. */
module Intervals {
  import opened PageSize
  import opened Sequences

  /** n pages from byte address a. */
  datatype Interval = Interval(a: int, n: nat)
  {
    function End(): int { a + PAGE_SIZE * n }
    predicate Has(x: int) { a <= x < End() }
  }

  /** Neither overlapping nor adjacent. */
  predicate Separate(u: Interval, v: Interval)
  {
    u.End() < v.a || v.End() < u.a
  }

  predicate Adjacent(u: Interval, v: Interval)
  {
    u.End() == v.a || v.End() == u.a
  }

  predicate Disjoint(u: Interval, v: Interval)
  {
    u.End() <= v.a || v.End() <= u.a
  }

  predicate Descending(s: seq<Interval>)
  {
    forall i, j :: 0 <= i < j < |s| ==> s[i].n >= s[j].n
  }

  /** Non-empty, pairwise neither overlapping nor adjacent, largest first. */
  predicate Canonical(s: seq<Interval>)
  {
    && (forall i :: 0 <= i < |s| ==> s[i].n > 0)
    && (forall i, j {:trigger s[i], s[j]} :: 0 <= i < j < |s| ==> Separate(s[i], s[j]))
    && Descending(s)
  }

  predicate Free(s: seq<Interval>, x: int)
  {
    exists i :: 0 <= i < |s| && s[i].Has(x)
  }

  function Pages(s: seq<Interval>): nat
  {
    if s == [] then 0 else s[0].n + Pages(s[1..])
  }

  // ---- removing and inserting ----

  function With(s: seq<Interval>, k: nat, v: Interval): seq<Interval>
    requires k <= |s|
  {
    s[..k] + [v] + s[k..]
  }

  lemma WithAt(s: seq<Interval>, k: nat, v: Interval)
    requires k <= |s|
    ensures |With(s, k, v)| == |s| + 1
    ensures forall i :: 0 <= i <= |s| ==> With(s, k, v)[i] == if i < k then s[i] else if i == k then v else s[i - 1]
  {
  }

  lemma WithoutCanonical(s: seq<Interval>, k: nat)
    requires k < |s| && Canonical(s)
    ensures Canonical(Without(s, k))
    ensures forall i :: 0 <= i < |s| - 1 ==> Separate(Without(s, k)[i], s[k])
  {
    WithoutAt(s, k);
    hide Without, Separate;
    SeparateSymmetric(s, k);
  }

  lemma SeparateSymmetric(s: seq<Interval>, k: nat)
    requires k < |s| && Canonical(s)
    ensures forall i {:trigger s[i]} :: 0 <= i < |s| && i != k ==> Separate(s[i], s[k])
  {
    forall i | 0 <= i < |s| && i != k ensures Separate(s[i], s[k]) {
      if i < k { assert Separate(s[i], s[k]); } else { assert Separate(s[k], s[i]); }
    }
  }

  lemma WithCanonical(s: seq<Interval>, k: nat, v: Interval)
    requires k <= |s| && Canonical(s) && v.n > 0 && forall i :: 0 <= i < |s| ==> Separate(s[i], v)
    requires forall i :: 0 <= i < k ==> s[i].n >= v.n
    requires k < |s| ==> s[k].n <= v.n
    ensures Canonical(With(s, k, v))
  {
    WithAt(s, k, v);
    var t := With(s, k, v);
    hide With;
    forall i, j | 0 <= i < j < |t| ensures Separate(t[i], t[j]) && t[i].n >= t[j].n {
      var i', j' := if i <= k then i else i - 1, if j <= k then j else j - 1;
      if i != k && j != k { assert Separate(s[i'], s[j']); }
    }
  }

  lemma WithoutFree(s: seq<Interval>, k: nat, x: int)
    requires k < |s| && Canonical(s)
    ensures Free(Without(s, k), x) <==> Free(s, x) && !s[k].Has(x)
  {
    hide Without, Descending;
    WithoutAt(s, k);
    var t := Without(s, k);
    if Free(s, x) && !s[k].Has(x) {
      var i :| 0 <= i < |s| && s[i].Has(x);
      assert t[if i < k then i else i - 1].Has(x);
    }
    if Free(t, x) {
      var i :| 0 <= i < |t| && t[i].Has(x);
      assert s[if i < k then i else i + 1].Has(x);
    }
  }

  lemma WithFree(s: seq<Interval>, k: nat, v: Interval, x: int)
    requires k <= |s|
    ensures Free(With(s, k, v), x) <==> Free(s, x) || v.Has(x)
  {
    WithAt(s, k, v);
    hide With;
    var t := With(s, k, v);
    if Free(s, x) {
      var i :| 0 <= i < |s| && s[i].Has(x);
      assert t[if i < k then i else i + 1].Has(x);
    }
    if v.Has(x) { assert t[k].Has(x); }
    if Free(t, x) {
      var i :| 0 <= i < |t| && t[i].Has(x);
      if i != k { assert s[if i < k then i else i - 1].Has(x); }
    }
  }

  lemma {:induction false} PagesJoin(a: seq<Interval>, b: seq<Interval>)
    ensures Pages(a + b) == Pages(a) + Pages(b)
  {
    if a == [] {
      assert a + b == b;
    } else {
      assert (a + b)[1..] == a[1..] + b;
      PagesJoin(a[1..], b);
    }
  }

  lemma PagesWith(s: seq<Interval>, k: nat, v: Interval)
    requires k <= |s|
    ensures Pages(With(s, k, v)) == Pages(s) + v.n
  {
    assert s == s[..k] + s[k..];
    PagesJoin(s[..k], s[k..]);
    PagesJoin(s[..k] + [v], s[k..]);
    PagesJoin(s[..k], [v]);
    assert Pages([v]) == v.n;
  }

  lemma PagesWithout(s: seq<Interval>, k: nat)
    requires k < |s|
    ensures Pages(Without(s, k)) == Pages(s) - s[k].n
  {
    hide Pages, With, Without;
    WithoutAt(s, k);
    WithBack(s, k);
    PagesWith(Without(s, k), k, s[k]);
  }

  lemma WithBack(s: seq<Interval>, k: nat)
    requires k < |s|
    ensures |Without(s, k)| == |s| - 1 && With(Without(s, k), k, s[k]) == s
  {
    var t := Without(s, k);
    assert t[..k] == s[..k] && t[k..] == s[k + 1..];
  }

  // ---- canonical lists are determined by the free set ----

  /** [a, e) is free and cannot be extended. */
  ghost predicate MaximalRun(s: seq<Interval>, a: int, e: int)
  {
    a < e && (forall x :: a <= x < e ==> Free(s, x)) && !Free(s, a - 1) && !Free(s, e)
  }

  lemma OutsideEnds(s: seq<Interval>, k: nat)
    requires Canonical(s) && k < |s|
    ensures !Free(s, s[k].a - 1) && !Free(s, s[k].End())
  {
    SeparateSymmetric(s, k);
    hide Canonical;
    forall i | 0 <= i < |s| ensures !s[i].Has(s[k].a - 1) && !s[i].Has(s[k].End()) {
      if i != k { assert Separate(s[i], s[k]); }
    }
  }

  lemma HasFree(s: seq<Interval>, k: nat, x: int)
    requires k < |s|
    ensures s[k].Has(x) ==> Free(s, x)
  {
  }

  /** A free run lies within one interval. */
  lemma {:induction false} RunInOne(s: seq<Interval>, a: int, e: int, k: nat)
    requires Canonical(s) && k < |s| && s[k].Has(a) && a < e && forall x :: a <= x < e ==> Free(s, x)
    ensures e <= s[k].End()
  {
    OutsideEnds(s, k);
    var end := s[k].End();
    assert e <= end || Free(s, end);
  }

  /** The intervals of a canonical list are exactly the maximal runs of its free set. */
  lemma IntervalsAreMaximalRuns(s: seq<Interval>, v: Interval)
    requires Canonical(s)
    ensures v in s <==> v.n > 0 && MaximalRun(s, v.a, v.End())
  {
    if v in s {
      var k :| 0 <= k < |s| && s[k] == v;
      OutsideEnds(s, k);
      forall x | v.a <= x < v.End() ensures Free(s, x) { assert s[k].Has(x); }
    }
    if v.n > 0 && MaximalRun(s, v.a, v.End()) {
      assert Free(s, v.a);
      var k :| 0 <= k < |s| && s[k].Has(v.a);
      RunInOne(s, v.a, v.End(), k);
      HasFree(s, k, v.a - 1);
      HasFree(s, k, v.End());
    }
  }

  /** Whatever the order of the releases that made them: the same free set means the same intervals. */
  lemma SameFreeSame(s: seq<Interval>, t: seq<Interval>, v: Interval)
    requires Canonical(s) && Canonical(t) && forall x :: Free(s, x) <==> Free(t, x)
    ensures v in s <==> v in t
  {
    IntervalsAreMaximalRuns(s, v);
    IntervalsAreMaximalRuns(t, v);
    assert MaximalRun(s, v.a, v.End()) <==> MaximalRun(t, v.a, v.End());
  }

  /** The head of the list is large enough exactly when some free run of that length exists. */
  lemma HeadDecides(s: seq<Interval>, n: nat)
    requires Canonical(s) && n > 0
    ensures (exists a :: FreeRun(s, a, n)) <==> s != [] && s[0].n >= n
  {
    if s != [] && s[0].n >= n {
      forall x | s[0].a <= x < s[0].a + PAGE_SIZE * n ensures Free(s, x) { assert s[0].Has(x); }
      assert FreeRun(s, s[0].a, n);
    }
    if exists a :: FreeRun(s, a, n) {
      var a :| FreeRun(s, a, n);
      assert Free(s, a);
      var k :| 0 <= k < |s| && s[k].Has(a);
      RunInOne(s, a, a + PAGE_SIZE * n, k);
    }
  }

  ghost predicate FreeRun(s: seq<Interval>, a: int, n: nat)
  {
    forall x :: a <= x < a + PAGE_SIZE * n ==> Free(s, x)
  }

  // ---- merging ----

  function Joined(u: Interval, v: Interval): Interval
  {
    Interval(if u.a < v.a then u.a else v.a, u.n + v.n)
  }

  /** The free intervals that border v. */
  function Borders(s: seq<Interval>, v: Interval): set<int>
  {
    set i | 0 <= i < |s| && Adjacent(s[i], v) :: s[i].a
  }

  lemma JoinedHas(u: Interval, v: Interval, x: int)
    requires Adjacent(u, v) && u.n > 0 && v.n > 0
    ensures Joined(u, v).Has(x) <==> u.Has(x) || v.Has(x)
  {
  }

  /** After v has absorbed a bordering interval, the others that border it are those that did before. */
  lemma JoinedBorders(s: seq<Interval>, k: nat, v: Interval)
    requires Canonical(s) && k < |s| && v.n > 0 && Adjacent(s[k], v) && forall i :: 0 <= i < |s| ==> Disjoint(s[i], v)
    ensures Borders(Without(s, k), Joined(s[k], v)) == Borders(s, v) - {s[k].a} && s[k].a in Borders(s, v)
    ensures forall i :: 0 <= i < |s| - 1 ==> Disjoint(Without(s, k)[i], Joined(s[k], v))
  {
    WithoutAt(s, k);
    WithoutCanonical(s, k);
    var t, w := Without(s, k), Joined(s[k], v);
    forall i | 0 <= i < |t|
      ensures Disjoint(t[i], w) && (Adjacent(t[i], w) <==> Adjacent(t[i], v)) && t[i].a != s[k].a
    {
      var j := if i < k then i else i + 1;
      assert t[i] == s[j] && Disjoint(s[j], v) && Separate(t[i], s[k]);
    }
    hide Without, Joined, Canonical, Disjoint, Separate;
    SameBorders(s, k, t, v, w);
  }

  lemma SameBorders(s: seq<Interval>, k: nat, t: seq<Interval>, v: Interval, w: Interval)
    requires k < |s| && |t| == |s| - 1 && (forall i :: 0 <= i < |t| ==> t[i] == s[if i < k then i else i + 1])
    requires Adjacent(s[k], v) && forall i :: 0 <= i < |t| ==>
      (Adjacent(t[i], w) <==> Adjacent(t[i], v)) && t[i].a != s[k].a
    ensures Borders(t, w) == Borders(s, v) - {s[k].a} && s[k].a in Borders(s, v)
  {
    forall a | a in Borders(s, v) && a != s[k].a ensures a in Borders(t, w) {
      var i :| 0 <= i < |s| && Adjacent(s[i], v) && s[i].a == a;
      assert t[if i < k then i else i - 1] == s[i];
    }
    forall a | a in Borders(t, w) ensures a in Borders(s, v) && a != s[k].a {
      var i :| 0 <= i < |t| && Adjacent(t[i], w) && t[i].a == a;
      assert s[if i < k then i else i + 1] == t[i];
    }
  }

  /** At most two free intervals border a range: one on each side. */
  lemma AtMostTwo(s: seq<Interval>, v: Interval)
    requires Canonical(s) && v.n > 0 && forall i :: 0 <= i < |s| ==> Disjoint(s[i], v)
    ensures |Borders(s, v)| <= 2
  {
    var l := set i | 0 <= i < |s| && s[i].End() == v.a :: s[i].a;
    var r := set i | 0 <= i < |s| && v.End() == s[i].a :: s[i].a;
    LeftBorders(s, v, l);
    hide Canonical, Disjoint;
    assert r <= {v.End()};
    OneElement(l);
    assert Borders(s, v) == l + r;
    SubsetSize(r, {v.End()});
    UnionSize(l, r);
  }

  lemma LeftBorders(s: seq<Interval>, v: Interval, l: set<int>)
    requires Canonical(s) && l == set i | 0 <= i < |s| && s[i].End() == v.a :: s[i].a
    ensures forall x, y :: x in l && y in l ==> x == y
  {
    forall x, y | x in l && y in l ensures x == y {
      var i :| 0 <= i < |s| && s[i].End() == v.a && s[i].a == x;
      var j :| 0 <= j < |s| && s[j].End() == v.a && s[j].a == y;
      SeparateSymmetric(s, i);
    }
  }

  lemma OneElement(l: set<int>)
    requires forall x, y :: x in l && y in l ==> x == y
    ensures |l| <= 1
  {
    if exists x :: x in l {
      var x :| x in l;
      assert l == {x} by { forall y | y in l ensures y == x {} }
    } else {
      assert l == {};
    }
  }

  lemma SubsetSize(a: set<int>, b: set<int>)
    requires a <= b
    ensures |a| <= |b|
  {
    assert b == a + (b - a) && a !! b - a;
  }

  lemma UnionSize(a: set<int>, b: set<int>)
    ensures |a + b| <= |a| + |b|
  {
    assert a + b == a + (b - a) && a !! b - a;
    SubsetSize(b - a, b);
  }

  // ---- the free list as the code changes it ----

  /** The place of the first interval that borders v. */
  function FirstBorder(s: seq<Interval>, v: Interval): (k: nat)
    ensures k <= |s| && (k < |s| ==> Adjacent(s[k], v)) && forall i :: 0 <= i < k ==> !Adjacent(s[i], v)
  {
    if s == [] || Adjacent(s[0], v) then 0 else 1 + FirstBorder(s[1..], v)
  }

  lemma FirstIs(s: seq<Interval>, v: Interval, k: nat)
    requires k <= |s| && (k < |s| ==> Adjacent(s[k], v)) && forall i :: 0 <= i < k ==> !Adjacent(s[i], v)
    ensures FirstBorder(s, v) == k
  {
  }

  /** What is left of a list, and what a range has become, when the range has absorbed one border after the other. */
  datatype Absorption = Absorption(rest: seq<Interval>, v: Interval, merges: nat)

  function Absorbed(s: seq<Interval>, v: Interval): Absorption
    decreases |s|
  {
    var k := FirstBorder(s, v);
    if k == |s| then Absorption(s, v, 0)
    else
      var r := Absorbed(Without(s, k), Joined(s[k], v));
      r.(merges := r.merges + 1)
  }

  /** The search for a border comes by no chunk that begins where the range does: that would be a double free. */
  predicate NoDoubleFree(s: seq<Interval>, v: Interval)
    decreases |s|
  {
    var k := FirstBorder(s, v);
    && (forall i :: 0 <= i < k ==> s[i].a != v.a)
    && (k < |s| ==> NoDoubleFree(Without(s, k), Joined(s[k], v)))
  }

  lemma AbsorbStep(s: seq<Interval>, v: Interval, k: nat)
    requires FirstBorder(s, v) == k < |s| && NoDoubleFree(s, v)
    ensures |Without(s, k)| == |s| - 1 && NoDoubleFree(Without(s, k), Joined(s[k], v))
    ensures var r := Absorbed(Without(s, k), Joined(s[k], v));
      && Absorbed(s, v) == r.(merges := r.merges + 1)
      && (r.merges == 0 ==> r.rest == Without(s, k) && r.v == Joined(s[k], v))
  {
    hide Joined;
  }

  /** Where v goes: before the first interval that is not larger. */
  function PlaceOf(s: seq<Interval>, v: Interval): (k: nat)
    ensures k <= |s| && (forall i :: 0 <= i < k ==> s[i].n > v.n) && (k < |s| ==> s[k].n <= v.n)
  {
    if s == [] || s[0].n <= v.n then 0 else 1 + PlaceOf(s[1..], v)
  }

  lemma PlaceIs(s: seq<Interval>, v: Interval, k: nat)
    requires k <= |s| && (forall i :: 0 <= i < k ==> s[i].n > v.n) && (k < |s| ==> s[k].n <= v.n)
    ensures PlaceOf(s, v) == k
  {
  }

  function Inserted(s: seq<Interval>, v: Interval): seq<Interval>
  {
    With(s, PlaceOf(s, v), v)
  }

  /** The list after a release that finds memory. */
  function Released(s: seq<Interval>, v: Interval): seq<Interval>
  {
    Inserted(Absorbed(s, v).rest, Absorbed(s, v).v)
  }

  /** The address that an ensure returns, and the list after it. */
  function Ensured(s: seq<Interval>, n: nat): (int, seq<Interval>)
  {
    if s == [] || s[0].n < n then (-1, s)
    else (s[0].a, if s[0].n == n then Without(s, 0)
                  else Inserted(Without(s, 0), Interval(s[0].a + PAGE_SIZE * n, s[0].n - n)))
  }

  predicate Within(s: seq<Interval>, lo: int, hi: int)
  {
    forall i :: 0 <= i < |s| ==> lo <= s[i].a && s[i].End() <= hi
  }

  lemma WithinWithout(s: seq<Interval>, k: nat, lo: int, hi: int)
    requires Within(s, lo, hi) && k < |s|
    ensures Within(Without(s, k), lo, hi)
  {
    WithoutAt(s, k);
    hide Without;
  }

  lemma WithinWith(s: seq<Interval>, k: nat, v: Interval, lo: int, hi: int)
    requires Within(s, lo, hi) && k <= |s| && lo <= v.a && v.End() <= hi
    ensures Within(With(s, k, v), lo, hi)
  {
    WithAt(s, k, v);
    hide With;
  }

  /** Absorbing keeps the rest canonical and apart from the range, whatever the order of the list. */
  lemma {:induction false} AbsorbedOk(s: seq<Interval>, v: Interval, lo: int, hi: int)
    requires Canonical(s) && v.n > 0 && forall i :: 0 <= i < |s| ==> Disjoint(s[i], v)
    requires Within(s, lo, hi) && lo <= v.a && v.End() <= hi
    ensures NoDoubleFree(s, v)
    ensures var r := Absorbed(s, v);
      && Canonical(r.rest) && r.v.n > 0 && (forall i :: 0 <= i < |r.rest| ==> Separate(r.rest[i], r.v))
      && Within(r.rest, lo, hi) && lo <= r.v.a && r.v.End() <= hi
      && Pages(r.rest) + r.v.n == Pages(s) + v.n && r.merges == |Borders(s, v)|
    ensures var r := Absorbed(s, v); forall x :: Free(r.rest, x) || r.v.Has(x) <==> Free(s, x) || v.Has(x)
    decreases |s|
  {
    hide Borders, Without, Free, Pages, Canonical;
    var k := FirstBorder(s, v);
    if k == |s| {
      NoBorders(s, v);
    } else {
      NotEmpty(s);
      JoinedBorders(s, k, v);
      WithoutCanonical(s, k);
      WithinWithout(s, k, lo, hi);
      PagesWithout(s, k);
      WithoutAt(s, k);
      AbsorbedOk(Without(s, k), Joined(s[k], v), lo, hi);
      forall x ensures Free(Without(s, k), x) || Joined(s[k], v).Has(x) <==> Free(s, x) || v.Has(x) {
        JoinedFree(s, k, v, x);
      }
    }
  }

  lemma NotEmpty(s: seq<Interval>)
    requires Canonical(s)
    ensures forall i :: 0 <= i < |s| ==> s[i].n > 0
  {
  }

  lemma NoBorders(s: seq<Interval>, v: Interval)
    requires Canonical(s) && v.n > 0 && forall i :: 0 <= i < |s| ==> Disjoint(s[i], v) && !Adjacent(s[i], v)
    ensures Borders(s, v) == {} && forall i :: 0 <= i < |s| ==> Separate(s[i], v) && s[i].a != v.a
  {
  }

  lemma JoinedFree(s: seq<Interval>, k: nat, v: Interval, x: int)
    requires Canonical(s) && k < |s| && Adjacent(s[k], v) && v.n > 0
    ensures Free(Without(s, k), x) || Joined(s[k], v).Has(x) <==> Free(s, x) || v.Has(x)
  {
    WithoutFree(s, k, x);
    JoinedHas(s[k], v, x);
    HasFree(s, k, x);
  }

  lemma InsertedOk(s: seq<Interval>, v: Interval, lo: int, hi: int)
    requires Canonical(s) && v.n > 0 && forall i :: 0 <= i < |s| ==> Separate(s[i], v)
    requires Within(s, lo, hi) && lo <= v.a && v.End() <= hi
    ensures Canonical(Inserted(s, v)) && Within(Inserted(s, v), lo, hi) && Pages(Inserted(s, v)) == Pages(s) + v.n
    ensures forall x :: Free(Inserted(s, v), x) <==> Free(s, x) || v.Has(x)
  {
    hide Canonical, With, Pages, Free, Separate;
    var k := PlaceOf(s, v);
    WithCanonical(s, k, v);
    PagesWith(s, k, v);
    WithinWith(s, k, v, lo, hi);
    forall x ensures Free(Inserted(s, v), x) <==> Free(s, x) || v.Has(x) { WithFree(s, k, v, x); }
  }

  /** A release of a range that is disjoint from what is free adds exactly that range. */
  lemma ReleasedOk(s: seq<Interval>, v: Interval, lo: int, hi: int)
    requires Canonical(s) && v.n > 0 && forall i :: 0 <= i < |s| ==> Disjoint(s[i], v)
    requires Within(s, lo, hi) && lo <= v.a && v.End() <= hi
    ensures NoDoubleFree(s, v)
    ensures Canonical(Released(s, v)) && Within(Released(s, v), lo, hi) && Pages(Released(s, v)) == Pages(s) + v.n
    ensures forall x :: Free(Released(s, v), x) <==> Free(s, x) || v.Has(x)
    ensures Absorbed(s, v).merges == |Borders(s, v)|
  {
    hide Canonical, Pages, Free, Separate, Within, Borders, Absorbed, Inserted, NoDoubleFree, Disjoint;
    AbsorbedOk(s, v, lo, hi);
    InsertedOk(Absorbed(s, v).rest, Absorbed(s, v).v, lo, hi);
  }

  /** An ensure that succeeds takes exactly the pages it returns, which were free. */
  lemma EnsuredOk(s: seq<Interval>, n: nat, lo: int, hi: int)
    requires Canonical(s) && Within(s, lo, hi) && s != [] && s[0].n >= n
    ensures var (a, t) := Ensured(s, n);
      && FreeRun(s, a, n) && lo <= a && a + PAGE_SIZE * n <= hi
      && Canonical(t) && Within(t, lo, hi) && Pages(t) + n == Pages(s)
      && forall x :: Free(t, x) <==> Free(s, x) && !Interval(a, n).Has(x)
  {
    hide Canonical, Pages, Free, Separate, Inserted;
    NotEmpty(s);
    WithinWithout(s, 0, lo, hi);
    WithoutCanonical(s, 0);
    WithoutAt(s, 0);
    PagesWithout(s, 0);
    HeadFree(s, n);
    var w := Interval(s[0].a + PAGE_SIZE * n, s[0].n - n);
    if s[0].n != n {
      TailApart(s, n);
      InsertedOk(Without(s, 0), w, lo, hi);
    }
    forall x ensures Free(Ensured(s, n).1, x) <==> Free(s, x) && !Interval(s[0].a, n).Has(x) { HeadCut(s, n, x); }
  }

  lemma HeadFree(s: seq<Interval>, n: nat)
    requires s != [] && s[0].n >= n
    ensures FreeRun(s, s[0].a, n)
  {
    forall x | s[0].a <= x < s[0].a + PAGE_SIZE * n ensures Free(s, x) { HasFree(s, 0, x); }
  }

  /** What is left of the head is apart from the other intervals. */
  lemma TailApart(s: seq<Interval>, n: nat)
    requires Canonical(s) && s != [] && n < s[0].n
    ensures |Without(s, 0)| == |s| - 1
    ensures forall i :: 0 <= i < |s| - 1 ==>
      Separate(Without(s, 0)[i], Interval(s[0].a + PAGE_SIZE * n, s[0].n - n))
  {
    WithoutCanonical(s, 0);
  }

  lemma HeadCut(s: seq<Interval>, n: nat, x: int)
    requires Canonical(s) && s != [] && n <= s[0].n
    ensures var w := Interval(s[0].a + PAGE_SIZE * n, s[0].n - n);
      Free(Without(s, 0), x) || w.Has(x) <==> Free(s, x) && !Interval(s[0].a, n).Has(x)
  {
    WithoutFree(s, 0, x);
    HasFree(s, 0, x);
  }

  // ---- free pages fit in the region ----

  /** Separate non-empty intervals inside a region have no more pages together than the region. */
  lemma {:induction false} FitsInside(s: seq<Interval>, lo: int, hi: int)
    requires Canonical(s) && lo <= hi && forall i :: 0 <= i < |s| ==> lo <= s[i].a && s[i].End() <= hi
    ensures PAGE_SIZE * Pages(s) <= hi - lo
    decreases |s|
  {
    if s != [] {
      var u := s[0];
      var l := Select(s[1..], u, true);
      var r := Select(s[1..], u, false);
      TailCanonical(s);
      SelectCanonical(s[1..], u, true);
      SelectCanonical(s[1..], u, false);
      forall i | 0 <= i < |l| ensures lo <= l[i].a && l[i].End() <= u.a {
        assert l[i] in s[1..];
        var j :| 0 <= j < |s| - 1 && s[j + 1] == l[i];
      }
      forall i | 0 <= i < |r| ensures u.End() <= r[i].a && r[i].End() <= hi {
        assert r[i] in s[1..];
        var j :| 0 <= j < |s| - 1 && s[1..][j] == r[i];
        assert Separate(u, s[1..][j]) && s[j + 1] == r[i];
      }
      FitsInside(l, lo, u.a);
      FitsInside(r, u.End(), hi);
      SelectPages(s[1..], u);
    }
  }

  /** The intervals on one side of u. */
  function Select(s: seq<Interval>, u: Interval, below: bool): (r: seq<Interval>)
    ensures |r| <= |s|
  {
    if s == [] then []
    else if (s[0].End() < u.a) == below then [s[0]] + Select(s[1..], u, below)
    else Select(s[1..], u, below)
  }

  lemma TailCanonical(s: seq<Interval>)
    requires Canonical(s) && s != []
    ensures Canonical(s[1..]) && forall i :: 0 <= i < |s| - 1 ==> Separate(s[0], s[1..][i])
  {
  }

  lemma {:induction false} SelectCanonical(s: seq<Interval>, u: Interval, below: bool)
    requires Canonical(s)
    ensures Canonical(Select(s, u, below))
    ensures forall v :: v in Select(s, u, below) <==> v in s && (v.End() < u.a) == below
  {
    if s != [] {
      TailCanonical(s);
      SelectCanonical(s[1..], u, below);
      var r := Select(s[1..], u, below);
      if (s[0].End() < u.a) == below {
        forall i | 0 <= i < |r| ensures Separate(s[0], r[i]) && s[0].n >= r[i].n {
          assert r[i] in s[1..];
          var j :| 0 <= j < |s[1..]| && s[1..][j] == r[i];
          assert Separate(s[0], s[1..][j]) && s[0].n >= s[j + 1].n;
        }
        var t := [s[0]] + r;
        forall i, j | 0 <= i < j < |t| ensures Separate(t[i], t[j]) && t[i].n >= t[j].n {
          if i > 0 { assert Separate(r[i - 1], r[j - 1]); }
        }
      }
    }
  }

  lemma {:induction false} SelectPages(s: seq<Interval>, u: Interval)
    ensures Pages(s) == Pages(Select(s, u, true)) + Pages(Select(s, u, false))
  {
    if s != [] {
      SelectPages(s[1..], u);
      var l, r := Select(s[1..], u, true), Select(s[1..], u, false);
      assert ([s[0]] + l)[1..] == l && ([s[0]] + r)[1..] == r;
    }
  }
}
