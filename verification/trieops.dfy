/** What insertion, removal and search do to a tree bin, as functions on tries. */
module TrieOps {
  import opened Sequences
  import opened SizeClass
  import opened BinMap
  import opened Ring
  import opened Trie

  // ---- insertion ----

  function Insert(t: Trie, x: int, s: nat, lo: nat, b: nat): Trie
  {
    if t.Nil? then Node(s, [x], Nil, Nil)
    else if t.sz == s then t.(ring := InsertSecond(t.ring, x))
    else if b == 0 then t
    else
      var d := s >= lo + Pow2(b - 1);
      SetChild(t, d, Insert(Child(t, d), x, s, HalfLo(lo, b, d), b - 1))
  }

  lemma {:induction false} InsertOk(head: Heads, t: Trie, x: int, s: nat, lo: nat, b: nat)
    requires TrieOk(head, t, lo, b) && lo <= s < lo + Pow2(b)
    requires x > 0 && x in head && head[x].size == s
    ensures TrieOk(head, Insert(t, x, s, lo, b), lo, b)
    ensures Addrs(Insert(t, x, s, lo, b)) == Addrs(t) + {x}
    ensures Sizes(Insert(t, x, s, lo, b)) == Sizes(t) + {s}
    ensures Root(Insert(t, x, s, lo, b)) == if t.Nil? then x else Root(t)
  {
    if t.Node? {
      if t.sz == s {
        var r := InsertSecond(t.ring, x);
        assert forall y :: y in r <==> y == x || y in t.ring by {
          assert t.ring == [t.ring[0]] + t.ring[1..];
        }
      } else if b > 0 {
        var d := s >= lo + Pow2(b - 1);
        InsertOk(head, Child(t, d), x, s, HalfLo(lo, b, d), b - 1);
      }
    }
  }

  /** One step of the search for the insertion point. */
  lemma InsertStep(t: Trie, path: seq<bool>, x: int, s: nat, lo: nat, b: nat)
    requires |path| < b && IsPath(t, path) && Sub(t, path).Node? && Sub(t, path).sz != s
    ensures var slo := SubLo(lo, b, path);
      var d := s >= slo + Pow2(b - |path| - 1);
      && IsPath(t, path + [d])
      && SubLo(lo, b, path + [d]) == HalfLo(slo, b - |path|, d)
      && Put(t, path, Insert(Sub(t, path), x, s, slo, b - |path|))
      == Put(t, path + [d], Insert(Sub(t, path + [d]), x, s, SubLo(lo, b, path + [d]), b - |path| - 1))
  {
    var slo := SubLo(lo, b, path);
    var d := s >= slo + Pow2(b - |path| - 1);
    PathSnoc(t, path, d);
    SubLoSnoc(lo, b, path, d);
  }

  // ---- removal ----

  /** The leaf that unlink_large_chunk pulls up: go right if possible, else left, until a leaf. */
  function LeafOf(t: Trie): (f: Trie)
    requires t.Node?
    ensures f.Node? && f.l.Nil? && f.r.Nil?
  {
    if t.r.Node? then LeafOf(t.r) else if t.l.Node? then LeafOf(t.l) else t
  }

  function WithoutLeaf(t: Trie): Trie
    requires t.Node?
  {
    if t.r.Node? then t.(r := WithoutLeaf(t.r))
    else if t.l.Node? then t.(l := WithoutLeaf(t.l))
    else Nil
  }

  /** The root's ring is exhausted: its leaf takes its place. */
  function DropRoot(t: Trie): Trie
    requires t.Node?
  {
    var u := WithoutLeaf(t);
    if u.Nil? then Nil else u.(sz := LeafOf(t).sz, ring := LeafOf(t).ring)
  }

  lemma {:induction false} LeafAddrs(t: Trie)
    requires t.Node? && Apart(t)
    ensures Addrs(t) == Addrs(WithoutLeaf(t)) + Addrs(LeafOf(t))
    ensures Addrs(WithoutLeaf(t)) !! Addrs(LeafOf(t))
  {
    if t.r.Node? { LeafAddrs(t.r); } else if t.l.Node? { LeafAddrs(t.l); }
  }

  lemma {:induction false} LeafOk(head: Heads, t: Trie, lo: nat, b: nat)
    requires TrieOk(head, t, lo, b) && t.Node?
    ensures TrieOk(head, WithoutLeaf(t), lo, b)
    ensures LeafOf(t).sz !in Sizes(WithoutLeaf(t))
    ensures Sizes(t) == Sizes(WithoutLeaf(t)) + {LeafOf(t).sz}
    ensures TrieOk(head, LeafOf(t), lo, b)
  {
    if b > 0 {
      if t.r.Node? {
        LeafOk(head, t.r, lo + Pow2(b - 1), b - 1);
        LeafOnRight(head, t, lo, b);
      } else if t.l.Node? {
        LeafOk(head, t.l, lo, b - 1);
        LeafOnLeft(head, t, lo, b);
      }
    }
  }

  lemma LeafOnRight(head: Heads, t: Trie, lo: nat, b: nat)
    requires TrieOk(head, t, lo, b) && t.Node? && t.r.Node? && b > 0
    requires var r, f := WithoutLeaf(t.r), LeafOf(t.r);
      && TrieOk(head, r, lo + Pow2(b - 1), b - 1) && TrieOk(head, f, lo + Pow2(b - 1), b - 1)
      && f.sz !in Sizes(r) && Sizes(t.r) == Sizes(r) + {f.sz}
    ensures TrieOk(head, WithoutLeaf(t), lo, b) && TrieOk(head, LeafOf(t), lo, b)
    ensures LeafOf(t).sz !in Sizes(WithoutLeaf(t)) && Sizes(t) == Sizes(WithoutLeaf(t)) + {LeafOf(t).sz}
  {
    SizesInRange(head, t.l, lo, b - 1);
    LeafRange(head, LeafOf(t), lo + Pow2(b - 1), lo, b);
  }

  lemma LeafOnLeft(head: Heads, t: Trie, lo: nat, b: nat)
    requires TrieOk(head, t, lo, b) && t.Node? && t.r.Nil? && t.l.Node? && b > 0
    requires var l, f := WithoutLeaf(t.l), LeafOf(t.l);
      && TrieOk(head, l, lo, b - 1) && TrieOk(head, f, lo, b - 1)
      && f.sz !in Sizes(l) && Sizes(t.l) == Sizes(l) + {f.sz}
    ensures TrieOk(head, WithoutLeaf(t), lo, b) && TrieOk(head, LeafOf(t), lo, b)
    ensures LeafOf(t).sz !in Sizes(WithoutLeaf(t)) && Sizes(t) == Sizes(WithoutLeaf(t)) + {LeafOf(t).sz}
  {
    LeafRange(head, LeafOf(t), lo, lo, b);
  }

  lemma LeafRange(head: Heads, f: Trie, slo: nat, lo: nat, b: nat)
    requires b > 0 && TrieOk(head, f, slo, b - 1) && f.Node? && f.l.Nil? && f.r.Nil?
    requires lo <= slo <= lo + Pow2(b - 1)
    ensures TrieOk(head, f, lo, b)
  {
  }

  lemma DropRootOk(head: Heads, t: Trie, lo: nat, b: nat)
    requires TrieOk(head, t, lo, b) && t.Node?
    ensures TrieOk(head, DropRoot(t), lo, b)
    ensures Sizes(DropRoot(t)) == Sizes(t) - {t.sz}
    ensures Addrs(DropRoot(t)) == Addrs(t) - Elems(t.ring)
  {
    LeafOk(head, t, lo, b);
    PartsApart(head, t, lo, b);
    LeafAddrs(t);
    var u := WithoutLeaf(t);
    if u.Node? {
      PartsApart(head, u, lo, b);
      assert u.ring == t.ring && u.sz == t.sz;
      var ring, below := Elems(t.ring), Addrs(u.l) + Addrs(u.r);
      assert Addrs(u) == ring + below && ring !! below;
      assert Addrs(DropRoot(t)) == Addrs(LeafOf(t)) + below;
    } else {
      assert Sizes(t) == {t.sz} && LeafOf(t) == t;
    }
  }

  function IndexOf(s: seq<int>, x: int): (k: nat)
    requires x in s
    ensures k < |s| && s[k] == x
  {
    if s[0] == x then 0 else 1 + IndexOf(s[1..], x)
  }

  /** The trie after chunk x of its root's ring is unlinked. */
  function RemoveHere(t: Trie, x: int): Trie
    requires t.Node? && x in t.ring
  {
    if |t.ring| == 1 then DropRoot(t)
    else if x == t.ring[0] then t.(ring := DropFirst(t.ring))
    else t.(ring := Without(t.ring, IndexOf(t.ring, x)))
  }

  lemma WithoutSet(s: seq<int>, x: int)
    requires NoDup(s) && x in s && |s| > 1
    ensures forall y :: y in Without(s, IndexOf(s, x)) <==> y in s && y != x
    ensures x == s[0] ==> forall y :: y in DropFirst(s) <==> y in s && y != x
    ensures x != s[0] ==> IndexOf(s, x) > 0 && Without(s, IndexOf(s, x))[0] == s[0]
  {
    var k := IndexOf(s, x);
    assert s == s[..k] + [s[k]] + s[k + 1..];
    if x == s[0] {
      assert s == [s[0]] + s[1..|s| - 1] + [s[|s| - 1]];
    }
  }

  lemma RemoveHereOk(head: Heads, t: Trie, lo: nat, b: nat, x: int)
    requires TrieOk(head, t, lo, b) && t.Node? && NoDup(t.ring) && x in t.ring
    ensures TrieOk(head, RemoveHere(t, x), lo, b)
    ensures Sizes(RemoveHere(t, x)) <= Sizes(t)
    ensures Addrs(RemoveHere(t, x)) == Addrs(t) - {x}
  {
    PartsApart(head, t, lo, b);
    if |t.ring| == 1 {
      assert t.ring == [x];
      DropRootOk(head, t, lo, b);
    } else {
      WithoutSet(t.ring, x);
    }
  }

  lemma {:induction false} PutOk(head: Heads, t: Trie, lo: nat, b: nat, path: seq<bool>, s: Trie)
    requires TrieOk(head, t, lo, b) && IsPath(t, path) && |path| <= b
    requires TrieOk(head, s, SubLo(lo, b, path), b - |path|) && Sizes(s) <= Sizes(Sub(t, path))
    ensures TrieOk(head, Put(t, path, s), lo, b)
    ensures Sizes(Put(t, path, s)) <= Sizes(t)
    decreases |path|
  {
    if path != [] {
      var d := path[0];
      PutOk(head, Child(t, d), HalfLo(lo, b, d), b - 1, path[1..], s);
    }
  }

  lemma {:induction false} PutAddrs(t: Trie, path: seq<bool>, s: Trie)
    requires Apart(t) && IsPath(t, path)
    ensures Addrs(Put(t, path, s)) == Addrs(t) - Addrs(Sub(t, path)) + Addrs(s)
    decreases |path|
  {
    if path != [] {
      var c, rest := Child(t, path[0]), path[1..];
      PutAddrs(c, rest, s);
      SubAddrs(c, rest);
      var aside := Addrs(Child(t, !path[0])) + Elems(t.ring);
      assert Addrs(t) == aside + Addrs(c) && aside !! Addrs(c);
      assert Addrs(Put(t, path, s)) == aside + Addrs(Put(c, rest, s));
    }
  }

  function PathTo(t: Trie, x: int): (path: seq<bool>)
    requires x in Addrs(t)
    ensures IsPath(t, path) && Sub(t, path).Node? && x in Sub(t, path).ring
  {
    if x in t.ring then []
    else if x in Addrs(t.l) then [false] + PathTo(t.l, x)
    else [true] + PathTo(t.r, x)
  }

  /** The tree bin after chunk x is unlinked. */
  function Remove(t: Trie, x: int): Trie
    requires x in Addrs(t)
  {
    Put(t, PathTo(t, x), RemoveHere(Sub(t, PathTo(t, x)), x))
  }

  /** Descending towards the leaf. */
  lemma LeafStep(t: Trie, path: seq<bool>, d: bool)
    requires IsPath(t, path) && Sub(t, path).Node? && Child(Sub(t, path), d).Node?
    requires d || Sub(t, path).r.Nil?
    ensures IsPath(t, path + [d]) && Sub(t, path + [d]) == Child(Sub(t, path), d)
    ensures LeafOf(Sub(t, path + [d])) == LeafOf(Sub(t, path))
    ensures Put(t, path + [d], WithoutLeaf(Sub(t, path + [d]))) == Put(t, path, WithoutLeaf(Sub(t, path)))
  {
    PathSnoc(t, path, d);
  }

  // ---- search ----

  /** The child that leads towards the smallest size. */
  function LeftmostChild(t: Trie): Trie
    requires t.Node?
  {
    if t.l.Node? then t.l else t.r
  }

  lemma LeftmostOk(head: Heads, t: Trie, lo: nat, b: nat)
    requires TrieOk(head, t, lo, b) && t.Node?
    ensures forall s :: s in Sizes(t) ==>
      || s == t.sz || s in Sizes(LeftmostChild(t))
      || (LeftmostChild(t).Node? && forall u :: u in Sizes(LeftmostChild(t)) ==> u < s)
    ensures b > 0 ==> TrieOk(head, LeftmostChild(t), HalfLo(lo, b, t.l.Nil?), b - 1)
    ensures b == 0 ==> LeftmostChild(t).Nil?
  {
    if b > 0 {
      SizesInRange(head, t.l, lo, b - 1);
      SizesInRange(head, t.r, lo + Pow2(b - 1), b - 1);
    }
  }

  // ---- height ----

  function Height(t: Trie): nat
  {
    if t.Nil? then 0
    else 1 + (if Height(t.l) > Height(t.r) then Height(t.l) else Height(t.r))
  }

  lemma OneSizeLeft(head: Heads, sz: nat, c: Trie, lo: nat, clo: nat)
    requires TrieOk(head, c, clo, 2) && lo % 8 == 0 && (clo == lo || clo == lo + 4)
    requires lo <= sz < lo + 8 && sz % 8 == 0 && sz !in Sizes(c)
    requires forall s :: s in Sizes(c) ==> s % 8 == 0
    ensures c.Nil?
  {
    assert Pow2(2) == 4;
    OnlySize(lo, sz);
    if c.Node? { OnlySize(lo, c.sz); }
  }

  lemma OnlySize(lo: nat, s: nat)
    requires lo % 8 == 0 && s % 8 == 0
    ensures lo <= s < lo + 8 ==> s == lo
  {
  }

  lemma SizesBelow(t: Trie)
    requires t.Node?
    ensures (forall s :: s in Sizes(t.l) ==> s in Sizes(t)) && forall s :: s in Sizes(t.r) ==> s in Sizes(t)
  {
  }

  lemma EighthOfHalf(lo: nat, b: nat)
    requires lo % 8 == 0 && b > 3
    ensures (lo + Pow2(b - 1)) % 8 == 0
  {
    Pow2Add(3, b - 4);
    assert Pow2(3) == 8;
    var q := lo / 8;
    assert lo == q * 8;
    QuotientUnique(lo + Pow2(b - 1), 8, q + Pow2(b - 4), 0);
  }

  /** No search in a bin takes more steps than it has distinguishing bits: chunk sizes are multiples
      of 8, so three of the b bits of the range never differ. */
  lemma {:induction false} HeightBound(head: Heads, t: Trie, lo: nat, b: nat)
    requires TrieOk(head, t, lo, b) && b >= 3 && lo % 8 == 0
    requires forall s :: s in Sizes(t) ==> s % 8 == 0
    ensures Height(t) <= b - 2
    decreases b
  {
    if t.Node? {
      assert t.sz in Sizes(t) && Pow2(3) == 8 && Pow2(2) == 4;
      if b == 3 {
        OneSizeLeft(head, t.sz, t.l, lo, lo);
        OneSizeLeft(head, t.sz, t.r, lo, lo + 4);
      } else {
        SizesBelow(t);
        EighthOfHalf(lo, b);
        HeightBound(head, t.l, lo, b - 1);
        HeightBound(head, t.r, lo + Pow2(b - 1), b - 1);
      }
    }
  }
}
