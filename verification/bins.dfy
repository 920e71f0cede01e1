/** The bin invariant of the userland heap: which free chunks are binned, where, and how they are linked. */
module Bins {
  import opened SizeClass
  import opened BinMap
  import opened Ring
  import opened Trie
  import opened TrieOps
  import opened TrieMem

  /** Addresses of the malloc_state record and of the segment. Bin headers live in the record. */
  datatype Layout = Layout(gm: int, base: int, end: int)
  {
    predicate Valid()
    {
      0 < gm && 0 < base <= end && base % 8 == 0 && (gm + 432 <= base || end + TOP_FOOT_SIZE <= gm)
      && end + TOP_FOOT_SIZE <= SIZE_T_RANGE
    }

    /** smallbin_at: the pseudo-chunk whose fd and bk fields are the header of small bin i. */
    function SmallBinAt(i: nat): int { gm + 40 + 8 * i }

    /** treebin_at: the address of the root pointer of tree bin i. */
    function TreeBinAt(i: nat): int { gm + 304 + 4 * i }

    predicate InSegment(x: int) { base <= x < end }
  }

  /** Small bin i holds the chunks s. Its header is linked only while the bin is marked. */
  predicate SmallBinOk(c: Layout, fd: Field, bk: Field, marks: binmap, i: nat, s: seq<int>)
    requires i < NSMALLBINS
  {
    && (Bit(marks, i) <==> s != [])
    && (s != [] ==> RingOk(fd, bk, [c.SmallBinAt(i)] + s))
  }

  /** Tree bin i holds the trie t. */
  predicate TreeBinOk(c: Layout, head: Heads, m: Links, marks: binmap, i: nat, root: int, t: Trie)
    requires i < NTREEBINS
  {
    && (Bit(marks, i) <==> t.Node?)
    && root == Root(t)
    && TrieOk(head, t, BinLo(i), BinBits(i))
    && Linked(m, t, c.TreeBinAt(i), i)
  }

  predicate IsLarge(s: nat) { !IsSmall(s) && s < SIZE_T_RANGE }

  /** Every binned chunk is in the bin for its size, and every chunk in a bin is binned. */
  predicate BinnedOk(c: Layout, head: Heads, small: seq<seq<int>>, trees: seq<Trie>, binned: set<int>)
    requires |small| == NSMALLBINS && |trees| == NTREEBINS
  {
    && (forall i, x :: 0 <= i < NSMALLBINS && x in small[i] ==> x in binned && x in head && head[x].size == 8 * i)
    && (forall i, x :: 0 <= i < NTREEBINS && x in Addrs(trees[i]) ==>
          x in binned && x in head && IsLarge(head[x].size) && TreeIndex(head[x].size) == i)
    && forall x :: x in binned ==> InItsBin(c, head, small, trees, x)
  }

  predicate InItsBin(c: Layout, head: Heads, small: seq<seq<int>>, trees: seq<Trie>, x: int)
    requires |small| == NSMALLBINS && |trees| == NTREEBINS
  {
    && c.InSegment(x) && x in head && head[x].size % 8 == 0
    && if IsSmall(head[x].size) then x in small[head[x].size / 8]
       else TreeIndex(head[x].size) < NTREEBINS && x in Addrs(trees[TreeIndex(head[x].size)])
  }

  lemma SmallBinFrame(c: Layout, fd: Field, bk: Field, marks: binmap, fd': Field, bk': Field, marks': binmap,
                      i: nat, s: seq<int>)
    requires i < NSMALLBINS && SmallBinOk(c, fd, bk, marks, i, s)
    requires Bit(marks, i) <==> Bit(marks', i)
    requires Same(fd, fd', c.SmallBinAt(i)) && Same(bk, bk', c.SmallBinAt(i))
    requires forall x :: x in s ==> Same(fd, fd', x) && Same(bk, bk', x)
    ensures SmallBinOk(c, fd', bk', marks', i, s)
  {
    if s != [] { RingFrame(fd, bk, fd', bk', [c.SmallBinAt(i)] + s); }
  }

  lemma TreeBinFrame(c: Layout, head: Heads, m: Links, marks: binmap, head': Heads, m': Links, marks': binmap,
                     i: nat, root: int, t: Trie)
    requires i < NTREEBINS && TreeBinOk(c, head, m, marks, i, root, t)
    requires Bit(marks, i) <==> Bit(marks', i)
    requires forall x :: x in Addrs(t) ==>
      SameAt(m, m', x) && x in head' && (x in head ==> head'[x].size == head[x].size)
    ensures TreeBinOk(c, head', m', marks', i, root, t)
  {
    TrieOkFrame(head, head', t, BinLo(i), BinBits(i));
    LinkedFrame(m, m', t, c.TreeBinAt(i), i);
  }

  // ---- all bins together ----

  /** The contents of the 64 bins and of the header words that lead to them. */
  datatype BinState = BinState(smallmap: binmap, treemap: binmap, treebins: seq<int>, m: Links,
                               small: seq<seq<int>>, trees: seq<Trie>, binned: set<int>)

  predicate BinsOk(c: Layout, head: Heads, s: BinState)
  {
    && c.Valid()
    && |s.small| == NSMALLBINS && |s.trees| == NTREEBINS && |s.treebins| == NTREEBINS
    && (forall i :: 0 <= i < NSMALLBINS ==> SmallBinOk(c, s.m.fd, s.m.bk, s.smallmap, i, s.small[i]))
    && (forall i :: 0 <= i < NTREEBINS ==> TreeBinOk(c, head, s.m, s.treemap, i, s.treebins[i], s.trees[i]))
    && BinnedOk(c, head, s.small, s.trees, s.binned)
  }

  /** Bins depend on the sizes of binned chunks only. */
  lemma BinsFrame(c: Layout, head: Heads, head': Heads, s: BinState)
    requires BinsOk(c, head, s)
    requires forall x :: x in s.binned && x in head ==> x in head' && head'[x].size == head[x].size
    ensures BinsOk(c, head', s)
  {
    BinnedFrame(c, head, head', s.small, s.trees, s.binned);
    forall i | 0 <= i < NTREEBINS ensures TreeBinOk(c, head', s.m, s.treemap, i, s.treebins[i], s.trees[i]) {
      forall x | x in Addrs(s.trees[i]) ensures x in head' && head'[x].size == head[x].size { assert x in s.binned; }
      TreeBinFrame(c, head, s.m, s.treemap, head', s.m, s.treemap, i, s.treebins[i], s.trees[i]);
    }
  }

  lemma BinnedFrame(c: Layout, head: Heads, head': Heads, small: seq<seq<int>>, trees: seq<Trie>, binned: set<int>)
    requires |small| == NSMALLBINS && |trees| == NTREEBINS && BinnedOk(c, head, small, trees, binned)
    requires forall x :: x in binned && x in head ==> x in head' && head'[x].size == head[x].size
    ensures BinnedOk(c, head', small, trees, binned)
  {
    forall x | x in binned ensures InItsBin(c, head', small, trees, x) {
      assert InItsBin(c, head, small, trees, x);
    }
  }

  lemma HeaderOutside(c: Layout, j: nat)
    requires c.Valid() && j < NSMALLBINS
    ensures !c.InSegment(c.SmallBinAt(j))
  {
  }

  /** The addresses that a change to small bin i may touch. */
  ghost predicate SmallChange(c: Layout, head: Heads, i: nat, m: Links, m': Links, d: set<int>)
  {
    && (forall x :: x in d ==> x == c.SmallBinAt(i) || (c.InSegment(x) && x in head && head[x].size == 8 * i))
    && (forall x :: x !in d ==> SameAt(m, m', x))
  }

  /** The addresses that a change to tree bin i may touch. */
  ghost predicate TreeChange(c: Layout, head: Heads, i: nat, m: Links, m': Links, d: set<int>)
  {
    && (forall x :: x in d ==> c.InSegment(x) && x in head && !IsSmall(head[x].size) && TreeIndex(head[x].size) == i)
    && (forall x :: x !in d ==> SameAt(m, m', x))
  }

  lemma SmallBinAside(c: Layout, head: Heads, s: BinState, m': Links, marks': binmap, j: nat, d: set<int>)
    requires BinsOk(c, head, s) && j < NSMALLBINS
    requires Bit(s.smallmap, j) <==> Bit(marks', j)
    requires forall x :: x in d ==> x != c.SmallBinAt(j) && x !in s.small[j]
    requires forall x :: x !in d ==> SameAt(s.m, m', x)
    ensures SmallBinOk(c, m'.fd, m'.bk, marks', j, s.small[j])
  {
    assert SameAt(s.m, m', c.SmallBinAt(j));
    forall x | x in s.small[j] ensures SameAt(s.m, m', x) {}
    SmallBinFrame(c, s.m.fd, s.m.bk, s.smallmap, m'.fd, m'.bk, marks', j, s.small[j]);
  }

  lemma TreeBinAside(c: Layout, head: Heads, s: BinState, m': Links, marks': binmap, j: nat, d: set<int>)
    requires BinsOk(c, head, s) && j < NTREEBINS
    requires Bit(s.treemap, j) <==> Bit(marks', j)
    requires d !! Addrs(s.trees[j])
    requires forall x :: x !in d ==> SameAt(s.m, m', x)
    ensures TreeBinOk(c, head, m', marks', j, s.treebins[j], s.trees[j])
  {
    hide TreeBinOk, SmallBinOk, BinnedOk, SameAt, Addrs, Bit;
    TreeBinSizes(c, head, s, j);
    forall x | x in Addrs(s.trees[j]) ensures SameAt(s.m, m', x) {}
    TreeBinFrame(c, head, s.m, s.treemap, head, m', marks', j, s.treebins[j], s.trees[j]);
  }

  lemma TreeBinSizes(c: Layout, head: Heads, s: BinState, j: nat)
    requires BinsOk(c, head, s) && j < NTREEBINS
    ensures forall x :: x in Addrs(s.trees[j]) ==> x in head
  {
    hide TreeBinOk, SmallBinOk, Addrs, Bit;
  }

  /** Rewriting one small bin, and its bit in the map, leaves every other bin as it was. */
  lemma SmallBinChanged(c: Layout, head: Heads, s: BinState, s': BinState, i: nat, d: set<int>)
    requires BinsOk(c, head, s) && i < NSMALLBINS
    requires SmallChange(c, head, i, s.m, s'.m, d)
    requires forall j :: 0 <= j < 32 && j != i ==> (Bit(s.smallmap, j) <==> Bit(s'.smallmap, j))
    requires |s'.small| == NSMALLBINS && forall j :: 0 <= j < NSMALLBINS && j != i ==> s'.small[j] == s.small[j]
    requires s'.treemap == s.treemap && s'.treebins == s.treebins && s'.trees == s.trees
    requires SmallBinOk(c, s'.m.fd, s'.m.bk, s'.smallmap, i, s'.small[i])
    requires BinnedOk(c, head, s'.small, s'.trees, s'.binned)
    ensures BinsOk(c, head, s')
  {
    hide SmallBinOk, TreeBinOk, SameAt, Addrs, Bit;
    forall j | 0 <= j < NSMALLBINS ensures SmallBinOk(c, s'.m.fd, s'.m.bk, s'.smallmap, j, s'.small[j]) {
      if j != i {
        HeaderOutside(c, i);
        HeaderOutside(c, j);
        forall x | x in s.small[j] ensures c.InSegment(x) { assert InItsBin(c, head, s.small, s.trees, x); }
        forall x | x in d ensures x != c.SmallBinAt(j) && x !in s.small[j] {}
        SmallBinAside(c, head, s, s'.m, s'.smallmap, j, d);
      }
    }
    forall j | 0 <= j < NTREEBINS ensures TreeBinOk(c, head, s'.m, s'.treemap, j, s'.treebins[j], s'.trees[j]) {
      HeaderOutside(c, i);
      forall x | x in Addrs(s.trees[j]) ensures x !in d {
        assert InItsBin(c, head, s.small, s.trees, x);
      }
      TreeBinAside(c, head, s, s'.m, s'.treemap, j, d);
    }
  }

  /** Rewriting one tree bin, its header and its bit in the map, leaves every other bin as it was. */
  lemma TreeBinChanged(c: Layout, head: Heads, s: BinState, s': BinState, i: nat, d: set<int>)
    requires BinsOk(c, head, s) && i < NTREEBINS
    requires TreeChange(c, head, i, s.m, s'.m, d)
    requires forall j :: 0 <= j < 32 && j != i ==> (Bit(s.treemap, j) <==> Bit(s'.treemap, j))
    requires |s'.trees| == NTREEBINS && forall j :: 0 <= j < NTREEBINS && j != i ==> s'.trees[j] == s.trees[j]
    requires |s'.treebins| == NTREEBINS && forall j :: 0 <= j < NTREEBINS && j != i ==> s'.treebins[j] == s.treebins[j]
    requires s'.smallmap == s.smallmap && s'.small == s.small
    requires TreeBinOk(c, head, s'.m, s'.treemap, i, s'.treebins[i], s'.trees[i])
    requires BinnedOk(c, head, s'.small, s'.trees, s'.binned)
    ensures BinsOk(c, head, s')
  {
    hide SmallBinOk, TreeBinOk, SameAt, Addrs, Bit;
    forall j | 0 <= j < NSMALLBINS ensures SmallBinOk(c, s'.m.fd, s'.m.bk, s'.smallmap, j, s'.small[j]) {
      HeaderOutside(c, j);
      forall x | x in d ensures x != c.SmallBinAt(j) && x !in s.small[j] {}
      SmallBinAside(c, head, s, s'.m, s'.smallmap, j, d);
    }
    forall j | 0 <= j < NTREEBINS ensures TreeBinOk(c, head, s'.m, s'.treemap, j, s'.treebins[j], s'.trees[j]) {
      if j != i {
        forall x | x in Addrs(s.trees[j]) ensures x !in d {}
        TreeBinAside(c, head, s, s'.m, s'.treemap, j, d);
      }
    }
  }

  /** Adding one chunk to a small bin, or taking one from it, does so to the set of binned chunks. */
  lemma BinnedSmall(c: Layout, head: Heads, small: seq<seq<int>>, trees: seq<Trie>, binned: set<int>,
                    i: nat, s': seq<int>, p: int, add: bool)
    requires |small| == NSMALLBINS && |trees| == NTREEBINS && i < NSMALLBINS && BinnedOk(c, head, small, trees, binned)
    requires p in head && head[p].size == 8 * i && c.InSegment(p)
    requires forall x :: x in s' <==> if x == p then add else x in small[i]
    ensures BinnedOk(c, head, small[i := s'], trees, if add then binned + {p} else binned - {p})
  {
    var small', binned' := small[i := s'], if add then binned + {p} else binned - {p};
    forall x | x in binned' ensures InItsBin(c, head, small', trees, x) {
      if x != p { assert InItsBin(c, head, small, trees, x); }
    }
  }

  /** Adding one chunk to a tree bin, or taking one from it, does so to the set of binned chunks. */
  lemma BinnedTree(c: Layout, head: Heads, small: seq<seq<int>>, trees: seq<Trie>, binned: set<int>,
                   i: nat, t': Trie, p: int, add: bool)
    requires |small| == NSMALLBINS && |trees| == NTREEBINS && i < NTREEBINS && BinnedOk(c, head, small, trees, binned)
    requires p in head && IsLarge(head[p].size) && head[p].size % 8 == 0 && TreeIndex(head[p].size) == i
      && c.InSegment(p)
    requires Addrs(t') == if add then Addrs(trees[i]) + {p} else Addrs(trees[i]) - {p}
    ensures BinnedOk(c, head, small, trees[i := t'], if add then binned + {p} else binned - {p})
  {
    var trees', binned' := trees[i := t'], if add then binned + {p} else binned - {p};
    forall x | x in binned' ensures InItsBin(c, head, small, trees', x) {
      if x != p { assert InItsBin(c, head, small, trees, x); }
    }
  }
}
