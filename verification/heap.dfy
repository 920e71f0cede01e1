/** The userland heap: boundary-tagged chunks over one fixed segment, small bins, tree bins,
    the designated victim and top. */
module Heap {
  import opened Sequences
  import opened SizeClass
  import opened BinMap
  import opened Ring
  import opened Trie
  import opened TrieOps
  import opened TrieMem
  import opened Bins
  import opened BinOps
  import opened TreeSearch
  import opened Core
  import opened CoreOps
  import opened HeapOps
  import opened Alloc
  import opened HeapSafety

  class MallocState {
    const c: Layout

    // bin headers and maps
    var smallmap: binmap
    var treemap: binmap
    const treebins: array<int>

    // designated victim and top
    var dv: int
    var dvsize: nat
    var top: int
    var topsize: nat

    // memory: one map per field of struct malloc_chunk and struct malloc_tree_chunk
    var head: Heads
    var prevFoot: map<int, nat>
    var fd: Field
    var bk: Field
    var child0: Field
    var child1: Field
    var parent: Field
    var index: Field

    // what the fields represent
    ghost var small: seq<seq<int>>
    ghost var trees: seq<Trie>
    ghost var binned: set<int>
    ghost var chunks: set<int>

    /** A heap over a fresh segment: init_bins and init_top. The last word written is the size of the
        fake chunk that follows top. */
    constructor (layout: Layout)
      requires layout.Valid() && layout.base < layout.end && layout.end % 8 == 0
      ensures Valid() && c == layout && fresh(treebins)
      ensures Live(K({})) == map[] && binned == {} && dvsize == 0 && top == c.base && topsize == c.end - c.base
    {
      c := layout;
      smallmap, treemap, dv, dvsize := 0, 0, 0, 0;
      treebins := new int[NTREEBINS](_ => 0);
      top, topsize := layout.base, layout.end - layout.base;
      head := map[layout.base := Head(layout.end - layout.base, true, false)][layout.end := Head(TOP_FOOT_SIZE,
          false, false)];
      prevFoot, fd, bk, child0, child1, parent, index := map[], map[], map[], map[], map[], map[], map[];
      small, trees := seq(NSMALLBINS, _ => []), seq(NTREEBINS, _ => Nil);
      binned, chunks := {}, {};
      new;
      for i := 0 to NSMALLBINS
        modifies `fd, `bk
      {
        var b := c.SmallBinAt(i);
        fd := fd[b := b];
        bk := bk[b := b];
      }
      EmptyBins(c, head, State());
      EmptyCore(c, K({}));
    }

    ghost function Mem(): Links
      reads `fd, `bk, `child0, `child1, `parent, `index
    {
      Links(fd, bk, child0, child1, parent, index)
    }

    ghost function State(): BinState
      reads `smallmap, `treemap, treebins, `fd, `bk, `child0, `child1, `parent, `index, `small, `trees, `binned
    {
      BinState(smallmap, treemap, treebins[..], Mem(), small, trees, binned)
    }

    ghost predicate Valid0()
      reads this, treebins
    {
      && treebins.Length == NTREEBINS && |small| == NSMALLBINS && |trees| == NTREEBINS
      && BinsOk(c, head, State())
    }

    /** A chunk that is about to be binned. */
    ghost predicate Unbinned(x: int, s: nat)
      reads this
    {
      && c.InSegment(x) && x !in binned && x in head && head[x].size == s
      && s < SIZE_T_RANGE && s % 8 == 0
    }

    // ---- small bins ----

    method InsertSmallChunk(p: int, s: nat)
      requires Valid0() && Unbinned(p, s) && IsSmall(s)
      modifies `smallmap, `fd, `bk, `small, `binned
      ensures Valid0() && binned == old(binned) + {p}
    {
      hide BinsOk, Log2, Pow2, Mark, Bit;
      var i := s / 8;
      var b := c.SmallBinAt(i);
      var f := b;
      ghost var st := State();
      SmallFront(c, head, st, i, p);
      SmallInsertedOk(c, head, st, i, p);
      if !Bit(smallmap, i) {
        smallmap := Mark(smallmap, i);
      } else {
        f := fd[b];
      }
      fd := fd[b := p];
      bk := bk[f := p];
      fd := fd[p := f];
      bk := bk[p := b];
      small := small[i := [p] + small[i]];
      binned := binned + {p};
      assert State() == SmallInserted(c, st, i, p, f);
    }

    method UnlinkSmallChunk(p: int, s: nat)
      requires Valid0() && p in binned && p in head && head[p].size == s && IsSmall(s)
      modifies `smallmap, `fd, `bk, `small, `binned
      ensures Valid0() && binned == old(binned) - {p}
    {
      hide BinsOk, Log2, Pow2, Clear, Without, IndexOf;
      ghost var st := State();
      SmallBinnedWhere(c, head, st, p);
      SmallNeighbours(c, head, st, s / 8, p);
      SmallRemovedOk(c, head, st, s / 8, p);
      var f, b, i := fd[p], bk[p], s / 8;
      if b == f {
        smallmap := Clear(smallmap, i);
      } else {
        bk := bk[f := b];
        fd := fd[b := f];
      }
      small := SmallRemoved(c, st, i, p).small;
      binned := binned - {p};
      assert State() == SmallRemoved(c, st, i, p);
    }

    method UnlinkFirstSmallChunk(b: int, p: int, i: nat)
      requires Valid0() && i < NSMALLBINS && b == c.SmallBinAt(i) && small[i] != [] && p == small[i][0]
      modifies `smallmap, `fd, `bk, `small, `binned
      ensures Valid0() && binned == old(binned) - {p}
    {
      hide BinsOk, Log2, Pow2, Clear, Without, IndexOf;
      ghost var st := State();
      SmallNeighbours(c, head, st, i, p);
      SmallRemovedOk(c, head, st, i, p);
      var f := fd[p];
      if b == f {
        smallmap := Clear(smallmap, i);
      } else {
        bk := bk[f := b];
        fd := fd[b := f];
      }
      small := SmallRemoved(c, st, i, p).small;
      binned := binned - {p};
      assert State() == SmallRemoved(c, st, i, p);
    }

    // ---- tree bins ----

    /** insert_large_chunk. The search for the insertion point takes at most as many steps as the trie is high,
        which is two less than the number of bits that distinguish the bin's sizes. */
    method InsertLargeChunk(x: int, s: nat) returns (ghost steps: nat)
      requires Valid0() && Unbinned(x, s) && IsLarge(s)
      modifies treebins, `treemap, `fd, `bk, `child0, `child1, `parent, `index, `trees, `binned
      ensures Valid0() && binned == old(binned) + {x}
      ensures TreeIndex(s) < |old(trees)| && steps <= Height(old(trees[TreeIndex(s)])) <= BinBits(TreeIndex(s)) - 2
    {
      hide Log2, Pow2, BinsOk, TreeBinOk, Apart, Addrs, Height, Insert, Mark, Root, TreeIndex, MinSizeForTreeIndex,
        BinLo, BinBits;
      TreeIndexInRange(s);
      ghost var st, t := State(), trees[TreeIndex(s)];
      TreeBinFacts(c, head, st, TreeIndex(s));
      BinHeight(c, head, st, TreeIndex(s));
      steps := LinkLargeChunk(x, s, TreeIndex(s), t, st);
      trees := TreeInserted(st, TreeIndex(s), x, s, Mem()).trees;
      binned := binned + {x};
    }

    /** The writes of insert_large_chunk, on the bin that holds trie t. */
    method LinkLargeChunk(x: int, s: nat, i: nat, ghost t: Trie, ghost st: BinState) returns (ghost steps: nat)
      requires st == State() && BinsOk(c, head, st) && Unbinned(x, s) && IsLarge(s)
      requires i == TreeIndex(s) < NTREEBINS == |trees| && treebins.Length == NTREEBINS && t == trees[i]
      requires TreeBinOk(c, head, Mem(), treemap, i, treebins[i], t) && Apart(t) && x !in Addrs(t)
      modifies treebins, `treemap, `fd, `bk, `child0, `child1, `parent, `index
      ensures BinsOk(c, head, TreeInserted(st, i, x, s, Mem()))
      ensures State() == TreeInserted(st, i, x, s, Mem()).(trees := st.trees, binned := st.binned)
      ensures steps <= Height(t)
    {
      hide Log2, Pow2, Bit, BinsOk, TreeBinOk, TrieOk, Linked, Apart, Addrs, Insert, SameAt, Mark, Root,
        MinSizeForTreeIndex, BinLo, BinBits;
      TreeBinMarked(c, head, Mem(), treemap, i, treebins[i], t);
      steps := 0;
      index := index[x := i];
      child0 := child0[x := 0];
      child1 := child1[x := 0];
      if !Bit(treemap, i) {
        treemap := Mark(treemap, i);
        treebins[i] := x;
        parent := parent[x := c.TreeBinAt(i)];
        fd := fd[x := x];
        bk := bk[x := x];
        FirstInTree(c, head, st, i, x, s);
        assert Mem() == AddLeaf(st.m, x, c.TreeBinAt(i), i);
      } else {
        steps := PlaceInTree(x, s, i, st.m, t);
        TreeInsertedOk(c, head, st, i, x, s, Mem());
      }
    }

    /** The search of insert_large_chunk for the node of size s or the empty slot where it belongs. */
    method FindPlace(s: nat, i: nat, ghost m: Links, ghost t: Trie, ghost x: int)
      returns (cur: int, right: bool, ghost path: seq<bool>)
      requires IsLarge(s) && MIN_LARGE_SIZE <= s && i == TreeIndex(s) < NTREEBINS && treebins.Length == NTREEBINS
      requires Mem() == m.(index := m.index[x := i], child0 := m.child0[x := 0], child1 := m.child1[x := 0])
      requires t.Node? && TrieOk(head, t, BinLo(i), BinBits(i)) && x !in Addrs(t)
      requires Linked(m, t, c.TreeBinAt(i), i) && treebins[i] == Root(t)
      ensures PlaceFound(t, BinLo(i), BinBits(i), path, x, s, right)
      ensures cur == Root(Sub(t, path)) && cur in head && (head[cur].size == s <==> Sub(t, path).sz == s)
      ensures |path| < Height(t)
    {
      ghost var lo, bits := BinLo(i), BinBits(i);
      cur := treebins[i];
      right := false;
      var k := Shl32(s, LeftShiftForTreeIndex(i));
      path := [];
      SearchStart(t, x, s, k);
      while true
        invariant SearchAt(t, lo, bits, path, x, s, k)
        invariant IsPath(t, path) && Sub(t, path).Node? && cur == Root(Sub(t, path))
        decreases bits - |path|
      {
        hide Log2, Pow2, SearchAt, TrieOk, Linked, Addrs, IsPath, Sub, PlaceFound;
        SearchNode(head, m, t, lo, bits, c.TreeBinAt(i), i, path);
        if head[cur].size == s {
          SearchHit(head, t, lo, bits, path, x, s, k);
          return;
        }
        SearchStep(head, t, lo, bits, path, x, s, k);
        right := k / 0x8000_0000 == 1;
        k := Shl32(k, 1);
        var next := if right then child1[cur] else child0[cur];
        if next == 0 { return; }
        cur := next;
        path := path + [right];
      }
    }

    /** The pointer writes of insert_large_chunk, on a bin that is not empty. */
    method PlaceInTree(x: int, s: nat, i: nat, ghost m: Links, ghost t: Trie) returns (ghost steps: nat)
      requires IsLarge(s) && MIN_LARGE_SIZE <= s && i == TreeIndex(s) < NTREEBINS && treebins.Length == NTREEBINS
      requires Mem() == m.(index := m.index[x := i], child0 := m.child0[x := 0], child1 := m.child1[x := 0])
      requires t.Node? && TreeBinOk(c, head, m, treemap, i, treebins[i], t) && Apart(t) && x !in Addrs(t)
      modifies `fd, `bk, `child0, `child1, `parent
      ensures Linked(Mem(), Insert(t, x, s, BinLo(i), BinBits(i)), c.TreeBinAt(i), i)
      ensures Root(Insert(t, x, s, BinLo(i), BinBits(i))) == Root(t)
      ensures forall y :: y !in Addrs(t) && y != x ==> SameAt(m, Mem(), y)
      ensures steps <= Height(t)
    {
      hide Log2, Pow2, TrieOk, Linked, Apart, Addrs, Insert, IsPath, Sub, Put, SameAt, BinLo, BinBits;
      var cur, right;
      ghost var path;
      cur, right, path := FindPlace(s, i, m, t, x);
      steps := |path| + 1;
      if head[cur].size != s {
        InsertedAsLeaf(head, m, t, BinLo(i), BinBits(i), c.TreeBinAt(i), i, path, x, s, right);
        if right { child1 := child1[cur := x]; } else { child0 := child0[cur := x]; }
        parent := parent[x := cur];
        fd := fd[x := x];
        bk := bk[x := x];
        assert Mem() == SetSlot(AddLeaf(m, x, cur, i), cur, right, x);
      } else {
        InsertedInRing(head, m, t, BinLo(i), BinBits(i), c.TreeBinAt(i), i, path, x, s, right);
        var f := fd[cur];
        fd := fd[cur := x];
        bk := bk[f := x];
        fd := fd[x := f];
        bk := bk[x := cur];
        parent := parent[x := 0];
        assert Mem() == JoinRing(m, cur, x, i);
      }
    }
  
    /** The loop of unlink_large_chunk that finds the leaf below x, and the slot that holds it. */
    method FindLeaf(x: int, ghost u: Trie, ghost q: int, ghost i: int)
      returns (r: int, owner: int, right: bool, ghost lp: seq<bool>)
      requires u.Node? && Linked(Mem(), u, q, i) && 0 !in Addrs(u) && x == Root(u)
      ensures LeafSearch(u, lp) && Sub(u, lp).l.Nil? && Sub(u, lp).r.Nil?
      ensures r == 0 <==> lp == []
      ensures lp != [] ==> r == Root(Sub(u, lp)) && owner == SlotOwner(u, lp) && right == lp[|lp| - 1]
    {
      hide Linked, Addrs, LeafSearch, Sub, IsPath, SlotOwner, LeafOf, WithoutLeaf, Log2, Pow2;
      lp := [];
      LeafSearchStart(u);
      LeafSearchNode(Mem(), u, q, i, lp);
      owner, right, r := x, true, child1[x];
      if r == 0 { right, r := false, child0[x]; }
      if r == 0 { return; }
      LeafSearchStep(u, lp, right);
      lp := lp + [right];
      LeafSearchNode(Mem(), u, q, i, lp);
      while child1[r] != 0 || child0[r] != 0
        invariant LeafSearch(u, lp) && lp != [] && IsPath(u, lp) && Sub(u, lp).Node?
        invariant r == Root(Sub(u, lp)) && r != 0
        invariant owner == SlotOwner(u, lp) && right == lp[|lp| - 1]
        invariant r in child0 && r in child1
        invariant child0[r] == Root(Sub(u, lp).l) && child1[r] == Root(Sub(u, lp).r)
        invariant child0[r] == 0 <==> Sub(u, lp).l.Nil?
        invariant child1[r] == 0 <==> Sub(u, lp).r.Nil?
        decreases Sub(u, lp)
      {
        right := child1[r] != 0;
        LeafSearchStep(u, lp, right);
        owner, r := r, if right then child1[r] else child0[r];
        lp := lp + [right];
        LeafSearchNode(Mem(), u, q, i, lp);
      }
    }
  
    /** The end of unlink_large_chunk: r, if any, takes the place of the tree node x below xp. */
    method ReplaceNode(x: int, xp: int, r: int, i: nat, ghost t: Trie, ghost path: seq<bool>)
      requires i < NTREEBINS == treebins.Length && IsPath(t, path) && xp == ParentOf(t, path, c.TreeBinAt(i))
      requires treebins[i] == x <==> path == []
      requires path != [] ==> xp in child0 && (child0[xp] == x <==> !path[|path| - 1])
      requires r != 0 ==> var m2 := Redirect(Mem(), t, path, r); x in m2.child0 && x in m2.child1
      modifies treebins, `treemap, `child0, `child1, `parent
      ensures var m2 := Redirect(old(Mem()), t, path, r);
        Mem() == if r == 0 then m2 else TakeOver(m2, x, xp, r)
      ensures treebins[..] == if path == [] then old(treebins[..])[i := r] else old(treebins[..])
      ensures treemap == if path == [] && r == 0 then Clear(old(treemap), i) else old(treemap)
    {
      hide Clear;
      if x == treebins[i] {
        treebins[i] := r;
        if r == 0 { treemap := Clear(treemap, i); }
      } else if child0[xp] == x {
        child0 := child0[xp := r];
      } else {
        child1 := child1[xp := r];
      }
      if r != 0 {
        parent := parent[r := xp];
        var c0 := child0[x];
        var c1 := child1[x];
        if c0 != 0 {
          child0 := child0[r := c0];
          parent := parent[c0 := r];
        }
        if c1 != 0 {
          child1 := child1[r := c1];
          parent := parent[c1 := r];
        }
      }
    }

    method UnlinkLargeChunk(x: int)
      requires Valid0() && x in binned && x in head && IsLarge(head[x].size)
      modifies treebins, `treemap, `fd, `bk, `child0, `child1, `parent, `trees, `binned
      ensures Valid0() && binned == old(binned) - {x}
    {
      hide BinsOk, SitsAt, Remove, Put, Bit, Clear, Addrs, Linked, Spliced, TakeOver, Log2, Pow2, TreeIndex;
      ghost var st, i := State(), TreeIndex(head[x].size);
      SeatOf(c, head, st, x);
      UnlinkFrom(x, index[x], st, PathTo(trees[i], x));
      trees := TreeRemoved(st, i, x, Mem()).trees;
      binned := binned - {x};
    }

    /** unlink_large_chunk, for a chunk of bin i that sits at a path of the bin's trie. */
    method UnlinkFrom(x: int, i: nat, ghost st: BinState, ghost path: seq<bool>)
      requires st == State() && BinsOk(c, head, st) && SitsAt(c, st, head, i, x, path) && treebins.Length == NTREEBINS
      requires c.Valid()
      modifies treebins, `treemap, `fd, `bk, `child0, `child1, `parent
      ensures BinsOk(c, head, TreeRemoved(st, i, x, Mem()))
      ensures State() == TreeRemoved(st, i, x, Mem()).(trees := st.trees, binned := st.binned)
    {
      hide BinsOk, Put, Bit, Clear, Addrs, Linked, Spliced, TakeOver, Log2, Pow2, TreeBinOk, Apart, RemoveHere;
      SeatKind(c, head, st, i, x, path);
      var xp := parent[x];
      var r := DetachChunk(x, i, st, path);
      if xp != 0 {
        SeatSlot(c, head, st, i, x, path, Mem());
        ReplaceNode(x, xp, r, i, st.trees[i], path);
      }
    }

    /** The first half of unlink_large_chunk: take x off its ring, or detach the leaf that will replace it. */
    method DetachChunk(x: int, i: nat, ghost st: BinState, ghost path: seq<bool>) returns (r: int)
      requires st == State() && BinsOk(c, head, st) && SitsAt(c, st, head, i, x, path) && c.Valid()
      modifies `fd, `bk, `child0, `child1
      ensures Detached(c, head, st, i, x, path, Mem(), r)
    {
      hide BinsOk, Put, Bit, Clear, Addrs, Spliced, TakeOver, Log2, Pow2, Apart, RemoveHere, Detached;
      ghost var t, u, p := st.trees[i], Sub(st.trees[i], path), c.TreeBinAt(i);
      SeatKind(c, head, st, i, x, path);
      if bk[x] != x {
        DetachedFromRing(c, head, st, i, x, path);
        var f := fd[x];
        r := bk[x];
        bk := bk[f := r];
        fd := fd[r := f];
      } else {
        SeatNode(c, head, st, i, x, path);
        var owner, right;
        ghost var lp;
        r, owner, right, lp := FindLeaf(x, u, ParentOf(t, path, p), i);
        if r != 0 {
          DetachedByLeaf(c, head, st, i, x, path, lp);
          if right { child1 := child1[owner := 0]; } else { child0 := child0[owner := 0]; }
        } else {
          LeafSearchNowhere(u, lp);
          DetachedAsLeaf(c, head, st, i, x, path);
        }
      }
    }

    // ---- best fit in the tree bins ----

    /** The first loop of tmalloc_large: down the trie of bin i towards size nb. */
    method SearchBin(nb: nat, i: nat, ghost whole: Trie) returns (v: int, rsize: nat, t: int, ghost w: View)
      requires IsLarge(nb) && MIN_LARGE_SIZE <= nb && i == TreeIndex(nb) < NTREEBINS == treebins.Length
      requires whole.Node? && TreeBinOk(c, head, Mem(), treemap, i, treebins[i], whole)
      requires forall x :: x in Addrs(whole) ==> x in head && IsLarge(head[x].size)
      ensures Best(head, whole, nb, v, rsize)
      ensures Seen(head, Mem(), i, whole, w) && t == Root(w.t)
      ensures BestSoFar(whole, nb, rsize, Nil, w.t) && (AllAtLeast(w.t, nb) || rsize == 0)
    {
      hide TrieOk, Linked, Addrs, Pow2, Log2, Shl32, BestSoFar, AllAtLeast, Seen, TreeBinOk, BinLo, BinBits, Root;
      SearchBinStart(c, head, Mem(), treemap, i, treebins[i], whole, nb);
      v, rsize, t := 0, Sub32(0, nb), treebins[i];
      var sizebits := Shl32(nb, LeftShiftForTreeIndex(i));
      var rst := 0;
      w := View(whole, BinLo(i), BinBits(i), c.TreeBinAt(i));
      ghost var aside := View(Nil, 0, 0, 0);
      while true
        invariant Best(head, whole, nb, v, rsize) && 0 < rsize < SIZE_T_RANGE
        invariant Seen(head, Mem(), i, whole, w) && w.t.Node? && t == Root(w.t)
        invariant Seen(head, Mem(), i, whole, aside) && rst == Root(aside.t)
        invariant KeyAt(w, nb, sizebits) && AllAtLeast(aside.t, w.lo + Pow2(w.b))
        invariant BestSoFar(whole, nb, rsize, w.t, aside.t)
        decreases w.b
      {
        ViewNode(head, Mem(), i, whole, w);
        var trem := Sub32(head[t].size, nb);
        BestShrinks(whole, nb, rsize, if trem < rsize then trem else rsize, w.t, aside.t);
        if trem < rsize {
          v, rsize := t, trem;
          if rsize == 0 {
            BestExact(whole, nb, w.t);
            return;
          }
        }
        Descend(head, Mem(), i, whole, nb, rsize, w, aside, sizebits);
        var right := sizebits / 0x8000_0000 == 1;
        var rt := child1[t];
        t := if right then child1[t] else child0[t];
        if rt != 0 && rt != t {
          rst := rt;
          aside := View(w.t.r, HalfLo(w.lo, w.b, true), w.b - 1, Root(w.t));
        }
        w := View(Child(w.t, right), HalfLo(w.lo, w.b, right), w.b - 1, Root(w.t));
        if t == 0 {
          SearchBinEnd(whole, nb, rsize, w, aside);
          t := rst;
          w := aside;
          return;
        }
        sizebits := Shl32(sizebits, 1);
      }
    }

    /** The loop that looks for the least size of a subtree along its leftmost children. */
    method ScanLeftmost(t0: int, v0: int, rsize0: nat, nb: nat, i: nat, ghost whole: Trie, ghost w0: View)
      returns (v: int, rsize: nat)
      requires nb < SIZE_T_RANGE && Best(head, whole, nb, v0, rsize0)
      requires forall x :: x in Addrs(whole) ==> x in head && IsLarge(head[x].size)
      requires Seen(head, Mem(), i, whole, w0) && t0 == Root(w0.t)
      requires BestSoFar(whole, nb, rsize0, Nil, w0.t) && (AllAtLeast(w0.t, nb) || rsize0 == 0)
      ensures Best(head, whole, nb, v, rsize) && BestSoFar(whole, nb, rsize, Nil, Nil)
      ensures v == 0 ==> v0 == 0 && t0 == 0
    {
      hide TrieOk, Linked, Addrs, Pow2, Log2, BestSoFar, AllAtLeast, Seen, Root, LeftmostChild;
      var t := t0;
      v, rsize := v0, rsize0;
      ghost var w := w0;
      ViewNode(head, Mem(), i, whole, w);
      while t != 0
        invariant Best(head, whole, nb, v, rsize)
        invariant Seen(head, Mem(), i, whole, w) && t == Root(w.t) && (t != 0 <==> w.t.Node?)
        invariant BestSoFar(whole, nb, rsize, Nil, w.t) && (AllAtLeast(w.t, nb) || rsize == 0)
        invariant v == 0 ==> v0 == 0 && t == t0
        decreases w.t
      {
        ViewNode(head, Mem(), i, whole, w);
        NodeAtLeast(w.t, nb);
        var trem := Sub32(head[t].size, nb);
        BestShrinks(whole, nb, rsize, if trem < rsize then trem else rsize, Nil, w.t);
        if trem < rsize { rsize, v := trem, t; }
        LeftmostView(head, Mem(), i, whole, nb, rsize, w);
        t := if child0[t] != 0 then child0[t] else child1[t];
        w := NextView(w);
      }
    }

    /** The choice of tmalloc_large: the smallest binned chunk of at least nb bytes, if any. */
    method FindBestFit(nb: nat) returns (v: int, rsize: nat)
      requires Valid0() && IsLarge(nb) && MIN_LARGE_SIZE <= nb
      ensures BestFit(head, binned, nb, v, rsize)
    {
      hide BinsOk, TreeBinOk, TrieOk, Linked, Addrs, Pow2, Log2, BestSoFar, AllAtLeast, Seen, Root, BestFit, OnlyFrom,
        TreeIndex, Bit, BinLo, BinBits;
      TreeIndexInRange(nb);
      ghost var st := State();
      var i := TreeIndex(nb);
      FromIndex(c, head, st, nb);
      BinKnown(c, head, st, i);
      var t := treebins[i];
      v, rsize := 0, Sub32(0, nb);
      ghost var w := View(trees[i], BinLo(i), BinBits(i), c.TreeBinAt(i));
      if t != 0 {
        v, rsize, t, w := SearchBin(nb, i, trees[i]);
      } else {
        NoSizes(nb, rsize);
      }
      if t == 0 && v == 0 {
        ViewNode(head, Mem(), i, trees[i], w);
        NoneInBin(c, head, st, i, nb, rsize);
        FromNext(c, head, st, nb, i);
        var j := NextMarked(treemap, i);
        if j == NTREEBINS {
          NoBestFit(head, binned, nb, rsize);
          return;
        }
        i := j;
        BinKnown(c, head, st, i);
        t := treebins[i];
        w := View(trees[i], BinLo(i), BinBits(i), c.TreeBinAt(i));
        BestAtStart(trees[i], nb, rsize);
        LargerBin(c, head, st, nb, i);
      }
      v, rsize := ScanLeftmost(t, v, rsize, nb, i, trees[i], w);
      NothingLeft(head, trees[i], BinLo(i), BinBits(i), nb, rsize) by { BinTrie(c, head, st, i); }
      FitFound(c, head, st, nb, i, v, rsize);
    }

    /** The choice of tmalloc_small: the smallest chunk of the first marked tree bin. */
    method FindSmallest(nb: nat) returns (v: int, rsize: nat)
      requires Valid0() && treemap != 0 && nb < MIN_LARGE_SIZE
      ensures v in binned && v in head && head[v].size == nb + rsize && IsLarge(head[v].size)
      ensures forall x :: x in binned && x in head && !IsSmall(head[x].size) ==> head[x].size >= head[v].size
    {
      hide BinsOk, TreeBinOk, TrieOk, Linked, Addrs, Pow2, Log2, BestSoFar, AllAtLeast, Seen, Root, TreeIndex, Bit,
        BinLo, BinBits,
        LeftmostChild;
      ghost var st := State();
      var i := FirstMarked(treemap);
      ghost var whole := trees[i];
      BinKnown(c, head, st, i);
      var t := treebins[i];
      v := t;
      ghost var w := View(whole, BinLo(i), BinBits(i), c.TreeBinAt(i));
      ViewNode(head, Mem(), i, whole, w);
      rsize := Sub32(head[t].size, nb);
      RootIsBest(c, head, st, i, nb, rsize);
      LeftmostView(head, Mem(), i, whole, nb, rsize, w);
      w := NextView(w);
      t := if child0[t] != 0 then child0[t] else child1[t];
      v, rsize := ScanLeftmost(t, v, rsize, nb, i, whole, w);
      NothingLeft(head, whole, BinLo(i), BinBits(i), nb, rsize) by { BinTrie(c, head, st, i); }
      LeastOfAll(c, head, st, i, nb, v, rsize);
    }

    // ---- the whole heap ----

    ghost function K(loose: set<int>): Core
      reads this
    {
      Core(head, prevFoot, chunks, binned, loose, dv, dvsize, top, topsize)
    }

    /** The heap invariant while the running operation holds some free chunks in hand. */
    ghost predicate Holding(loose: set<int>)
      reads this, treebins
    {
      HeapOk(c, State(), K(loose))
    }

    ghost predicate Valid()
      reads this, treebins
    {
      Holding({})
    }

    lemma HoldingBins(loose: set<int>)
      requires Holding(loose)
      ensures Valid0()
    {
      hide CoreOk, SmallBinOk, TreeBinOk, BinnedOk;
    }

    /** insert_chunk. */
    method InsertChunk(p: int, s: nat, ghost loose: set<int>)
      requires Holding(loose) && p in loose && p in head && head[p].size == s
      modifies treebins, `smallmap, `treemap, `fd, `bk, `child0, `child1, `parent, `index, `small, `trees, `binned
      ensures Holding(loose - {p}) && binned == old(binned) + {p}
    {
      hide CoreOk, BinsOk;
      ghost var k := K(loose);
      HoldingBins(loose);
      LooseInHead(c, k);
      FreeKinds(c, k, p);
      if IsSmall(s) {
        InsertSmallChunk(p, s);
      } else {
        ghost var steps := InsertLargeChunk(p, s);
      }
      Moves(c, k, p);
      assert K(loose - {p}) == Bin(k, p);
    }

    /** unlink_chunk. */
    method UnlinkChunk(p: int, s: nat, ghost loose: set<int>)
      requires Holding(loose) && p in binned && p in head && head[p].size == s
      modifies treebins, `smallmap, `treemap, `fd, `bk, `child0, `child1, `parent, `small, `trees, `binned
      ensures Holding(loose + {p}) && binned == old(binned) - {p}
    {
      hide CoreOk, BinsOk;
      ghost var k := K(loose);
      HoldingBins(loose);
      LooseInHead(c, k);
      FreeKinds(c, k, p);
      if IsSmall(s) {
        UnlinkSmallChunk(p, s);
      } else {
        UnlinkLargeChunk(p);
      }
      Moves(c, k, p);
      assert K(loose + {p}) == Unbin(k, p);
    }

    /** replace_dv: chunk p in hand becomes the designated victim, the old one goes to a small bin. */
    method ReplaceDv(p: int, s: nat, ghost loose: set<int>)
      requires Holding(loose) && p in loose && p in head && head[p].size == s && IsSmall(dvsize)
      modifies `smallmap, `fd, `bk, `small, `binned, `dv, `dvsize
      ensures Holding(loose - {p}) && dv == p && dvsize == s
      ensures binned == old(binned) + (if old(dvsize) == 0 then {} else {old(dv)})
    {
      hide CoreOk, BinsOk;
      ghost var k := K(loose);
      HoldingBins(loose);
      LooseInHead(c, k);
      DropDvOk(c, State(), k);
      var dvs := dvsize;
      if dvs != 0 {
        var v := dv;
        FreeKinds(c, k, v);
        InsertSmallChunk(v, dvs);
        Moves(c, DropDv(k), v);
      }
      ghost var k1 := if dvs == 0 then DropDv(k) else Bin(DropDv(k), k.dv);
      AdoptDvOk(c, State(), k1, p);
      dvsize := s;
      dv := p;
      assert K(loose - {p}) == AdoptDv(k1, p);
    }

    // ---- release ----

    /** What dispose_chunk holds after looking back: the free chunk p before p0, if any, is in hand.
        If it is the designated victim, the fields dv and dvsize still describe it. */
    ghost predicate InHand(k: Core, p0: int, p: int, loose: set<int>)
      reads this, treebins
    {
      && Holding(loose) && HeapOk(c, State(), k) && CanJoinBack(k, p0) && p == Start(k, p0) && p != 0
      && if p == dv then loose == {} && dvsize != 0 && k == DropDv(K({})) && !InUse(k, Next(k.head, p0))
         else k == K(loose) && loose == if p == p0 then {} else {p}
    }

    /** dispose_chunk, whose steps dlfree repeats: chunk p0 becomes free and joins the free chunks around it. */
    method DisposeChunk(p0: int, psize0: nat)
      requires Valid() && InUse(K({}), p0) && head[p0].size == psize0
      modifies this, treebins
      ensures Valid() && Live(K({})) == old(Live(K({}))) - {p0}
      ensures Freed(old(K({})), K({}), p0)
    {
      hide State, Mem, CoreOk, BinsOk, HeapOk, Live, StartsAt, FreedFrom;
      ghost var k0, k := K({}), K({});
      HeapStart(k0, p0);
      ghost var loose: set<int> := {};
      var p, psize := p0, psize0;
      var next := p + psize;
      HeapNext(c, State(), k, p0);
      if !head[p].pinuse {
        HeapPrev(c, State(), k, p0);
        var prevsize := prevFoot[p];
        psize := psize + prevsize;
        p := p - prevsize;
        if p != dv {
          UnlinkChunk(p, prevsize, {});
          loose := {p};
          assert {} + {p} == {p};
          k := K({p});
          LiveFrame(k0, k);
        } else {
          DropDvOk(c, State(), k);
          k := DropDv(k);
          HeapFree(c, State(), k0, p);
          if head[next].pinuse && head[next].cinuse {
            DisposeBehindDv(p, psize, next, p0);
            return;
          }
        }
      } else {
        DvIsNot(c, State(), k, p0);
      }
      ghost var a := K(loose);
      DisposeForward(p, psize, next, p0, k, loose);
      FreedUnbinned(k0, a, K({}), p0, p);
    }

    /** Chunk p0, in use between the designated victim p and chunk next in use. */
    method DisposeBehindDv(p: int, psize: nat, next: int, ghost p0: int)
      requires Valid() && InUse(K({}), p0) && !head[p0].pinuse && p0 in prevFoot && p == p0 - prevFoot[p0] == dv
      requires dvsize != 0 && next == Next(head, p0) && psize == next - p && InUse(K({}), next) && p !in binned
      requires IsFree(K({}), p) && p != p0
      modifies `dvsize, `head, `prevFoot, `chunks
      ensures Valid() && Live(K({})) == old(Live(K({}))) - {p0}
      ensures FreedFrom(old(K({})), K({}), p0, p)
    {
      hide State, Mem, CoreOk, BinsOk, HeapOk, Live, StartsAt, FreedFrom;
      ghost var k0, k := K({}), DropDv(K({}));
      HeapNext(c, State(), k0, p0);
      DropDvOk(c, State(), k0);
      HeapStart(k0, next);
      ReleaseAloneHeap(c, State(), k, p0, psize);
      dvsize := psize;
      head := SetPinuse(head, next, false);
      head := head[p := Head(psize, true, false)];
      prevFoot := prevFoot[p + psize := psize];
      chunks := chunks - {p0};
      k := k.(head := head, foot := prevFoot, chunks := chunks, loose := k.loose + {p});
      AdoptDvOk(c, State(), k, p);
      assert K({}) == AdoptDv(k, p);
      FreedAlone(k0, K({}), p0, p);
    }

    lemma HeapStart(k: Core, p: int)
      requires HeapOk(c, State(), k) && InUse(k, p)
      ensures k.head[p].pinuse ==> StartsAt(k, p, p) && p !in k.binned
      ensures !k.head[p].pinuse ==> p in k.foot && k.foot[p] != 0 && StartsAt(k, p, p - k.foot[p])
      ensures p !in k.binned
    {
      hide BinsOk, Tiled, StartsAt;
      StartOf(c, k, p);
      UnlooseUse(c, k, p);
    }

    /** The designated victim grows by the chunk in use behind it. */
    lemma FreedAlone(k0: Core, k: Core, p0: int, p: int)
      requires p0 in k0.head && p in k.head && p == k0.dv && Next(k0.head, p0) != k0.top
      requires !IsFree(k0, Next(k0.head, p0)) && p !in k0.binned && Next(k0.head, p0) !in k0.binned
      requires k.top == k0.top && k.topsize == k0.topsize && k.chunks == k0.chunks - {p0} && p in k0.chunks && p != p0
      requires k.dv == p && k.dvsize == k.head[p].size && k.binned == k0.binned && !k.head[p].cinuse
      requires p + k.head[p].size == Next(k0.head, p0)
      ensures FreedFrom(k0, k, p0, p)
    {
    }

    /** The second half of dispose_chunk: joining the chunk after p0. */
    method DisposeForward(p: int, psize: nat, next: int, ghost p0: int, ghost k: Core, ghost loose: set<int>)
      requires InHand(k, p0, p, loose) && next == Next(k.head, p0) && psize == next - p
      modifies this, treebins
      ensures Valid() && Live(K({})) == Live(k) - {p0}
      ensures FreedFrom(old(K(loose)), K({}), p0, p)
    {
      hide State, Mem, CoreOk, BinsOk, HeapOk, Live, ChunkOk, FreedFrom;
      HeapNext(c, State(), k, p0);
      if !head[next].cinuse {
        if next == top {
          DisposeIntoTop(p, psize, p0, k, loose);
        } else if next == dv {
          DisposeIntoDv(p, psize, next, p0, k, loose);
        } else {
          DisposeJoined(p, psize, next, p0, k, loose);
        }
      } else {
        DisposeBeside(p, psize, next, p0, k, loose);
      }
    }

    method DisposeBeside(p: int, psize: nat, next: int, ghost p0: int, ghost k: Core, ghost loose: set<int>)
      requires InHand(k, p0, p, loose) && next == Next(k.head, p0) && psize == next - p && InUse(k, next)
      modifies this, treebins
      ensures Valid() && Live(K({})) == Live(k) - {p0}
      ensures FreedFrom(old(K(loose)), K({}), p0, p)
    {
      hide State, Mem, CoreOk, BinsOk, HeapOk, Live, ChunkOk, FreedFrom, StartsAt, JoinBack, Start, SetPinuse;
      ghost var a := K(loose);
      HeapNext(c, State(), k, p0);
      DvIsNot(c, State(), k, next);
      HeapStart(k, next);
      StartUnbinned(k, p0, p, loose);
      FreeBeside(p, psize, next, p0, k, loose);
      ghost var k1 := K({p});
      InsertChunk(p, psize, {p});
      assert {p} - {p} == {};
      LiveFrame(k1, K({}));
      FreedBeside(a, K({}), p0, p);
    }

    /** set_free_with_pinuse: chunk p is free and in hand. */
    method FreeBeside(p: int, psize: nat, next: int, ghost p0: int, ghost k: Core, ghost loose: set<int>)
      requires InHand(k, p0, p, loose) && next == Next(k.head, p0) && psize == next - p && InUse(k, next)
      requires k == K(loose) && (p == p0 || p in chunks)
      modifies `head, `prevFoot, `chunks
      ensures Holding({p}) && Live(K({p})) == Live(k) - {p0} && p in head && head[p] == Head(psize, true, false)
      ensures chunks == if p == p0 then old(chunks) else old(chunks) - {p0}
    {
      hide State, Mem, CoreOk, BinsOk, HeapOk, Live, ChunkOk, JoinBack;
      HeapNext(c, State(), k, p0);
      ReleaseAloneHeap(c, State(), k, p0, psize);
      head := SetPinuse(head, next, false);
      head := head[p := Head(psize, true, false)];
      prevFoot := prevFoot[p + psize := psize];
      chunks := if p == p0 then chunks else chunks - {p0};
      assert K({p}) == k.(head := head, foot := prevFoot, chunks := chunks, loose := k.loose + {p});
    }

    /** The chunk behind is in use. */
    lemma FreedBeside(k0: Core, k: Core, p0: int, p: int)
      requires InUse(k0, p0) && p in k.head && Next(k0.head, p0) != k0.top && p != k0.dv && Next(k0.head, p0) != k0.dv
      requires InUse(k0, Next(k0.head, p0)) && Next(k0.head, p0) !in k0.binned
      requires k.top == k0.top && k.topsize == k0.topsize && k.dv == k0.dv && k.dvsize == k0.dvsize
      requires k.chunks == (if p == p0 then k0.chunks else k0.chunks - {p0}) && p in k0.chunks
      requires k.binned == k0.binned + {p} && !k.head[p].cinuse && p + k.head[p].size == Next(k0.head, p0)
      ensures FreedFrom(k0, k, p0, p)
    {
    }

    method DisposeIntoTop(p: int, psize: nat, ghost p0: int, ghost k: Core, ghost loose: set<int>)
      requires InHand(k, p0, p, loose) && Next(k.head, p0) == top && psize == top - p
      modifies `topsize, `top, `head, `dv, `dvsize, `chunks
      ensures Valid() && Live(K({})) == Live(k) - {p0}
      ensures FreedFrom(old(K(loose)), K({}), p0, p)
    {
      hide State, Mem, CoreOk, BinsOk, HeapOk, Live, ChunkOk, Start, CanJoinBack, JoinBack, InUse, Next, IsFree,
        FreedFrom;
      ghost var a := K(loose);
      StartUnbinned(k, p0, p, loose);
      ReleaseToTopHeap(c, State(), k, p0);
      var tsize := topsize + psize;
      topsize := tsize;
      top := p;
      head := head[p := Head(tsize, true, false)];
      if p == dv { dv, dvsize := 0, 0; }
      chunks := chunks - {p0} - {p};
      assert K({}) == k.(head := head, chunks := chunks, loose := k.loose - {p}, top := top, topsize := topsize);
      FreedUpwards(a, K({}), p0, p);
    }

    /** What looking back has found is in no bin any more. */
    lemma StartUnbinned(k: Core, p0: int, p: int, loose: set<int>)
      requires InHand(k, p0, p, loose)
      ensures p0 in head && p !in binned && p0 in chunks && (p == p0 || (p in chunks && p in head))
    {
      hide State, BinsOk, Tiled, Live;
      if p == dv { HeapFree(c, State(), K({}), p); }
      UnlooseUse(c, k, p0);
    }

    /** Top is behind. */
    lemma FreedUpwards(k0: Core, k: Core, p0: int, p: int)
      requires p0 in k0.head && Next(k0.head, p0) == k0.top && p !in k0.binned
      requires k.top == p && k.topsize == k0.topsize + (k0.top - p) && k.chunks == k0.chunks - {p0} - {p}
      requires k.binned == k0.binned
      requires if p == k0.dv then k.dv == 0 && k.dvsize == 0 else k.dv == k0.dv && k.dvsize == k0.dvsize
      ensures FreedFrom(k0, k, p0, p)
    {
    }

    method DisposeIntoDv(p: int, psize: nat, next: int, ghost p0: int, ghost k: Core, ghost loose: set<int>)
      requires InHand(k, p0, p, loose) && next == Next(k.head, p0) && psize == next - p && next == dv && IsFree(k, next)
      modifies `prevFoot, `head, `dv, `dvsize, `chunks
      ensures Valid() && Live(K({})) == Live(k) - {p0}
      ensures FreedFrom(old(K(loose)), K({}), p0, p)
    {
      hide State, Mem, CoreOk, BinsOk, HeapOk, Live, ChunkOk, FreedFrom;
      ghost var a := K(loose);
      StartUnbinned(k, p0, p, loose);
      HeapNext(c, State(), k, p0);
      HeapFree(c, State(), k, next);
      DropDvOk(c, State(), k);
      ghost var k1 := DropDv(k);
      var dsize := dvsize + psize;
      ReleaseJoinedHeap(c, State(), k1, p0, dsize);
      dvsize := dsize;
      dv := p;
      head := head[p := Head(dsize, true, false)];
      prevFoot := prevFoot[p + dsize := dsize];
      chunks := if p == p0 then chunks - {next} else chunks - {p0} - {next};
      k1 := k1.(head := head, foot := prevFoot, chunks := chunks, loose := k1.loose - {next} + {p});
      AdoptDvOk(c, State(), k1, p);
      assert K({}) == AdoptDv(k1, p);
      FreedJoined(a, K({}), p0, p);
    }

    /** A free chunk is behind. */
    lemma FreedJoined(k0: Core, k: Core, p0: int, p: int)
      requires p0 in k0.head && Next(k0.head, p0) != k0.top && IsFree(k0, Next(k0.head, p0)) && p in k.head
      requires p !in k0.binned && p != Next(k0.head, p0) && (p == p0 || p in k0.chunks) && p0 in k0.chunks
      requires k.top == k0.top && k.topsize == k0.topsize
      requires k.chunks == if p == p0 then k0.chunks - {Next(k0.head, p0)} else k0.chunks - {p0} - {Next(k0.head, p0)}
      requires !k.head[p].cinuse && p + k.head[p].size == Next(k0.head, Next(k0.head, p0))
      requires if p == k0.dv || Next(k0.head, p0) == k0.dv
        then k.dv == p && k.dvsize == k.head[p].size && k.binned == k0.binned - {Next(k0.head, p0)}
        else k.dv == k0.dv && k.dvsize == k0.dvsize && k.binned == k0.binned - {Next(k0.head, p0)} + {p}
      ensures FreedFrom(k0, k, p0, p)
    {
    }

    method DisposeJoined(p: int, psize0: nat, next: int, ghost p0: int, ghost k: Core, ghost loose: set<int>)
      requires InHand(k, p0, p, loose) && next == Next(k.head, p0) && psize0 == next - p
      requires next != dv && next != top && IsFree(k, next)
      modifies this, treebins
      ensures Valid() && Live(K({})) == Live(k) - {p0}
      ensures FreedFrom(old(K(loose)), K({}), p0, p)
    {
      hide State, Mem, CoreOk, BinsOk, HeapOk, Live, ChunkOk, JoinBack, FreedFrom;
      ghost var a := K(loose);
      StartUnbinned(k, p0, p, loose);
      var nsize := head[next].size;
      HeapFree(c, State(), k, next);
      HeapNext(c, State(), k, p0);
      UnlinkChunk(next, nsize, loose);
      ghost var k1 := Unbin(k, next);
      if p == dv { DropDvOk(c, State(), K(loose + {next})); }
      LiveFrame(k, k1);
      assert k1 == if p == dv then DropDv(K(loose + {next})) else K(loose + {next});
      FreeJoined(p, psize0 + nsize, next, p0, k1);
      FreedJoined(a, K({}), p0, p);
    }

    /** The two free neighbours of p0, or the one after it, are in hand and become one free chunk p. */
    method FreeJoined(p: int, psize: nat, next: int, ghost p0: int, ghost k: Core)
      requires HeapOk(c, State(), k) && CanRelease(k, p0) && next == Next(k.head, p0) && IsFree(k, next)
      requires p == Start(k, p0) && psize == Next(k.head, next) - p && next in k.loose && next != p
      requires if p == dv then dvsize != 0 && k == DropDv(K({next})) else k == K(k.loose) && k.loose <= {next, p}
      modifies this, treebins
      ensures Valid() && Live(K({})) == Live(k) - {p0}
      ensures top == old(top) && topsize == old(topsize) && p in head && !head[p].cinuse && head[p].size == psize
      ensures chunks == if p == p0 then old(chunks) - {next} else old(chunks) - {p0} - {next}
      ensures if p == old(dv) then dv == p && dvsize == psize && binned == old(binned)
              else dv == old(dv) && dvsize == old(dvsize) && binned == old(binned) + {p}
    {
      hide State, Mem, CoreOk, BinsOk, HeapOk, Live, ChunkOk, JoinBack, Start, CanRelease, InUse, IsFree, Next;
      ReleaseJoinedHeap(c, State(), k, p0, psize);
      head := head[p := Head(psize, true, false)];
      prevFoot := prevFoot[p + psize := psize];
      chunks := if p == p0 then chunks - {next} else chunks - {p0} - {next};
      ghost var k1 := k.(head := head, foot := prevFoot, chunks := chunks, loose := k.loose - {next} + {p});
      if p == dv {
        dvsize := psize;
        AdoptDvOk(c, State(), k1, p);
        assert K({}) == AdoptDv(k1, p);
      } else {
        assert K({p}) == k1;
        InsertChunk(p, psize, {p});
        assert {p} - {p} == {};
        LiveFrame(k1, K({}));
      }
    }

    // ---- allocation ----

    /** set_inuse_and_pinuse on the whole of chunk p in hand, of s bytes. */
    method TakeWhole(p: int, s: nat, ghost loose: set<int>)
      requires Holding(loose) && p in loose && p in head && head[p].size == s
      modifies `head
      ensures Holding(loose - {p}) && K(loose - {p}) == Take(old(K(loose)), p)
      ensures Live(K(loose - {p})) == old(Live(K(loose)))[p := s] && p !in old(Live(K(loose)))
      ensures p in head && head[p].size == s
    {
      hide State, Mem, CoreOk, BinsOk, HeapOk, Live;
      TakeHeap(c, State(), K(loose), p);
      head := head[p := Head(s, true, true)];
      head := SetPinuse(head, p + s, true);
    }

    /** The first nb bytes of chunk p in hand are taken; the remainder r is in hand instead. */
    method TakeFirst(p: int, nb: nat, r: int, rsize: nat, ghost loose: set<int>)
      requires Holding(loose) && CanTakeSplit(K(loose), p, nb) && r == p + nb && rsize == head[p].size - nb
      modifies `head, `prevFoot, `chunks
      ensures Holding(loose - {p} + {r}) && K(loose - {p} + {r}) == TakeSplit(old(K(loose)), p, nb)
      ensures Live(K(loose - {p} + {r})) == old(Live(K(loose)))[p := nb] && p !in old(Live(K(loose)))
    {
      hide State, Mem, CoreOk, BinsOk, HeapOk, Live;
      TakeSplitHeap(c, State(), K(loose), p, nb);
      head := head[p := Head(nb, true, true)];
      head := head[r := Head(rsize, true, false)];
      prevFoot := prevFoot[r + rsize := rsize];
      chunks := chunks + {r};
    }

    /** A remainderless fit: the first chunk of small bin i. */
    method TakeSmall(i: nat, nb: nat) returns (mem: int)
      requires Valid() && IsSmall(nb) && nb % 8 == 0 && nb / 8 <= i <= nb / 8 + 1 && i < NSMALLBINS
      requires Bit(smallmap, i) && (i > nb / 8 ==> !Bit(smallmap, nb / 8))
      modifies this
      ensures Valid() && mem != 0 && Allocated(old(K({})), K({}), nb, mem - 8)
    {
      hide Mem, CoreOk, BinsOk, HeapOk, Live, Policy, Bit;
      ghost var k0 := K({});
      var b := c.SmallBinAt(i);
      SmallBinHead(i);
      var p := fd[b];
      ExactPolicy(c, State(), k0, nb, i, p);
      UnlinkFirstInHand(b, p, i);
      LiveFrame(k0, K({p}));
      TakeWhole(p, 8 * i, {p});
      assert {p} - {p} == {};
      mem := p + 8;
    }

    /** What a marked small bin holds first. */
    lemma SmallBinHead(i: nat)
      requires Valid() && i < NSMALLBINS && Bit(smallmap, i)
      ensures |small| == NSMALLBINS && small[i] != [] && c.SmallBinAt(i) in fd
      ensures var p := fd[c.SmallBinAt(i)];
        && p == small[i][0] && p in binned && IsFree(K({}), p) && head[p].size == 8 * i && p > 0
        && p != top && p != dv
    {
      hide CoreOk, BinsOk, Bit;
      SmallFirst(c, head, State(), i);
      FreeAre(c, K({}), small[i][0]);
      FreeKinds(c, K({}), small[i][0]);
      LooseInHead(c, K({}));
    }

    method UnlinkFirstInHand(b: int, p: int, i: nat)
      requires Valid() && i < NSMALLBINS && b == c.SmallBinAt(i) && |small| == NSMALLBINS && small[i] != []
        && p == small[i][0]
      requires p in binned
      modifies `smallmap, `fd, `bk, `small, `binned
      ensures Holding({p}) && binned == old(binned) - {p}
    {
      hide CoreOk, BinsOk;
      ghost var k := K({});
      HoldingBins({});
      UnlinkFirstSmallChunk(b, p, i);
      Moves(c, k, p);
      assert {} + {p} == {p};
      assert K({p}) == Unbin(k, p);
    }

    /** The heap k0 before chunk p was taken off its bin. */
    ghost predicate InHandFrom(k0: Core, p: int)
      reads this
    {
      p in k0.binned && k0.loose == {} && K({p}) == Unbin(k0, p) && p != dv && p != top && IsFree(k0, p)
    }

    /** Chunk p in hand is split and the remainder becomes the designated victim. */
    method SplitIntoDv(p: int, nb: nat, rsize: nat, ghost k0: Core)
      requires Holding({p}) && InHandFrom(k0, p) && CanTakeSplit(K({p}), p, nb) && head[p].size == nb + rsize
      requires IsSmall(nb) && dvsize < nb && Policy(k0, nb, p)
      modifies this
      ensures Valid() && Allocated(k0, K({}), nb, p)
    {
      hide State, Mem, CoreOk, BinsOk, HeapOk, Live, Policy;
      var r := p + nb;
      LiveFrame(k0, K({p}));
      TakeFirst(p, nb, r, rsize, {p});
      assert {p} - {p} + {r} == {r};
      ghost var k1 := K({r});
      ReplaceDv(r, rsize, {r});
      assert {r} - {r} == {};
      LiveFrame(k1, K({}));
    }

    /** Chunk p in hand is split and the remainder goes to a bin. */
    method SplitIntoBin(p: int, nb: nat, rsize: nat, ghost k0: Core)
      requires Holding({p}) && InHandFrom(k0, p) && CanTakeSplit(K({p}), p, nb) && head[p].size == nb + rsize
      requires !IsSmall(nb) && Policy(k0, nb, p)
      modifies this, treebins
      ensures Valid() && Allocated(k0, K({}), nb, p)
    {
      hide State, Mem, CoreOk, BinsOk, HeapOk, Live, Policy;
      var r := p + nb;
      LiveFrame(k0, K({p}));
      TakeFirst(p, nb, r, rsize, {p});
      assert {p} - {p} + {r} == {r};
      ghost var k1 := K({r});
      InsertChunk(r, rsize, {r});
      assert {r} - {r} == {};
      LiveFrame(k1, K({}));
    }

    method WholeFromHand(p: int, s: nat, nb: nat, ghost k0: Core)
      requires Holding({p}) && InHandFrom(k0, p) && p in head && head[p].size == s && nb <= s < nb + MIN_CHUNK_SIZE
      requires Policy(k0, nb, p)
      modifies `head
      ensures Valid() && Allocated(k0, K({}), nb, p)
    {
      hide State, Mem, CoreOk, BinsOk, HeapOk, Live, Policy;
      LiveFrame(k0, K({p}));
      TakeWhole(p, s, {p});
      assert {p} - {p} == {};
    }

    /** The next non-empty small bin serves the request; its remainder is the new designated victim. */
    method SplitSmall(i: nat, nb: nat) returns (mem: int)
      requires Valid() && IsSmall(nb) && nb % 8 == 0 && MIN_CHUNK_SIZE <= nb && nb / 8 + 1 < i < NSMALLBINS
        && dvsize < nb
      requires Bit(smallmap, i) && forall j :: nb / 8 <= j < i ==> !Bit(smallmap, j)
      modifies this
      ensures Valid() && mem != 0 && Allocated(old(K({})), K({}), nb, mem - 8)
    {
      hide Mem, CoreOk, BinsOk, HeapOk, Live, Policy, Bit;
      ghost var k0 := K({});
      var b := c.SmallBinAt(i);
      SmallBinHead(i);
      var p := fd[b];
      NoRemainderless(c, State(), k0, nb);
      NextSmallPolicy(c, State(), k0, nb, i, p);
      UnlinkFirstInHand(b, p, i);
      SplitIntoDv(p, nb, 8 * i - nb, k0);
      mem := p + 8;
    }

    /** tmalloc_small. */
    method TmallocSmall(nb: nat) returns (mem: int)
      requires Valid() && IsSmall(nb) && nb % 8 == 0 && MIN_CHUNK_SIZE <= nb && treemap != 0 && dvsize < nb
      requires forall j :: nb / 8 <= j < NSMALLBINS ==> !Bit(smallmap, j)
      modifies this, treebins
      ensures Valid() && mem != 0 && Allocated(old(K({})), K({}), nb, mem - 8)
    {
      hide Mem, CoreOk, BinsOk, HeapOk, Live, Policy, Bit, TreeIndex;
      ghost var k0 := K({});
      HoldingBins({});
      var v, rsize := FindSmallest(nb);
      NoTreeRemainderless(nb);
      SmallestPolicy(c, State(), k0, nb, v);
      mem := CarveSmall(v, nb, rsize, k0);
    }

    lemma NoTreeRemainderless(nb: nat)
      requires Valid() && IsSmall(nb) && nb % 8 == 0 && forall j :: nb / 8 <= j < NSMALLBINS ==> !Bit(smallmap, j)
      ensures forall x :: !Remainderless(K({}), x, nb)
    {
      hide CoreOk, BinsOk, HeapOk, Bit;
      Pow2Values();
      if nb / 8 == 31 { BitBound(smallmap, 32, 32); }
      NoRemainderless(c, State(), K({}), nb);
    }

    method CarveSmall(v: int, nb: nat, rsize: nat, ghost k0: Core) returns (mem: int)
      requires Valid() && k0 == K({}) && v in binned && v in head && head[v].size == nb + rsize && dvsize < nb
      requires IsSmall(nb) && nb % 8 == 0 && MIN_CHUNK_SIZE <= nb && Policy(k0, nb, v)
      modifies this, treebins
      ensures Valid() && mem != 0 && Allocated(k0, K({}), nb, mem - 8)
    {
      hide State, Mem, CoreOk, BinsOk, HeapOk, Live, Policy;
      BinnedFacts(v);
      UnlinkChunk(v, nb + rsize, {});
      assert {} + {v} == {v};
      if rsize < MIN_CHUNK_SIZE {
        WholeFromHand(v, nb + rsize, nb, k0);
      } else {
        SplitIntoDv(v, nb, rsize, k0);
      }
      mem := v + 8;
    }

    lemma BinnedFacts(v: int)
      requires Valid() && v in binned
      ensures IsFree(K({}), v) && v != dv && v != top && v > 0 && head[v].size % 8 == 0
    {
      hide BinsOk, Tiled;
      FreeKinds(c, K({}), v);
    }

    /** tmalloc_large. */
    method TmallocLarge(nb: nat) returns (mem: int)
      requires Valid() && !IsSmall(nb) && nb < SIZE_T_RANGE && nb % 8 == 0
      modifies this, treebins
      ensures Valid()
      ensures mem != 0 ==> Allocated(old(K({})), K({}), nb, mem - 8)
      ensures mem == 0 ==> K({}) == old(K({})) && State() == old(State())
      ensures mem == 0 && nb <= dvsize ==> Policy(K({}), nb, dv)
      ensures mem == 0 && nb > dvsize ==> NothingFits(K({}), nb)
    {
      hide Mem, CoreOk, BinsOk, Live, Policy, BestFit, NothingFits;
      HoldingBins({});
      DvSmaller();
      ghost var k0 := K({});
      var v, rsize := FindBestFit(nb);
      if v != 0 && rsize < Sub32(dvsize, nb) {
        BestFitPolicy(c, k0, nb, v, rsize) by { BestFitBound(v, nb, rsize); }
        mem := CarveLarge(v, nb, rsize, k0);
      } else {
        mem := 0;
        BestIsDv(v, nb, rsize);
      }
    }

    lemma DvSmaller()
      requires Valid()
      ensures dvsize < SIZE_T_RANGE
    {
      hide BinsOk, Tiled;
      if dvsize != 0 { FreeKinds(c, K({}), dv); }
    }

    lemma BestFitBound(v: int, nb: nat, rsize: nat)
      requires Valid() && BestFit(head, binned, nb, v, rsize) && v != 0
      ensures nb + rsize < SIZE_T_RANGE
    {
      hide BinsOk, Tiled;
      FreeKinds(c, K({}), v);
    }

    /** When tmalloc_large gives up, the designated victim is the best fit, or nothing fits. */
    lemma BestIsDv(v: int, nb: nat, rsize: nat)
      requires Valid() && !IsSmall(nb) && nb < SIZE_T_RANGE && BestFit(head, binned, nb, v, rsize)
        && dvsize < SIZE_T_RANGE
      requires v == 0 || rsize >= Sub32(dvsize, nb)
      ensures nb <= dvsize ==> Policy(K({}), nb, dv)
      ensures nb > dvsize ==> NothingFits(K({}), nb)
    {
      hide CoreOk, BinsOk, Policy, NothingFits;
      if v != 0 { BestFitBound(v, nb, rsize); }
      if nb <= dvsize { DvPolicyLarge(c, K({}), nb); } else { NothingFitsBins(c, K({}), nb); }
    }

    method CarveLarge(v: int, nb: nat, rsize: nat, ghost k0: Core) returns (mem: int)
      requires Valid() && k0 == K({}) && BestFit(head, binned, nb, v, rsize) && v != 0
      requires !IsSmall(nb) && nb % 8 == 0 && Policy(k0, nb, v)
      modifies this, treebins
      ensures Valid() && mem != 0 && Allocated(k0, K({}), nb, mem - 8)
    {
      hide State, Mem, CoreOk, BinsOk, HeapOk, Live, Policy;
      BinnedFacts(v);
      UnlinkChunk(v, nb + rsize, {});
      assert {} + {v} == {v};
      if rsize < MIN_CHUNK_SIZE {
        WholeFromHand(v, nb + rsize, nb, k0);
      } else {
        SplitIntoBin(v, nb, rsize, k0);
      }
      mem := v + 8;
    }

    /** The designated victim is split and keeps the remainder. */
    method SplitDv(nb: nat) returns (mem: int)
      requires Valid() && MIN_CHUNK_SIZE <= nb && nb + MIN_CHUNK_SIZE <= dvsize && nb % 8 == 0 && Policy(K({}), nb, dv)
      modifies this
      ensures Valid() && mem != 0 && Allocated(old(K({})), K({}), nb, mem - 8)
    {
      hide State, Mem, CoreOk, BinsOk, HeapOk, Live, Policy, TakeSplit, AdoptDv;
      ghost var k0 := K({});
      DvFacts();
      DropDvOk(c, State(), k0);
      TakeSplitHeap(c, State(), DropDv(k0), dv, nb);
      ghost var k1 := TakeSplit(DropDv(k0), dv, nb);
      DvSplitIs(k0, nb);
      var rsize, p := dvsize - nb, dv;
      var r := p + nb;
      AdoptDvOk(c, State(), k1, r);
      dv := r;
      dvsize := rsize;
      head := head[r := Head(rsize, true, false)];
      prevFoot := prevFoot[r + rsize := rsize];
      head := head[p := Head(nb, true, true)];
      chunks := chunks + {r};
      assert K({}) == AdoptDv(k1, r);
      mem := p + 8;
    }

    /** The designated victim is used up. */
    method ExhaustDv(nb: nat) returns (mem: int)
      requires Valid() && MIN_CHUNK_SIZE <= nb <= dvsize < nb + MIN_CHUNK_SIZE && Policy(K({}), nb, dv)
      modifies this
      ensures Valid() && mem != 0 && Allocated(old(K({})), K({}), nb, mem - 8)
    {
      hide State, Mem, CoreOk, BinsOk, HeapOk, Live, Policy;
      ghost var k0 := K({});
      DvFacts();
      DropDvOk(c, State(), k0);
      TakeHeap(c, State(), DropDv(k0), dv);
      var p, dvs := dv, dvsize;
      dvsize := 0;
      dv := 0;
      head := head[p := Head(dvs, true, true)];
      head := SetPinuse(head, p + dvs, true);
      assert K({}) == Take(DropDv(k0), p);
      mem := p + 8;
    }

    lemma DvFacts()
      requires Valid() && dvsize != 0
      ensures IsFree(K({}), dv) && dv in head && head[dv].size == dvsize && dv > 0 && dv != top && dvsize % 8 == 0
        && dv !in binned
    {
      hide BinsOk, Tiled;
      FreeKinds(c, K({}), dv);
    }

    /** The request is cut from top. */
    method SplitTop(nb: nat) returns (mem: int)
      requires Valid() && MIN_CHUNK_SIZE <= nb < topsize && nb % 8 == 0 && NothingFits(K({}), nb)
      modifies this
      ensures Valid() && mem != 0 && Allocated(old(K({})), K({}), nb, mem - 8)
    {
      hide State, Mem, CoreOk, BinsOk, HeapOk, Live, NothingFits;
      ghost var k0 := K({});
      TopSplitHeap(c, State(), k0, nb);
      TopFacts();
      var rsize := topsize - nb;
      topsize := rsize;
      var p := top;
      var r := p + nb;
      top := r;
      head := head[r := Head(rsize, true, false)];
      head := head[p := Head(nb, true, true)];
      chunks := chunks + {p};
      assert K({}) == TopSplit(k0, nb);
      mem := p + 8;
    }

    lemma TopFacts()
      requires Valid()
      ensures top > 0 && c.base <= top && top % 8 == 0 && topsize % 8 == 0 && top + topsize == c.end
    {
      hide BinsOk, Accounted;
    }

    /** What is known when no bin serves the request. */
    ghost predicate OnlyDvOrTop(nb: nat)
      reads this
    {
      if nb <= dvsize then Policy(K({}), nb, dv) else NothingFits(K({}), nb)
    }

    lemma SmallLeftover(nb: nat)
      requires Valid() && IsSmall(nb) && nb % 8 == 0 && MIN_CHUNK_SIZE <= nb
      requires !Bit(smallmap, nb / 8) && !Bit(smallmap, nb / 8 + 1)
      requires nb <= dvsize || (treemap == 0 && forall j :: nb / 8 <= j < NSMALLBINS ==> !Bit(smallmap, j))
      ensures OnlyDvOrTop(nb)
    {
      hide CoreOk, BinsOk, Policy, NothingFits, Bit;
      NoRemainderless(c, State(), K({}), nb);
      if nb <= dvsize {
        DvPolicySmall(c, K({}), nb);
      } else {
        NoSmallNoTree(c, State(), K({}), nb);
        NothingFitsBins(c, K({}), nb);
      }
    }

    lemma LargeLeftover(nb: nat)
      requires Valid() && !IsSmall(nb) && treemap == 0
      ensures OnlyDvOrTop(nb)
    {
      hide CoreOk, BinsOk, Policy, NothingFits, Bit;
      NoSmallNoTree(c, State(), K({}), nb);
      if nb <= dvsize { DvPolicyLarge(c, K({}), nb); } else { NothingFitsBins(c, K({}), nb); }
    }

    lemma TooLarge(nb: nat)
      requires Valid() && nb == SIZE_T_RANGE - 1
      ensures nb > dvsize && nb > topsize && NothingFits(K({}), nb)
    {
      hide BinsOk, Tiled;
      forall x ensures !Fits(K({}), x, nb) {
        if IsFree(K({}), x) { FreeKinds(c, K({}), x); }
      }
      if dvsize != 0 { FreeKinds(c, K({}), dv); }
      TopBelow();
    }

    lemma TopBelow()
      requires Valid()
      ensures topsize < SIZE_T_RANGE - 1
    {
      hide BinsOk, Accounted;
    }

    lemma PolicyServes(k: Core, nb: nat, p: int)
      requires Policy(k, nb, p)
      ensures !(NothingFits(k, nb) && k.topsize <= nb)
    {
      hide IsFree, SmallPolicy, LargePolicy;
    }

    /** The last resorts of dlmalloc: the designated victim, then top. */
    method FromDvOrTop(nb: nat) returns (mem: int)
      requires Valid() && MIN_CHUNK_SIZE <= nb && (nb % 8 == 0 || (nb > dvsize && nb > topsize)) && OnlyDvOrTop(nb)
      modifies this
      ensures Valid()
      ensures mem == 0 <==> old(NothingFits(K({}), nb) && topsize <= nb)
      ensures mem == 0 ==> K({}) == old(K({})) && State() == old(State())
      ensures mem != 0 ==> Allocated(old(K({})), K({}), nb, mem - 8)
    {
      hide State, Mem, CoreOk, BinsOk, HeapOk, Live, Policy, NothingFits;
      mem := 0;
      if nb <= dvsize {
        PolicyServes(K({}), nb, dv);
        if dvsize - nb >= MIN_CHUNK_SIZE { mem := SplitDv(nb); } else { mem := ExhaustDv(nb); }
      } else if nb < topsize {
        mem := SplitTop(nb);
      }
    }

    /** dlmalloc, on a heap that cannot grow: it returns 0 where the source would ask the system for memory. */
    method DlMalloc(bytes: nat) returns (mem: int)
      requires Valid() && bytes < SIZE_T_RANGE
      modifies this, treebins
      ensures Valid()
      ensures mem == 0 <==> old(NothingFits(K({}), PaddedRequest(bytes)) && topsize <= PaddedRequest(bytes))
      ensures mem == 0 ==> K({}) == old(K({})) && State() == old(State())
      ensures mem != 0 ==> Allocated(old(K({})), K({}), PaddedRequest(bytes), mem - 8)
      ensures mem != 0 ==>
        && mem % 8 == 0 && mem - 8 in Live(K({})) && bytes + 4 <= Live(K({}))[mem - 8]
        && PaddedRequest(bytes) <= Live(K({}))[mem - 8] < PaddedRequest(bytes) + MIN_CHUNK_SIZE
    {
      hide State, Mem, CoreOk, BinsOk, HeapOk, Live, Allocated, PaddedRequest, NothingFits;
      mem := Allocate(bytes);
      if mem != 0 { ServedHere(old(K({})), PaddedRequest(bytes), bytes, mem - 8); }
    }

    lemma ServedHere(k0: Core, nb: nat, bytes: nat, p: int)
      requires exists st :: HeapOk(c, st, k0)
      requires Valid() && Allocated(k0, K({}), nb, p) && bytes < SIZE_T_RANGE && nb == PaddedRequest(bytes)
      ensures (p + 8) % 8 == 0 && p in Live(K({})) && bytes + 4 <= Live(K({}))[p]
        && nb <= Live(K({}))[p] < nb + MIN_CHUNK_SIZE
    {
      hide BinsOk, CoreOk, Live, Allocated;
      Served(c, k0, K({}), nb, p);
      LiveChunks(K({}));
      NextHead(c, K({}), p);
    }

    method Allocate(bytes: nat) returns (mem: int)
      requires Valid() && bytes < SIZE_T_RANGE
      modifies this, treebins
      ensures Valid()
      ensures mem == 0 <==> old(NothingFits(K({}), PaddedRequest(bytes)) && topsize <= PaddedRequest(bytes))
      ensures mem == 0 ==> K({}) == old(K({})) && State() == old(State())
      ensures mem != 0 ==> Allocated(old(K({})), K({}), PaddedRequest(bytes), mem - 8)
    {
      hide State, Mem, CoreOk, BinsOk, HeapOk, Live, Policy, NothingFits, Bit, Request2Size, And, Not, Carved;
      var nb: nat;
      if bytes <= MAX_SMALL_REQUEST {
        nb := if bytes < MIN_REQUEST then MIN_CHUNK_SIZE else PadRequest(bytes);
        SmallRequest(bytes, nb);
        mem := MallocSmall(nb);
        return;
      } else if bytes >= MAX_REQUEST {
        nb := SIZE_T_RANGE - 1;
        TooLarge(nb);
      } else {
        nb := PadRequest(bytes);
        LargeRequest(bytes, nb);
        if treemap != 0 {
          mem := TmallocLarge(nb);
          if mem != 0 {
            PolicyServes(old(K({})), nb, mem - 8);
            return;
          }
        } else {
          LargeLeftover(nb);
        }
      }
      mem := FromDvOrTop(nb);
    }

    lemma SmallRequest(bytes: nat, nb: nat)
      requires bytes <= MAX_SMALL_REQUEST && nb == if bytes < MIN_REQUEST then MIN_CHUNK_SIZE else PadRequest(bytes)
      ensures nb == PaddedRequest(bytes) && IsSmall(nb) && nb % 8 == 0 && MIN_CHUNK_SIZE <= nb
    {
    }

    lemma LargeRequest(bytes: nat, nb: nat)
      requires MAX_SMALL_REQUEST < bytes < MAX_REQUEST && nb == PadRequest(bytes)
      ensures nb == PaddedRequest(bytes) && !IsSmall(nb) && nb % 8 == 0 && MIN_CHUNK_SIZE <= nb < SIZE_T_RANGE
    {
    }

    /** The small-request path of dlmalloc. */
    method MallocSmall(nb: nat) returns (mem: int)
      requires Valid() && IsSmall(nb) && nb % 8 == 0 && MIN_CHUNK_SIZE <= nb
      modifies this, treebins
      ensures Valid()
      ensures mem == 0 <==> old(NothingFits(K({}), nb) && topsize <= nb)
      ensures mem == 0 ==> K({}) == old(K({})) && State() == old(State())
      ensures mem != 0 ==> Allocated(old(K({})), K({}), nb, mem - 8)
    {
      hide State, Mem, CoreOk, BinsOk, HeapOk, Live, Policy, NothingFits, Bit, And, Not, Carved, Shr, NextMarked;
      ghost var k0 := K({});
      var idx := nb / 8;
      var smallbits := Shr(smallmap, idx);
      SmallSearch(smallmap, idx);
      SmallShift(smallmap, idx);
      if And(smallbits, 3) != 0 {
        idx := idx + And(Not(smallbits, 32), 1);
        mem := TakeSmall(idx, nb);
        PolicyServes(k0, nb, mem - 8);
        return;
      } else if nb > dvsize {
        if smallbits != 0 {
          var i := NextMarked(Shl32(smallbits, idx), idx);
          mem := SplitSmall(i, nb);
          PolicyServes(k0, nb, mem - 8);
          return;
        } else if treemap != 0 {
          mem := TmallocSmall(nb);
          PolicyServes(k0, nb, mem - 8);
          return;
        }
      }
      SmallLeftover(nb);
      mem := FromDvOrTop(nb);
    }

    lemma SmallShift(m: binmap, idx: nat)
      requires idx < 32
      ensures Shr(m, idx) < Pow2(32)
      ensures And(Not(Shr(m, idx), 32), 1) == if Bit(Shr(m, idx), 0) then 0 else 1
    {
      Pow2Values();
      TwoLowBits(Shr(m, idx));
    }

    // ---- release and reallocation ----

    /** set_inuse: the chunk's own pinuse bit stays as it is. */
    method SetInuse(p: int, s: nat)
      requires p in head && s > 0
      modifies `head
      ensures head == SetPinuse(old(head)[p := old(head[p]).(size := s, cinuse := true)], p + s, true)
    {
      head := head[p := head[p].(size := s, cinuse := true)];
      head := SetPinuse(head, p + s, true);
    }

    /** dlfree. */
    method DlFree(mem: int)
      requires Valid() && (mem != 0 ==> InUse(K({}), mem - 8))
      modifies this, treebins
      ensures Valid()
      ensures Live(K({})) == if mem == 0 then old(Live(K({}))) else old(Live(K({}))) - {mem - 8}
      ensures mem != 0 ==> Freed(old(K({})), K({}), mem - 8)
      ensures mem == 0 ==> K({}) == old(K({})) && State() == old(State())
    {
      hide State, Mem, CoreOk, BinsOk, HeapOk, Live, Freed;
      if mem != 0 {
        var p := mem - 8;
        DisposeChunk(p, head[p].size);
      }
    }

    /** Chunk p keeps its first nb bytes; the rest is disposed of. */
    method SplitOff(p: int, nb: nat, ghost k0: Core)
      requires k0.loose == {} && HeapOk(c, State(), k0) && CanSplit(k0, p, nb)
      requires K({}) == SplitInUse(k0, p, nb)
      modifies this, treebins
      ensures Valid() && Live(K({})) == Live(k0)[p := nb] && p in head && head[p].size == nb
      ensures FreedFrom(SplitInUse(k0, p, nb), K({}), p + nb, p + nb)
      ensures p + nb !in k0.chunks && p + nb !in k0.binned && p + nb != k0.dv
    {
      hide State, Mem, CoreOk, BinsOk, HeapOk, Live, StartsAt, FreedFrom, SplitInUse;
      SplitHeap(c, State(), k0, p, nb);
      var r := p + nb;
      DisposeChunk(r, head[r].size);
      ghost var q :| StartsAt(SplitInUse(k0, p, nb), r, q) && FreedFrom(SplitInUse(k0, p, nb), K({}), r, q);
      CutHere(k0, p, nb, q);
      LiveChunks(K({}));
      assert p in Live(K({})) && Live(K({}))[p] == nb;
    }

    lemma CutHere(k0: Core, p: int, nb: nat, q: int)
      requires exists st :: HeapOk(c, st, k0)
      requires CanSplit(k0, p, nb) && StartsAt(SplitInUse(k0, p, nb), p + nb, q)
      ensures q == p + nb && q !in k0.chunks && q !in k0.binned && q != k0.dv
    {
      hide CoreOk, BinsOk, StartsAt, SplitInUse;
      var st :| HeapOk(c, st, k0);
      CutStart(c, k0, p, nb, q);
    }

    method ReallocShrink(p: int, nb: nat)
      requires Valid() && CanSplit(K({}), p, nb)
      modifies this, treebins
      ensures Valid() && Live(K({})) == old(Live(K({})))[p := nb] && Fitted(old(K({})), K({}), p, nb)
    {
      hide State, Mem, CoreOk, BinsOk, HeapOk, Live, Fitted, FreedFrom;
      ghost var k0 := K({});
      HeapNext(c, State(), k0, p);
      var oldsize := head[p].size;
      var rsize, r := oldsize - nb, p + nb;
      SetInuse(p, nb);
      SetInuse(r, rsize);
      chunks := chunks + {r};
      assert k0.head[r + rsize] == k0.head[r + rsize].(pinuse := true);
      assert K({}) == SplitInUse(k0, p, nb);
      SplitOff(p, nb, k0);
      FittedCut(k0, p, nb);
    }

    lemma FittedCut(k0: Core, p: int, nb: nat)
      requires exists st :: HeapOk(c, st, k0)
      requires CanSplit(k0, p, nb) && FreedFrom(SplitInUse(k0, p, nb), K({}), p + nb, p + nb)
      requires p + nb !in k0.chunks && p + nb !in k0.binned && p + nb != k0.dv && p in head && head[p].size == nb
      ensures Fitted(k0, K({}), p, nb)
    {
      hide CoreOk, BinsOk, FreedFrom, SplitInUse, Fitted;
      var st :| HeapOk(c, st, k0);
      FittedByCut(c, k0, K({}), p, nb);
    }

    method ReallocIntoTop(p: int, nb: nat)
      requires Valid() && CanGrowTop(K({}), p, nb)
      modifies this
      ensures Valid() && Live(K({})) == old(Live(K({})))[p := nb] && Fitted(old(K({})), K({}), p, nb)
    {
      hide State, Mem, CoreOk, BinsOk, HeapOk, Live, Fitted;
      ghost var k0 := K({});
      GrowTopHeap(c, State(), k0, p, nb);
      var newsize := head[p].size + topsize;
      var newtopsize, newtop := newsize - nb, p + nb;
      SetInuse(p, nb);
      head := head[newtop := Head(newtopsize, true, false)];
      top := newtop;
      topsize := newtopsize;
      assert K({}) == GrowTop(k0, p, nb);
      FittedTop(k0, p, nb);
    }

    lemma FittedTop(k: Core, p: int, nb: nat)
      requires CanGrowTop(k, p, nb) && p + nb != p
      ensures Fitted(k, GrowTop(k, p, nb), p, nb)
    {
    }

    /** Chunk p grows into the designated victim, which keeps the rest. */
    method ReallocSplitDv(p: int, nb: nat)
      requires Valid() && InUse(K({}), p) && Next(head, p) == dv && nb % 8 == 0 && dvsize != 0
      requires head[p].size < nb && nb + MIN_CHUNK_SIZE <= head[p].size + dvsize
      modifies `head, `prevFoot, `chunks, `dv, `dvsize
      ensures Valid() && Live(K({})) == old(Live(K({})))[p := nb] && Fitted(old(K({})), K({}), p, nb)
    {
      hide State, Mem, CoreOk, BinsOk, HeapOk, Live, GrowPart, AdoptDv, SetPinuse, Fitted;
      ghost var k0, k1 := K({}), DropDv(K({}));
      DvFacts();
      DropDvOk(c, State(), K({}));
      GrowHeap(c, State(), k1, p);
      GrowPartHeap(c, State(), k1, p, nb);
      var dsize, r := head[p].size + dvsize - nb, p + nb;
      var n := r + dsize;
      ghost var k2 := GrowPart(k1, p, nb);
      AdoptDvOk(c, State(), k2, r);
      SplitDvIs(K({}), p, nb, dsize);
      SetInuse(p, nb);
      head := head[r := Head(dsize, true, false)];
      prevFoot := prevFoot[r + dsize := dsize];
      head := SetPinuse(head, n, false);
      chunks := chunks - {dv} + {r};
      dvsize := dsize;
      dv := r;
      assert K({}) == AdoptDv(k2, r);
      FittedDv(k0, p, nb);
    }

    /** The designated victim, which is behind p, keeps what p leaves of it. */
    lemma FittedDv(k: Core, p: int, nb: nat)
      requires InUse(k, p) && Next(k.head, p) == k.dv && k.dv in k.head && IsFree(k, k.dv) && k.dv != k.top
      requires k.dvsize == k.head[k.dv].size && k.dv !in k.binned
      requires k.head[p].size < nb && nb + MIN_CHUNK_SIZE <= k.head[p].size + k.dvsize
      requires p + nb in GrowPart(DropDv(k), p, nb).head
      ensures Fitted(k, AdoptDv(GrowPart(DropDv(k), p, nb), p + nb), p, nb)
    {
    }

    /** Chunk p absorbs the designated victim. */
    method ReallocExhaustDv(p: int)
      requires Valid() && InUse(K({}), p) && Next(head, p) == dv && dvsize != 0
      modifies `head, `chunks, `dv, `dvsize
      ensures Valid() && Live(K({})) == old(Live(K({})))[p := old(head[p].size + dvsize)]
      ensures p in old(head)
        && forall nb :: old(head[p].size) < nb <= old(head[p].size + dvsize) < nb + MIN_CHUNK_SIZE ==>
          Fitted(old(K({})), K({}), p, nb)
    {
      hide State, Mem, CoreOk, BinsOk, HeapOk, Live, Fitted;
      ghost var k0, k1 := K({}), DropDv(K({}));
      DvFacts();
      DropDvOk(c, State(), K({}));
      GrowHeap(c, State(), k1, p);
      var newsize := head[p].size + dvsize;
      SetInuse(p, newsize);
      chunks := chunks - {dv};
      dvsize := 0;
      dv := 0;
      assert K({}) == GrowNext(k1, p);
      forall nb: nat | k0.head[p].size < nb <= k0.head[p].size + k0.dvsize < nb + MIN_CHUNK_SIZE
        ensures Fitted(k0, GrowNext(k1, p), p, nb)
      {
        FittedWhole(k0, k1, p, nb);
      }
    }

    /** The free chunk behind p is absorbed whole. */
    lemma FittedWhole(k: Core, a: Core, p: int, nb: nat)
      requires InUse(k, p) && a.head == k.head && a.chunks == k.chunks && a.top == k.top && a.topsize == k.topsize
      requires var n := Next(k.head, p);
        && IsFree(k, n) && n != k.top && k.head[p].size < nb <= k.head[p].size + k.head[n].size < nb + MIN_CHUNK_SIZE
        && a.binned == k.binned - {n}
        && (if n == k.dv then a.dv == 0 && a.dvsize == 0 else a.dv == k.dv && a.dvsize == k.dvsize)
      ensures Fitted(k, GrowNext(a, p), p, nb)
    {
    }

    method ReallocIntoDv(p: int, nb: nat)
      requires Valid() && InUse(K({}), p) && Next(head, p) == dv && nb % 8 == 0 && dvsize != 0
      requires head[p].size < nb <= head[p].size + dvsize
      modifies this
      ensures Valid() && Resized(old(Live(K({}))), Live(K({})), p, nb) && Fitted(old(K({})), K({}), p, nb)
    {
      hide State, Mem, CoreOk, BinsOk, HeapOk, Live, Fitted;
      if head[p].size + dvsize - nb >= MIN_CHUNK_SIZE { ReallocSplitDv(p, nb); } else { ReallocExhaustDv(p); }
    }

    /** The free chunk after p is taken off its bin and absorbed by p. */
    method AbsorbNext(p: int, next: int, ghost k0: Core) returns (ghost k1: Core)
      requires Valid() && k0 == K({}) && InUse(k0, p) && Next(head, p) == next && next != dv && IsFree(k0, next)
      modifies treebins, `smallmap, `treemap, `fd, `bk, `child0, `child1, `parent, `small, `trees, `binned
      ensures CanGrow(K({next}), p) && k1 == GrowNext(K({next}), p) && k1.loose == {} && HeapOk(c, State(), k1)
      ensures Live(k1) == Live(k0)[p := k1.head[p].size] && InUse(k1, p)
      ensures k1.head[p] == Head(head[p].size + head[next].size, head[p].pinuse, true) && k1.head[p].size % 8 == 0
      ensures binned == old(binned) - {next} && HeapOk(c, State(), K({next}))
    {
      hide State, Mem, CoreOk, BinsOk, HeapOk, Live;
      HeapFree(c, State(), k0, next);
      UnlinkChunk(next, head[next].size, {});
      assert {} + {next} == {next};
      LiveFrame(k0, K({next}));
      GrowHeap(c, State(), K({next}), p);
      k1 := GrowNext(K({next}), p);
    }

    method ReallocIntoNext(p: int, nb: nat, next: int)
      requires Valid() && InUse(K({}), p) && Next(head, p) == next && next != dv && IsFree(K({}), next) && nb % 8 == 0
      requires head[p].size < nb <= head[p].size + head[next].size && MIN_CHUNK_SIZE <= nb
      modifies this, treebins
      ensures Valid() && Resized(old(Live(K({}))), Live(K({})), p, nb) && Fitted(old(K({})), K({}), p, nb)
    {
      hide State, Mem, CoreOk, BinsOk, HeapOk, Live, Fitted;
      ghost var k0 := K({});
      HeapFree(c, State(), k0, next);
      var oldsize, nextsize := head[p].size, head[next].size;
      var rsize := oldsize + nextsize - nb;
      ghost var k1 := AbsorbNext(p, next, K({}));
      if rsize < MIN_CHUNK_SIZE {
        var newsize := oldsize + nextsize;
        SetInuse(p, newsize);
        chunks := chunks - {next};
        assert K({}) == k1;
        FittedWhole(k0, k0.(binned := binned, loose := {next}), p, nb);
      } else {
        ReallocSplitNext(p, nb, next, rsize, k1, k0);
      }
    }

    method ReallocSplitNext(p: int, nb: nat, next: int, rsize: nat, ghost k1: Core, ghost k0: Core)
      requires CanGrow(K({next}), p) && next == Next(head, p) && next in head && k1 == GrowNext(K({next}), p)
        && HeapOk(c, State(), k1)
      requires CanSplit(k1, p, nb) && rsize == head[p].size + head[next].size - nb && rsize > 0 && k1.loose == {}
        && head[p].size < nb
      requires HeapOk(c, State(), K({next})) && k0 == K({}).(binned := k0.binned) && binned == k0.binned - {next}
        && next != dv
      modifies this, treebins
      ensures Valid() && Live(K({})) == Live(k1)[p := nb] && Fitted(k0, K({}), p, nb)
    {
      hide State, Mem, CoreOk, BinsOk, HeapOk, Live, GrowNext, SplitInUse, SetPinuse, Fitted, FreedFrom;
      ghost var a, st := K({next}), State();
      GrowSplitIs(K({next}), p, nb, rsize);
      var r := p + nb;
      SetInuse(p, nb);
      SetInuse(r, rsize);
      chunks := chunks - {next} + {r};
      assert K({}) == SplitInUse(k1, p, nb);
      SplitOff(p, nb, k1);
      FittedGrowth(k0, a, st, p, nb);
    }

    lemma FittedGrowth(k0: Core, a: Core, st: BinState, p: int, nb: nat)
      requires HeapOk(c, st, a) && CanGrow(a, p) && k0 == a.(binned := k0.binned, loose := {})
      requires var n := Next(a.head, p); n in a.head && a.binned == k0.binned - {n} && n != a.dv && a.head[p].size < nb
      requires CanSplit(GrowNext(a, p), p, nb)
      requires FreedFrom(SplitInUse(GrowNext(a, p), p, nb), K({}), p + nb, p + nb)
      requires p + nb !in GrowNext(a, p).chunks && p + nb !in GrowNext(a, p).binned && p + nb != GrowNext(a, p).dv
      requires p in head && head[p].size == nb
      ensures Fitted(k0, K({}), p, nb)
    {
      hide CoreOk, BinsOk, FreedFrom, SplitInUse, Fitted;
      FittedByGrowth(c, k0, a, K({}), p, nb);
    }

    /** Whether chunk p can be given nb bytes where it is. */
    ghost predicate HasRoom(p: int, nb: nat)
      requires Valid() && InUse(K({}), p)
      reads this, treebins
    {
      var next := Next(head, p);
      || nb <= head[p].size
      || (next == top && nb < head[p].size + topsize)
      || (IsFree(K({}), next) && nb <= head[p].size + head[next].size)
    }

    /** try_realloc_chunk. */
    method TryReallocChunk(p: int, nb: nat) returns (newp: int)
      requires Valid() && InUse(K({}), p) && nb % 8 == 0 && MIN_CHUNK_SIZE <= nb
      modifies this, treebins
      ensures Valid() && newp == if old(HasRoom(p, nb)) then p else 0
      ensures newp == 0 ==> K({}) == old(K({})) && State() == old(State())
      ensures newp != 0 ==> Resized(old(Live(K({}))), Live(K({})), p, nb) && Fitted(old(K({})), K({}), p, nb)
    {
      hide State, Mem, CoreOk, BinsOk, HeapOk, Live, Fitted;
      newp := 0;
      ghost var k0 := K({});
      HeapNext(c, State(), k0, p);
      DvIsNot(c, State(), k0, p);
      var oldsize := head[p].size;
      var next := p + oldsize;
      if oldsize >= nb {
        var rsize := oldsize - nb;
        if rsize >= MIN_CHUNK_SIZE {
          ReallocShrink(p, nb);
        } else {
          FittedAlready(k0, p, nb);
        }
        newp := p;
      } else if next == top {
        if oldsize + topsize > nb {
          ReallocIntoTop(p, nb);
          newp := p;
        }
      } else if next == dv {
        HeapDv(next);
        if oldsize + dvsize >= nb {
          ReallocIntoDv(p, nb);
          newp := p;
        }
      } else if !head[next].cinuse {
        if oldsize + head[next].size >= nb {
          ReallocIntoNext(p, nb, next);
          newp := p;
        }
      }
    }

    lemma FittedAlready(k: Core, p: int, nb: nat)
      requires p in k.head && nb <= k.head[p].size < nb + MIN_CHUNK_SIZE
      ensures Fitted(k, k, p, nb)
    {
    }

    lemma HeapDv(next: int)
      requires Valid() && next == dv && next in chunks
      ensures dvsize != 0 && IsFree(K({}), next) && head[next].size == dvsize
    {
      hide BinsOk, Tiled;
      if dvsize == 0 { NextHead(c, K({}), next); }
    }
  }
}
