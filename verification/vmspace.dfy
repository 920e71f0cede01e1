/** Address spaces: regions in a red-black tree keyed by their start. */
module VmSpaces {
  import opened PageTables
  import opened Regions
  import opened RbShape
  import opened RbTrees

  class VmRegion {
    var node: RbNode?
    var virtStart: nat
    var virtEnd: nat

    /** vm_region_new. */
    constructor (start: nat, end: nat)
      ensures node == null && virtStart == start && virtEnd == end
    {
      node, virtStart, virtEnd := null, start, end;
    }
  }

  class VmSpace {
    const tree: RbTree
    /** The regions that the data of the nodes point to. */
    var regions: map<int, VmRegion>

    /** Each entry of the tree is a region whose back pointer leads to the node. */
    ghost predicate Registered(c: map<int, int>)
      reads `regions, tree`nodes, regions.Values`node
    {
      forall k :: k in c ==> k >= 0 && c[k] in regions && HasNode(regions[c[k]], k)
    }

    ghost predicate HasNode(r: VmRegion, k: int)
      reads r`node, tree`nodes
    {
      r.node != null && r.node in tree.nodes && r.node.key == k
    }

    /** The regions by key. */
    ghost function SpansOf(c: map<int, int>): Space
      requires Registered(c)
      reads `regions, tree`nodes, regions.Values
    {
      map k: nat | k in c :: Span(regions[c[k]].virtStart, regions[c[k]].virtEnd)
    }

    ghost predicate Valid()
      reads this, tree, tree.nodes, regions.Values
    {
      tree.Valid() && Registered(tree.Contents()) && Ordered(SpansOf(tree.Contents()))
    }

    ghost function Spans(): Space
      requires Valid()
      reads this, tree, tree.nodes, regions.Values
    {
      SpansOf(tree.Contents())
    }

    /** The region at a key. */
    ghost function Named(k: int): VmRegion?
      requires Valid()
      reads this, tree, tree.nodes, regions.Values
    {
      if k in tree.Contents() then regions[tree.Contents()[k]] else null
    }

    /** vm_space_new. */
    constructor ()
      ensures Valid() && Spans() == map[] && fresh(tree) && tree.nodes == {} && regions == map[]
    {
      tree := new RbTree();
      regions := map[];
    }

    lemma FoundLeft(a: int, r: RbNode?)
      requires Valid() && Closest(Inorder(tree.tree), a, Leftwards, r)
      ensures IsFloor(Spans(), a, if r == null then -1 else r.key)
        && Floor(Spans(), a) == if r == null then -1 else r.key
      ensures r != null ==> r.key >= 0 && r.key in Spans() && r.data in regions && regions[r.data] == Named(r.key)
      ensures r != null ==> Spans()[r.key] == Span(regions[r.data].virtStart, regions[r.data].virtEnd)
    {
      hide RbTree.Valid, RbTree.Contents, Inorder, Closest, Ordered;
      tree.ClosestKey(a, Leftwards, r);
    }

    lemma FoundRight(a: int, r: RbNode?)
      requires Valid() && Closest(Inorder(tree.tree), a, Rightwards, r)
      ensures IsCeiling(Spans(), a, if r == null then -1 else r.key)
        && Ceiling(Spans(), a) == if r == null then -1 else r.key
      ensures r != null ==> r.key >= 0 && r.key in Spans() && r.data in regions && regions[r.data] == Named(r.key)
      ensures r != null ==> Spans()[r.key] == Span(regions[r.data].virtStart, regions[r.data].virtEnd)
    {
      hide RbTree.Valid, RbTree.Contents, Inorder, Closest, Ordered;
      tree.ClosestKey(a, Rightwards, r);
    }

    /** rbtree_search in the tree of regions. */
    method Search(key: nat, mode: Mode) returns (r: RbNode?)
      requires Valid()
      modifies tree`cachedKey, tree`cachedNode, tree`cachedMode
      ensures Valid() && Spans() == old(Spans()) && Closest(Inorder(tree.tree), key, mode, r)
      ensures forall k :: Named(k) == old(Named(k))
    {
      hide RbTree.Contents, RbTree.Placed, RedBlack, Threaded, Inorder, Closest, Ordered;
      ghost var steps;
      r, steps := tree.Search(key, mode);
    }

    lemma NamedNone()
      requires Valid()
      ensures Named(-1) == null
    {
    }

    /** vm_space_find_first_in_range. */
    method FindFirstInRange(start: nat, pages: nat) returns (r: VmRegion?)
      requires Valid() && start < BYTES
      modifies tree`cachedKey, tree`cachedNode, tree`cachedMode
      ensures Valid() && Spans() == old(Spans()) && forall k :: Named(k) == old(Named(k))
      ensures r == Named(FirstInRange(Spans(), start, RangeLast(start, pages)))
    {
      hide RbTree.Valid, RbTree.Contents, Inorder, Closest, Ordered, Valid, Spans, Named, RangeLast, IsFloor,
        IsCeiling, Floor, Ceiling;
      var leftwards := Search(start, Leftwards);
      var rightwards := Search(start, Rightwards);
      FoundLeft(start, leftwards);
      FoundRight(start, rightwards);
      NamedNone();
      if leftwards != null {
        var regionPrev := regions[leftwards.data];
        if start <= regionPrev.virtEnd { return regionPrev; }
      }
      if rightwards != null {
        var regionNext := regions[rightwards.data];
        if regionNext.virtStart < RangeLast(start, pages) { return regionNext; }
      }
      r := null;
    }

    /** vm_space_find_region. */
    method FindRegion(virt: nat) returns (r: VmRegion?)
      requires Valid() && virt < BYTES
      modifies tree`cachedKey, tree`cachedNode, tree`cachedMode
      ensures Valid() && Spans() == old(Spans()) && forall k :: Named(k) == old(Named(k))
      ensures r == Named(RegionAt(Spans(), virt))
    {
      hide RbTree.Valid, RbTree.Contents, Inorder, Closest, Ordered, Valid, Spans, Named, IsFloor, IsCeiling, Floor,
        Ceiling;
      var node := Search(virt, Leftwards);
      FoundLeft(virt, node);
      NamedNone();
      if node != null {
        var region := regions[node.data];
        if region.virtStart <= virt <= region.virtEnd { return region; }
      }
      r := null;
    }

    /** vm_space_add_region, up to the update of the page tables; nodeAvailable tells whether the allocator can
        supply the node. */
    method AddRegion(id: int, region: VmRegion, nodeAvailable: bool) returns (ok: bool)
      requires Valid() && id !in regions && region !in regions.Values && SpanOk(Span(region.virtStart, region.virtEnd))
      modifies `regions, tree, tree.nodes, region`node
      ensures Valid() && ok == (nodeAvailable && Accepts(old(Spans()), Add(Span(region.virtStart, region.virtEnd))))
      ensures Spans() == if nodeAvailable then Step(old(Spans()), Add(Span(region.virtStart, region.virtEnd)))
          else old(Spans())
      ensures ok ==> Named(region.virtStart) == region && regions == old(regions)[id := region]
      ensures forall k :: k in old(Spans()) ==> Named(k) == old(Named(k))
    {
      hide RbTree.Valid, RbTree.Contents, Valid, Spans, Named, Ordered, RangeLast, SpanOk, PagesOf, FirstInRange;
      var v := Span(region.virtStart, region.virtEnd);
      ghost var m := Spans();
      ValidSpans();
      RangeIsRegion(v);
      SpanFacts(v);
      FirstInRangeIs(m, v.first, v.last);
      var found := FindFirstInRange(region.virtStart, PagesOf(v));
      NamedIff(FirstInRange(m, v.first, v.last));
      if found != null { return false; }
      AddKeeps(m, v);
      ok := InsertRegion(id, region, nodeAvailable);
    }

    lemma ValidSpans()
      requires Valid()
      ensures Ordered(Spans()) && tree.Valid()
    {
    }

    method InsertRegion(id: int, region: VmRegion, nodeAvailable: bool) returns (ok: bool)
      requires Valid() && id !in regions && region !in regions.Values && region.virtStart !in Spans()
      requires Ordered(Spans()[region.virtStart := Span(region.virtStart, region.virtEnd)])
      modifies `regions, tree, tree.nodes, region`node
      ensures Valid() && ok == nodeAvailable
      ensures Spans() == if ok then old(Spans())[region.virtStart := Span(region.virtStart, region.virtEnd)]
          else old(Spans())
      ensures ok ==> Named(region.virtStart) == region && regions == old(regions)[id := region]
      ensures forall k :: k in old(Spans()) ==> Named(k) == old(Named(k))
    {
      hide RbTree.Contents, RbTree.Placed, RedBlack, Threaded, Inorder, Closest, Ordered;
      ghost var m, c := Spans(), tree.Contents();
      var r, node := tree.Insert(region.virtStart, id, nodeAvailable);
      if r == -1 { return false; }
      region.node := node;
      regions := regions[id := region];
      ok := true;
      assert SpansOf(c) == m;
      RegisteredWith(c, id, region.virtStart);
    }

    lemma RegisteredWith(c: map<int, int>, id: int, k: nat)
      requires tree.Valid() && tree.Contents() == c[k := id] && id in regions && HasNode(regions[id], k)
      requires Registered(c) && Ordered(SpansOf(c)[k := Span(regions[id].virtStart, regions[id].virtEnd)])
      ensures Valid() && Spans() == SpansOf(c)[k := Span(regions[id].virtStart, regions[id].virtEnd)]
      ensures Named(k) == regions[id] && forall j :: j in c && j != k ==> Named(j) == regions[c[j]]
    {
      hide RbTree.Contents, RbTree.Placed, RedBlack, Threaded, Inorder, Closest, Ordered;
      assert SpansOf(tree.Contents()) == SpansOf(c)[k := Span(regions[id].virtStart, regions[id].virtEnd)];
    }

    lemma NamedSpan(k: int)
      requires Valid() && Named(k) != null
      ensures k >= 0 && k in Spans() && Spans()[k] == Span(Named(k).virtStart, Named(k).virtEnd)
    {
      hide RbTree.Contents, RbTree.Placed, RbTree.Valid, Ordered;
    }

    lemma NamedIff(k: int)
      requires Valid()
      ensures Named(k) == null <==> k !in Spans()
    {
    }

    lemma NeighboursOf(node: RbNode)
      requires Valid() && node in tree.nodes
      ensures var l := Floor(Spans(), node.key - 1);
        && l == (if node.prev == null then -1 else node.prev.key)
        && (node.prev != null ==>
             l >= 0 && node.prev.data in regions && Spans()[l].last == regions[node.prev.data].virtEnd)
      ensures var r := Ceiling(Spans(), node.key + 1);
        && r == (if node.next == null then -1 else node.next.key)
        && (node.next != null ==>
             r >= 0 && node.next.data in regions && Spans()[r].first == regions[node.next.data].virtStart)
    {
      hide RbTree.Contents, RbTree.Placed, RedBlack, Threaded, Inorder, Closest, Ordered, Valid, Spans, Named, Floor,
        Ceiling, IsFloor, IsCeiling;
      ValidSpans();
      tree.ThreadIsClosest(node);
      FoundLeft(node.key - 1, node.prev);
      FoundRight(node.key + 1, node.next);
    }

    /** vm_region_resize, where agrees is the answer of the region's own resize operation. The result is the space
        that Step gives; it stays well formed unless the size wraps to nothing. */
    method Resize(region: VmRegion, start: nat, pages: nat, agrees: bool) returns (ok: bool)
      requires Valid() && region.node != null && Named(region.node.key) == region && start < BYTES && pages < BYTES
      modifies region`virtStart, region`virtEnd
      ensures tree.Valid() && Registered(tree.Contents())
      ensures ok == (agrees && Accepts(old(Spans()), Regions.Resize(region.node.key, start, pages)))
      ensures SpansOf(tree.Contents()) ==
        if agrees then Step(old(Spans()), Regions.Resize(region.node.key, start, pages)) else old(Spans())
      ensures Valid() <==> !ok || pages % PAGES != 0 || (NewStart(start) == 0 && forall j :: j in old(Spans()) ==>
           j <= region.node.key)
    {
      hide RbTree.Contents, RbTree.Placed, RedBlack, Threaded, Inorder, Closest, Ordered, Floor, Ceiling, IsFloor,
        IsCeiling, SpanOk;
      ghost var m, k := Spans(), region.node.key;
      var first, end := NewStart(start), NewEnd(start, pages);
      if end < first { return false; }
      NeighboursOf(region.node);
      var prev, next := region.node.prev, region.node.next;
      if prev != null && first <= regions[prev.data].virtEnd { return false; }
      if next != null && regions[next.data].virtStart < end { return false; }
      if !agrees { return false; }
      ResizeKeepsIff(m, k, start, pages);
      region.virtStart, region.virtEnd := first, (end - 1) % BYTES;
      ok := true;
      assert SpansOf(tree.Contents()) == m[k := NewSpan(start, pages)];
    }
  }
}
