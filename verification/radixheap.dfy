/** Radix trees in memory: nodes that are broken, filled and tagged in place. */
module RadixHeap {
  import opened RadixKeys
  import opened RadixTrees

  /** The fields of a node. */
  datatype Fields = Fields(key: nat, keylen: nat, cells: seq<Cell>, tags: seq<nat>)

  type Memory = map<RadixNode, Fields>

  function SlotCells(slots: seq<nat>): seq<Cell>
  {
    seq(|slots|, i requires 0 <= i < |slots| => if slots[i] == 0 then Empty else Slot(slots[i]))
  }

  function KidCells(kids: seq<Tree>): seq<Cell>
  {
    seq(|kids|, i requires 0 <= i < |kids| => if kids[i].Nil? then Empty else Kid(kids[i].n))
  }

  /** The nodes hold t. */
  predicate Holds(m: Memory, t: Tree)
  {
    match t
    case Nil => true
    case Bottom(n, key, len, slots, tags) => n in m && m[n] == Fields(key, len, SlotCells(slots), tags)
    case Inner(n, key, len, kids) =>
      && n in m && m[n].key == key && m[n].keylen == len && m[n].cells == KidCells(kids)
      && forall i :: 0 <= i < |kids| ==> Holds(m, kids[i])
  }

  function Nodes(t: Tree): set<RadixNode>
  {
    match t
    case Nil => {}
    case Bottom(n, _, _, _, _) => {n}
    case Inner(n, _, _, kids) => {n} + set i, x | 0 <= i < |kids| && x in Nodes(kids[i]) :: x
  }

  /** Distinct places of the tree have distinct nodes. */
  predicate Apart(t: Tree)
  {
    t.Inner? ==>
      && (forall i :: 0 <= i < |t.kids| ==> t.n !in Nodes(t.kids[i]) && Apart(t.kids[i]))
      && (forall i, j :: 0 <= i < j < |t.kids| ==> Nodes(t.kids[i]) !! Nodes(t.kids[j]))
  }

  lemma KidNodes(t: Tree, i: nat)
    requires t.Inner? && i < |t.kids|
    ensures Nodes(t.kids[i]) <= Nodes(t)
  {
    forall x | x in Nodes(t.kids[i]) ensures x in Nodes(t) {}
  }

  lemma {:induction false} HoldsFrame(m: Memory, m': Memory, t: Tree)
    requires Holds(m, t) && forall x :: x in Nodes(t) && x in m ==> x in m' && m'[x] == m[x]
    ensures Holds(m', t)
    decreases t
  {
    if t.Inner? {
      forall i | 0 <= i < |t.kids| ensures Holds(m', t.kids[i]) {
        KidNodes(t, i);
        HoldsFrame(m, m', t.kids[i]);
      }
    }
  }

  lemma {:induction false} HeldNodes(m: Memory, t: Tree)
    requires Holds(m, t)
    ensures Nodes(t) <= m.Keys
    decreases t
  {
    if t.Inner? {
      forall x | x in Nodes(t) ensures x in m {
        if x != t.n {
          var i :| 0 <= i < |t.kids| && x in Nodes(t.kids[i]);
          HeldNodes(m, t.kids[i]);
        }
      }
    }
  }

  /** A child changes within its own nodes and some new ones. */
  lemma KidHeld(m: Memory, m': Memory, t: Tree, i: nat, u: Tree, added: set<RadixNode>)
    requires t.Inner? && i < |t.kids| && Holds(m, t) && Apart(t) && !t.kids[i].Nil?
    requires !u.Nil? && u.n == t.kids[i].n && Holds(m', u) && Apart(u)
    requires Nodes(u) <= Nodes(t.kids[i]) + added && added !! Nodes(t)
    requires forall x :: x in m && x !in Nodes(t.kids[i]) ==> x in m' && m'[x] == m[x]
    ensures Holds(m', WithKid(t, i, u)) && Apart(WithKid(t, i, u)) && Nodes(WithKid(t, i, u)) <= Nodes(t) + added
  {
    var r := WithKid(t, i, u);
    forall j | 0 <= j < |t.kids|
      ensures Holds(m', r.kids[j]) && t.n !in Nodes(r.kids[j]) && Nodes(r.kids[j]) <= Nodes(t) + added
    {
      KidNodes(t, j);
      KidNodes(t, i);
      if j != i { HoldsFrame(m, m', t.kids[j]); }
    }
    assert m'[t.n] == m[t.n];
    assert KidCells(r.kids) == KidCells(t.kids);
    forall j, k | 0 <= j < k < |t.kids| ensures Nodes(r.kids[j]) !! Nodes(r.kids[k]) {
      KidNodes(t, j);
      KidNodes(t, k);
    }
  }

  /** A new child in an empty place. */
  lemma KidAdded(m: Memory, m': Memory, t: Tree, i: nat, u: Tree)
    requires t.Inner? && i < |t.kids| && Holds(m, t) && Apart(t) && t.kids[i].Nil?
    requires u.Bottom? && Holds(m', u) && u.n !in Nodes(t) && t.n in m
    requires forall x :: x in m && x != t.n ==> x in m' && m'[x] == m[x]
    requires t.n in m' && m'[t.n] == m[t.n].(cells := m[t.n].cells[i := Kid(u.n)])
    ensures Holds(m', WithKid(t, i, u)) && Apart(WithKid(t, i, u)) && Nodes(WithKid(t, i, u)) <= Nodes(t) + {u.n}
  {
    var r := WithKid(t, i, u);
    forall j | 0 <= j < |t.kids|
      ensures Holds(m', r.kids[j]) && t.n !in Nodes(r.kids[j]) && Nodes(r.kids[j]) <= Nodes(t) + {u.n}
    {
      KidNodes(t, j);
      if j != i { HoldsFrame(m, m', t.kids[j]); }
    }
    assert KidCells(r.kids) == KidCells(t.kids)[i := Kid(u.n)];
    forall j, k | 0 <= j < k < |t.kids| ensures Nodes(r.kids[j]) !! Nodes(r.kids[k]) {
      KidNodes(t, j);
      KidNodes(t, k);
    }
  }

  /** A node broken in two: its old fields move to dup. */
  lemma BrokenHeld(m: Memory, m': Memory, t: Tree, off: nat, e: nat, dup: RadixNode)
    requires !t.Nil? && Ok(t, off) && off <= e < off + t.len <= KEYLEN_MAX - 1 && Holds(m, t) && Apart(t)
      && dup !in Nodes(t) && t.n in m
    requires forall x :: x in m && x != t.n && x != dup ==> x in m' && m'[x] == m[x]
    requires dup in m' && m'[dup] == m[t.n].(keylen := off + t.len - e)
    requires t.n in m' && m'[t.n].key == t.key && m'[t.n].keylen == e - off
    requires m'[t.n].cells == seq(SLOTS, _ => Empty)[LetterAt(t.key, e) := Kid(dup)]
    ensures var r := Broken(t, off, e, dup);
      Holds(m', r) && Apart(r) && Nodes(r) <= Nodes(t) + {dup}
  {
    hide Prefix, LetterAt, Ok, Lowered;
    LoweredRoot(t, dup, off + t.len - e);
    LoweredHeld(m, m', t, dup, off + t.len - e);
    var r := Broken(t, off, e, dup);
    assert KidCells(r.kids) == seq(SLOTS, _ => Empty)[LetterAt(t.key, e) := Kid(dup)];
    forall i, j | 0 <= i < j < |r.kids| ensures Nodes(r.kids[i]) !! Nodes(r.kids[j]) {}
  }

  lemma LoweredRoot(t: Tree, dup: RadixNode, len: nat)
    requires !t.Nil?
    ensures !Lowered(t, dup, len).Nil? && Lowered(t, dup, len).n == dup
  {
  }

  lemma LoweredHeld(m: Memory, m': Memory, t: Tree, dup: RadixNode, len: nat)
    requires !t.Nil? && Holds(m, t) && Apart(t) && dup !in Nodes(t) && t.n in m
    requires forall x :: x in m && x != t.n && x != dup ==> x in m' && m'[x] == m[x]
    requires dup in m' && m'[dup] == m[t.n].(keylen := len)
    ensures Holds(m', Lowered(t, dup, len)) && Apart(Lowered(t, dup, len))
    ensures Nodes(Lowered(t, dup, len)) <= Nodes(t) - {t.n} + {dup}
  {
    if t.Inner? {
      forall i | 0 <= i < |t.kids| ensures Holds(m', t.kids[i]) && dup !in Nodes(t.kids[i]) {
        KidNodes(t, i);
        HoldsFrame(m, m', t.kids[i]);
      }
    }
  }

  lemma SlotWritten(slots: seq<nat>, i: nat, data: nat)
    requires i < |slots|
    ensures SlotCells(slots[i := data]) == SlotCells(slots)[i := if data == 0 then Empty else Slot(data)]
  {
  }

  lemma NewBottomCells(leaf: RadixNode, key: nat, len: nat, data: nat)
    requires key < KEY_RANGE
    ensures var u := NewBottom(leaf, key, len, data);
      && u.tags == seq(SLOTS, _ => 0)
      && SlotCells(u.slots) == seq(SLOTS, _ => Empty)[LetterAt(key, KEYLEN_MAX - 1) := if data == 0 then Empty
          else Slot(data)]
  {
  }

  /** The nodes that an insertion allocates: two for a break, one for a new leaf. */
  function Allocations(t: Tree, key: nat, off: nat): nat
    requires CanInsert(t, key, off)
    decreases t
  {
    var acc := off + t.len;
    if EqualSize(key, t.key, acc) < acc then 2
    else if t.Bottom? then 0
    else if t.kids[LetterAt(key, acc)].Nil? then 1
    else KidCanInsert(t, key, off); Allocations(t.kids[LetterAt(key, acc)], key, acc)
  }

  lemma LikenessIs(a: nat, b: nat, len: nat)
    requires len <= KEYLEN_MAX && a < KEY_RANGE && b < KEY_RANGE
    ensures EqualSize(a, b, len) == len <==> Prefix(a, len) == Prefix(b, len)
  {
    hide Prefix, LetterAt;
    var e := EqualSize(a, b, len);
    if e < len && Prefix(a, len) == Prefix(b, len) { PrefixShorter(a, b, e + 1, len); }
  }

  /** The nodes that setting a key allocates. */
  function NodesFor(t: Tree, key: nat): nat
    requires Ok(t, 0) && key < KEY_RANGE
  {
    if t.Nil? then 1 else Allocations(t, key, 0)
  }

  lemma AllocationsHere(t: Tree, key: nat, off: nat)
    requires CanInsert(t, key, off)
    ensures EqualSize(key, t.key, off + t.len) < off + t.len ==> Allocations(t, key, off) == 2
    ensures EqualSize(key, t.key, off + t.len) == off + t.len ==>
      && (t.Bottom? ==> Allocations(t, key, off) == 0)
      && (t.Inner? && |t.kids| == SLOTS && t.kids[LetterAt(key, off + t.len)].Nil? ==> Allocations(t, key, off) == 1)
  {
    hide Prefix, LetterAt;
  }

  /** A key that has its slot needs no node, one for an empty tree one, and no key more than two. */
  lemma {:induction false} AllocationsSlot(t: Tree, key: nat, off: nat)
    requires CanInsert(t, key, off)
    ensures Allocations(t, key, off) <= 2
    ensures Allocations(t, key, off) == 0 <==> HasSlot(t, key, off)
    decreases t
  {
    hide Prefix, LetterAt;
    var acc := off + t.len;
    LikenessIs(key, t.key, acc);
    if EqualSize(key, t.key, acc) == acc && t.Inner? {
      var kid := t.kids[LetterAt(key, acc)];
      if kid.Nil? {
        assert At(kid, key, acc).Nil?;
      } else {
        KidCanInsert(t, key, off);
        AllocationsSlot(kid, key, acc);
      }
    }
  }

  lemma NodesForSlot(t: Tree, key: nat)
    requires Ok(t, 0) && key < KEY_RANGE
    ensures NodesFor(t, key) <= 2
    ensures NodesFor(t, key) == 0 <==> HasSlot(t, key, 0)
    ensures t.Nil? ==> NodesFor(t, key) == 1
  {
    hide Ok, Allocations;
    if !t.Nil? { AllocationsSlot(t, key, 0); }
  }

  /** Writing a tag at the bottom node of a key. */
  lemma {:induction false} TagWritten(m: Memory, t: Tree, key: nat, off: nat, tag: nat)
    requires Ok(t, off) && key < KEY_RANGE && HasSlot(t, key, off) && Holds(m, t) && Apart(t)
    ensures var b := At(t, key, off);
      && b.n in Nodes(t) && b.n in m && m[b.n].tags == b.tags
      && var m' := m[b.n := m[b.n].(tags := b.tags[LetterAt(key, KEYLEN_MAX - 1) := tag])];
      && Holds(m', SetTag(t, key, off, tag)) && Apart(SetTag(t, key, off, tag))
      && Nodes(SetTag(t, key, off, tag)) == Nodes(t)
    decreases t
  {
    hide Prefix, LetterAt, SetTag, At, Ok, KidOk, Holds, Apart, Nodes;
    if t.Bottom? {
      TagAtBottom(m, t, key, off, tag);
    } else {
      TagParts(m, t, key, off);
      SetTagStep(t, key, off, tag);
      var i, acc := LetterAt(key, off + t.len), off + t.len;
      KidNodes(t, i);
      TagWritten(m, t.kids[i], key, acc, tag);
      SetTagOnly(t.kids[i], key, acc, tag, key);
      var b := At(t, key, off);
      KidHeld(m, m[b.n := m[b.n].(tags := b.tags[LetterAt(key, KEYLEN_MAX - 1) := tag])], t, i, SetTag(t.kids[i],
          key, acc, tag), {});
      KidGains(t, i, SetTag(t.kids[i], key, acc, tag), {});
    }
  }

  lemma TagAtBottom(m: Memory, t: Tree, key: nat, off: nat, tag: nat)
    requires t.Bottom? && Ok(t, off) && key < KEY_RANGE && HasSlot(t, key, off) && Holds(m, t)
    ensures At(t, key, off) == t && t.n in Nodes(t) && t.n in m && m[t.n].tags == t.tags
    ensures var m' := m[t.n := m[t.n].(tags := t.tags[LetterAt(key, KEYLEN_MAX - 1) := tag])];
      Holds(m', SetTag(t, key, off, tag)) && Apart(SetTag(t, key, off, tag))
        && Nodes(SetTag(t, key, off, tag)) == Nodes(t)
  {
    hide Prefix, LetterAt;
  }

  /** The parts of a tree on the way to a key's bottom node. */
  lemma TagParts(m: Memory, t: Tree, key: nat, off: nat)
    requires Ok(t, off) && key < KEY_RANGE && HasSlot(t, key, off) && Holds(m, t) && Apart(t) && !t.Bottom?
    ensures t.Inner? && off + t.len < KEYLEN_MAX - 1 && |t.kids| == SLOTS
    ensures var i, acc := LetterAt(key, off + t.len), off + t.len;
      && !t.kids[i].Nil? && Ok(t.kids[i], acc) && HasSlot(t.kids[i], key, acc) && Holds(m, t.kids[i])
      && Apart(t.kids[i])
      && At(t, key, off) == At(t.kids[i], key, acc)
  {
    hide Prefix, LetterAt, Nodes;
    var i, acc := LetterAt(key, off + t.len), off + t.len;
    assert t.kids[i].Nil? ==> At(t.kids[i], key, acc).Nil?;
  }

  lemma SetTagStep(t: Tree, key: nat, off: nat, tag: nat)
    requires Ok(t, off) && key < KEY_RANGE && HasSlot(t, key, off) && t.Inner?
    ensures var i, acc := LetterAt(key, off + t.len), off + t.len;
      Ok(t.kids[i], acc) && HasSlot(t.kids[i], key, acc)
        && SetTag(t, key, off, tag) == WithKid(t, i, SetTag(t.kids[i], key, acc, tag))
  {
    hide Prefix, LetterAt;
  }

  /** A child that has gained nodes makes the tree gain the same. */
  lemma KidGains(t: Tree, i: nat, u: Tree, added: set<RadixNode>)
    requires t.Inner? && i < |t.kids| && Nodes(u) == Nodes(t.kids[i]) + added
    ensures Nodes(WithKid(t, i, u)) == Nodes(t) + added
  {
    var r := WithKid(t, i, u);
    assert forall j :: 0 <= j < |t.kids| ==> Nodes(t.kids[j]) <= Nodes(r.kids[j]);
    forall x | x in Nodes(t) + added && x != t.n ensures x in Nodes(r) {
      if x in added {
        assert x in Nodes(r.kids[i]);
      } else {
        var j :| 0 <= j < |t.kids| && x in Nodes(t.kids[j]);
        assert x in Nodes(r.kids[j]);
      }
    }
    forall x | x in Nodes(r) && x != t.n ensures x in Nodes(t) + added {
      var j :| 0 <= j < |r.kids| && x in Nodes(r.kids[j]);
      assert x !in added ==> x in Nodes(t.kids[j]);
    }
  }

  /** A broken node has one more beside it. */
  lemma BrokenGains(t: Tree, off: nat, e: nat, dup: RadixNode)
    requires !t.Nil? && off <= e < off + t.len <= KEYLEN_MAX - 1
    ensures Nodes(Broken(t, off, e, dup)) == Nodes(t) + {dup}
  {
    hide Prefix, LetterAt;
    var r := Broken(t, off, e, dup);
    LoweredNodes(t, dup, off + t.len - e);
    assert r.kids[LetterAt(t.key, e)] == Lowered(t, dup, off + t.len - e);
    assert forall j :: 0 <= j < |r.kids| && j != LetterAt(t.key, e) ==> Nodes(r.kids[j]) == {};
    forall x | x in Nodes(Lowered(t, dup, off + t.len - e)) ensures x in Nodes(r) {}
  }

  lemma LoweredNodes(t: Tree, dup: RadixNode, len: nat)
    requires !t.Nil?
    ensures Nodes(Lowered(t, dup, len)) + {t.n} == Nodes(t) + {dup}
  {
  }

  class RadixTree {
    var root: RadixNode?

    /** How many more nodes the kernel's allocator can supply. */
    var supply: nat

    // what the nodes represent
    ghost var nodes: set<RadixNode>
    ghost var tree: Tree

    ghost function Mem(): Memory
      reads `nodes, nodes
    {
      map n | n in nodes :: Fields(n.key, n.keylen, n.cells, n.tags)
    }

    /** The nodes hold a well-formed subtree at letter offset off. */
    ghost predicate Held(t: Tree, off: nat)
      reads `nodes, nodes
    {
      Holds(Mem(), t) && Apart(t) && Ok(t, off)
    }

    ghost predicate Valid()
      reads this, nodes
    {
      Held(tree, 0) && Nodes(tree) == nodes && root == if tree.Nil? then null else tree.n
    }

    constructor (supply: nat)
      ensures Valid() && tree.Nil? && this.supply == supply && nodes == {}
    {
      root, this.supply, nodes, tree := null, supply, {}, Nil;
    }

    lemma NodeFields(t: Tree, off: nat)
      requires Held(t, off) && !t.Nil?
      ensures t.n in nodes && t.n.key == t.key && t.n.keylen == t.len && Nodes(t) <= nodes && t.n in Nodes(t)
      ensures t.Bottom? ==> t.n.cells == SlotCells(t.slots) && t.n.tags == t.tags && off + t.len == KEYLEN_MAX - 1
      ensures t.Inner? ==> t.n.cells == KidCells(t.kids) && off + t.len < KEYLEN_MAX - 1
      ensures t.key < KEY_RANGE && |t.n.cells| == SLOTS
    {
      hide Prefix, LetterAt;
      HeldNodes(Mem(), t);
      assert Mem()[t.n] == Fields(t.n.key, t.n.keylen, t.n.cells, t.n.tags);
    }

    lemma KidIsHeld(t: Tree, off: nat, i: nat)
      requires Held(t, off) && t.Inner? && i < SLOTS
      ensures |t.kids| == SLOTS && Held(t.kids[i], off + t.len) && Nodes(t.kids[i]) <= Nodes(t)
        && t.n !in Nodes(t.kids[i])
      ensures |t.n.cells| == SLOTS && t.n.cells[i] == if t.kids[i].Nil? then Empty else Kid(t.kids[i].n)
    {
      hide Prefix, LetterAt;
      NodeFields(t, off);
      KidNodes(t, i);
    }

    // ---- lookup ----

    /** __radix_tree_node_lookup_slot and __radix_tree_node_lookup_tag: the node and the index of the key's
        slot and tag, or null. */
    method NodeLookup(node: RadixNode, key: nat, offset: nat, ghost t: Tree) returns (at: RadixNode?, sub: nat)
      requires Held(t, offset) && !t.Nil? && t.n == node && key < KEY_RANGE
      ensures at == if HasSlot(t, key, offset) then At(t, key, offset).n else null
      ensures sub == LetterAt(key, KEYLEN_MAX - 1)
      decreases t
    {
      hide Prefix, LetterAt, Held, Mem;
      NodeFields(t, offset);
      HeldOk(t, offset);
      var acclen := offset + node.keylen;
      sub := LetterAt(key, KEYLEN_MAX - 1);
      var likeness := KeyEqualSize(key, node.key, acclen);
      LikenessIs(key, node.key, acclen);
      if likeness < acclen { return null, sub; }
      if acclen < KEYLEN_MAX - 1 {
        var i := LetterAt(key, likeness);
        KidIsHeld(t, offset, i);
        if node.cells[i] == Empty {
          NoKidNoSlot(t, offset, key);
          return null, sub;
        }
        at, sub := NodeLookup(node.cells[i].node, key, acclen, t.kids[i]);
      } else {
        at := node;
      }
    }

    lemma HeldOk(t: Tree, off: nat)
      requires Held(t, off)
      ensures Ok(t, off) && (t.Inner? ==> |t.kids| == SLOTS)
    {
    }

    lemma NoKidNoSlot(t: Tree, off: nat, k: nat)
      requires t.Inner? && Ok(t, off) && k < KEY_RANGE && t.kids[LetterAt(k, off + t.len)].Nil?
      ensures !HasSlot(t, k, off)
    {
      hide Prefix, LetterAt;
      assert At(t.kids[LetterAt(k, off + t.len)], k, off + t.len).Nil?;
    }

    /** radix_tree_lookup_slot and radix_tree_lookup_tag, with what they point to. */
    method Lookup(key: nat) returns (found: bool, data: nat, tag: nat)
      requires Valid() && key < KEY_RANGE
      ensures found <==> HasSlot(tree, key, 0)
      ensures found ==> data == Value(tree, key, 0) && tag == Tag(tree, key, 0)
      ensures !found ==> Value(tree, key, 0) == 0 && Tag(tree, key, 0) == 0
    {
      hide Prefix, LetterAt, Held, Mem;
      found, data, tag := false, 0, 0;
      HeldOk(tree, 0);
      if root != null {
        var at, sub := NodeLookup(root, key, 0, tree);
        if at != null {
          BottomFields(tree, key, 0);
          found, data, tag := true, if at.cells[sub] == Empty then 0 else at.cells[sub].data, at.tags[sub];
        }
      }
    }

    /** The bottom node of a key, as it stands in memory. */
    lemma {:induction false} BottomFields(t: Tree, key: nat, off: nat)
      requires Held(t, off) && key < KEY_RANGE && HasSlot(t, key, off)
      ensures var b := At(t, key, off);
        b.n in Nodes(t) && b.n in nodes && b.n.cells == SlotCells(b.slots) && b.n.tags == b.tags
      decreases t
    {
      hide Prefix, LetterAt;
      NodeFields(t, off);
      if t.Inner? {
        KidIsHeld(t, off, LetterAt(key, off + t.len));
        BottomFields(t.kids[LetterAt(key, off + t.len)], key, off + t.len);
      }
    }

    /** radix_tree_set_tag. */
    method WriteTag(key: nat, tag: nat) returns (ok: bool)
      requires Valid() && key < KEY_RANGE && root != null
      modifies nodes, `tree
      ensures Valid() && nodes == old(nodes)
      ensures ok <==> HasSlot(old(tree), key, 0)
      ensures tree == if ok then SetTag(old(tree), key, 0, tag) else old(tree)
    {
      hide Prefix, LetterAt, Holds, Apart, Ok, SetTag, Nodes, At;
      var at, sub := NodeLookup(root, key, 0, tree);
      if at == null { return false; }
      ghost var m := Mem();
      TagWritten(m, tree, key, 0, tag);
      BottomFields(tree, key, 0);
      SetTagOnly(tree, key, 0, tag, key);
      ghost var b := At(tree, key, 0);
      at.tags := at.tags[sub := tag];
      tree := SetTag(tree, key, 0, tag);
      assert Mem() == m[b.n := m[b.n].(tags := b.tags[LetterAt(key, KEYLEN_MAX - 1) := tag])];
      ok := true;
    }

    // ---- insertion ----

    /** One more node, if the allocator has any. */
    method NewNode(key: nat, keylen: nat) returns (n: RadixNode?)
      modifies `supply, `nodes
      ensures n == null <==> old(supply) == 0
      ensures n == null ==> nodes == old(nodes) && supply == old(supply) && Mem() == old(Mem())
      ensures n != null ==>
        && fresh(n) && nodes == old(nodes) + {n} && supply == old(supply) - 1
        && Mem() == old(Mem())[n := Fields(key, keylen, seq(SLOTS, _ => Empty), seq(SLOTS, _ => 0))]
    {
      if supply == 0 { return null; }
      n := new RadixNode(key, keylen);
      supply := supply - 1;
      nodes := nodes + {n};
      assert n.cells == seq(SLOTS, _ => Empty) && n.tags == seq(SLOTS, _ => 0);
    }

    method SetCell(n: RadixNode, i: nat, cell: Cell)
      requires n in nodes && i < |n.cells|
      modifies n`cells
      ensures Mem() == old(Mem())[n := old(Mem())[n].(cells := old(Mem())[n].cells[i := cell])]
    {
      n.cells := n.cells[i := cell];
    }

    /** The result of an insertion below a node, and what it may have touched. */
    ghost predicate Inserted(t: Tree, r: Tree, off: nat, before: set<RadixNode>)
      reads `nodes, nodes
    {
      && Held(r, off) && !t.Nil? && !r.Nil? && r.n == t.n && r.key == t.key
      && before <= nodes && Nodes(r) == Nodes(t) + (nodes - before)
    }

    lemma InsertedNothing(t: Tree, off: nat)
      requires Held(t, off) && !t.Nil?
      ensures Inserted(t, t, off, nodes)
    {
      hide Held, Nodes;
    }

    lemma InsertedLeaf(b: Tree, r: Tree, off: nat, n0: set<RadixNode>, leaf: RadixNode)
      requires Held(r, off) && b.Inner? && r.Inner? && r.n == b.n && r.key == b.key
      requires leaf !in n0 && nodes == n0 + {leaf} && Nodes(r) == Nodes(b) + {leaf}
      ensures Inserted(b, r, off, n0) && |nodes| == |n0| + 1
    {
      hide Held, Nodes;
      assert nodes - n0 == {leaf};
    }

    /** An insertion in two steps. */
    lemma InsertedAfter(t: Tree, b: Tree, r: Tree, off: nat, n0: set<RadixNode>, n1: set<RadixNode>)
      requires !t.Nil? && b.Inner? && b.n == t.n && b.key == t.key && n0 <= n1 && Nodes(b) == Nodes(t) + (n1 - n0)
      requires Inserted(b, r, off, n1)
      ensures Inserted(t, r, off, n0)
    {
      hide Held, Nodes;
    }

    /** __radix_tree_break: the node's old self moves one level down. */
    method NodeBreak(node: RadixNode, offset: nat, equalsize: nat, ghost t: Tree)
      returns (ok: bool, ghost dup: RadixNode)
      requires Held(t, offset) && !t.Nil? && t.n == node && offset <= equalsize < offset + t.len
      modifies `supply, `nodes, node
      ensures ok <==> old(supply) > 0
      ensures !ok ==> supply == old(supply) && nodes == old(nodes) && Held(t, offset)
      ensures ok ==>
        && supply == old(supply) - 1 && nodes == old(nodes) + {dup} && fresh(dup) && |nodes| == |old(nodes)| + 1
        && Held(Broken(t, offset, equalsize, dup), offset)
        && Nodes(Broken(t, offset, equalsize, dup)) == Nodes(t) + {dup}
    {
      hide Prefix, LetterAt, Holds, Apart, Ok, Broken, Lowered;
      NodeFields(t, offset);
      ghost var m := Mem();
      dup := node;
      if supply == 0 { return false, dup; }
      var parentKeylen, childKeylen := equalsize - offset, node.keylen - (equalsize - offset);
      var copy := new RadixNode(node.key, node.keylen);
      copy.cells, copy.tags := node.cells, node.tags;
      supply := supply - 1;
      node.cells, node.tags := seq(SLOTS, _ => Empty), seq(SLOTS, _ => 0);
      node.key := copy.key;
      node.keylen := parentKeylen;
      copy.keylen := childKeylen;
      var sub := LetterAt(copy.key, equalsize);
      node.cells := node.cells[sub := Kid(copy)];
      nodes := nodes + {copy};
      dup := copy;
      ok := true;
      HeldNodes(m, t);
      BrokenHeld(m, Mem(), t, offset, equalsize, dup) by {
        assert Mem()[dup] == m[node].(keylen := offset + t.len - equalsize);
      }
      BrokenOk(t, offset, equalsize, dup);
      BrokenGains(t, offset, equalsize, dup);
    }

    lemma BrokenFields(t: Tree, off: nat, e: nat, dup: RadixNode, key: nat)
      requires !t.Nil? && Ok(t, off) && key < KEY_RANGE && off <= e < off + t.len <= KEYLEN_MAX - 1
        && e == EqualSize(key, t.key, off + t.len)
      ensures var b := Broken(t, off, e, dup);
        && b.Inner? && b.n == t.n && b.key == t.key && b.len == e - off && |b.kids| == SLOTS
        && b.kids[LetterAt(key, e)].Nil?
    {
    }

    /** The writes that hang a new leaf with one filled slot below a node. */
    method AddLeaf(node: RadixNode, key: nat, data: nat, offset: nat, acc: nat, ghost b: Tree)
      returns (ok: bool, ghost leaf: RadixNode)
      requires Held(b, offset) && b.Inner? && b.n == node && acc == offset + b.len < KEYLEN_MAX - 1 && key < KEY_RANGE
      requires Prefix(key, acc) == Prefix(b.key, acc) && |b.kids| == SLOTS && b.kids[LetterAt(key, acc)].Nil?
      modifies `supply, `nodes, node
      ensures ok <==> old(supply) > 0
      ensures !ok ==> supply == old(supply) && nodes == old(nodes) && Inserted(b, b, offset, old(nodes))
      ensures ok ==>
        && supply == old(supply) - 1 && nodes == old(nodes) + {leaf} && fresh(leaf) && |nodes| == |old(nodes)| + 1
        && Inserted(b, WithKid(b, LetterAt(key, acc), NewBottom(leaf, key, KEYLEN_MAX - 1 - acc, data)), offset,
             old(nodes))
    {
      hide Prefix, LetterAt, Holds, Apart, Ok, NewBottom, WithKid, Mem, Inserted;
      NodeFields(b, offset);
      leaf := node;
      ghost var m := Mem();
      MemDomain();
      var child := NewNode(key, KEYLEN_MAX - 1 - acc);
      if child == null {
        InsertedNothing(b, offset);
        return false, leaf;
      }
      ok, leaf := true, child;
      ghost var i, u := LetterAt(key, acc), NewBottom(leaf, key, KEYLEN_MAX - 1 - acc, data);
      MemDomain();
      SetCell(node, LetterAt(key, acc), Kid(child));
      SetCell(child, LetterAt(key, KEYLEN_MAX - 1), if data == 0 then Empty else Slot(data));
      LeafHeld(m, Mem(), leaf, key, acc, data);
      KidAdded(m, Mem(), b, i, u);
      NewBottomAt(leaf, key, acc, data, key);
      WithKidOk(b, offset, i, u) by { LeafKidOk(leaf, key, acc, data, b.key); }
      KidGains(b, i, u, {leaf});
      WithKidFields(b, i, u);
      InsertedLeaf(b, WithKid(b, i, u), offset, old(nodes), leaf);
    }

    lemma MemDomain()
      ensures Mem().Keys == nodes
      ensures forall n :: n in nodes ==> n in Mem() && Mem()[n] == Fields(n.key, n.keylen, n.cells, n.tags)
    {
    }

    lemma LeafHeld(m: Memory, m': Memory, leaf: RadixNode, key: nat, acc: nat, data: nat)
      requires key < KEY_RANGE && acc < KEYLEN_MAX - 1 && leaf in m'
      requires m'[leaf] == Fields(key, KEYLEN_MAX - 1 - acc,
        seq(SLOTS, _ => Empty)[LetterAt(key, KEYLEN_MAX - 1) := if data == 0 then Empty
            else Slot(data)], seq(SLOTS, _ => 0))
      ensures var u := NewBottom(leaf, key, KEYLEN_MAX - 1 - acc, data);
        Holds(m', u) && u.Bottom? && u.n == leaf
    {
      NewBottomCells(leaf, key, KEYLEN_MAX - 1 - acc, data);
    }

    lemma LeafKidOk(leaf: RadixNode, key: nat, acc: nat, data: nat, k: nat)
      requires key < KEY_RANGE && acc < KEYLEN_MAX - 1 && Prefix(key, acc) == Prefix(k, acc)
      ensures var u := NewBottom(leaf, key, KEYLEN_MAX - 1 - acc, data);
        !u.Nil? && Ok(u, acc) && KidOk(u, k, acc, LetterAt(key, acc))
    {
      hide Prefix, LetterAt;
    }

    /** The data goes to the key's slot in its bottom node. */
    method FillSlot(node: RadixNode, key: nat, data: nat, offset: nat, ghost t: Tree)
      requires Held(t, offset) && t.Bottom? && t.n == node && key < KEY_RANGE && |t.slots| == SLOTS
      modifies node
      ensures Inserted(t, t.(slots := t.slots[LetterAt(key, KEYLEN_MAX - 1) := data]), offset, nodes)
    {
      hide Prefix, LetterAt, Mem;
      NodeFields(t, offset);
      SlotWritten(t.slots, LetterAt(key, KEYLEN_MAX - 1), data);
      SetCell(node, LetterAt(key, KEYLEN_MAX - 1), if data == 0 then Empty else Slot(data));
    }

    /** The key leaves the node within the node's own letters: a break, and a leaf beside what was broken off. */
    method BreakAndInsert(node: RadixNode, key: nat, data: nat, offset: nat, likeness: nat, ghost t: Tree)
      returns (ok: bool, ghost r: Tree, ghost dup: RadixNode, ghost leaf: RadixNode)
      requires Held(t, offset) && CanInsert(t, key, offset) && t.n == node
      requires likeness == EqualSize(key, t.key, offset + t.len) < offset + t.len <= KEYLEN_MAX - 1
      modifies `supply, `nodes, node
      ensures Inserted(t, r, offset, old(nodes)) && fresh(nodes - old(nodes))
      ensures ok <==> old(supply) >= 2
      ensures supply == (if ok then old(supply) - 2 else 0) && |nodes| + supply == |old(nodes)| + old(supply)
      ensures ok ==> r == Insert(t, key, data, offset, dup, leaf)
      ensures !ok ==> r == t || r == HalfInsert(t, key, offset, dup)
    {
      hide Prefix, LetterAt, Holds, Apart, Ok, Broken, NewBottom, WithKid, Mem, Held, Nodes, KidCells, SlotCells,
        Inserted;
      NodeFields(t, offset);
      leaf, r := node, t;
      ok, dup := NodeBreak(node, offset, likeness, t);
      if !ok {
        InsertedNothing(t, offset);
        return;
      }
      ghost var b, n1 := Broken(t, offset, likeness, dup), nodes;
      BrokenGains(t, offset, likeness, dup);
      r := b;
      BrokenFields(t, offset, likeness, dup, key);
      ok, leaf := AddLeaf(node, key, data, offset, likeness, b);
      if ok {
        r := WithKid(b, LetterAt(key, likeness), NewBottom(leaf, key, KEYLEN_MAX - 1 - likeness, data));
      }
      InsertedAfter(t, b, r, offset, old(nodes), n1);
    }

    /** __radix_tree_node_insert. Its call on a leaf it has just added only fills the leaf's slot. */
    method NodeInsert(node: RadixNode, key: nat, data: nat, offset: nat, ghost t: Tree)
      returns (ok: bool, ghost r: Tree, ghost dup: RadixNode, ghost leaf: RadixNode)
      requires Held(t, offset) && CanInsert(t, key, offset) && t.n == node
      modifies `supply, `nodes, Nodes(t)
      ensures Inserted(t, r, offset, old(nodes)) && fresh(nodes - old(nodes))
      ensures ok <==> Allocations(t, key, offset) <= old(supply)
      ensures supply == if ok then old(supply) - Allocations(t, key, offset) else 0
      ensures |nodes| + supply == |old(nodes)| + old(supply)
      ensures ok ==> r == Insert(t, key, data, offset, dup, leaf)
      ensures !ok ==> r == t || r == HalfInsert(t, key, offset, dup)
      decreases t, 1
    {
      hide Prefix, LetterAt, Holds, Apart, Ok, Broken, NewBottom, WithKid, Mem, Held, Nodes, KidCells, SlotCells,
        Allocations, Inserted;
      NodeFields(t, offset);
      AllocationsHere(t, key, offset);
      HeldOk(t, offset);
      dup, leaf, r := node, node, t;
      var acclen := offset + node.keylen;
      var likeness := KeyEqualSize(key, node.key, acclen);
      var sub := LetterAt(key, likeness);
      if likeness < acclen {
        ok, r, dup, leaf := BreakAndInsert(node, key, data, offset, likeness, t);
      } else if acclen < KEYLEN_MAX - 1 {
        KidIsHeld(t, offset, sub);
        if node.cells[sub] == Empty {
          ok, leaf := AddLeaf(node, key, data, offset, acclen, t);
          if ok {
            r := WithKid(r, sub, NewBottom(leaf, key, KEYLEN_MAX - 1 - acclen, data));
            WithKidFields(t, sub, NewBottom(leaf, key, KEYLEN_MAX - 1 - acclen, data));
          }
        } else {
          ok, r, dup, leaf := InsertIntoKid(node, key, data, offset, t);
        }
      } else {
        FillSlot(node, key, data, offset, t);
        ok, r := true, t.(slots := t.slots[sub := data]);
      }
    }

    lemma WithKidFields(t: Tree, i: nat, u: Tree)
      requires t.Inner? && i < |t.kids|
      ensures var r := WithKid(t, i, u); r.Inner? && r.n == t.n && r.key == t.key && r.len == t.len
    {
    }

    /** The recursive call of the insertion. */
    method InsertIntoKid(node: RadixNode, key: nat, data: nat, offset: nat, ghost t: Tree)
      returns (ok: bool, ghost r: Tree, ghost dup: RadixNode, ghost leaf: RadixNode)
      requires Held(t, offset) && CanInsert(t, key, offset) && t.n == node && t.Inner?
      requires EqualSize(key, t.key, offset + t.len) == offset + t.len && !t.kids[LetterAt(key, offset + t.len)].Nil?
      modifies `supply, `nodes, Nodes(t)
      ensures Inserted(t, r, offset, old(nodes)) && fresh(nodes - old(nodes))
      ensures ok <==> Allocations(t, key, offset) <= old(supply)
      ensures supply == if ok then old(supply) - Allocations(t, key, offset) else 0
      ensures |nodes| + supply == |old(nodes)| + old(supply)
      ensures ok ==> r == Insert(t, key, data, offset, dup, leaf)
      ensures !ok ==> r == t || r == HalfInsert(t, key, offset, dup)
      decreases t, 0
    {
      hide Prefix, LetterAt, Holds, Apart, Ok, NewBottom, WithKid, Mem, Broken;
      NodeFields(t, offset);
      var acc := offset + node.keylen;
      var i := LetterAt(key, acc);
      KidIsHeld(t, offset, i);
      KidCanInsert(t, key, offset);
      ghost var kid, m := t.kids[i], Mem();
      MemDomain();
      ghost var u;
      ok, u, dup, leaf := NodeInsert(node.cells[i].node, key, data, acc, kid);
      MemDomain();
      r := WithKid(t, i, u);
      KidHeld(m, Mem(), t, i, u, nodes - old(nodes));
      KidGains(t, i, u, nodes - old(nodes));
      KidKept(t, key, data, offset, u, ok, dup, leaf);
      WithKidFields(t, i, u);
      SameKid(t, i);
    }

    lemma SameKid(t: Tree, i: nat)
      requires t.Inner? && i < |t.kids|
      ensures WithKid(t, i, t.kids[i]) == t
    {
    }

    /** What becomes of a child fits in its place. */
    lemma KidKept(t: Tree, key: nat, data: nat, off: nat, u: Tree, ok: bool, dup: RadixNode, leaf: RadixNode)
      requires CanInsert(t, key, off) && t.Inner? && EqualSize(key, t.key, off + t.len) == off + t.len
      requires !t.kids[LetterAt(key, off + t.len)].Nil?
      requires CanInsert(t.kids[LetterAt(key, off + t.len)], key, off + t.len) && !u.Nil? && Ok(u, off + t.len)
      requires var kid := t.kids[LetterAt(key, off + t.len)];
        if ok then u == Insert(kid, key, data, off + t.len, dup, leaf)
            else u == kid || u == HalfInsert(kid, key, off + t.len, dup)
      ensures Ok(WithKid(t, LetterAt(key, off + t.len), u), off)
    {
      hide Prefix, LetterAt, Insert, HalfInsert, WithKid, EqualSize;
      var acc, i := off + t.len, LetterAt(key, off + t.len);
      KidCanInsert(t, key, off);
      assert KidOk(t.kids[i], t.key, acc, i);
      InsertRoot(t.kids[i], key, data, acc, dup, leaf);
      HalfInsertKeeps(t.kids[i], key, acc, dup, key);
      WithKidOk(t, off, i, u);
    }

    /** radix_tree_set. */
    method Set(key: nat, data: nat) returns (ok: bool)
      requires Valid() && key < KEY_RANGE
      modifies this, nodes
      ensures Valid() && old(nodes) <= nodes && fresh(nodes - old(nodes))
      ensures ok <==> NodesFor(old(tree), key) <= old(supply)
      ensures supply == if ok then old(supply) - NodesFor(old(tree), key) else 0
      ensures |nodes| + supply == |old(nodes)| + old(supply)
      ensures ok && (!old(tree).Nil? || key % 64 == 0) ==>
        forall k :: 0 <= k < KEY_RANGE ==> Value(tree, k, 0) == if k == key then data else Value(old(tree), k, 0)
      ensures forall k :: 0 <= k < KEY_RANGE ==> Tag(tree, k, 0) == Tag(old(tree), k, 0)
      ensures ok ==> HasSlot(tree, key, 0)
      ensures !ok ==> forall k :: 0 <= k < KEY_RANGE ==> Value(tree, k, 0) == Value(old(tree), k, 0)
    {
      hide Prefix, LetterAt, Mem, Insert, HalfInsert, Nodes, Holds, Apart, Ok, EqualSize, Allocations, At, HasSlot,
        Value, Tag, Held, FirstRoot;
      ValidOk();
      if root == null {
        ok := SetFirst(key, data);
        if ok { FirstValues(tree.n, key, data); }
        NilValues();
      } else {
        ok := SetBelow(key, data);
      }
    }

    lemma InsertedAll(t: Tree, r: Tree, before: set<RadixNode>)
      requires Inserted(t, r, 0, before) && Nodes(t) == before
      ensures Held(r, 0) && !r.Nil? && r.n == t.n && Nodes(r) == nodes && before <= nodes
    {
      hide Held, Nodes;
    }

    /** The insertion from the root on. */
    method SetBelow(key: nat, data: nat) returns (ok: bool)
      requires Valid() && key < KEY_RANGE && root != null && Ok(tree, 0)
      modifies this, nodes
      ensures Valid() && Ok(tree, 0) && old(nodes) <= nodes && fresh(nodes - old(nodes))
      ensures ok <==> NodesFor(old(tree), key) <= old(supply)
      ensures supply == if ok then old(supply) - NodesFor(old(tree), key) else 0
      ensures |nodes| + supply == |old(nodes)| + old(supply)
      ensures forall k :: 0 <= k < KEY_RANGE ==>
        && Value(tree, k, 0) == (if ok && k == key then data else Value(old(tree), k, 0))
        && Tag(tree, k, 0) == Tag(old(tree), k, 0)
      ensures ok ==> HasSlot(tree, key, 0)
    {
      hide Prefix, LetterAt, Mem, Insert, HalfInsert, Nodes, Holds, Apart, Ok, EqualSize, Allocations, At, HasSlot,
        Value, Tag, Held, Inserted;
      ghost var t := tree;
      ValidOk();
      ghost var r, dup, leaf;
      RootCanInsert(key);
      NodeFields(tree, 0);
      ok, r, dup, leaf := NodeInsert(root, key, data, 0, tree);
      InsertedAll(t, r, old(nodes));
      tree := r;
      if ok { SetRefines(t, key, data, dup, leaf); } else if r != t { SetKeeps(t, key, dup); }
    }

    lemma ValidOk()
      requires Valid()
      ensures Ok(tree, 0) && (root == null <==> tree.Nil?) && (root != null ==> root == tree.n && Held(tree, 0))
    {
      hide Prefix, LetterAt, Ok, Holds, Apart;
      if root == null && !tree.Nil? { NodeFields(tree, 0); }
    }

    lemma RootCanInsert(key: nat)
      requires Held(tree, 0) && !tree.Nil? && key < KEY_RANGE
      ensures CanInsert(tree, key, 0)
    {
      hide Prefix, LetterAt;
      NodeFields(tree, 0);
    }

    lemma SetRefines(t: Tree, key: nat, data: nat, dup: RadixNode, leaf: RadixNode)
      requires CanInsert(t, key, 0)
      ensures var r := Insert(t, key, data, 0, dup, leaf);
        && Ok(r, 0) && HasSlot(r, key, 0)
        && (forall k :: 0 <= k < KEY_RANGE ==> Value(r, k, 0) == if k == key then data else Value(t, k, 0))
        && (forall k :: 0 <= k < KEY_RANGE ==> Tag(r, k, 0) == Tag(t, k, 0))
    {
      hide Insert, Prefix, LetterAt, At;
      InsertRefines(t, key, data, 0, dup, leaf, key);
      forall k | 0 <= k < KEY_RANGE
        ensures Value(Insert(t, key, data, 0, dup, leaf), k, 0) == if k == key then data else Value(t, k, 0)
        ensures Tag(Insert(t, key, data, 0, dup, leaf), k, 0) == Tag(t, k, 0)
      {
        InsertRefines(t, key, data, 0, dup, leaf, k);
      }
    }

    lemma SetKeeps(t: Tree, key: nat, dup: RadixNode)
      requires CanInsert(t, key, 0)
      ensures var r := HalfInsert(t, key, 0, dup);
        && Ok(r, 0)
        && (forall k :: 0 <= k < KEY_RANGE ==> Value(r, k, 0) == Value(t, k, 0))
        && (forall k :: 0 <= k < KEY_RANGE ==> Tag(r, k, 0) == Tag(t, k, 0))
    {
      hide HalfInsert, Prefix, LetterAt, At;
      HalfInsertKeeps(t, key, 0, dup, key);
      forall k | 0 <= k < KEY_RANGE
        ensures Value(HalfInsert(t, key, 0, dup), k, 0) == Value(t, k, 0)
          && Tag(HalfInsert(t, key, 0, dup), k, 0) == Tag(t, k, 0)
      {
        HalfInsertKeeps(t, key, 0, dup, k);
      }
    }

    /** The first node of an empty tree takes the data in its slot 0. */
    method SetFirst(key: nat, data: nat) returns (ok: bool)
      requires Valid() && key < KEY_RANGE && root == null
      modifies this
      ensures Valid() && old(nodes) <= nodes && fresh(nodes - old(nodes)) && old(tree).Nil?
      ensures ok <==> old(supply) > 0
      ensures supply == (if ok then old(supply) - 1 else 0) && |nodes| + supply == |old(nodes)| + old(supply)
      ensures !ok ==> tree.Nil?
      ensures ok ==> !tree.Nil? && tree == FirstRoot(tree.n, key, data)
    {
      hide Prefix, LetterAt, Mem;
      ValidOk();
      var n := NewNode(key, KEYLEN_MAX - 1);
      if n == null { return false; }
      root := n;
      MemDomain();
      SetCell(n, 0, if data == 0 then Empty else Slot(data));
      tree := FirstRoot(n, key, data);
      MemDomain();
      assert SlotCells(tree.slots) == seq(SLOTS, _ => Empty)[0 := if data == 0 then Empty else Slot(data)];
      ok := true;
    }

    lemma NilValues()
      ensures forall k :: 0 <= k < KEY_RANGE ==> Value(Nil, k, 0) == 0 && Tag(Nil, k, 0) == 0
    {
    }

    lemma FirstValues(n: RadixNode, key: nat, data: nat)
      requires key < KEY_RANGE
      ensures var t := FirstRoot(n, key, data);
        && Ok(t, 0) && HasSlot(t, key, 0) && (forall k :: 0 <= k < KEY_RANGE ==> Tag(t, k, 0) == 0)
        && (key % 64 == 0 ==> forall k :: 0 <= k < KEY_RANGE ==> Value(t, k, 0) == if k == key then data else 0)
    {
      hide Prefix, LetterAt;
      FirstRootRefines(n, key, data);
    }

    // ---- walking ----

    /** __radix_tree_walk. The callback is told one key at a time and may stop the walk by failing. */
    method NodeWalk(node: RadixNode?, callback: Visit -> bool, offset: nat, ghost t: Tree)
      returns (ok: bool, visited: seq<Visit>)
      requires Held(t, offset) && node == if t.Nil? then null else t.n
      ensures visited == if t.Nil? then [] else Until(Walk(t, offset, 0), callback)
      ensures ok <==> t.Nil? || AllAccepted(Walk(t, offset, 0), callback)
      decreases t, 1
    {
      hide Prefix, LetterAt, RadixKey, Holds, Apart, Held, Mem, Here, Until, Walk, AllAccepted, Ok;
      visited, ok := [], true;
      if node == null { return; }
      HeldOk(t, offset);
      NoVisits(callback);
      var i := 0;
      while i < SLOTS
        invariant i <= SLOTS && visited + Walk(t, offset, i) == Walk(t, offset, 0) && AllAccepted(visited, callback)
      {
        WalkStep(t, offset, i);
        Advance(visited, Here(t, offset, i), Walk(t, offset, i + 1), callback);
        var more;
        ok, more := WalkSlot(node, callback, offset, i, t);
        visited := visited + more;
        if !ok { return; }
        i := i + 1;
      }
      WalkEnd(t, offset);
      Advance(visited, [], [], callback);
    }

    lemma NoVisits(callback: Visit -> bool)
      ensures AllAccepted([], callback)
    {
    }

    /** One more stretch of calls in the middle of a walk. */
    lemma Advance(done: seq<Visit>, here: seq<Visit>, rest: seq<Visit>, callback: Visit -> bool)
      requires AllAccepted(done, callback)
      ensures done + (here + rest) == (done + here) + rest
      ensures !AllAccepted(here, callback) ==>
        Until(done + (here + rest), callback) == done + Until(here, callback)
          && !AllAccepted(done + (here + rest), callback)
      ensures AllAccepted(here, callback) ==> Until(here, callback) == here && AllAccepted(done + here, callback)
      ensures here == [] && rest == [] ==> done + rest == done && Until(done, callback) == done
    {
      hide Until, AllAccepted;
      assert done + [] == done;
      UntilJoin(done, here + rest, callback);
      UntilJoin(here, rest, callback);
      UntilJoin(done, here, callback);
      UntilJoin(done, [], callback);
    }

    /** The body of the walk's loop. */
    method WalkSlot(node: RadixNode, callback: Visit -> bool, offset: nat, i: nat, ghost t: Tree)
      returns (ok: bool, visited: seq<Visit>)
      requires Held(t, offset) && !t.Nil? && node == t.n && i < SLOTS
      ensures visited == Until(Here(t, offset, i), callback) && (ok <==> AllAccepted(Here(t, offset, i), callback))
      decreases t, 0
    {
      hide Prefix, LetterAt, RadixKey, Holds, Apart, Held, Mem, Here, Walk, AllAccepted, Until;
      NodeFields(t, offset);
      HeldOk(t, offset);
      var acclen := offset + node.keylen;
      if node.cells[i] != Empty {
        if acclen == KEYLEN_MAX - 1 {
          SlotHere(t, offset, i, callback);
          var v := Visit(RadixKey(node.key, acclen) + i, node.cells[i].data, node.tags[i]);
          visited, ok := [v], callback(v);
        } else {
          KidIsHeld(t, offset, i);
          KidHere(t, offset, i);
          ok, visited := NodeWalk(node.cells[i].node, callback, acclen, t.kids[i]);
        }
      } else {
        NoneHere(t, offset, i);
        NoVisits(callback);
        ok, visited := true, [];
        UntilJoin([], [], callback);
      }
    }

    lemma WalkStep(t: Tree, off: nat, i: nat)
      requires !t.Nil? && Ok(t, off) && i < SLOTS
      ensures Walk(t, off, i) == Here(t, off, i) + Walk(t, off, i + 1)
    {
    }

    lemma WalkEnd(t: Tree, off: nat)
      requires !t.Nil? && Ok(t, off)
      ensures Walk(t, off, SLOTS) == []
    {
    }

    lemma SlotHere(t: Tree, off: nat, i: nat, callback: Visit -> bool)
      requires Held(t, off) && t.Bottom? && i < SLOTS && |t.n.cells| == SLOTS && t.n.cells == SlotCells(t.slots)
        && t.n.tags == t.tags
      requires t.n.cells[i] != Empty
      ensures t.n.cells[i].Slot? && |t.n.tags| == SLOTS
      ensures var v := Visit(RadixKey(t.key, KEYLEN_MAX - 1) + i, t.n.cells[i].data, t.n.tags[i]);
        Here(t, off, i) == [v] && Until([v], callback) == [v] && (AllAccepted([v], callback) <==> callback(v))
    {
      hide Prefix, LetterAt, RadixKey;
    }

    lemma KidHere(t: Tree, off: nat, i: nat)
      requires Ok(t, off) && t.Inner? && i < SLOTS && t.n.cells == KidCells(t.kids) && t.n.cells[i] != Empty
      ensures t.n.cells[i].Kid? && !t.kids[i].Nil? && t.n.cells[i].node == t.kids[i].n
      ensures Ok(t.kids[i], off + t.len) && Here(t, off, i) == Walk(t.kids[i], off + t.len, 0)
    {
      hide Prefix, LetterAt;
    }

    lemma NoneHere(t: Tree, off: nat, i: nat)
      requires !t.Nil? && Ok(t, off) && i < SLOTS && |t.n.cells| == SLOTS && t.n.cells[i] == Empty
      requires t.n.cells == if t.Bottom? then SlotCells(t.slots) else KidCells(t.kids)
      ensures Here(t, off, i) == []
    {
      hide Prefix, LetterAt, RadixKey;
    }

    /** radix_tree_walk: every key with data once, in ascending order, with its data and tag, until the callback
        fails. */
    method TreeWalk(callback: Visit -> bool) returns (ok: bool, visited: seq<Visit>)
      requires Valid()
      ensures Ascending(visited)
      ensures forall v :: v in visited ==>
        v.key < KEY_RANGE && v.data != 0 && Value(tree, v.key, 0) == v.data && Tag(tree, v.key, 0) == v.tag
      ensures ok ==> forall k :: 0 <= k < KEY_RANGE && Value(tree, k, 0) != 0 ==>
        Visit(k, Value(tree, k, 0), Tag(tree, k, 0)) in visited
      ensures ok ==> forall v :: v in visited ==> callback(v)
      ensures !ok ==> visited != [] && !callback(visited[|visited| - 1]) && forall v ::
           v in visited[..|visited| - 1] ==> callback(v)
      ensures !ok ==> forall k :: 0 <= k < visited[|visited| - 1].key && Value(tree, k, 0) != 0 ==>
        Visit(k, Value(tree, k, 0), Tag(tree, k, 0)) in visited
    {
      hide Prefix, LetterAt, RadixKey, Held, Walk, Until, At, Ok;
      ValidOk();
      ok, visited := NodeWalk(root, callback, 0, tree);
      if tree.Nil? {
        NilValues();
      } else {
        WalkIsMap(tree);
        UntilFacts(Walk(tree, 0, 0), callback);
      }
    }

    lemma {:induction false} UntilFacts(s: seq<Visit>, callback: Visit -> bool)
      ensures var u := Until(s, callback);
        && |u| <= |s| && u == s[..|u|]
        && (AllAccepted(s, callback) ==> u == s)
        && (!AllAccepted(s, callback) ==> u != [] && !callback(u[|u| - 1]) && forall v :: v in u[..|u| - 1] ==>
             callback(v))
    {
      if s != [] {
        UntilFacts(s[1..], callback);
        var u, r := Until(s, callback), Until(s[1..], callback);
        if callback(s[0]) {
          assert u == [s[0]] + r;
          assert s == [s[0]] + s[1..];
          if !AllAccepted(s, callback) { assert u[..|u| - 1] == [s[0]] + r[..|r| - 1]; }
        }
      }
    }
  }
}
