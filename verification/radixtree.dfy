/** Path-compressed radix trees as values: what lookup, insertion, node breaking, tagging and walking do. */
module RadixTrees {
  import opened RadixKeys

  class RadixNode {
    var key: nat
    var keylen: nat
    var cells: seq<Cell>
    var tags: seq<nat>

    /** radix_tree_node_new. */
    constructor (key: nat, keylen: nat)
      ensures this.key == key && this.keylen == keylen && cells == seq(SLOTS, _ => Empty) && tags == seq(SLOTS, _ => 0)
    {
      this.key, this.keylen := key, keylen;
      cells, tags := seq(SLOTS, _ => Empty), seq(SLOTS, _ => 0);
    }
  }

  /** A word of the union of leaves and slots. */
  datatype Cell = Empty | Kid(node: RadixNode) | Slot(data: nat)

  /** The subtree below a node; a null slot holds 0. */
  datatype Tree = Nil | Bottom(n: RadixNode, key: nat, len: nat, slots: seq<nat>, tags: seq<nat>)
                      | Inner(n: RadixNode, key: nat, len: nat, kids: seq<Tree>)

  function NoKids(): seq<Tree> { seq(SLOTS, _ => Nil) }

  /** The node at letter offset off agrees with the letters that lead to it, and its children continue its key. */
  predicate Ok(t: Tree, off: nat)
  {
    match t
    case Nil => true
    case Bottom(_, key, len, slots, tags) =>
      off + len == KEYLEN_MAX - 1 && key < KEY_RANGE && |slots| == SLOTS && |tags| == SLOTS
    case Inner(_, key, len, kids) =>
      && off + len < KEYLEN_MAX - 1 && key < KEY_RANGE && |kids| == SLOTS
      && forall i :: 0 <= i < SLOTS ==> kids[i].Nil? || (Ok(kids[i], off + len) && KidOk(kids[i], key, off + len, i))
  }

  predicate KidOk(t: Tree, key: nat, acc: nat, i: nat)
    requires !t.Nil? && acc < KEYLEN_MAX
  {
    t.len > 0 && t.key < KEY_RANGE && Prefix(t.key, acc) == Prefix(key, acc) && LetterAt(t.key, acc) == i
  }

  // ---- lookup ----

  /** The bottom node for a key, if there is one. */
  function At(t: Tree, key: nat, off: nat): (r: Tree)
    requires Ok(t, off) && key < KEY_RANGE
    ensures r.Nil? || (r.Bottom? && |r.slots| == SLOTS && |r.tags| == SLOTS)
    decreases t
  {
    match t
    case Nil => Nil
    case Bottom(_, k, len, _, _) => if Prefix(key, off + len) == Prefix(k, off + len) then t else Nil
    case Inner(_, k, len, kids) =>
      if Prefix(key, off + len) == Prefix(k, off + len) then At(kids[LetterAt(key, off + len)], key, off + len) else Nil
  }

  /** The map that the tree holds: data and tag of each key, 0 where there is no slot. */
  function Value(t: Tree, key: nat, off: nat): nat
    requires Ok(t, off) && key < KEY_RANGE
  {
    var b := At(t, key, off);
    if b.Nil? then 0 else b.slots[LetterAt(key, KEYLEN_MAX - 1)]
  }

  function Tag(t: Tree, key: nat, off: nat): nat
    requires Ok(t, off) && key < KEY_RANGE
  {
    var b := At(t, key, off);
    if b.Nil? then 0 else b.tags[LetterAt(key, KEYLEN_MAX - 1)]
  }

  predicate HasSlot(t: Tree, key: nat, off: nat)
    requires Ok(t, off) && key < KEY_RANGE
  {
    !At(t, key, off).Nil?
  }

  // ---- insertion ----

  function NewBottom(n: RadixNode, key: nat, len: nat, data: nat): Tree
  {
    Bottom(n, key, len, seq(SLOTS, _ => 0)[LetterAt(key, KEYLEN_MAX - 1) := data], seq(SLOTS, _ => 0))
  }

  /** The subtree moved to node n, with its key part shortened by the letters before position e. */
  function Lowered(t: Tree, n: RadixNode, len: nat): Tree
    requires !t.Nil?
  {
    match t
    case Bottom(_, key, _, slots, tags) => Bottom(n, key, len, slots, tags)
    case Inner(_, key, _, kids) => Inner(n, key, len, kids)
  }

  /** __radix_tree_break: the node keeps the letters before e, and its old self becomes its only child. */
  function Broken(t: Tree, off: nat, e: nat, dup: RadixNode): Tree
    requires !t.Nil? && off <= e < off + t.len <= KEYLEN_MAX - 1
  {
    Inner(t.n, t.key, e - off, NoKids()[LetterAt(t.key, e) := Lowered(t, dup, off + t.len - e)])
  }

  predicate CanInsert(t: Tree, key: nat, off: nat)
  {
    !t.Nil? && Ok(t, off) && key < KEY_RANGE && off <= EqualSize(key, t.key, off + t.len)
  }

  /** __radix_tree_node_insert; dup and new are the nodes it may allocate. */
  function Insert(t: Tree, key: nat, data: nat, off: nat, dup: RadixNode, leaf: RadixNode): Tree
    requires CanInsert(t, key, off)
    decreases t
  {
    var acc := off + t.len;
    var e := EqualSize(key, t.key, acc);
    if e < acc then
      var b := Broken(t, off, e, dup);
      WithKid(b, LetterAt(key, e), NewBottom(leaf, key, KEYLEN_MAX - 1 - e, data))
    else if t.Bottom? then
      t.(slots := t.slots[LetterAt(key, KEYLEN_MAX - 1) := data])
    else
      var i := LetterAt(key, acc);
      if t.kids[i].Nil? then WithKid(t, i, NewBottom(leaf, key, KEYLEN_MAX - 1 - acc, data))
      else KidCanInsert(t, key, off); WithKid(t, i, Insert(t.kids[i], key, data, acc, dup, leaf))
  }

  /** The key can go on below the child that its next letter selects. */
  lemma KidCanInsert(t: Tree, key: nat, off: nat)
    requires CanInsert(t, key, off) && t.Inner? && EqualSize(key, t.key, off + t.len) == off + t.len
    requires !t.kids[LetterAt(key, off + t.len)].Nil?
    ensures CanInsert(t.kids[LetterAt(key, off + t.len)], key, off + t.len)
    ensures var k := t.kids[LetterAt(key, off + t.len)];
      EqualSize(key, k.key, off + t.len + k.len) > off + t.len
  {
    hide Prefix, LetterAt;
    var acc := off + t.len;
    var k := t.kids[LetterAt(key, acc)];
    assert Ok(k, acc) && KidOk(k, t.key, acc, LetterAt(key, acc));
    Extend(key, k.key, acc);
    var e := EqualSize(key, k.key, acc + k.len);
    if e <= acc { PrefixShorter(key, k.key, e + 1, acc + 1); }
  }

  /** Insertion with an allocation failure after the break: only the break has happened. */
  function HalfInsert(t: Tree, key: nat, off: nat, dup: RadixNode): Tree
    requires CanInsert(t, key, off)
    decreases t
  {
    var acc := off + t.len;
    var e := EqualSize(key, t.key, acc);
    if e < acc then Broken(t, off, e, dup)
    else if t.Bottom? then t
    else
      var i := LetterAt(key, acc);
      if t.kids[i].Nil? then t
      else KidCanInsert(t, key, off); WithKid(t, i, HalfInsert(t.kids[i], key, acc, dup))
  }

  // ---- the break keeps the map ----

  lemma BrokenOk(t: Tree, off: nat, e: nat, dup: RadixNode)
    requires !t.Nil? && Ok(t, off) && off <= e < off + t.len
    ensures Ok(Broken(t, off, e, dup), off) && Ok(Lowered(t, dup, off + t.len - e), e)
  {
    hide Prefix, LetterAt;
    LoweredOk(t, off, e, dup);
  }

  lemma LoweredOk(t: Tree, off: nat, e: nat, dup: RadixNode)
    requires !t.Nil? && Ok(t, off) && off <= e < off + t.len
    ensures Ok(Lowered(t, dup, off + t.len - e), e)
  {
  }

  /** The same letters lead to the same bottom node, whatever node stands for it. */
  predicate SameBottom(a: Tree, b: Tree)
  {
    (a.Nil? && b.Nil?) || (a.Bottom? && b.Bottom? && a.slots == b.slots && a.tags == b.tags)
  }

  lemma BrokenAt(t: Tree, off: nat, e: nat, dup: RadixNode, k: nat)
    requires !t.Nil? && Ok(t, off) && off <= e < off + t.len && k < KEY_RANGE
    ensures Ok(Broken(t, off, e, dup), off) && SameBottom(At(Broken(t, off, e, dup), k, off), At(t, k, off))
  {
    hide Prefix, LetterAt;
    BrokenOk(t, off, e, dup);
    var acc := off + t.len;
    if Prefix(k, acc) == Prefix(t.key, acc) {
      PrefixShorter(k, t.key, e, acc);
      SameLetter(k, t.key, e, acc);
    } else {
      if Prefix(k, e) == Prefix(t.key, e) && LetterAt(k, e) == LetterAt(t.key, e) { LoweredMiss(t, off, e, dup, k); }
    }
  }

  lemma LoweredMiss(t: Tree, off: nat, e: nat, dup: RadixNode, k: nat)
    requires !t.Nil? && Ok(t, off) && off <= e < off + t.len && k < KEY_RANGE
    requires Prefix(k, off + t.len) != Prefix(t.key, off + t.len)
    ensures Ok(Lowered(t, dup, off + t.len - e), e) && At(Lowered(t, dup, off + t.len - e), k, e).Nil?
  {
    LoweredOk(t, off, e, dup);
  }

  // ---- insertion refines map update ----

  lemma NewBottomAt(n: RadixNode, key: nat, off: nat, data: nat, k: nat)
    requires off < KEYLEN_MAX - 1 && key < KEY_RANGE && k < KEY_RANGE && Prefix(k, off) == Prefix(key, off)
    ensures Ok(NewBottom(n, key, KEYLEN_MAX - 1 - off, data), off)
    ensures Value(NewBottom(n, key, KEYLEN_MAX - 1 - off, data), k, off) == (if k == key then data else 0)
    ensures Tag(NewBottom(n, key, KEYLEN_MAX - 1 - off, data), k, off) == 0
    ensures HasSlot(NewBottom(n, key, KEYLEN_MAX - 1 - off, data), key, off)
  {
    hide Prefix, LetterAt;
    if Prefix(k, KEYLEN_MAX - 1) == Prefix(key, KEYLEN_MAX - 1) { LastLetter(k, key); }
  }

  /** Two keys with ten letters in common are equal or differ in the last one. */
  lemma LastLetter(a: nat, b: nat)
    requires a < KEY_RANGE && b < KEY_RANGE && Prefix(a, KEYLEN_MAX - 1) == Prefix(b, KEYLEN_MAX - 1)
    ensures a == b <==> LetterAt(a, KEYLEN_MAX - 1) == LetterAt(b, KEYLEN_MAX - 1)
  {
    hide Prefix, LetterAt;
    Extend(a, b, KEYLEN_MAX - 1);
    PrefixAll(a);
    PrefixAll(b);
  }

  function WithKid(t: Tree, i: nat, u: Tree): Tree
    requires t.Inner? && i < |t.kids|
  {
    t.(kids := t.kids[i := u])
  }

  /** r holds the map of t updated at key, as far as key k can tell, and has a slot for key. */
  predicate Updated(t: Tree, r: Tree, off: nat, key: nat, data: nat, k: nat)
    requires Ok(t, off) && key < KEY_RANGE && k < KEY_RANGE
  {
    && Ok(r, off) && HasSlot(r, key, off)
    && Value(r, k, off) == (if k == key then data else Value(t, k, off))
    && Tag(r, k, off) == Tag(t, k, off)
  }

  lemma WithKidOk(t: Tree, off: nat, i: nat, u: Tree)
    requires t.Inner? && Ok(t, off) && i < SLOTS && !u.Nil? && Ok(u, off + t.len) && KidOk(u, t.key, off + t.len, i)
    ensures Ok(WithKid(t, i, u), off)
  {
    hide Prefix, LetterAt;
  }

  /** Replacing one child changes what is found for the keys that its letter selects, and for no others. */
  lemma WithKidAt(t: Tree, off: nat, i: nat, u: Tree, k: nat)
    requires t.Inner? && Ok(t, off) && i < SLOTS && !u.Nil? && Ok(u, off + t.len) && KidOk(u, t.key, off + t.len, i)
    requires k < KEY_RANGE
    ensures Ok(WithKid(t, i, u), off)
    ensures At(WithKid(t, i, u), k, off)
      == if Prefix(k, off + t.len) == Prefix(t.key, off + t.len)
        && LetterAt(k, off + t.len) == i then At(u, k, off + t.len)
         else At(t, k, off)
    ensures Prefix(k, off + t.len) == Prefix(t.key, off + t.len) && LetterAt(k, off + t.len) == i ==>
      Ok(t.kids[i], off + t.len) && At(t, k, off) == At(t.kids[i], k, off + t.len)
  {
    hide Prefix, LetterAt;
    WithKidOk(t, off, i, u);
    var acc := off + t.len;
    assert t.kids[i].Nil? || Ok(t.kids[i], acc);
    var j := LetterAt(k, acc);
    assert t.kids[j].Nil? || Ok(t.kids[j], acc);
  }

  /** Updating a child updates the tree. */
  lemma KidUpdated(t: Tree, off: nat, u: Tree, key: nat, data: nat, k: nat)
    requires t.Inner? && Ok(t, off) && key < KEY_RANGE && k < KEY_RANGE && off + t.len < KEYLEN_MAX - 1
    requires Prefix(key, off + t.len) == Prefix(t.key, off + t.len)
    requires var i := LetterAt(key, off + t.len);
      && Ok(t.kids[i], off + t.len) && !u.Nil? && Ok(u, off + t.len) && KidOk(u, t.key, off + t.len, i)
      && HasSlot(u, key, off + t.len)
      && (Prefix(k, off + t.len) == Prefix(t.key, off + t.len) ==> Updated(t.kids[i], u, off + t.len, key, data, k))
    ensures Updated(t, WithKid(t, LetterAt(key, off + t.len), u), off, key, data, k)
  {
    hide Prefix, LetterAt, At, Ok, KidOk;
    var i := LetterAt(key, off + t.len);
    WithKidAt(t, off, i, u, k);
    WithKidAt(t, off, i, u, key);
    if k == key { assert Prefix(k, off + t.len) == Prefix(t.key, off + t.len); }
  }

  /** Insertion keeps the root's key, and shortens it at most. */
  lemma InsertRoot(t: Tree, key: nat, data: nat, off: nat, dup: RadixNode, leaf: RadixNode)
    requires CanInsert(t, key, off)
    ensures var r := Insert(t, key, data, off, dup, leaf);
      && !r.Nil? && r.n == t.n && r.key == t.key
      && (r.len == t.len || (r.len == EqualSize(key, t.key, off + t.len) - off && EqualSize(key, t.key,
          off + t.len) < off + t.len))
  {
    hide Prefix, LetterAt;
  }

  /** Insertion refines map update: the key gets the data, every other key keeps its data, and every tag stays. */
  lemma {:induction false} InsertRefines(t: Tree, key: nat, data: nat, off: nat, dup: RadixNode, leaf: RadixNode,
          k: nat)
    requires CanInsert(t, key, off) && k < KEY_RANGE
    ensures Updated(t, Insert(t, key, data, off, dup, leaf), off, key, data, k)
    decreases t
  {
    hide Prefix, LetterAt, Updated;
    var acc := off + t.len;
    var e := EqualSize(key, t.key, acc);
    if e < acc {
      InsertBroken(t, key, data, off, e, dup, leaf, k);
    } else if t.Bottom? {
      InsertBottom(t, key, data, off, k);
    } else if t.kids[LetterAt(key, acc)].Nil? {
      InsertLeaf(t, key, data, off, leaf, k);
    } else {
      KidCanInsert(t, key, off);
      InsertRefines(t.kids[LetterAt(key, acc)], key, data, acc, dup, leaf, k);
      InsertBelow(t, key, data, off, dup, leaf, k);
    }
  }

  lemma InsertBottom(t: Tree, key: nat, data: nat, off: nat, k: nat)
    requires t.Bottom? && Ok(t, off) && key < KEY_RANGE && k < KEY_RANGE
      && Prefix(key, KEYLEN_MAX - 1) == Prefix(t.key, KEYLEN_MAX - 1)
    ensures Updated(t, t.(slots := t.slots[LetterAt(key, KEYLEN_MAX - 1) := data]), off, key, data, k)
  {
    hide Prefix, LetterAt;
    if Prefix(k, KEYLEN_MAX - 1) == Prefix(key, KEYLEN_MAX - 1) { LastLetter(k, key); }
  }

  lemma NewBottomFields(n: RadixNode, key: nat, len: nat, data: nat)
    requires key < KEY_RANGE
    ensures var u := NewBottom(n, key, len, data); u.Bottom? && u.n == n && u.key == key && u.len == len
  {
  }

  /** A new bottom node below a node that had no child for the key. */
  lemma LeafUpdates(t: Tree, key: nat, data: nat, off: nat, leaf: RadixNode, k: nat)
    requires t.Inner? && Ok(t, off) && key < KEY_RANGE && k < KEY_RANGE
      && Prefix(key, off + t.len) == Prefix(t.key, off + t.len)
    requires t.kids[LetterAt(key, off + t.len)].Nil?
    ensures var acc := off + t.len;
      Updated(t, WithKid(t, LetterAt(key, acc), NewBottom(leaf, key, KEYLEN_MAX - 1 - acc, data)), off, key, data, k)
  {
    hide Prefix, LetterAt, NewBottom;
    var acc := off + t.len;
    var u := NewBottom(leaf, key, KEYLEN_MAX - 1 - acc, data);
    NewBottomFields(leaf, key, KEYLEN_MAX - 1 - acc, data);
    NewBottomAt(leaf, key, acc, data, key);
    if Prefix(k, acc) == Prefix(t.key, acc) { NewBottomAt(leaf, key, acc, data, k); }
    KidUpdated(t, off, u, key, data, k);
  }

  lemma InsertLeaf(t: Tree, key: nat, data: nat, off: nat, leaf: RadixNode, k: nat)
    requires CanInsert(t, key, off) && k < KEY_RANGE && t.Inner? && EqualSize(key, t.key, off + t.len) == off + t.len
    requires t.kids[LetterAt(key, off + t.len)].Nil?
    ensures var acc := off + t.len;
      Updated(t, WithKid(t, LetterAt(key, acc), NewBottom(leaf, key, KEYLEN_MAX - 1 - acc, data)), off, key, data, k)
  {
    hide Prefix, LetterAt, NewBottom, Updated;
    LeafUpdates(t, key, data, off, leaf, k);
  }

  lemma InsertBelow(t: Tree, key: nat, data: nat, off: nat, dup: RadixNode, leaf: RadixNode, k: nat)
    requires CanInsert(t, key, off) && k < KEY_RANGE && t.Inner? && EqualSize(key, t.key, off + t.len) == off + t.len
    requires !t.kids[LetterAt(key, off + t.len)].Nil?
    requires CanInsert(t.kids[LetterAt(key, off + t.len)], key, off + t.len)
    requires var kid := t.kids[LetterAt(key, off + t.len)];
      Updated(kid, Insert(kid, key, data, off + t.len, dup, leaf), off + t.len, key, data, k)
    ensures var acc := off + t.len; var i := LetterAt(key, acc);
      Updated(t, WithKid(t, i, Insert(t.kids[i], key, data, acc, dup, leaf)), off, key, data, k)
  {
    hide Prefix, LetterAt, Insert;
    var acc := off + t.len;
    var i := LetterAt(key, acc);
    KidCanInsert(t, key, off);
    InsertRoot(t.kids[i], key, data, acc, dup, leaf);
    assert KidOk(t.kids[i], t.key, acc, i);
    KidUpdated(t, off, Insert(t.kids[i], key, data, acc, dup, leaf), key, data, k);
  }

  lemma InsertBroken(t: Tree, key: nat, data: nat, off: nat, e: nat, dup: RadixNode, leaf: RadixNode, k: nat)
    requires !t.Nil? && Ok(t, off) && key < KEY_RANGE && k < KEY_RANGE
    requires off <= e < off + t.len && e == EqualSize(key, t.key, off + t.len)
    ensures Updated(t, WithKid(Broken(t, off, e, dup), LetterAt(key, e), NewBottom(leaf, key, KEYLEN_MAX - 1 - e,
        data)), off, key, data, k)
  {
    hide Prefix, LetterAt, NewBottom;
    BrokenAt(t, off, e, dup, k);
    LeafUpdates(Broken(t, off, e, dup), key, data, off, leaf, k);
  }

  /** A failed allocation, even after a break, leaves the map as it was. */
  lemma {:induction false} HalfInsertKeeps(t: Tree, key: nat, off: nat, dup: RadixNode, k: nat)
    requires CanInsert(t, key, off) && k < KEY_RANGE
    ensures var r := HalfInsert(t, key, off, dup);
      && !r.Nil? && r.key == t.key && (t.len > 0 && EqualSize(key, t.key, off + t.len) > off ==> r.len > 0)
      && Ok(r, off) && SameBottom(At(r, k, off), At(t, k, off))
    decreases t
  {
    hide Prefix, LetterAt;
    var acc := off + t.len;
    var e := EqualSize(key, t.key, acc);
    if e < acc {
      BrokenAt(t, off, e, dup, k);
    } else if t.Inner? && !t.kids[LetterAt(key, acc)].Nil? {
      KidCanInsert(t, key, off);
      var i := LetterAt(key, acc);
      HalfInsertKeeps(t.kids[i], key, acc, dup, k);
      assert KidOk(t.kids[i], t.key, acc, i);
      WithKidAt(t, off, i, HalfInsert(t.kids[i], key, acc, dup), k);
    }
  }

  // ---- tags ----

  /** Writing the tag of a key that has a slot. */
  function SetTag(t: Tree, key: nat, off: nat, tag: nat): Tree
    requires Ok(t, off) && key < KEY_RANGE && HasSlot(t, key, off)
    decreases t
  {
    if t.Bottom? then t.(tags := t.tags[LetterAt(key, KEYLEN_MAX - 1) := tag])
    else WithKid(t, LetterAt(key, off + t.len), SetTag(t.kids[LetterAt(key, off + t.len)], key, off + t.len, tag))
  }

  /** Only the tag of that key changes, and no data. */
  lemma {:induction false} SetTagOnly(t: Tree, key: nat, off: nat, tag: nat, k: nat)
    requires Ok(t, off) && key < KEY_RANGE && HasSlot(t, key, off) && k < KEY_RANGE
    ensures var r := SetTag(t, key, off, tag);
      && !r.Nil? && r.n == t.n && r.key == t.key && r.len == t.len
      && Ok(r, off) && Value(r, k, off) == Value(t, k, off)
      && Tag(r, k, off) == if k == key then tag else Tag(t, k, off)
    decreases t
  {
    hide Prefix, LetterAt;
    if t.Bottom? {
      if Prefix(k, KEYLEN_MAX - 1) == Prefix(key, KEYLEN_MAX - 1) { LastLetter(k, key); }
    } else {
      var acc := off + t.len;
      var i := LetterAt(key, acc);
      SetTagOnly(t.kids[i], key, acc, tag, k);
      assert KidOk(t.kids[i], t.key, acc, i);
      WithKidAt(t, off, i, SetTag(t.kids[i], key, acc, tag), k);
      if k == key { WithKidAt(t, off, i, SetTag(t.kids[i], key, acc, tag), key); }
    }
  }

  // ---- walking ----

  datatype Visit = Visit(key: nat, data: nat, tag: nat)

  /** The calls that a walk makes for slot i of a node. */
  function Here(t: Tree, off: nat, i: nat): seq<Visit>
    requires !t.Nil? && Ok(t, off) && i < SLOTS
    decreases t, 0
  {
    if t.Bottom? then
      if t.slots[i] == 0 then [] else [Visit(RadixKey(t.key, KEYLEN_MAX - 1) + i, t.slots[i], t.tags[i])]
    else if t.kids[i].Nil? then [] else Walk(t.kids[i], off + t.len, 0)
  }

  /** The calls that __radix_tree_walk makes from slot i on. */
  function Walk(t: Tree, off: nat, i: nat): seq<Visit>
    requires !t.Nil? && Ok(t, off) && i <= SLOTS
    decreases t, SLOTS - i + 1
  {
    if i == SLOTS then [] else Here(t, off, i) + Walk(t, off, i + 1)
  }

  /** The call is for a key of the tree below this node, whose next letter is at least i, with its data and tag. */
  predicate VisitOk(t: Tree, off: nat, i: nat, v: Visit)
    requires !t.Nil? && Ok(t, off)
  {
    && v.key < KEY_RANGE && Prefix(v.key, off + t.len) == Prefix(t.key, off + t.len)
    && LetterAt(v.key, off + t.len) >= i
    && v.data != 0 && Value(t, v.key, off) == v.data && Tag(t, v.key, off) == v.tag
  }

  predicate Ascending(s: seq<Visit>)
  {
    forall i, j :: 0 <= i < j < |s| ==> s[i].key < s[j].key
  }

  lemma {:induction false} WalkOk(t: Tree, off: nat, i: nat)
    requires !t.Nil? && Ok(t, off) && i <= SLOTS
    ensures Ascending(Walk(t, off, i)) && forall v :: v in Walk(t, off, i) ==> VisitOk(t, off, i, v)
    decreases t, SLOTS - i + 1
  {
    hide Prefix, LetterAt, RadixKey;
    if i < SLOTS {
      HereOk(t, off, i);
      WalkOk(t, off, i + 1);
      forall v, w | v in Here(t, off, i) && w in Walk(t, off, i + 1) ensures v.key < w.key {
        OrderedByLetter(v.key, w.key, off + t.len);
      }
      AscendingJoin(Here(t, off, i), Walk(t, off, i + 1));
    }
  }

  lemma AscendingJoin(a: seq<Visit>, b: seq<Visit>)
    requires Ascending(a) && Ascending(b) && forall v, w :: v in a && w in b ==> v.key < w.key
    ensures Ascending(a + b)
  {
    var s := a + b;
    forall i, j | 0 <= i < j < |s| ensures s[i].key < s[j].key {
      if i < |a| <= j { assert s[i] in a && s[j] in b; }
    }
  }

  lemma {:induction false} HereOk(t: Tree, off: nat, i: nat)
    requires !t.Nil? && Ok(t, off) && i < SLOTS
    ensures Ascending(Here(t, off, i))
    ensures forall v :: v in Here(t, off, i) ==> VisitOk(t, off, i, v) && LetterAt(v.key, off + t.len) == i
    decreases t, 0
  {
    hide Prefix, LetterAt, RadixKey;
    if t.Bottom? {
      RebuiltKey(t.key, i);
    } else if !t.kids[i].Nil? {
      var acc := off + t.len;
      WalkOk(t.kids[i], acc, 0);
      assert KidOk(t.kids[i], t.key, acc, i);
      forall v | v in Here(t, off, i) ensures VisitOk(t, off, i, v) && LetterAt(v.key, acc) == i {
        PrefixShorter(v.key, t.kids[i].key, acc, acc + t.kids[i].len);
        SameLetter(v.key, t.kids[i].key, acc, acc + t.kids[i].len);
      }
    }
  }

  lemma NoKidNoValue(t: Tree, off: nat, k: nat)
    requires t.Inner? && Ok(t, off) && k < KEY_RANGE
    ensures t.kids[LetterAt(k, off + t.len)].Nil? ==> Value(t, k, off) == 0
  {
    hide Prefix, LetterAt;
    if t.kids[LetterAt(k, off + t.len)].Nil? {
      assert At(t.kids[LetterAt(k, off + t.len)], k, off + t.len).Nil?;
    }
  }

  /** No key with data is missed. */
  lemma {:induction false} WalkComplete(t: Tree, off: nat, i: nat, k: nat)
    requires !t.Nil? && Ok(t, off) && i <= SLOTS && k < KEY_RANGE && Value(t, k, off) != 0
      && LetterAt(k, off + t.len) >= i
    ensures Visit(k, Value(t, k, off), Tag(t, k, off)) in Walk(t, off, i)
    decreases t, SLOTS - i
  {
    hide Prefix, LetterAt, RadixKey;
    var acc := off + t.len;
    if LetterAt(k, acc) > i {
      WalkComplete(t, off, i + 1, k);
    } else if t.Bottom? {
      RebuiltKey(t.key, i);
      LastLetter(k, RadixKey(t.key, KEYLEN_MAX - 1) + i);
    } else {
      NoKidNoValue(t, off, k);
      WalkComplete(t.kids[i], acc, 0, k);
    }
  }

  /** A walk of the whole tree calls back once for each key with data, in ascending order, with its data and tag. */
  lemma WalkIsMap(t: Tree)
    requires !t.Nil? && Ok(t, 0)
    ensures Ascending(Walk(t, 0, 0))
    ensures forall v :: v in Walk(t, 0, 0) <==>
      v.key < KEY_RANGE && v.data != 0 && Value(t, v.key, 0) == v.data && Tag(t, v.key, 0) == v.tag
  {
    hide Prefix, LetterAt, RadixKey;
    WalkOk(t, 0, 0);
    forall v: Visit | v.key < KEY_RANGE && v.data != 0 && Value(t, v.key, 0) == v.data && Tag(t, v.key, 0) == v.tag
      ensures v in Walk(t, 0, 0)
    {
      WalkComplete(t, 0, 0, v.key);
    }
  }

  // ---- radix_tree_set on an empty tree ----

  /** The root that radix_tree_set makes: it stores the data in slot 0, whatever the key's last letter. */
  function FirstRoot(n: RadixNode, key: nat, data: nat): Tree
  {
    Bottom(n, key, KEYLEN_MAX - 1, seq(SLOTS, _ => 0)[0 := data], seq(SLOTS, _ => 0))
  }

  /** That is the map with this one key exactly when the key's last six bits are zero, or the data is null. */
  lemma FirstRootRefines(n: RadixNode, key: nat, data: nat)
    requires key < KEY_RANGE
    ensures Ok(FirstRoot(n, key, data), 0)
    ensures (forall k :: 0 <= k < KEY_RANGE ==> Value(FirstRoot(n, key, data), k, 0) == if k == key then data else 0)
       <==> key % 64 == 0 || data == 0
  {
    hide Prefix;
    var t := FirstRoot(n, key, data);
    LastLetterIs(key);
    forall k | 0 <= k < KEY_RANGE && (key % 64 == 0 || data == 0)
      ensures Value(t, k, 0) == if k == key then data else 0
    {
      if Prefix(k, KEYLEN_MAX - 1) == Prefix(key, KEYLEN_MAX - 1) { LastLetter(k, key); }
    }
    assert Value(t, key, 0) == if key % 64 == 0 then data else 0;
  }

  lemma LastLetterIs(key: nat)
    requires key < KEY_RANGE
    ensures LetterAt(key, KEYLEN_MAX - 1) == key % 64
  {
    PrefixAll(key);
  }

  // ---- a walk that may be stopped ----

  /** The calls made until one fails, the failing one included. */
  function Until(s: seq<Visit>, accept: Visit -> bool): seq<Visit>
  {
    if s == [] then [] else if accept(s[0]) then [s[0]] + Until(s[1..], accept) else [s[0]]
  }

  predicate AllAccepted(s: seq<Visit>, accept: Visit -> bool)
  {
    forall v :: v in s ==> accept(v)
  }

  lemma {:induction false} UntilJoin(a: seq<Visit>, b: seq<Visit>, accept: Visit -> bool)
    ensures Until(a + b, accept) == if AllAccepted(a, accept) then a + Until(b, accept) else Until(a, accept)
    ensures AllAccepted(a + b, accept) <==> AllAccepted(a, accept) && AllAccepted(b, accept)
    ensures AllAccepted(a, accept) ==> Until(a, accept) == a
  {
    if a == [] {
      assert a + b == b;
    } else {
      UntilJoin(a[1..], b, accept);
      assert (a + b)[1..] == a[1..] + b;
      assert a == [a[0]] + a[1..];
    }
  }
}
