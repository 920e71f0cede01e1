/** The kernel's doubly linked lists, kept sorted by an index, as the virtual-range allocator uses them. */
module FreeLists {
  import opened Sequences

  /** A chunk of free pages: the list links and index, and the chunk itself. */
  class FreeChunk {
    var next: FreeChunk?
    var prev: FreeChunk?
    var index: int
    var address: nat
    var pages: nat

    constructor (address: nat, pages: nat)
      ensures this.address == address && this.pages == pages
    {
      this.address, this.pages, index, next, prev := address, pages, 0, null, null;
    }
  }

  function PrevIn(s: seq<FreeChunk>, i: nat): FreeChunk?
    requires i < |s|
  {
    if i == 0 then null else s[i - 1]
  }

  function NextIn(s: seq<FreeChunk>, i: nat): FreeChunk?
    requires i < |s|
  {
    if i + 1 < |s| then s[i + 1] else null
  }

  function First(s: seq<FreeChunk>): FreeChunk?
  {
    if s == [] then null else s[0]
  }

  lemma NeighboursWith(b: seq<FreeChunk>, a: seq<FreeChunk>, e: FreeChunk, i: nat)
    requires i <= |b| + |a|
    ensures var s, s', k := b + a, b + [e] + a, |b|;
      && |s'| == |s| + 1 && s'[i] == (if i < k then s[i] else if i == k then e else s[i - 1])
      && (i < k ==> PrevIn(s', i) == PrevIn(s, i) && NextIn(s', i) == if i + 1 == k then e else NextIn(s, i))
      && (i > k ==> NextIn(s', i) == NextIn(s, i - 1) && PrevIn(s', i) == if i == k + 1 then e else PrevIn(s, i - 1))
      && (i == k ==> PrevIn(s', i) == (if k > 0 then s[k - 1] else null) && NextIn(s', i) == if k < |s| then s[k]
          else null)
  {
  }

  lemma NeighboursWithout(s: seq<FreeChunk>, k: nat, i: nat)
    requires k < |s| && i + 1 < |s|
    ensures var s', j := s[..k] + s[k + 1..], if i < k then i else i + 1;
      && |s'| == |s| - 1 && s'[i] == s[j]
      && PrevIn(s', i) == (if i == k then PrevIn(s, k) else PrevIn(s, j))
      && NextIn(s', i) == (if i + 1 == k then NextIn(s, k) else NextIn(s, j))
  {
  }

  lemma NoDupWithout(s: seq<FreeChunk>, k: nat)
    requires k < |s| && NoDup(s)
    ensures NoDup(s[..k] + s[k + 1..]) && s[k] !in s[..k] + s[k + 1..]
    ensures forall x :: x in s[..k] + s[k + 1..] ==> x in s
  {
    var s' := s[..k] + s[k + 1..];
    assert forall i :: 0 <= i < |s'| ==> s'[i] == s[if i < k then i else i + 1];
  }

  lemma NoDupWith(b: seq<FreeChunk>, a: seq<FreeChunk>, e: FreeChunk)
    requires NoDup(b + a) && e !in b + a
    ensures NoDup(b + [e] + a)
  {
    var s, s' := b + a, b + [e] + a;
    forall i, j | 0 <= i < j < |s'| ensures s'[i] != s'[j] {
      NeighboursWith(b, a, e, i);
      NeighboursWith(b, a, e, j);
    }
  }

  class FreeList {
    var head: FreeChunk?
    ghost var s: seq<FreeChunk>

    ghost predicate Valid()
      reads this, s`next, s`prev
    {
      && NoDup(s) && head == First(s)
      && forall i :: 0 <= i < |s| ==> s[i].prev == PrevIn(s, i) && s[i].next == NextIn(s, i)
    }

    /** A list that is made of one element by pointing to it, whatever its links are. */
    constructor Adopt(e: FreeChunk)
      ensures head == e && s == [e] && (Valid() <==> e.next == null && e.prev == null)
    {
      head, s := e, [e];
    }

    /** The place of an element, and that nothing else is at that place. */
    lemma Place(k: nat)
      requires Valid() && k < |s|
      ensures s[k].prev == PrevIn(s, k) && s[k].next == NextIn(s, k) && s[k] in s
      ensures forall i {:trigger s[i]} :: 0 <= i < |s| ==> (s[i] == s[k] <==> i == k)
    {
    }

    /** list_remove_element, for the element at place k, whose own links stay. */
    method Remove(e: FreeChunk, ghost k: nat)
      requires Valid() && k < |s| && s[k] == e
      modifies `head, `s, s`next, s`prev
      ensures e.next == NextIn(old(s), k) && e.prev == PrevIn(old(s), k)
      ensures Valid() && s == old(s)[..k] + old(s)[k + 1..]
    {
      hide NoDup, PrevIn, NextIn;
      ghost var s0 := s;
      ghost var t := s0[..k] + s0[k + 1..];
      Ends(s0, k);
      Place(k);
      if k > 0 { Place(k - 1); }
      if k + 1 < |s| { Place(k + 1); }
      NoDupWithout(s0, k);
      if head == e { head := e.next; }
      if e.prev != null { e.prev.next := e.next; }
      if e.next != null { e.next.prev := e.prev; }
      assert forall i :: 0 <= i < |s0| && i != k + 1 ==> s0[i].prev == PrevIn(s0, i);
      assert forall i :: 0 <= i < |s0| && i != k - 1 ==> s0[i].next == NextIn(s0, i);
      s := t;
      forall i | 0 <= i < |t| ensures t[i].prev == PrevIn(t, i) && t[i].next == NextIn(t, i) {
        NeighboursWithout(s0, k, i);
      }
    }

    lemma Ends(t: seq<FreeChunk>, k: nat)
      requires k < |t|
      ensures PrevIn(t, k) == (if k > 0 then t[k - 1] else null)
        && NextIn(t, k) == if k + 1 < |t| then t[k + 1] else null
      ensures k > 0 ==> NextIn(t, k - 1) == t[k]
      ensures k + 1 < |t| ==> PrevIn(t, k + 1) == t[k]
      ensures First(t[..k] + t[k + 1..]) == if k > 0 then t[0] else NextIn(t, k)
    {
    }

    /** The links of a new element and of its neighbours are written, the others still follow b + a. */
    lemma Relinked(b: seq<FreeChunk>, a: seq<FreeChunk>, e: FreeChunk)
      requires s == b + [e] + a && NoDup(b + a) && e !in b + a && head == if b == [] then e else b[0]
      requires var t, k := b + a, |b|;
        && (forall j :: 0 <= j < |t| && j != k ==> t[j].prev == PrevIn(t, j)) && (k < |t| ==> t[k].prev == e)
        && (forall j :: 0 <= j < |t| && j != k - 1 ==> t[j].next == NextIn(t, j)) && (k > 0 ==> t[k - 1].next == e)
        && e.prev == (if k > 0 then t[k - 1] else null) && e.next == if k < |t| then t[k] else null
      ensures Valid()
    {
      NoDupWith(b, a, e);
      forall i | 0 <= i < |s| ensures s[i].prev == PrevIn(s, i) && s[i].next == NextIn(s, i) {
        NeighboursWith(b, a, e, i);
      }
    }

    /** list_insert_head. */
    method InsertHead(e: FreeChunk)
      requires Valid() && e !in s
      modifies `head, `s, s`prev, e`next, e`prev
      ensures Valid() && s == [e] + old(s)
    {
      hide NoDup, PrevIn, NextIn;
      ghost var s0 := s;
      if s0 != [] { Place(0); }
      e.prev := null;
      e.next := head;
      if e.next != null { e.next.prev := e; }
      head := e;
      s := [e] + s0;
      assert [] + s0 == s0 && [] + [e] + s0 == s;
      Relinked([], s0, e);
    }

    /** list_insert_after, for the element at place k. */
    method InsertAfter(element: FreeChunk, e: FreeChunk, ghost k: nat)
      requires Valid() && k < |s| && s[k] == element && e !in s
      modifies `s, s`next, s`prev, e`next, e`prev
      ensures Valid() && s == old(s)[..k + 1] + [e] + old(s)[k + 1..]
    {
      hide NoDup, PrevIn, NextIn;
      ghost var s0 := s;
      ghost var b, a := s0[..k + 1], s0[k + 1..];
      assert b + a == s0;
      Ends(s0, k);
      Place(k);
      if k + 1 < |s| { Place(k + 1); }
      e.next := element.next;
      e.prev := element;
      if element.next != null { element.next.prev := e; }
      element.next := e;
      s := b + [e] + a;
      assert forall j :: 0 <= j < |s0| && j != k + 1 ==> s0[j].prev == PrevIn(s0, j);
      assert forall j :: 0 <= j < |s0| && j != k ==> s0[j].next == NextIn(s0, j);
      Relinked(b, a, e);
    }

    /** list_insert_before, for the element at place k. */
    method InsertBefore(element: FreeChunk, e: FreeChunk, ghost k: nat)
      requires Valid() && k < |s| && s[k] == element && e !in s
      modifies `head, `s, s`next, s`prev, e`next, e`prev
      ensures Valid() && s == old(s)[..k] + [e] + old(s)[k..]
    {
      hide NoDup, PrevIn, NextIn;
      ghost var s0 := s;
      ghost var b, a := s0[..k], s0[k..];
      assert b + a == s0;
      Ends(s0, k);
      Place(k);
      if k > 0 { Place(k - 1); }
      e.prev := element.prev;
      e.next := element;
      if element.prev != null { element.prev.next := e; } else { head := e; }
      element.prev := e;
      s := b + [e] + a;
      assert forall j :: 0 <= j < |s0| && j != k ==> s0[j].prev == PrevIn(s0, j);
      assert forall j :: 0 <= j < |s0| && j != k - 1 ==> s0[j].next == NextIn(s0, j);
      Relinked(b, a, e);
    }

    /** list_get_tail. */
    method GetTail() returns (tail: FreeChunk?)
      requires Valid()
      ensures tail == if s == [] then null else s[|s| - 1]
    {
      if head == null { return null; }
      tail := head;
      ghost var k := 0;
      while tail.next != null
        invariant k < |s| && tail == s[k]
        decreases |s| - k
      {
        tail := tail.next;
        k := k + 1;
      }
    }

    /** sorted_list_get_next: the first element whose index is at least the given one. */
    method GetNext(index: int) returns (e: FreeChunk?, ghost k: nat)
      requires Valid()
      ensures k <= |s| && e == (if k < |s| then s[k] else null)
      ensures (forall i :: 0 <= i < k ==> s[i].index < index) && (k < |s| ==> s[k].index >= index)
    {
      e := head;
      k := 0;
      while e != null
        invariant k <= |s| && e == (if k < |s| then s[k] else null) && forall i :: 0 <= i < k ==> s[i].index < index
        decreases |s| - k
      {
        if e.index >= index { return; }
        e := e.next;
        k := k + 1;
      }
    }

    /** sorted_list_insert: before the first element whose index is not smaller. */
    method Insert(e: FreeChunk, index: int) returns (ghost k: nat)
      requires Valid() && e !in s
      modifies `head, `s, s`next, s`prev, e`next, e`prev, e`index
      ensures Valid() && e.index == index
      ensures k <= |old(s)| && s == old(s)[..k] + [e] + old(s)[k..]
      ensures (forall i :: 0 <= i < k ==> old(s)[i].index < index) && (k < |old(s)| ==> old(s)[k].index >= index)
    {
      hide NoDup, PrevIn, NextIn;
      e.index := index;
      if head == null {
        InsertHead(e);
        k := 0;
        return;
      }
      var alike;
      alike, k := GetNext(index);
      if alike == null {
        var tail := GetTail();
        InsertAfter(tail, e, |s| - 1);
      } else {
        InsertBefore(alike, e, k);
      }
    }
  }
}
