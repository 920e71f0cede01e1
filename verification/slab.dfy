/** Slabs of equal objects, with a bitmap of those in use, and the lists in which a small-object cache keeps them. */
module SlabCaches {
  import opened PageSize
  import opened SizeClass
  import opened BinMap

  const NO_BLOCK: int := -1

  datatype SlabState = Empty | Partial | Full

  predicate Marked(bitmap: seq<nat>, i: nat)
    requires i / 8 < |bitmap|
  {
    Bit(bitmap[i / 8], i % 8)
  }

  predicate Bytes(bitmap: seq<nat>) { forall k :: 0 <= k < |bitmap| ==> bitmap[k] < Pow2(8) }

  /** The bits of exactly the used objects are set. */
  ghost predicate Shows(bitmap: seq<nat>, count: nat, used: set<nat>)
  {
    && Bytes(bitmap) && count <= 8 * |bitmap|
    && (forall i :: i in used ==> i < count)
    && forall i :: 0 <= i < count ==> (Marked(bitmap, i) <==> i in used)
  }

  lemma MarkByte(x: nat, k: nat)
    requires x < Pow2(8) && k < 8
    ensures Or(x, Pow2(k)) < Pow2(8) && forall i :: 0 <= i < 8 ==> (Bit(Or(x, Pow2(k)), i) <==> Bit(x, i) || i == k)
  {
    PowBelow(k);
    WordBound(x, Pow2(k), 8);
    forall i | 0 <= i < 8 ensures Bit(Or(x, Pow2(k)), i) <==> Bit(x, i) || i == k {
      OrBit(x, Pow2(k), i);
      Pow2Bit(k, i);
    }
  }

  lemma UnmarkByte(x: nat, k: nat)
    requires x < Pow2(8) && k < 8
    ensures Pow2(k) < Pow2(8) && And(x, Not(Pow2(k), 8)) < Pow2(8)
    ensures forall i :: 0 <= i < 8 ==> (Bit(And(x, Not(Pow2(k), 8)), i) <==> Bit(x, i) && i != k)
  {
    PowBelow(k);
    WordBound(x, Not(Pow2(k), 8), 8);
    forall i | 0 <= i < 8 ensures Bit(And(x, Not(Pow2(k), 8)), i) <==> Bit(x, i) && i != k {
      AndBit(x, Not(Pow2(k), 8), i);
      NotBit(Pow2(k), 8, i);
      Pow2Bit(k, i);
    }
  }

  lemma {:induction false} PowBelow(k: nat)
    requires k < 8
    ensures Pow2(k) < Pow2(8)
  {
    Pow2Add(k, 8 - k);
    assert Pow2(8 - k) >= 2;
    MulMono(2, Pow2(8 - k), Pow2(k));
  }

  lemma ByteWritten(bitmap: seq<nat>, count: nat, used: set<nat>, i: nat, byte: nat, used': set<nat>)
    requires Shows(bitmap, count, used) && i < count && byte < Pow2(8) && used' - {i} == used - {i}
    requires forall k :: 0 <= k < 8 && k != i % 8 ==> (Bit(byte, k) <==> Bit(bitmap[i / 8], k))
    requires Bit(byte, i % 8) <==> i in used'
    ensures Shows(bitmap[i / 8 := byte], count, used')
  {
    hide Bit, Pow2;
    var b := bitmap[i / 8 := byte];
    forall j | j in used' ensures j < count { assert j == i || j in used' - {i}; }
    forall j | 0 <= j < count ensures Marked(b, j) <==> j in used' {
      assert j != i ==> (j in used' <==> j in used' - {i}) && (j in used <==> j in used - {i});
      assert j / 8 == i / 8 && j != i ==> j % 8 != i % 8;
    }
  }

  /** bitmap_mark and bitmap_unmark. */
  function MarkedByte(x: nat, k: nat): nat { Or(x, Pow2(k)) }

  function UnmarkedByte(x: nat, k: nat): nat
    requires x < Pow2(8) && k < 8
  {
    PowBelow(k);
    And(x, Not(Pow2(k), 8))
  }

  lemma MarkShows(bitmap: seq<nat>, count: nat, used: set<nat>, i: nat)
    requires Shows(bitmap, count, used) && i < count
    ensures Shows(bitmap[i / 8 := MarkedByte(bitmap[i / 8], i % 8)], count, used + {i})
  {
    MarkByte(bitmap[i / 8], i % 8);
    ByteWritten(bitmap, count, used, i, MarkedByte(bitmap[i / 8], i % 8), used + {i});
  }

  lemma UnmarkShows(bitmap: seq<nat>, count: nat, used: set<nat>, i: nat)
    requires Shows(bitmap, count, used) && i < count
    ensures bitmap[i / 8] < Pow2(8) && Shows(bitmap[i / 8 := UnmarkedByte(bitmap[i / 8], i % 8)], count, used - {i})
  {
    UnmarkByte(bitmap[i / 8], i % 8);
    ByteWritten(bitmap, count, used, i, UnmarkedByte(bitmap[i / 8], i % 8), used - {i});
  }

  class Slab {
    const page: nat
    const data: nat
    const size: nat
    const objectCount: nat
    const bitmap: array<nat>
    var objectUsed: nat
    var state: SlabState

    /** The blocks in use. */
    ghost var used: set<nat>

    /** The objects lie in the slab's page, behind its header. */
    predicate Fits()
    {
      objectCount > 0 && size > 0 && page % PAGE_SIZE == 0 && page < data
        && data + objectCount * size <= page + PAGE_SIZE
    }

    ghost predicate Valid()
      reads this, bitmap
    {
      && Fits() && Shows(bitmap[..], objectCount, used) && objectUsed == |used| <= objectCount
      && state == StateOf(objectUsed)
    }

    function StateOf(used: nat): SlabState
    {
      if used == 0 then Empty else if used == objectCount then Full else Partial
    }

    function Address(i: nat): nat { data + i * size }

    /** kmem_cache_alloc_small, and the slab that is part of a new cache; the layout of the page is given. */
    constructor (page: nat, data: nat, size: nat, objectCount: nat)
      requires objectCount > 0 && size > 0 && page % PAGE_SIZE == 0
      requires page < data && data + objectCount * size <= page + PAGE_SIZE
      ensures Valid() && used == {} && fresh(bitmap)
      ensures this.page == page && this.data == data && this.size == size && this.objectCount == objectCount
    {
      this.page, this.data, this.size, this.objectCount := page, data, size, objectCount;
      bitmap := new nat[(objectCount + 7) / 8](_ => 0);
      objectUsed, state, used := 0, Empty, {};
      new;
      forall i | 0 <= i < objectCount ensures !Marked(bitmap[..], i) { ZeroBits(i % 8); }
      assert Pow2(8) > 0;
    }

    /** bitmap_search_free: the first free block from hint on, or else from the start. */
    method SearchFree(hint0: nat) returns (r: int)
      requires Valid()
      ensures r == NO_BLOCK <==> objectUsed == objectCount
      ensures r != NO_BLOCK ==> 0 <= r < objectCount && r !in used
      ensures r != NO_BLOCK ==> var hint := if hint0 > objectCount then 0 else hint0;
        forall i :: 0 <= i < objectCount && (if r >= hint then hint <= i < r else i >= hint || i < r) ==> i in used
    {
      hide Bytes;
      var hint := if hint0 > objectCount then 0 else hint0;
      var i := hint;
      while i < objectCount
        invariant hint <= i <= objectCount && forall j :: hint <= j < i ==> j in used
        modifies {}
      {
        if !Bit(bitmap[i / 8], i % 8) {
          assert !Marked(bitmap[..], i);
          CountBelow(used, objectCount);
          return i;
        }
        assert Marked(bitmap[..], i);
        i := i + 1;
      }
      i := 0;
      while i < hint
        invariant 0 <= i <= hint && forall j :: 0 <= j < i ==> j in used
        modifies {}
      {
        if !Bit(bitmap[i / 8], i % 8) {
          assert !Marked(bitmap[..], i);
          CountBelow(used, objectCount);
          return i;
        }
        assert Marked(bitmap[..], i);
        i := i + 1;
      }
      CountBelow(used, objectCount);
      return NO_BLOCK;
    }

    /** A free block is marked and counted. */
    method Take(block: nat)
      requires Valid() && block < objectCount && block !in used
      modifies this, bitmap
      ensures Valid() && used == old(used) + {block}
    {
      hide Bytes, Marked, Pow2, MarkedByte;
      CountBelow(used, objectCount);
      MarkShows(bitmap[..], objectCount, used, block);
      bitmap[block / 8] := MarkedByte(bitmap[block / 8], block % 8);
      assert bitmap[..] == old(bitmap[..])[block / 8 := MarkedByte(old(bitmap[block / 8]), block % 8)];
      used := used + {block};
      objectUsed := objectUsed + 1;
      state := if objectUsed == objectCount then Full else Partial;
    }

    /** A used block is unmarked. */
    method Drop(block: nat)
      requires Valid() && block in used
      modifies this, bitmap
      ensures Valid() && used == old(used) - {block}
    {
      hide Bytes, Marked, Pow2, UnmarkedByte;
      UnmarkShows(bitmap[..], objectCount, used, block);
      bitmap[block / 8] := UnmarkedByte(bitmap[block / 8], block % 8);
      assert bitmap[..] == old(bitmap[..])[block / 8 := UnmarkedByte(old(bitmap[block / 8]), block % 8)];
      used := used - {block};
      objectUsed := objectUsed - 1;
      state := if objectUsed == 0 then Empty else Partial;
    }
  }

  /** n numbers below n are all of them. */
  lemma {:induction false} CountBelow(s: set<nat>, n: nat)
    requires forall i :: i in s ==> i < n
    ensures |s| <= n && (|s| == n <==> forall i :: 0 <= i < n ==> i in s)
  {
    if n == 0 {
      assert s == {};
    } else {
      CountBelow(s - {n - 1}, n - 1);
      assert n - 1 in s ==> s == (s - {n - 1}) + {n - 1};
      assert n - 1 !in s ==> s == s - {n - 1};
    }
  }
}
