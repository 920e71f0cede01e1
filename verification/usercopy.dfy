/** Copies between kernel buffers and the memory behind virtual addresses, page by page. */
module UserCopies {
  import opened PageSize
  import opened PageTables
  import opened AddressSpaces
  import Regions
  import SpaceRuns

  type byte = b: nat | b < 256
  type Memory = m: seq<byte> | |m| == BYTES witness seq(BYTES, _ => 0)

  /** What virt2phys makes of pages: the frame of a page, 0 for none. */
  type Frames = nat -> nat

  ghost predicate FramesOk(trans: Frames)
  {
    forall page {:trigger trans(page)} :: trans(page) < BYTES && trans(page) % PAGE_SIZE == 0
  }

  /** The k-th address from virt on, in 32 bits, and the page it lies in. */
  function At(virt: nat, k: nat): nat { (virt + k) % BYTES }

  function PageAt(virt: nat, k: nat): nat { At(virt, k) / PAGE_SIZE * PAGE_SIZE }

  predicate MappedAt(trans: Frames, virt: nat, k: nat)
  {
    trans(PageAt(virt, k)) != 0
  }

  /** The physical address of the k-th byte. */
  function Phys(trans: Frames, virt: nat, k: nat): (p: nat)
    requires FramesOk(trans)
    ensures p < BYTES
  {
    FrameRoom(trans(PageAt(virt, k)), At(virt, k) % PAGE_SIZE);
    trans(PageAt(virt, k)) + At(virt, k) % PAGE_SIZE
  }

  lemma FrameRoom(frame: nat, offset: nat)
    requires frame < BYTES && frame % PAGE_SIZE == 0 && offset < PAGE_SIZE
    ensures frame + offset < BYTES
  {
  }

  /** Memory after the bytes of data are stored one by one, in order. */
  function Stored(m: Memory, trans: Frames, virt: nat, data: seq<byte>): (r: Memory)
    requires FramesOk(trans)
  {
    if data == [] then m
    else
      var n := |data| - 1;
      var r: seq<byte> := Stored(m, trans, virt, data[..n])[Phys(trans, virt, n) := data[n]];
      r
  }

  lemma StoredNone(m: Memory, trans: Frames, virt: nat)
    requires FramesOk(trans)
    ensures Stored(m, trans, virt, []) == m
  {
  }

  /** The bytes from virt on. */
  function Loaded(m: Memory, trans: Frames, virt: nat, n: nat): seq<byte>
    requires FramesOk(trans)
  {
    seq(n, k requires 0 <= k < n => m[Phys(trans, virt, k)])
  }

  /** memcpy of bytes into one frame. */
  function Written(m: Memory, at: nat, bytes: seq<byte>): (r: Memory)
    requires at + |bytes| <= BYTES
  {
    m[..at] + bytes + m[at + |bytes|..]
  }

  /** Bytes stored one by one inside a page are one memcpy into its frame. */
  lemma {:induction false} StoredInPage(m: Memory, trans: Frames, virt: nat, data: seq<byte>, pos: nat, len: nat)
    requires FramesOk(trans) && pos + len <= |data| && At(virt, pos) % PAGE_SIZE + len <= PAGE_SIZE
    ensures Phys(trans, virt, pos) + len <= BYTES
    ensures Stored(m, trans, virt, data[..pos + len]) ==
      Written(Stored(m, trans, virt, data[..pos]), Phys(trans, virt, pos), data[pos..pos + len])
    decreases len
  {
    hide Phys, At, PageAt, Written;
    SamePage(trans, virt, pos, len);
    var w, at := Stored(m, trans, virt, data[..pos]), Phys(trans, virt, pos);
    if len > 0 {
      StoredInPage(m, trans, virt, data, pos, len - 1);
      assert data[..pos + len][..pos + len - 1] == data[..pos + len - 1];
      WrittenMore(w, at, data[pos..pos + len]);
      assert data[pos..pos + len][..len - 1] == data[pos..pos + len - 1];
    } else {
      WrittenNone(w, at);
    }
  }

  lemma WrittenNone(m: Memory, at: nat)
    requires at <= BYTES
    ensures Written(m, at, []) == m
  {
  }

  lemma WrittenMore(m: Memory, at: nat, bytes: seq<byte>)
    requires at + |bytes| <= BYTES && bytes != []
    ensures Written(m, at, bytes[..|bytes| - 1])[at + |bytes| - 1 := bytes[|bytes| - 1]] == Written(m, at, bytes)
  {
  }

  lemma SamePage(trans: Frames, virt: nat, pos: nat, len: nat)
    requires FramesOk(trans) && At(virt, pos) % PAGE_SIZE + len <= PAGE_SIZE
    ensures Phys(trans, virt, pos) + len <= BYTES
    ensures forall k :: pos <= k < pos + len ==>
      PageAt(virt, k) == PageAt(virt, pos) && Phys(trans, virt, k) == Phys(trans, virt, pos) + (k - pos)
  {
    hide At;
    var f := trans(PageAt(virt, pos));
    assert f + PAGE_SIZE <= BYTES by { FrameRoom(f, PAGE_SIZE - 1); }
    forall k | pos <= k < pos + len
      ensures PageAt(virt, k) == PageAt(virt, pos) && Phys(trans, virt, k) == Phys(trans, virt, pos) + (k - pos)
    {
      FurtherIn(virt, pos, k - pos);
    }
  }

  lemma FurtherIn(virt: nat, pos: nat, k: nat)
    requires At(virt, pos) % PAGE_SIZE + k < PAGE_SIZE
    ensures At(virt, pos + k) == At(virt, pos) + k && PageAt(virt, pos + k) == PageAt(virt, pos)
    ensures At(virt, pos + k) % PAGE_SIZE == At(virt, pos) % PAGE_SIZE + k
  {
    hide At;
    AtMore(virt, pos, k);
    InPage(At(virt, pos), k);
  }

  lemma AtMore(virt: nat, pos: nat, k: nat)
    ensures At(virt, pos + k) == (At(virt, pos) + k) % BYTES && At(virt, pos) < BYTES
  {
  }

  lemma InPage(a: nat, k: nat)
    requires a < BYTES && a % PAGE_SIZE + k < PAGE_SIZE
    ensures (a + k) % BYTES == a + k && (a + k) / PAGE_SIZE == a / PAGE_SIZE && (a + k) % PAGE_SIZE == a % PAGE_SIZE + k
  {
    assert a == a / PAGE_SIZE * PAGE_SIZE + a % PAGE_SIZE;
    assert a / PAGE_SIZE < PAGES;
  }

  /** The next page, counted round the address space. */
  lemma PageEnds(virt: nat, pos: nat, len: nat)
    requires At(virt, pos) % PAGE_SIZE + len == PAGE_SIZE
    ensures At(virt, pos + len) == (At(virt, pos) / PAGE_SIZE * PAGE_SIZE + PAGE_SIZE) % BYTES
    ensures At(virt, pos + len) % PAGE_SIZE == 0
  {
    hide At;
    AtMore(virt, pos, len);
    var a := At(virt, pos);
    assert a + len == (a / PAGE_SIZE + 1) * PAGE_SIZE;
  }

  /** r bytes were transferred: all of them mapped, and either all there are or up to the first unmapped page. */
  predicate Transferred(trans: Frames, virt: nat, size: nat, r: nat)
  {
    && r <= size
    && (forall k :: 0 <= k < r ==> MappedAt(trans, virt, k))
    && (r < size ==> !MappedAt(trans, virt, r))
  }

  lemma MappedPage(trans: Frames, virt: nat, pos: nat, len: nat)
    requires FramesOk(trans) && At(virt, pos) % PAGE_SIZE + len <= PAGE_SIZE
    requires MappedAt(trans, virt, pos) && forall k :: 0 <= k < pos ==> MappedAt(trans, virt, k)
    ensures forall k :: 0 <= k < pos + len ==> MappedAt(trans, virt, k)
  {
    hide At, PageAt;
    SamePage(trans, virt, pos, len);
  }

  /** Where the loops stand. */
  predicate OnPage(virt: nat, pos: nat, page: nat, offset: nat)
  {
    page == PageAt(virt, pos) && offset == At(virt, pos) % PAGE_SIZE
  }

  lemma StartAt(virt: nat)
    requires virt < BYTES
    ensures OnPage(virt, 0, virt / PAGE_SIZE * PAGE_SIZE, virt % PAGE_SIZE)
  {
  }

  lemma NextPage(virt: nat, pos: nat, page: nat, offset: nat, len: nat)
    requires OnPage(virt, pos, page, offset) && offset + len == PAGE_SIZE
    ensures OnPage(virt, pos + len, (page + PAGE_SIZE) % BYTES, 0)
  {
    hide At;
    PageEnds(virt, pos, len);
  }

  lemma HerePhys(trans: Frames, virt: nat, pos: nat, page: nat, offset: nat)
    requires FramesOk(trans) && OnPage(virt, pos, page, offset)
    ensures Phys(trans, virt, pos) == trans(page) + offset && (MappedAt(trans, virt, pos) <==> trans(page) != 0)
    ensures offset < PAGE_SIZE && At(virt, pos) % PAGE_SIZE == offset && page < BYTES && page % PAGE_SIZE == 0
  {
    hide At;
    AtMore(virt, pos, 0);
  }

  /** memcpy into memory. */
  method MoveIn(m: array<byte>, at: nat, bytes: seq<byte>)
    requires m.Length == BYTES && at + |bytes| <= BYTES
    modifies m
    ensures m[..] == Written(old(m[..]), at, bytes)
  {
    forall i | 0 <= i < |bytes| { m[at + i] := bytes[i]; }
    assert m[..at] == old(m[..at]) && m[at..at + |bytes|] == bytes && m[at + |bytes|..] == old(m[at + |bytes|..]);
    assert m[..] == m[..at] + m[at..at + |bytes|] + m[at + |bytes|..];
  }

  /** The frames of an address space. */
  ghost function FramesIn(s: SpaceRuns.State): (trans: Frames)
    ensures FramesOk(trans)
  {
    var trans := SpaceRuns.FramesOf(s);
    assert FramesOk(trans) by {
      forall page: nat ensures trans(page) < BYTES && trans(page) % PAGE_SIZE == 0 { SpaceRuns.FramesOfOk(s, page); }
    }
    trans
  }

  /** virt2phys of a page. */
  method PageFrame(a: AddressSpace, page: nat, ghost s: SpaceRuns.State) returns (phys: nat)
    requires a.Valid() && a.state == s && page < BYTES && page % PAGE_SIZE == 0
    modifies a.space.tree`cachedKey, a.space.tree`cachedNode, a.space.tree`cachedMode
    ensures a.Valid() && a.state == s && phys == FramesIn(s)(page)
  {
    hide AddressSpace.Valid;
    phys := a.VirtToPhys(page);
  }

  /** copy2virt. */
  method CopyToVirt(m: array<byte>, a: AddressSpace, virt: nat, orig: seq<byte>) returns (r: nat)
    requires m.Length == BYTES && a.Valid() && virt < BYTES && |orig| < BYTES
    modifies m, a.space.tree`cachedKey, a.space.tree`cachedNode, a.space.tree`cachedMode
    ensures a.Valid() && a.state == old(a.state)
    ensures Transferred(FramesIn(a.state), virt, |orig|, r)
    ensures m[..] == Stored(old(m[..]), FramesIn(a.state), virt, orig[..r])
  {
    hide At, PageAt, Phys, FramesOk, Stored, OnPage, MappedAt, Written, FramesIn, AddressSpace.Valid;
    ghost var s, trans := a.state, FramesIn(a.state);
    var offset: nat, page: nat := virt % PAGE_SIZE, virt / PAGE_SIZE * PAGE_SIZE;
    var size: nat, pos: nat := |orig|, 0;
    StartAt(virt);
    StoredNone(m[..], trans, virt);
    assert orig[..pos] == [];
    while size > 0
      invariant pos + size == |orig| && (size > 0 ==> OnPage(virt, pos, page, offset))
      invariant forall k :: 0 <= k < pos ==> MappedAt(trans, virt, k)
      invariant m[..] == Stored(old(m[..]), trans, virt, orig[..pos])
      invariant a.Valid() && a.state == s
    {
      HerePhys(trans, virt, pos, page, offset);
      var phys := PageFrame(a, page, s);
      if phys == 0 { return pos; }
      var len := if PAGE_SIZE - offset > size then size else PAGE_SIZE - offset;
      StoredInPage(old(m[..]), trans, virt, orig, pos, len);
      MappedPage(trans, virt, pos, len);
      MoveIn(m, phys + offset, orig[pos..pos + len]);
      if len < size { NextPage(virt, pos, page, offset, len); }
      page, size, pos, offset := (page + PAGE_SIZE) % BYTES, size - len, pos + len, 0;
    }
    assert orig[..pos] == orig;
    return pos;
  }

  lemma LoadedInPage(m: Memory, trans: Frames, virt: nat, pos: nat, len: nat)
    requires FramesOk(trans) && At(virt, pos) % PAGE_SIZE + len <= PAGE_SIZE
    ensures Phys(trans, virt, pos) + len <= BYTES
    ensures Loaded(m, trans, virt, pos + len) ==
      Loaded(m, trans, virt, pos) + m[Phys(trans, virt, pos)..Phys(trans, virt, pos) + len]
  {
    hide At, PageAt, Phys;
    SamePage(trans, virt, pos, len);
  }

  /** copy2phys: the bytes that reach dest. */
  method CopyToPhys(m: array<byte>, a: AddressSpace, virt: nat, size: nat) returns (r: nat, dest: seq<byte>)
    requires m.Length == BYTES && a.Valid() && virt < BYTES && size < BYTES
    modifies a.space.tree`cachedKey, a.space.tree`cachedNode, a.space.tree`cachedMode
    ensures a.Valid() && a.state == old(a.state)
    ensures Transferred(FramesIn(a.state), virt, size, r)
    ensures dest == Loaded(m[..], FramesIn(a.state), virt, r)
  {
    hide At, PageAt, Phys, FramesOk, OnPage, MappedAt, Loaded, FramesIn, AddressSpace.Valid;
    ghost var s, trans := a.state, FramesIn(a.state);
    var offset: nat, page: nat := virt % PAGE_SIZE, virt / PAGE_SIZE * PAGE_SIZE;
    var left: nat := size;
    r, dest := 0, [];
    StartAt(virt);
    LoadedNone(m[..], trans, virt);
    while left > 0
      invariant r + left == size && (left > 0 ==> OnPage(virt, r, page, offset))
      invariant forall k :: 0 <= k < r ==> MappedAt(trans, virt, k)
      invariant dest == Loaded(m[..], trans, virt, r)
      invariant a.Valid() && a.state == s
    {
      HerePhys(trans, virt, r, page, offset);
      var phys := PageFrame(a, page, s);
      if phys == 0 { return; }
      var len := if PAGE_SIZE - offset > left then left else PAGE_SIZE - offset;
      LoadedInPage(m[..], trans, virt, r, len);
      MappedPage(trans, virt, r, len);
      dest := dest + m[phys + offset..phys + offset + len];
      if len < left { NextPage(virt, r, page, offset, len); }
      page, left, r, offset := (page + PAGE_SIZE) % BYTES, left - len, r + len, 0;
    }
  }

  lemma LoadedNone(m: Memory, trans: Frames, virt: nat)
    requires FramesOk(trans)
    ensures Loaded(m, trans, virt, 0) == []
  {
  }

  /** A byte that a copy reaches, in a region that is up to date, is the one that the processor reaches. */
  lemma WalkReaches(s: SpaceRuns.State, p: Paging, virt: nat, k: nat)
    requires SpaceRuns.Inv(s) && SpaceRuns.Holds(p, s.hw)
    requires forall j :: j in s.areas && Regions.In(PageAt(virt, k), s.areas[j].span) ==> j !in s.stale
    ensures At(virt, k) < BYTES && PagingOk(p)
    ensures MappedAt(FramesIn(s), virt, k) ==>
      Walk(p, At(virt, k)).To? && Walk(p, At(virt, k)).phys == Phys(FramesIn(s), virt, k)
  {
    hide SpaceRuns.Inv, Walk, At, SpaceRuns.PhysOf, PagingOk;
    AtMore(virt, k, 0);
    assert PageAt(virt, k) % PAGE_SIZE == 0 && PageAt(virt, k) < BYTES;
    SpaceRuns.PhysIsWalk(s, p, PageAt(virt, k));
    WalkByEntry(p, PageAt(virt, k));
    WalkByEntry(p, At(virt, k));
  }

  // ---- the two copies together ----

  ghost predicate PhysDistinct(trans: Frames, virt: nat, n: nat)
    requires FramesOk(trans)
  {
    forall i, j :: 0 <= i < j < n ==> Phys(trans, virt, i) != Phys(trans, virt, j)
  }

  lemma {:induction false} StoredElsewhere(m: Memory, trans: Frames, virt: nat, data: seq<byte>, a: nat)
    requires FramesOk(trans) && a < BYTES && forall k :: 0 <= k < |data| ==> Phys(trans, virt, k) != a
    ensures Stored(m, trans, virt, data)[a] == m[a]
    decreases |data|
  {
    hide Phys;
    if data != [] { StoredElsewhere(m, trans, virt, data[..|data| - 1], a); }
  }

  lemma {:induction false} StoredAt(m: Memory, trans: Frames, virt: nat, data: seq<byte>, k: nat)
    requires FramesOk(trans) && k < |data|
    requires forall j :: k < j < |data| ==> Phys(trans, virt, k) != Phys(trans, virt, j)
    ensures Stored(m, trans, virt, data)[Phys(trans, virt, k)] == data[k]
    decreases |data|
  {
    hide Phys;
    if k < |data| - 1 { StoredAt(m, trans, virt, data[..|data| - 1], k); }
  }

  ghost predicate RoundTrips(m: Memory, trans: Frames, virt: nat, data: seq<byte>)
    requires FramesOk(trans)
  {
    Loaded(Stored(m, trans, virt, data), trans, virt, |data|) == data
  }

  /** Reading back gives every buffer of n bytes exactly if no two of the bytes share a physical address. */
  lemma RoundTripIff(m: Memory, trans: Frames, virt: nat, n: nat)
    requires FramesOk(trans)
    ensures (forall data: seq<byte> :: |data| == n ==>
         RoundTrips(m, trans, virt, data)) <==> PhysDistinct(trans, virt, n)
  {
    hide Phys, FramesOk;
    if PhysDistinct(trans, virt, n) {
      forall data: seq<byte> | |data| == n ensures RoundTrips(m, trans, virt, data) {
        forall k | 0 <= k < n ensures Stored(m, trans, virt, data)[Phys(trans, virt, k)] == data[k] {
          StoredAt(m, trans, virt, data, k);
        }
      }
    } else {
      var i, j :| 0 <= i < j < n && Phys(trans, virt, i) == Phys(trans, virt, j);
      var zeros: seq<byte> := seq(n, _ => 0);
      var data: seq<byte> := zeros[i := 1];
      SharedByte(m, trans, virt, data, i, j);
    }
  }

  lemma SharedByte(m: Memory, trans: Frames, virt: nat, data: seq<byte>, i: nat, j: nat)
    requires FramesOk(trans) && i < j < |data| && Phys(trans, virt, i) == Phys(trans, virt, j) && data[i] != data[j]
    ensures !RoundTrips(m, trans, virt, data)
  {
    hide Phys, Stored;
    var l := Loaded(Stored(m, trans, virt, data), trans, virt, |data|);
    assert l[i] == l[j];
  }

  /** It is so if distinct pages of the range have distinct frames. */
  lemma DistinctFrames(trans: Frames, virt: nat, n: nat)
    requires FramesOk(trans) && n <= BYTES
    requires forall i, j :: 0 <= i < j < n && PageAt(virt, i) != PageAt(virt, j) ==>
      trans(PageAt(virt, i)) != trans(PageAt(virt, j))
    ensures PhysDistinct(trans, virt, n)
  {
    hide At, FramesOk, PageAt, Phys;
    forall i, j | 0 <= i < j < n ensures Phys(trans, virt, i) != Phys(trans, virt, j) {
      PhysParts(trans, virt, i);
      PhysParts(trans, virt, j);
      AtDistinct(virt, i, j);
    }
  }

  lemma PhysParts(trans: Frames, virt: nat, k: nat)
    requires FramesOk(trans)
    ensures Phys(trans, virt, k) / PAGE_SIZE * PAGE_SIZE == trans(PageAt(virt, k))
    ensures Phys(trans, virt, k) % PAGE_SIZE == At(virt, k) % PAGE_SIZE
  {
    hide At;
  }

  lemma AtDistinct(virt: nat, i: nat, j: nat)
    requires i < j < BYTES
    ensures PageAt(virt, i) != PageAt(virt, j) || At(virt, i) % PAGE_SIZE != At(virt, j) % PAGE_SIZE
  {
    assert At(virt, i) != At(virt, j);
  }
}
