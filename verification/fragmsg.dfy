/** Messages longer than a micromessage, cut into fragments that each carry the header of the whole. */
module FragMsg {
  import opened BinMap

  const ENOMEM: int := 12

  type byte = b: nat | b < 256

  /** The header of every fragment: what the message is about, and the size of the whole payload. */
  datatype Header = Header(kind: nat, link: nat, msgSize: nat)

  datatype Fragment = Fragment(header: Header, data: seq<byte>)

  /** The payload in pieces of P bytes, the last one shorter. */
  function Pieces(payload: seq<byte>, P: nat): seq<seq<byte>>
    requires P > 0
  {
    if |payload| == 0 then [] else if |payload| <= P then [payload] else [payload[..P]] + Pieces(payload[P..], P)
  }

  function Joined(pieces: seq<seq<byte>>): seq<byte>
  {
    if pieces == [] then [] else pieces[0] + Joined(pieces[1..])
  }

  function Ceil(n: nat, d: nat): nat
    requires d > 0
  {
    (n + d - 1) / d
  }

  lemma CeilStep(n: nat, d: nat)
    requires d > 0 && n > d
    ensures Ceil(n, d) == Ceil(n - d, d) + 1
  {
    var x := n - 1;
    assert (x + d) / d == x / d + 1 by { DivPlus(x, d); }
    assert n + d - 1 == x + d && n - d + d - 1 == x;
  }

  lemma DivPlus(x: nat, d: nat)
    requires d > 0
    ensures (x + d) / d == x / d + 1
  {
    var q, r := x / d, x % d;
    assert x == q * d + r && x + d == (q + 1) * d + r;
    QuotientUnique(x + d, d, q + 1, r);
  }

  lemma CeilSmall(n: nat, d: nat)
    requires d > 0 && n <= d
    ensures Ceil(n, d) == if n == 0 then 0 else 1
  {
    if n > 0 {
      assert n + d - 1 == 1 * d + (n - 1);
      QuotientUnique(n + d - 1, d, 1, n - 1);
    } else {
      assert d - 1 == 0 * d + (d - 1);
      QuotientUnique(d - 1, d, 0, d - 1);
    }
  }

  /** The pieces are ceil(n/P) in number, none longer than P or empty, and joined they are the payload. */
  lemma {:induction false} PiecesJoin(payload: seq<byte>, P: nat)
    requires P > 0
    ensures Joined(Pieces(payload, P)) == payload && |Pieces(payload, P)| == Ceil(|payload|, P)
    ensures forall i :: 0 <= i < |Pieces(payload, P)| ==> 0 < |Pieces(payload, P)[i]| <= P
    decreases |payload|
  {
    if |payload| > P {
      PiecesJoin(payload[P..], P);
      CeilStep(|payload|, P);
      assert payload[..P] + payload[P..] == payload;
      assert (Pieces(payload, P))[1..] == Pieces(payload[P..], P);
    } else {
      CeilSmall(|payload|, P);
      if payload != [] { assert Joined([payload]) == payload + Joined([]); }
    }
  }

  function Fragments(header: Header, pieces: seq<seq<byte>>): seq<Fragment>
  {
    seq(|pieces|, i requires 0 <= i < |pieces| => Fragment(header, pieces[i]))
  }

  /** The messages that fragmsg_write sends. */
  function Sent(header: Header, payload: seq<byte>, P: nat): seq<Fragment>
    requires P > 0
  {
    Fragments(header.(msgSize := |payload|), Pieces(payload, P))
  }

  /** A queue of messages of one sender, with room for so many more. */
  class Channel {
    /** The bytes that fit behind the header of a micromessage. */
    const P: nat
    var queue: seq<Fragment>
    var room: nat

    constructor (P: nat, room: nat)
      ensures this.P == P && this.room == room && queue == []
    {
      this.P, this.room, queue := P, room, [];
    }

    /** msgwrite, which fails when the recipient or the sender has no memory left. */
    method Write(f: Fragment) returns (ok: bool)
      modifies this
      ensures ok <==> old(room) > 0
      ensures queue == (if ok then old(queue) + [f] else old(queue)) && room == if ok then old(room) - 1 else 0
    {
      ok := room > 0;
      if ok { queue, room := queue + [f], room - 1; }
    }

    /** A blocking msgread, as long as there is something to read. */
    method Read() returns (found: bool, f: Fragment)
      modifies `queue
      ensures found <==> old(queue) != []
      ensures found ==> f == old(queue)[0] && queue == old(queue)[1..]
      ensures !found ==> queue == old(queue)
    {
      found, f := queue != [], Fragment(Header(0, 0, 0), []);
      if found { f, queue := queue[0], queue[1..]; }
    }
  }

  /** fragmsg_write: all fragments in order, or as many as there is room for. An empty payload sends nothing, and is
      reported as a failure: the result is what the first msgwrite returned, and still -1. available tells whether the
      buffer for a fragment can be allocated. */
  method FragmsgWrite(c: Channel, header: Header, payload: seq<byte>, available: bool) returns (ok: bool)
    requires c.P > 0
    modifies c
    ensures ok <==> available && payload != [] && old(c.room) >= Ceil(|payload|, c.P)
    ensures var s := Sent(header, payload, c.P);
      c.queue == old(c.queue) + if !available then [] else if old(c.room) >= |s| then s else s[..old(c.room)]
  {
    if !available { return false; }
    hide Pieces, Joined, Ceil, Sent, AtPiece, Grown;
    ghost var s, q0 := Sent(header, payload, c.P), c.queue;
    SentLength(header, payload, c.P);
    var p := 0;
    ghost var i := 0;
    FirstPiece(payload, c.P);
    GrownIs(q0, q0, s, 0);
    while p < |payload|
      invariant p <= |payload| && i <= |s| && c.room == old(c.room) - i && AtPiece(payload, c.P, p, i)
      invariant Grown(c.queue, q0, s, i)
    {
      var sendsize := if |payload| - p > c.P then c.P else |payload| - p;
      NextPiece(payload, p, c.P, i);
      SentAt(header, payload, c.P, i);
      OneMore(c.queue, q0, s, i);
      ok := c.Write(Fragment(header.(msgSize := |payload|), payload[p..p + sendsize]));
      if !ok {
        GrownIs(c.queue, q0, s, i);
        return;
      }
      p, i := p + sendsize, i + 1;
    }
    NoPieces(payload, c.P, p, i);
    GrownIs(c.queue, q0, s, i);
    ok := payload != [];
  }

  /** The rest of the payload from p on makes the pieces from the i-th on. */
  ghost predicate AtPiece(payload: seq<byte>, P: nat, p: nat, i: nat)
    requires P > 0
  {
    p <= |payload| && i <= |Pieces(payload, P)| && Pieces(payload[p..], P) == Pieces(payload, P)[i..]
  }

  lemma SentLength(header: Header, payload: seq<byte>, P: nat)
    requires P > 0
    ensures |Sent(header, payload, P)| == |Pieces(payload, P)| == Ceil(|payload|, P)
  {
    hide Pieces, Ceil;
    PiecesJoin(payload, P);
  }

  lemma SentAt(header: Header, payload: seq<byte>, P: nat, i: nat)
    requires P > 0 && i < |Pieces(payload, P)|
    ensures i < |Sent(header, payload, P)|
    ensures Sent(header, payload, P)[i] == Fragment(header.(msgSize := |payload|), Pieces(payload, P)[i])
  {
    hide Pieces;
  }

  /** The first i messages of s have been sent. */
  ghost predicate Grown(q: seq<Fragment>, q0: seq<Fragment>, s: seq<Fragment>, i: nat)
  {
    i <= |s| && q == q0 + s[..i]
  }

  lemma OneMore(q: seq<Fragment>, q0: seq<Fragment>, s: seq<Fragment>, i: nat)
    requires i < |s| && Grown(q, q0, s, i)
    ensures Grown(q + [s[i]], q0, s, i + 1)
  {
  }

  lemma GrownIs(q: seq<Fragment>, q0: seq<Fragment>, s: seq<Fragment>, i: nat)
    ensures i <= |s| ==> (Grown(q, q0, s, i) <==> q == q0 + s[..i])
    ensures i == |s| ==> (Grown(q, q0, s, i) <==> q == q0 + s)
    ensures i == 0 ==> (Grown(q, q0, s, i) <==> q == q0)
  {
    assert q0 + s[..0] == q0;
    if i == |s| { assert s[..i] == s; }
  }

  lemma FirstPiece(payload: seq<byte>, P: nat)
    requires P > 0
    ensures AtPiece(payload, P, 0, 0)
  {
    assert payload[0..] == payload && Pieces(payload, P)[0..] == Pieces(payload, P);
  }

  lemma NoPieces(payload: seq<byte>, P: nat, p: nat, i: nat)
    requires P > 0 && AtPiece(payload, P, p, i) && p == |payload|
    ensures i == |Pieces(payload, P)|
  {
    assert Pieces(payload[p..], P) == [];
  }

  /** The piece at the cursor. */
  lemma NextPiece(payload: seq<byte>, p: nat, P: nat, i: nat)
    requires P > 0 && p < |payload| && AtPiece(payload, P, p, i)
    ensures var n := if |payload| - p > P then P else |payload| - p;
      && i < |Pieces(payload, P)| && Pieces(payload, P)[i] == payload[p..p + n] && AtPiece(payload, P, p + n, i + 1)
  {
    hide Pieces;
    var n := if |payload| - p > P then P else |payload| - p;
    FirstOf(payload[p..], P);
    assert payload[p..][..n] == payload[p..p + n] && payload[p..][n..] == payload[p + n..];
    Uncons(Pieces(payload, P), i, payload[p..p + n], Pieces(payload[p + n..], P));
  }

  lemma FirstOf(payload: seq<byte>, P: nat)
    requires P > 0 && payload != []
    ensures var n := if |payload| > P then P else |payload|;
      Pieces(payload, P) == [payload[..n]] + Pieces(payload[n..], P)
  {
    if |payload| <= P { assert payload[..|payload|] == payload && Pieces(payload[|payload|..], P) == []; }
  }

  lemma Uncons(all: seq<seq<byte>>, i: nat, piece: seq<byte>, rest: seq<seq<byte>>)
    requires i <= |all| && all[i..] == [piece] + rest
    ensures i < |all| && all[i] == piece && all[i + 1..] == rest
  {
    assert all[i..][0] == all[i] && all[i..][1..] == all[i + 1..];
    assert ([piece] + rest)[1..] == rest;
  }

  /** A message, with the size and the number that are returned for it, or a failure, with the number returned. */
  datatype Outcome =
    | Whole(header: Header, data: seq<byte>, size: nat, ret: int)
    | Blocked
    | TooBig
    | NoMemory(ret: int)

  /** Fragments are added to what there is until it is as long as announced; none may go beyond. */
  function Gathered(header: Header, data: seq<byte>, q: seq<Fragment>, ret: nat): (Outcome, seq<Fragment>)
    decreases |q|
  {
    if |data| >= header.msgSize then (Whole(header, data, header.msgSize, ret), q)
    else if q == [] then (Blocked, q)
    else if |data| + |q[0].data| > header.msgSize then (TooBig, q[1..])
    else Gathered(header, data + q[0].data, q[1..], ret)
  }

  /** What comes out of a queue of messages. A message in one piece is reported with its header, of H bytes, in
      its size, a reassembled one without. The number returned is that of the bytes of the first fragment, header and
      all, and no id. */
  function FirstMessage(q: seq<Fragment>, H: nat, P: nat): (Outcome, seq<Fragment>)
  {
    if q == [] then (Blocked, q)
    else if q[0].header.msgSize <= P then (Whole(q[0].header, q[0].data, H + |q[0].data|, H + |q[0].data|), q[1..])
    else Gathered(q[0].header, q[0].data, q[1..], H + |q[0].data|)
  }

  /** memcpy into the buffer. */
  method CopyIn(buffer: array<byte>, p: nat, data: seq<byte>)
    requires p + |data| <= buffer.Length
    modifies buffer
    ensures buffer[..p + |data|] == old(buffer[..p]) + data
  {
    forall i | 0 <= i < |data| { buffer[p + i] := data[i]; }
    assert buffer[..p] == old(buffer[..p]) && buffer[p..p + |data|] == data;
    assert buffer[..p + |data|] == buffer[..p] + buffer[p..p + |data|];
  }

  /** Whether a message needs the larger buffer. */
  predicate Fragmented(q: seq<Fragment>, P: nat)
  {
    q != [] && q[0].header.msgSize > P
  }

  /** fragmsg_read, with headers of H bytes. Every copy stays inside the buffer of the announced size. The flags tell
      whether the first buffer, the larger one and the one for further fragments can be allocated. Without the larger
      one the first fragment is lost, and the number of its bytes is returned as if it were a success. */
  method FragmsgRead(c: Channel, H: nat, first: bool, larger: bool, further: bool) returns (r: Outcome)
    requires forall f :: f in c.queue ==> |f.data| <= c.P
    modifies c`queue
    ensures !first ==> r == NoMemory(-ENOMEM) && c.queue == old(c.queue)
    ensures first && (!Fragmented(old(c.queue), c.P) || (larger && further)) ==>
      (r, c.queue) == FirstMessage(old(c.queue), H, c.P)
    ensures first && Fragmented(old(c.queue), c.P) && !(larger && further) ==>
      r == NoMemory(H + |old(c.queue)[0].data|) && c.queue == old(c.queue)[1..]
  {
    hide Gathered;
    if !first { return NoMemory(-ENOMEM); }
    var found, head := c.Read();
    if !found { return Blocked; }
    var header, ret := head.header, H + |head.data|;
    if header.msgSize <= c.P { return Whole(header, head.data, ret, ret); }
    if !larger || !further { return NoMemory(ret); }
    assert head in old(c.queue);
    var buffer := new byte[header.msgSize](_ => 0);
    CopyIn(buffer, 0, head.data);
    var p: nat := |head.data|;
    assert buffer[..p] == head.data;
    while p < header.msgSize
      invariant p <= header.msgSize == buffer.Length
      invariant Gathered(header, buffer[..p], c.queue, ret) == Gathered(header, head.data, old(c.queue)[1..], ret)
      decreases |c.queue|
    {
      GatheredNext(header, buffer[..p], c.queue, ret);
      var more, next := c.Read();
      if !more { return Blocked; }
      if |next.data| + p > header.msgSize { return TooBig; }
      CopyIn(buffer, p, next.data);
      p := p + |next.data|;
    }
    r := Whole(header, buffer[..], header.msgSize, ret);
    assert buffer[..p] == buffer[..];
    GatheredNext(header, buffer[..p], c.queue, ret);
  }

  lemma GatheredNext(header: Header, data: seq<byte>, q: seq<Fragment>, ret: nat)
    ensures |data| >= header.msgSize ==> Gathered(header, data, q, ret) == (Whole(header, data, header.msgSize, ret), q)
    ensures |data| < header.msgSize && q == [] ==> Gathered(header, data, q, ret) == (Blocked, q)
    ensures |data| < header.msgSize && q != [] ==>
      Gathered(header, data, q, ret) == if |q[0].data| + |data| > header.msgSize then (TooBig, q[1..])
                                        else Gathered(header, data + q[0].data, q[1..], ret)
  {
  }

  // ---- the round trip ----

  lemma {:induction false} GatheredPieces(header: Header, data: seq<byte>, pieces: seq<seq<byte>>, rest: seq<Fragment>,
                                          ret: nat)
    requires header.msgSize == |data + Joined(pieces)| && forall i :: 0 <= i < |pieces| ==> pieces[i] != []
    ensures Gathered(header, data, Fragments(header, pieces) + rest, ret) == (Whole(header, data + Joined(pieces),
        header.msgSize, ret), rest)
    decreases |pieces|
  {
    var q := Fragments(header, pieces) + rest;
    if pieces == [] {
      assert q == rest && data + Joined(pieces) == data;
    } else {
      assert q[0] == Fragment(header, pieces[0]);
      assert q[1..] == Fragments(header, pieces[1..]) + rest;
      assert data + pieces[0] + Joined(pieces[1..]) == data + Joined(pieces);
      GatheredPieces(header, data + pieces[0], pieces[1..], rest, ret);
    }
  }

  /** Whatever payload was written, in however many fragments, is read back whole, and what follows it is left. */
  lemma ReadBack(header: Header, payload: seq<byte>, rest: seq<Fragment>, H: nat, P: nat)
    requires P > 0 && payload != []
    ensures var n := |payload|;
      FirstMessage(Sent(header, payload, P) + rest, H, P) ==
        (Whole(header.(msgSize := n), payload, if n <= P then H + n else n, if n <= P then H + n else H + P), rest)
    ensures |Sent(header, payload, P)| == Ceil(|payload|, P)
  {
    PiecesJoin(payload, P);
    hide Ceil;
    var h, pieces := header.(msgSize := |payload|), Pieces(payload, P);
    var q := Sent(header, payload, P) + rest;
    if |payload| <= P {
      assert q[0] == Fragment(h, payload) && q[1..] == rest;
    } else {
      assert pieces == [payload[..P]] + Pieces(payload[P..], P);
      assert q[0] == Fragment(h, pieces[0]) && q[1..] == Fragments(h, pieces[1..]) + rest;
      assert pieces[0] + Joined(pieces[1..]) == Joined(pieces);
      GatheredPieces(h, pieces[0], pieces[1..], rest, H + P);
    }
  }

  /** A reassembled message comes without its header in the size, a message in one piece with it: the two calls report
      the payload's size alike exactly if the payload needs more than one fragment. */
  lemma SizeIsPayload(header: Header, payload: seq<byte>, rest: seq<Fragment>, H: nat, P: nat)
    requires P > 0 && H > 0 && payload != []
    ensures FirstMessage(Sent(header, payload, P) + rest, H, P).0.Whole?
    ensures FirstMessage(Sent(header, payload, P) + rest, H, P).0.size == |payload| <==> |payload| > P
  {
    ReadBack(header, payload, rest, H, P);
  }
}
