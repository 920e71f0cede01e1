/** Message queues over reference-counted bodies, as a protocol: one step per system call, over every run. */
module MsgProtocol {
  import opened Sequences

  const PENDING_COUNT: nat := 64

  /** A kernel object: here, the body of a message. */
  class KernelObject {
    var count: nat
    var refs: seq<ObjRef>

    /** __kernel_object_create. */
    constructor ()
      ensures count == 0 && refs == []
    {
      count, refs := 0, [];
    }
  }

  class ObjRef {
    const target: KernelObject

    constructor (target: KernelObject)
      ensures this.target == target
    {
      this.target := target;
    }
  }

  class Msg {
    const ref: ObjRef
    var readOnly: bool

    /** msg_new_from_msg and msg_new_from_ref, once the reference is open. */
    constructor (ref: ObjRef)
      ensures this.ref == ref && !readOnly
    {
      this.ref, readOnly := ref, false;
    }
  }

  /** A slot of the pending table: a tagged index of the next free slot, or a message. */
  datatype Slot = Index(next: int) | Ptr(msg: Msg?)

  /** The pending table and its free ids in turn, the incoming messages, and those ever sent and received. */
  datatype Queue = Queue(table: seq<Slot>, free: seq<nat>, incoming: seq<Msg>, sent: seq<Msg>, received: seq<Msg>)

  datatype Place = InTable(q: nat, id: nat) | Incoming(q: nat)

  /** The counter of a kernel object and its list of references. */
  datatype Object = Object(count: nat, refs: seq<ObjRef>)

  /** The queues, where each message is, the live bodies, the message of each reference, the bodies destroyed,
      and all messages and bodies there ever were. */
  datatype State = State(queues: seq<Queue>, where: map<Msg, Place>, objects: map<KernelObject, Object>,
                         holder: map<ObjRef, Msg>, destroyed: seq<KernelObject>, born: set<Msg>,
                             bodies: set<KernelObject>)

  function Head(free: seq<nat>): int { if free == [] then -1 else free[0] }

  /** The free slots are threaded in the order of free, and every slot that is no message is among them. */
  ghost predicate FreeThreaded(table: seq<Slot>, free: seq<nat>)
  {
    && NoDup(free)
    && (forall i :: 0 <= i < |free| ==> free[i] < |table| && table[free[i]] == Index(Head(free[i + 1..])))
    && forall id :: 0 <= id < |table| && table[id].Index? ==> id in free
  }

  ghost predicate QueueOk(t: Queue)
  {
    && |t.table| == PENDING_COUNT && FreeThreaded(t.table, t.free)
    && t.sent == t.received + t.incoming && NoDup(t.sent)
  }

  /** The messages at queue q are exactly where the map has them. */
  ghost predicate QueuePlaced(q: nat, t: Queue, where: map<Msg, Place>)
  {
    && (forall id :: 0 <= id < |t.table| && t.table[id].Ptr? ==> At(t.table[id].msg, where, InTable(q, id)))
    && (forall i :: 0 <= i < |t.incoming| ==> At(t.incoming[i], where, Incoming(q)))
    && forall m :: m in where && where[m].q == q ==> Found(t, m, where[m])
  }

  predicate At(m: Msg?, where: map<Msg, Place>, p: Place)
  {
    m != null && m in where && where[m] == p
  }

  predicate Found(t: Queue, m: Msg, p: Place)
  {
    match p
    case InTable(_, id) => id < |t.table| && t.table[id] == Ptr(m)
    case Incoming(_) => m in t.incoming
  }

  ghost predicate Placed(queues: seq<Queue>, where: map<Msg, Place>)
  {
    && (forall q :: 0 <= q < |queues| ==> QueuePlaced(q, queues[q], where))
    && forall m :: m in where ==> where[m].q < |queues|
  }

  predicate ObjectOk(o: KernelObject, x: Object)
  {
    x.count == |x.refs| > 0 && NoDup(x.refs) && forall r :: r in x.refs ==> r.target == o
  }

  /** The references of each live body are those of the messages that are somewhere, one each, and are counted. */
  ghost predicate Counted(s: State)
  {
    && (forall o :: o in s.objects ==> ObjectOk(o, s.objects[o]))
    && (forall m :: m in s.where ==> Holds(s, m))
    && forall o, r :: o in s.objects && r in s.objects[o].refs ==>
      r in s.holder && s.holder[r] in s.where && s.holder[r].ref == r
  }

  predicate Holds(s: State, m: Msg)
  {
    && m.ref in s.holder && s.holder[m.ref] == m
    && m.ref.target in s.objects && m.ref in s.objects[m.ref.target].refs
  }

  /** Every body ever made is live, or has been destroyed once. */
  ghost predicate Destroyed(s: State)
  {
    && NoDup(s.destroyed) && (forall o :: o in s.destroyed ==> o !in s.objects)
    && (forall o :: o in s.bodies ==> o in s.objects || o in s.destroyed)
    && (forall o :: o in s.objects ==> o in s.bodies) && forall o :: o in s.destroyed ==> o in s.bodies
  }

  ghost predicate Known(s: State)
  {
    && (forall m :: m in s.where ==> m in s.born)
    && forall q :: 0 <= q < |s.queues| ==> forall i :: 0 <= i < |s.queues[q].sent| ==> s.queues[q].sent[i] in s.born
  }

  ghost predicate QueuesOk(queues: seq<Queue>)
  {
    forall q :: 0 <= q < |queues| ==> QueueOk(queues[q])
  }

  ghost predicate Inv(s: State)
  {
    QueuesOk(s.queues) && Placed(s.queues, s.where) && Counted(s) && Destroyed(s) && Known(s)
  }

  // ---- the steps ----

  /** The new message of a request or a send is fresh, and so is the body of a request. */
  datatype Event = Request(q: nat, msg: Msg) | Send(q: nat, to: nat, id: int,
      msg: Msg) | Recv(q: nat) | Release(q: nat, id: int)

  /** __msg_get_ptr. */
  function GetPtr(t: Queue, id: int): Msg?
  {
    if 0 <= id < |t.table| && t.table[id].Ptr? then t.table[id].msg else null
  }

  ghost predicate Enabled(s: State, e: Event)
  {
    match e
    case Request(q, m) => q < |s.queues| && m !in s.born && m.ref.target !in s.bodies && m.ref !in s.holder
    case Send(q, to, id, n) =>
      && q < |s.queues| && to < |s.queues| && n !in s.born && n.ref !in s.holder
      && (GetPtr(s.queues[q], id) != null ==> n.ref.target == GetPtr(s.queues[q], id).ref.target)
    case Recv(q) => q < |s.queues|
    case Release(q, _) => q < |s.queues|
  }

  /** The message takes the first free id. */
  function PutInTable(t: Queue, m: Msg): Queue
    requires t.free != [] && t.free[0] < |t.table|
  {
    t.(table := t.table[t.free[0] := Ptr(m)], free := t.free[1..])
  }

  function TakeFromTable(t: Queue, id: nat): Queue
    requires id < |t.table|
  {
    t.(table := t.table[id := Index(Head(t.free))], free := [id] + t.free)
  }

  function Arrived(t: Queue, m: Msg): Queue
  {
    t.(incoming := t.incoming + [m], sent := t.sent + [m])
  }

  function Received(t: Queue): Queue
    requires t.incoming != [] && t.free != [] && t.free[0] < |t.table|
  {
    PutInTable(t, t.incoming[0]).(incoming := t.incoming[1..], received := t.received + [t.incoming[0]])
  }

  /** __kernel_object_open on behalf of a message that appears at place p. */
  function Opened(s: State, m: Msg, p: Place): State
  {
    var o := m.ref.target;
    var x := if o in s.objects then s.objects[o] else Object(0, []);
    s.(where := s.where[m := p], holder := s.holder[m.ref := m], born := s.born + {m}, bodies := s.bodies + {o},
       objects := s.objects[o := Object(x.count + 1, [m.ref] + x.refs)])
  }

  /** __kernel_object_ref_close of the reference of a message that disappears: the body goes with the last one. */
  function Closed(s: State, m: Msg): State
    requires m.ref.target in s.objects
  {
    var o := m.ref.target;
    var x := s.objects[o];
    var s' := s.(where := s.where - {m}, holder := s.holder - {m.ref});
    if x.count <= 1
    then s'.(objects := s.objects - {o}, destroyed := s.destroyed + [o])
    else s'.(objects := s.objects[o := Object(x.count - 1, Removed(x.refs, m.ref))])
  }

  ghost function Step(s: State, e: Event): State
    requires Inv(s) && Enabled(s, e)
  {
    match e
    case Request(q, m) =>
      var t := s.queues[q];
      if t.free == [] then s
      else
        assert QueueOk(t);
        Opened(s, m, InTable(q, t.free[0])).(queues := s.queues[q := PutInTable(t, m)])
    case Send(q, to, id, n) =>
      if GetPtr(s.queues[q], id) == null then s
      else Opened(s, n, Incoming(to)).(queues := s.queues[to := Arrived(s.queues[to], n)])
    case Recv(q) =>
      var t := s.queues[q];
      if t.incoming == [] || t.free == [] then s
      else
        assert QueueOk(t);
        s.(queues := s.queues[q := Received(t)], where := s.where[t.incoming[0] := InTable(q, t.free[0])])
    case Release(q, id) =>
      var m := GetPtr(s.queues[q], id);
      if m == null then s
      else
        PointsSomewhere(s, q, id);
        Closed(s, m).(queues := s.queues[q := TakeFromTable(s.queues[q], id)])
  }

  /** A message in a table holds a reference of a live body. */
  lemma PointsSomewhere(s: State, q: nat, id: int)
    requires Inv(s) && q < |s.queues| && GetPtr(s.queues[q], id) != null
    ensures var m := GetPtr(s.queues[q], id);
      0 <= id < |s.queues[q].table| && s.queues[q].table[id] == Ptr(m) && At(m, s.where, InTable(q, id)) && Holds(s, m)
  {
    hide QueueOk;
    assert QueuePlaced(q, s.queues[q], s.where);
  }

  // ---- the free ids ----

  lemma TakeId(table: seq<Slot>, free: seq<nat>, m: Msg)
    requires FreeThreaded(table, free) && free != []
    ensures free[0] < |table| && table[free[0]] == Index(Head(free[1..]))
    ensures FreeThreaded(table[free[0] := Ptr(m)], free[1..])
  {
    var t, f := table[free[0] := Ptr(m)], free[1..];
    forall i | 0 <= i < |f| ensures f[i] < |t| && t[f[i]] == Index(Head(f[i + 1..])) {
      assert f[i] == free[i + 1] && f[i + 1..] == free[i + 2..];
    }
    forall id | 0 <= id < |t| && t[id].Index? ensures id in f {
      var i :| 0 <= i < |free| && free[i] == id;
      assert f[i - 1] == id;
    }
  }

  lemma ReturnId(table: seq<Slot>, free: seq<nat>, id: nat)
    requires FreeThreaded(table, free) && id < |table| && table[id].Ptr?
    ensures FreeThreaded(table[id := Index(Head(free))], [id] + free)
  {
    var t, f := table[id := Index(Head(free))], [id] + free;
    forall i | 0 <= i < |f| ensures f[i] < |t| && t[f[i]] == Index(Head(f[i + 1..])) {
      assert f[i + 1..] == free[i..];
      if i > 0 { assert f[i] == free[i - 1]; }
    }
    forall j | 0 <= j < |t| && t[j].Index? ensures j in f {
      if j != id { assert j in free; }
    }
  }

  /** The free ids are exactly the slots that hold no message. */
  lemma FreeIsUnused(table: seq<Slot>, free: seq<nat>, id: nat)
    requires FreeThreaded(table, free) && id < |table|
    ensures id in free <==> table[id].Index?
  {
  }

  // ---- the references ----

  lemma ClosedObject(o: KernelObject, x: Object, r: ObjRef)
    requires ObjectOk(o, x) && r in x.refs
    ensures var rest := Removed(x.refs, r);
      && (x.count > 1 ==> ObjectOk(o, Object(x.count - 1, rest))) && (x.count == 1 ==> rest == [])
      && (forall y :: y in x.refs && y != r ==> y in rest) && forall y :: y in rest ==> y in x.refs && y != r
  {
    RemovedElements(x.refs, r);
    hide Removed;
    var rest := Removed(x.refs, r);
    forall y | y in rest ensures y in x.refs && y != r {
      var i :| 0 <= i < |rest| && rest[i] == y;
    }
  }

  /** The other messages keep their references. */
  lemma ClosedHolds(s: State, m: Msg, x: Msg)
    requires Counted(s) && m in s.where && x in s.where && x != m
    ensures Holds(s, m) && Holds(Closed(s, m), x)
  {
    assert Holds(s, m) && Holds(s, x);
    ClosedObject(m.ref.target, s.objects[m.ref.target], m.ref);
    hide Removed, ObjectOk;
  }

  /** No reference appears, and the one closed is gone. */
  lemma ClosedRef(s: State, m: Msg, o: KernelObject, r: ObjRef)
    requires Counted(s) && m in s.where && Holds(s, m) && o in Closed(s, m).objects && r in Closed(s, m).objects[o].refs
    ensures o in s.objects && r in s.objects[o].refs && r != m.ref
  {
    ClosedObject(m.ref.target, s.objects[m.ref.target], m.ref);
    hide Removed, ObjectOk;
    if o != m.ref.target { TargetOf(o, s.objects[o], r); }
  }

  lemma ClosedFields(s: State, m: Msg)
    requires Counted(s) && m in s.where
    ensures Holds(s, m) && m.ref.target in s.objects
    ensures Closed(s, m).where == s.where - {m} && Closed(s, m).holder == s.holder - {m.ref}
  {
    hide Removed, ObjectOk;
  }

  lemma ClosedObjectOk(s: State, m: Msg, o: KernelObject)
    requires Counted(s) && m in s.where && Holds(s, m) && o in Closed(s, m).objects
    ensures ObjectOk(o, Closed(s, m).objects[o])
  {
    ClosedObject(m.ref.target, s.objects[m.ref.target], m.ref);
    hide Removed;
  }

  lemma ClosedKeeps(s: State, m: Msg)
    requires Counted(s) && m in s.where
    ensures m.ref.target in s.objects && Counted(Closed(s, m))
  {
    hide Removed, ObjectOk, Holds, Closed;
    ClosedFields(s, m);
    var c := Closed(s, m);
    forall o | o in c.objects ensures ObjectOk(o, c.objects[o]) { ClosedObjectOk(s, m, o); }
    forall x | x in c.where ensures Holds(c, x) { ClosedHolds(s, m, x); }
    forall o, r | o in c.objects && r in c.objects[o].refs
      ensures r in c.holder && c.holder[r] in c.where && c.holder[r].ref == r
    {
      ClosedRef(s, m, o, r);
    }
  }

  lemma TargetOf(o: KernelObject, x: Object, r: ObjRef)
    requires ObjectOk(o, x) && r in x.refs
    ensures r.target == o
  {
  }

  lemma ClosedDestroys(s: State, m: Msg)
    requires Destroyed(s) && m.ref.target in s.objects
    ensures Destroyed(Closed(s, m))
  {
    hide Removed;
    AppendedOnce(s.destroyed, m.ref.target);
  }

  lemma AppendedOnce<T>(s: seq<T>, x: T)
    requires NoDup(s) && x !in s
    ensures NoDup(s + [x])
  {
  }

  lemma OpenedObject(s: State, m: Msg, p: Place)
    requires Counted(s) && m.ref !in s.holder
    ensures var o := m.ref.target; m.ref in Opened(s, m, p).objects[o].refs && ObjectOk(o, Opened(s, m, p).objects[o])
  {
    var o := m.ref.target;
    var x := Opened(s, m, p).objects[o];
    assert x.refs[0] == m.ref;
    if o in s.objects { assert ObjectOk(o, s.objects[o]) && m.ref !in s.objects[o].refs; }
  }

  lemma OpenedKeeps(s: State, m: Msg, p: Place)
    requires Counted(s) && m !in s.where && m.ref !in s.holder
    ensures Counted(Opened(s, m, p))
  {
    hide ObjectOk;
    var t := Opened(s, m, p);
    OpenedObject(s, m, p);
    forall x | x in t.where ensures Holds(t, x) {
      if x != m { assert Holds(s, x); }
    }
    forall o, r | o in t.objects && r in t.objects[o].refs
      ensures r in t.holder && t.holder[r] in t.where && t.holder[r].ref == r
    {
      assert r == m.ref || (o in s.objects && r in s.objects[o].refs);
    }
  }

  // ---- the queues ----

  /** What happens to a message that is and was at another queue does not concern this one. */
  lemma OtherQueue(q: nat, t: Queue, where: map<Msg, Place>, where': map<Msg, Place>, m: Msg)
    requires QueuePlaced(q, t, where)
    requires m in where ==> where[m].q != q
    requires m in where' ==> where'[m].q != q
    requires where' - {m} == where - {m}
    ensures QueuePlaced(q, t, where')
  {
    forall x | x in where' && where'[x].q == q ensures x in where && where[x] == where'[x] {
      assert x in where' - {m};
    }
    forall x | x in where && x != m ensures x in where' && where'[x] == where[x] {
      assert x in where - {m};
    }
  }

  /** One queue and the place of one message change. */
  lemma PlacedAgain(queues: seq<Queue>, where: map<Msg, Place>, q: nat, t: Queue, m: Msg, where': map<Msg, Place>)
    requires Placed(queues, where) && q < |queues| && QueuePlaced(q, t, where')
    requires m in where ==> where[m].q == q
    requires m in where' ==> where'[m].q == q
    requires where' - {m} == where - {m}
    ensures Placed(queues[q := t], where')
  {
    hide QueuePlaced;
    var queues' := queues[q := t];
    forall p | 0 <= p < |queues| ensures QueuePlaced(p, queues'[p], where') {
      if p != q { OtherQueue(p, queues[p], where, where', m); }
    }
    forall x | x in where' ensures where'[x].q < |queues| {
      if x != m { assert x in where' - {m}; }
    }
  }

  lemma TableFilled(q: nat, t: Queue, where: map<Msg, Place>, m: Msg)
    requires QueuePlaced(q, t, where) && QueueOk(t) && t.free != [] && m !in where
    ensures t.free[0] < |t.table| && QueueOk(PutInTable(t, m))
    ensures QueuePlaced(q, PutInTable(t, m), where[m := InTable(q, t.free[0])])
  {
    hide FreeThreaded, NoDup;
    TakeId(t.table, t.free, m);
  }

  lemma QueueAppended(q: nat, t: Queue, where: map<Msg, Place>, m: Msg)
    requires QueuePlaced(q, t, where) && QueueOk(t) && m !in where && m !in t.sent
    ensures QueueOk(Arrived(t, m)) && QueuePlaced(q, Arrived(t, m), where[m := Incoming(q)])
  {
    hide FreeThreaded, NoDup;
    AppendedOnce(t.sent, m);
    assert t.sent + [m] == t.received + (t.incoming + [m]);
    assert (t.incoming + [m])[|t.incoming|] == m;
  }

  lemma IncomingOnce(t: Queue)
    requires QueueOk(t) && t.incoming != []
    ensures t.incoming[0] !in t.incoming[1..]
  {
    var n := |t.received|;
    forall i | 0 <= i < |t.incoming| - 1 ensures t.incoming[1..][i] != t.incoming[0] {
      assert t.sent[n] == t.incoming[0] && t.sent[n + i + 1] == t.incoming[i + 1];
    }
  }

  lemma QueueReceived(q: nat, t: Queue, where: map<Msg, Place>)
    requires QueuePlaced(q, t, where) && QueueOk(t) && t.incoming != [] && t.free != []
    ensures t.free[0] < |t.table| && QueueOk(Received(t)) && At(t.incoming[0], where, Incoming(q))
    ensures QueuePlaced(q, Received(t), where[t.incoming[0] := InTable(q, t.free[0])])
  {
    IncomingOnce(t);
    hide FreeThreaded, NoDup;
    var m := t.incoming[0];
    TakeId(t.table, t.free, m);
    assert t.sent == (t.received + [m]) + t.incoming[1..];
    forall i | 0 <= i < |t.incoming| - 1 ensures At(t.incoming[1..][i], where, Incoming(q)) && t.incoming[1..][i] != m {
      assert t.incoming[1..][i] == t.incoming[i + 1];
    }
    assert t.incoming == [m] + t.incoming[1..];
  }

  lemma TableEmptied(q: nat, t: Queue, where: map<Msg, Place>, id: nat)
    requires QueuePlaced(q, t, where) && QueueOk(t) && id < |t.table| && t.table[id].Ptr?
    ensures t.table[id].msg != null && QueueOk(TakeFromTable(t, id))
      && QueuePlaced(q, TakeFromTable(t, id), where - {t.table[id].msg})
  {
    hide FreeThreaded, NoDup;
    ReturnId(t.table, t.free, id);
    assert At(t.table[id].msg, where, InTable(q, id));
  }

  // ---- what each step keeps ----

  lemma QueuesAgain(queues: seq<Queue>, q: nat, t: Queue)
    requires QueuesOk(queues) && q < |queues| && QueueOk(t)
    ensures QueuesOk(queues[q := t])
  {
    hide QueueOk;
  }

  lemma PlacedAt(s: State, q: nat)
    requires Inv(s) && q < |s.queues|
    ensures QueuePlaced(q, s.queues[q], s.where) && QueueOk(s.queues[q])
  {
    hide QueueOk, QueuePlaced;
  }

  lemma RequestKeeps(s: State, q: nat, m: Msg)
    requires Inv(s) && Enabled(s, Request(q, m))
    ensures Inv(Step(s, Request(q, m)))
  {
    hide QueueOk, QueuePlaced, QueuesOk, Counted, Placed;
    PlacedAt(s, q);
    var t := s.queues[q];
    if t.free != [] {
      TableFilled(q, t, s.where, m);
      OpenedKeeps(s, m, InTable(q, t.free[0]));
      var s' := Step(s, Request(q, m));
      QueuesAgain(s.queues, q, PutInTable(t, m));
      PlacedAgain(s.queues, s.where, q, PutInTable(t, m), m, s'.where);
      SameCounts(Opened(s, m, InTable(q, t.free[0])), s');
    }
  }

  /** The references do not depend on the queues. */
  lemma SameCounts(s: State, t: State)
    requires Counted(s) && t == s.(queues := t.queues)
    ensures Counted(t)
  {
    hide ObjectOk;
    forall m | m in t.where ensures Holds(t, m) { assert Holds(s, m); }
  }

  lemma SendKeeps(s: State, q: nat, to: nat, id: int, n: Msg)
    requires Inv(s) && Enabled(s, Send(q, to, id, n))
    ensures Inv(Step(s, Send(q, to, id, n)))
  {
    hide QueueOk, QueuePlaced, QueuesOk, Counted, Placed;
    PlacedAt(s, to);
    var t := s.queues[to];
    if GetPtr(s.queues[q], id) != null {
      PointsSomewhere(s, q, id);
      QueueAppended(to, t, s.where, n);
      OpenedKeeps(s, n, Incoming(to));
      var s' := Step(s, Send(q, to, id, n));
      QueuesAgain(s.queues, to, Arrived(t, n));
      PlacedAgain(s.queues, s.where, to, Arrived(t, n), n, s'.where);
      SameCounts(Opened(s, n, Incoming(to)), s');
    }
  }

  lemma RecvKeeps(s: State, q: nat)
    requires Inv(s) && Enabled(s, Recv(q))
    ensures Inv(Step(s, Recv(q)))
  {
    hide QueueOk, QueuePlaced, QueuesOk, Counted, Placed;
    PlacedAt(s, q);
    var t := s.queues[q];
    if t.incoming != [] && t.free != [] {
      QueueReceived(q, t, s.where);
      var s' := Step(s, Recv(q));
      QueuesAgain(s.queues, q, Received(t));
      PlacedAgain(s.queues, s.where, q, Received(t), t.incoming[0], s'.where);
      MovedCounts(s, s', t.incoming[0]);
    }
  }

  lemma MovedCounts(s: State, t: State, m: Msg)
    requires Counted(s) && m in s.where && m in t.where
      && t == s.(queues := t.queues, where := s.where[m := t.where[m]])
    ensures Counted(t)
  {
    hide ObjectOk;
    forall x | x in t.where ensures Holds(t, x) { assert Holds(s, x); }
  }

  lemma ReleaseKeeps(s: State, q: nat, id: int)
    requires Inv(s) && Enabled(s, Release(q, id))
    ensures Inv(Step(s, Release(q, id)))
  {
    hide QueueOk, QueuePlaced, QueuesOk, Counted, Placed, Destroyed, Removed;
    PlacedAt(s, q);
    var t, m := s.queues[q], GetPtr(s.queues[q], id);
    if m != null {
      PointsSomewhere(s, q, id);
      TableEmptied(q, t, s.where, id);
      ClosedKeeps(s, m);
      ClosedDestroys(s, m);
      var c, s' := Closed(s, m), Step(s, Release(q, id));
      QueuesAgain(s.queues, q, TakeFromTable(t, id));
      PlacedAgain(s.queues, s.where, q, TakeFromTable(t, id), m, s'.where);
      SameCounts(c, s');
      SameDestroyed(c, s');
    }
  }

  lemma SameDestroyed(s: State, t: State)
    requires Destroyed(s) && t == s.(queues := t.queues)
    ensures Destroyed(t)
  {
  }

  lemma StepKeeps(s: State, e: Event)
    requires Inv(s) && Enabled(s, e)
    ensures Inv(Step(s, e))
  {
    hide Inv, Step, Enabled;
    match e
    case Request(q, m) => RequestKeeps(s, q, m);
    case Send(q, to, id, n) => SendKeeps(s, q, to, id, n);
    case Recv(q) => RecvKeeps(s, q);
    case Release(q, id) => ReleaseKeeps(s, q, id);
  }

  // ---- the steps that change something, field by field ----

  lemma SendIs(s: State, q: nat, to: nat, id: int, n: Msg)
    requires Inv(s) && Enabled(s, Send(q, to, id, n)) && GetPtr(s.queues[q], id) != null
    ensures var s', o := Step(s, Send(q, to, id, n)), n.ref.target;
      && o in s.objects && s'.queues == s.queues[to := Arrived(s.queues[to], n)]
      && s'.objects == s.objects[o := Object(s.objects[o].count + 1, [n.ref] + s.objects[o].refs)]
      && s'.objects.Keys == s.objects.Keys
  {
    hide Inv, Holds;
    PointsSomewhere(s, q, id);
    HeldBody(s, GetPtr(s.queues[q], id));
  }

  lemma HeldBody(s: State, m: Msg)
    requires Holds(s, m)
    ensures m.ref.target in s.objects && m.ref in s.objects[m.ref.target].refs
  {
  }

  lemma ReleaseIs(s: State, q: nat, id: int)
    requires Inv(s) && Enabled(s, Release(q, id)) && GetPtr(s.queues[q], id) != null
    ensures var s', r := Step(s, Release(q, id)), GetPtr(s.queues[q], id).ref;
      && r.target in s.objects && 0 <= id < |s.queues[q].table| && s.queues[q].table[id].Ptr?
      && s'.queues == s.queues[q := TakeFromTable(s.queues[q], id)] && s.objects[r.target].count > 0
      && var x := s.objects[r.target];
         s'.objects == (if x.count == 1 then s.objects - {r.target}
                        else s.objects[r.target := Object(x.count - 1, Removed(x.refs, r))])
         && s'.destroyed == if x.count == 1 then s.destroyed + [r.target] else s.destroyed
  {
    hide Holds, Removed;
    PointsSomewhere(s, q, id);
    HeldBody(s, GetPtr(s.queues[q], id));
    assert ObjectOk(GetPtr(s.queues[q], id).ref.target, s.objects[GetPtr(s.queues[q], id).ref.target]);
  }

  lemma RequestIs(s: State, q: nat, m: Msg)
    requires Inv(s) && Enabled(s, Request(q, m)) && s.queues[q].free != []
    ensures var s' := Step(s, Request(q, m));
      && s.queues[q].free[0] < |s.queues[q].table| && s'.queues == s.queues[q := PutInTable(s.queues[q], m)]
      && m.ref.target !in s.objects && s'.objects == s.objects[m.ref.target := Object(1, [m.ref])]
      && s'.destroyed == s.destroyed
  {
    hide QueuePlaced, Counted, Holds;
    assert QueueOk(s.queues[q]);
    assert [m.ref] + [] == [m.ref];
  }

  /** The message goes behind all others that wait at the recipient, and behind all that were ever sent to it. */
  lemma SentLast(s: State, q: nat, to: nat, id: int, n: Msg)
    requires Inv(s) && Enabled(s, Send(q, to, id, n)) && GetPtr(s.queues[q], id) != null
    ensures var t, t' := s.queues[to], Step(s, Send(q, to, id, n)).queues[to];
      && t'.incoming == t.incoming + [n] && t'.sent == t.sent + [n] && t'.received == t.received
      && t'.table == t.table && t'.free == t.free
  {
    hide Inv, Opened, FreeThreaded, NoDup;
  }

  /** With a message waiting and an id free, the receiver gets the message that waits longest, and only its table and
      its incoming messages change. */
  lemma RecvIs(s: State, q: nat)
    requires Inv(s) && q < |s.queues| && s.queues[q].incoming != [] && s.queues[q].free != []
    ensures var t, s', id := s.queues[q], Step(s, Recv(q)), s.queues[q].free[0];
      && |s'.queues| == |s.queues| && s'.objects == s.objects && s'.destroyed == s.destroyed
      && (forall p :: 0 <= p < |s.queues| && p != q ==> s'.queues[p] == s.queues[p])
      && var t' := s'.queues[q];
         && GetPtr(t, id) == null && GetPtr(t', id) == t.incoming[0]
         && (forall i :: 0 <= i != id ==> GetPtr(t', i) == GetPtr(t, i))
         && t.incoming == [t.incoming[0]] + t'.incoming && t'.received == t.received + [t.incoming[0]]
         && t'.sent == t.sent && t.free == [id] + t'.free
  {
    hide QueuePlaced, Counted, NoDup;
    assert QueueOk(s.queues[q]);
  }

  // ---- what a step sends to a queue, and what it hands out ----

  /** A send whose id names a message sends one to queue q. */
  function SentBy(s: State, e: Event, q: nat): seq<Msg>
  {
    if e.Send? && e.to == q && e.q < |s.queues| && GetPtr(s.queues[e.q], e.id) != null then [e.msg] else []
  }

  /** What the id names that a receive from queue q returns, if it returns one. */
  ghost function HandedOutBy(s: State, e: Event, q: nat): seq<Msg?>
    requires Inv(s) && Enabled(s, e) && q < |s.queues|
  {
    var t := s.queues[q];
    if e == Recv(q) && t.incoming != [] && t.free != [] then
      StepQueues(s, e);
      [GetPtr(Step(s, e).queues[q], t.free[0])]
    else []
  }

  lemma StepQueues(s: State, e: Event)
    requires Inv(s) && Enabled(s, e)
    ensures |Step(s, e).queues| == |s.queues|
  {
    hide Inv, Opened, Closed, Arrived, Received, TakeFromTable, PutInTable;
  }

  /** Both histories of a queue grow at the end only: by what is sent to it, and by what it hands out. */
  lemma StepExtends(s: State, e: Event, q: nat)
    requires Inv(s) && Enabled(s, e) && q < |s.queues|
    ensures |Step(s, e).queues| == |s.queues| && s.queues[q].sent <= Step(s, e).queues[q].sent
    ensures s.queues[q].received <= Step(s, e).queues[q].received
    ensures Step(s, e).queues[q].sent == s.queues[q].sent + SentBy(s, e, q)
    ensures Step(s, e).queues[q].received == s.queues[q].received + HandedOutBy(s, e, q)
  {
    hide Inv, Opened, Closed, QueueOk;
    StepQueues(s, e);
    if e == Recv(q) && s.queues[q].incoming != [] && s.queues[q].free != [] { RecvIs(s, q); }
  }

  // ---- runs ----

  /** msgq_new: all ids are free, in ascending order. */
  function NewQueue(): Queue
  {
    Queue(seq(PENDING_COUNT, i => Index(if i + 1 < PENDING_COUNT then i + 1
        else -1)), seq(PENDING_COUNT, i => i), [], [], [])
  }

  function Initial(n: nat): State
  {
    State(seq(n, _ => NewQueue()), map[], map[], map[], [], {}, {})
  }

  lemma InitialOk(n: nat)
    ensures Inv(Initial(n))
  {
    var t := NewQueue();
    forall i | 0 <= i < |t.free| ensures t.free[i] < |t.table| && t.table[t.free[i]] == Index(Head(t.free[i + 1..])) {
      if i + 1 < PENDING_COUNT { assert t.free[i + 1..][0] == i + 1; }
    }
    forall id | 0 <= id < |t.table| ensures id in t.free { assert t.free[id] == id; }
  }

  ghost predicate CanRun(s: State, es: seq<Event>)
    requires Inv(s)
    decreases |es|
  {
    es == [] || (Enabled(s, es[0]) && (StepKeeps(s, es[0]); CanRun(Step(s, es[0]), es[1..])))
  }

  ghost function Run(s: State, es: seq<Event>): (r: State)
    requires Inv(s) && CanRun(s, es)
    ensures Inv(r)
    decreases |es|
  {
    if es == [] then s
    else
      StepKeeps(s, es[0]);
      Run(Step(s, es[0]), es[1..])
  }

  /** All that a run sends to queue q, in the order of the sends. */
  ghost function SentIn(s: State, es: seq<Event>, q: nat): seq<Msg>
    requires Inv(s) && CanRun(s, es)
    decreases |es|
  {
    if es == [] then []
    else
      StepKeeps(s, es[0]);
      SentBy(s, es[0], q) + SentIn(Step(s, es[0]), es[1..], q)
  }

  /** All that a run hands out at queue q, in the order of the receives. */
  ghost function HandedOutIn(s: State, es: seq<Event>, q: nat): seq<Msg?>
    requires Inv(s) && CanRun(s, es) && q < |s.queues|
    decreases |es|
  {
    if es == [] then []
    else
      StepKeeps(s, es[0]);
      StepQueues(s, es[0]);
      HandedOutBy(s, es[0], q) + HandedOutIn(Step(s, es[0]), es[1..], q)
  }

  /** The histories that the queues carry are those of the run. */
  lemma {:induction false} RunExtends(s: State, es: seq<Event>, q: nat)
    requires Inv(s) && CanRun(s, es) && q < |s.queues|
    ensures |Run(s, es).queues| == |s.queues|
    ensures Run(s, es).queues[q].sent == s.queues[q].sent + SentIn(s, es, q)
    ensures Run(s, es).queues[q].received == s.queues[q].received + HandedOutIn(s, es, q)
    decreases |es|
  {
    hide Inv, Enabled, Step, SentBy, HandedOutBy;
    if es != [] {
      StepKeeps(s, es[0]);
      StepExtends(s, es[0], q);
      RunExtends(Step(s, es[0]), es[1..], q);
    }
  }

  /** The messages, in tables and incoming queues, that hold a reference of a body. */
  ghost function Referrers(s: State, o: KernelObject): set<Msg>
  {
    set m | m in s.where && m.ref.target == o
  }

  /** Is m at some queue? */
  ghost predicate Somewhere(s: State, m: Msg)
  {
    exists q :: 0 <= q < |s.queues| && (Ptr(m) in s.queues[q].table || m in s.queues[q].incoming)
  }

  lemma WhereIsSomewhere(s: State, m: Msg)
    requires Inv(s)
    ensures m in s.where <==> Somewhere(s, m)
  {
    hide QueueOk;
    if m in s.where {
      assert QueuePlaced(s.where[m].q, s.queues[s.where[m].q], s.where);
    }
    if Somewhere(s, m) {
      var q :| 0 <= q < |s.queues| && (Ptr(m) in s.queues[q].table || m in s.queues[q].incoming);
      assert QueuePlaced(q, s.queues[q], s.where);
    }
  }

  /** The reference list and the messages that refer to the body correspond one to one. */
  lemma {:induction false} CountReferrers(s: State, refs: seq<ObjRef>, ms: set<Msg>)
    requires NoDup(refs)
    requires forall r :: r in refs ==> r in s.holder && s.holder[r] in ms && s.holder[r].ref == r
    requires forall m :: m in ms ==> m.ref in refs && m.ref in s.holder && s.holder[m.ref] == m
    ensures |ms| == |refs|
    decreases |refs|
  {
    if refs == [] {
      assert ms == {};
    } else {
      var m := s.holder[refs[0]];
      assert refs == [refs[0]] + refs[1..];
      assert forall i :: 0 <= i < |refs| - 1 ==> refs[1..][i] == refs[i + 1];
      CountReferrers(s, refs[1..], ms - {m});
    }
  }

  /** A live body is counted once for each message that refers to it, and is referred to. */
  lemma CountIsReferrers(s: State, o: KernelObject)
    requires Inv(s)
    ensures o in s.objects ==> s.objects[o].count == |s.objects[o].refs| == |Referrers(s, o)| > 0
    ensures o !in s.objects ==> Referrers(s, o) == {}
  {
    hide QueueOk, QueuePlaced, QueuesOk, Placed;
    if o in s.objects {
      var x := s.objects[o];
      assert ObjectOk(o, x);
      forall m | m in Referrers(s, o)
        ensures m.ref in x.refs && m.ref in s.holder && s.holder[m.ref] == m
      {
        assert Holds(s, m);
      }
      forall r | r in x.refs
        ensures r in s.holder && s.holder[r] in Referrers(s, o) && s.holder[r].ref == r
      {
        TargetOf(o, x, r);
      }
      CountReferrers(s, x.refs, Referrers(s, o));
    } else {
      forall m | m in s.where ensures m.ref.target != o { assert Holds(s, m); }
    }
  }

  /** A body is destroyed by the step that closes its last reference, and by no other. */
  lemma DestroyedWithLast(s: State, e: Event, o: KernelObject)
    requires Inv(s) && Enabled(s, e) && o in s.objects
    ensures o in Step(s, e).destroyed <==> o !in Step(s, e).objects
    ensures o in Step(s, e).destroyed <==>
      e.Release? && GetPtr(s.queues[e.q], e.id) != null && Referrers(s, o) == {GetPtr(s.queues[e.q], e.id)}
  {
    hide QueueOk, QueuePlaced, QueuesOk, Placed;
    CountIsReferrers(s, o);
    StepKeeps(s, e);
    if e.Release? && GetPtr(s.queues[e.q], e.id) != null {
      var m := GetPtr(s.queues[e.q], e.id);
      PointsSomewhere(s, e.q, e.id);
      if m.ref.target == o {
        assert m in Referrers(s, o);
        if |Referrers(s, o)| == 1 { OnlyOne(Referrers(s, o), m); }
      }
    }
  }

  lemma OnlyOne(s: set<Msg>, m: Msg)
    requires m in s && |s| == 1
    ensures s == {m}
  {
    assert |s - {m}| == 0;
  }

  /** First in, first out, nothing twice; and the free ids are the slots without a message. */
  ghost predicate InOrder(t: Queue, sent: seq<Msg>, handedOut: seq<Msg?>)
  {
    && sent == handedOut + t.incoming && NoDup(sent)
    && forall id :: 0 <= id < |t.table| ==> (id in t.free <==> t.table[id].Index?)
  }

  /** The body lives exactly as long as some message refers to it, and is counted once for each of them. */
  ghost predicate LivesReferred(s: State, o: KernelObject)
  {
    && (o in s.objects <==> o !in s.destroyed) && (o in s.objects <==> Referrers(s, o) != {})
    && (o in s.objects ==> s.objects[o].count == |s.objects[o].refs| == |Referrers(s, o)|)
  }

  lemma InvInOrder(t: Queue)
    requires QueueOk(t)
    ensures InOrder(t, t.sent, t.received)
  {
    forall id | 0 <= id < |t.table| ensures id in t.free <==> t.table[id].Index? { FreeIsUnused(t.table, t.free, id); }
  }

  lemma InvLivesReferred(s: State, o: KernelObject)
    requires Inv(s) && o in s.bodies
    ensures LivesReferred(s, o)
  {
    hide QueueOk, QueuePlaced, QueuesOk, Placed, Counted, Known, Referrers;
    CountIsReferrers(s, o);
  }

  /** Over every run on new queues: what a queue has handed out and what waits there are, in this order, the messages
      that the run sent to it, none twice; the free ids are the unused slots; a body lives exactly as long as some
      message refers to it, is counted once for each of them, and is destroyed exactly once. */
  lemma RunKeeps(n: nat, es: seq<Event>)
    requires (InitialOk(n); CanRun(Initial(n), es))
    ensures (InitialOk(n); var s := Run(Initial(n), es);
      && |s.queues| == n
      && (forall q :: 0 <= q < n ==>
        InOrder(s.queues[q], SentIn(Initial(n), es, q), HandedOutIn(Initial(n), es, q)))
      && (forall o :: o in s.bodies ==> LivesReferred(s, o))
      && NoDup(s.destroyed))
  {
    hide InOrder, LivesReferred, QueueOk, SentIn, HandedOutIn, CanRun, Run;
    InitialOk(n);
    var s := Run(Initial(n), es);
    RunLength(Initial(n), es);
    forall o | o in s.bodies ensures LivesReferred(s, o) { InvLivesReferred(s, o); }
    forall q | 0 <= q < n
      ensures InOrder(s.queues[q], SentIn(Initial(n), es, q), HandedOutIn(Initial(n), es, q))
    {
      RunExtends(Initial(n), es, q);
      assert s.queues[q].sent == SentIn(Initial(n), es, q);
      assert s.queues[q].received == HandedOutIn(Initial(n), es, q);
      InvInOrder(s.queues[q]);
    }
  }

  lemma {:induction false} RunLength(s: State, es: seq<Event>)
    requires Inv(s) && CanRun(s, es)
    ensures |Run(s, es).queues| == |s.queues|
    decreases |es|
  {
    hide Inv, Enabled, Step;
    if es != [] {
      StepKeeps(s, es[0]);
      StepQueues(s, es[0]);
      RunLength(Step(s, es[0]), es[1..]);
    }
  }

  /** After every run on new queues: if an id is free, a receive hands out the oldest message sent to the queue that
      no receive has handed out yet, and without such a message it changes nothing. */
  lemma RecvOldest(n: nat, es: seq<Event>, q: nat)
    requires q < n && (InitialOk(n); CanRun(Initial(n), es))
    ensures (InitialOk(n); RunLength(Initial(n), es);
      var s, sent, done := Run(Initial(n), es), SentIn(Initial(n), es, q), HandedOutIn(Initial(n), es, q);
      && |done| <= |sent|
      && (|done| == |sent| ==> Step(s, Recv(q)) == s)
      && (|done| < |sent| && s.queues[q].free != [] ==> HandedOutBy(s, Recv(q), q) == [sent[|done|]]))
  {
    hide LivesReferred, QueueOk, SentIn, HandedOutIn, CanRun, Run, Inv, Step;
    InitialOk(n);
    RunKeeps(n, es);
    var s := Run(Initial(n), es);
    if s.queues[q].incoming == [] {
      NothingToReceive(s, q);
    } else if s.queues[q].free != [] {
      RecvIs(s, q);
    }
  }

  lemma NothingToReceive(s: State, q: nat)
    requires Inv(s) && q < |s.queues| && s.queues[q].incoming == []
    ensures Step(s, Recv(q)) == s
  {
  }

  /** A full table loses nothing: the message waits until an id is released. */
  lemma FullTableWaits(s: State, q: nat)
    requires Inv(s) && q < |s.queues| && (forall id :: 0 <= id < PENDING_COUNT ==> s.queues[q].table[id].Ptr?)
    ensures Step(s, Recv(q)) == s
  {
    assert QueueOk(s.queues[q]);
  }

  /** sys_msg_write is a request, a send and a release: the sender's table and free ids come back as they were, the
      recipient has one more message, and that message alone refers to the new body. */
  lemma WriteDelivers(s: State, q: nat, to: nat, m: Msg, n: Msg)
    requires Inv(s) && Enabled(s, Request(q, m)) && to < |s.queues| && s.queues[q].free != []
    requires n != m && n !in s.born && n.ref != m.ref && n.ref !in s.holder && n.ref.target == m.ref.target
    ensures s.queues[q].free[0] < PENDING_COUNT
    ensures var id, s1 := s.queues[q].free[0], Step(s, Request(q, m));
      && Inv(s1) && Enabled(s1, Send(q, to, id, n))
      && var s2 := Step(s1, Send(q, to, id, n));
      && Inv(s2) && Enabled(s2, Release(q, id))
      && var s3 := Step(s2, Release(q, id));
      && s3.queues == s.queues[to := Arrived(s.queues[to], n)]
      && s3.objects == s.objects[m.ref.target := Object(1, [n.ref])]
  {
    hide Inv, Step, Removed, FreeThreaded, NoDup;
    var id, o := s.queues[q].free[0], m.ref.target;
    RequestKeeps(s, q, m);
    RequestIs(s, q, m);
    RequestFresh(s, q, m, n);
    var s1 := Step(s, Request(q, m));
    PlacedAt(s, q);
    assert GetPtr(s1.queues[q], id) == m;
    SendKeeps(s1, q, to, id, n);
    SendIs(s1, q, to, id, n);
    var s2 := Step(s1, Send(q, to, id, n));
    assert GetPtr(s2.queues[q], id) == m;
    ReleaseIs(s2, q, id);
    assert s2.objects[o] == Object(2, [n.ref, m.ref]);
    LastOfTwo(n.ref, m.ref);
    TakenAndReturned(s.queues[q], m);
  }

  /** sys_msg_write that fails once it has an id: the release leaves queues and bodies as they were, and the new body
      has been destroyed. */
  lemma WriteUndone(s: State, q: nat, m: Msg)
    requires Inv(s) && Enabled(s, Request(q, m)) && s.queues[q].free != []
    ensures s.queues[q].free[0] < PENDING_COUNT
    ensures var id, s1 := s.queues[q].free[0], Step(s, Request(q, m));
      && Inv(s1) && Enabled(s1, Release(q, id))
      && var s2 := Step(s1, Release(q, id));
      && s2.queues == s.queues && s2.objects == s.objects && s2.destroyed == s.destroyed + [m.ref.target]
  {
    hide Inv, Step, Removed, FreeThreaded, NoDup;
    var id, o := s.queues[q].free[0], m.ref.target;
    RequestKeeps(s, q, m);
    RequestIs(s, q, m);
    var s1 := Step(s, Request(q, m));
    PlacedAt(s, q);
    assert GetPtr(s1.queues[q], id) == m;
    ReleaseIs(s1, q, id);
    assert s1.objects - {o} == s.objects;
    TakenAndReturned(s.queues[q], m);
  }

  lemma RequestFresh(s: State, q: nat, m: Msg, n: Msg)
    requires Inv(s) && Enabled(s, Request(q, m)) && n != m && n !in s.born && n.ref != m.ref && n.ref !in s.holder
    ensures n !in Step(s, Request(q, m)).born && n.ref !in Step(s, Request(q, m)).holder
  {
    hide Inv;
  }

  lemma LastOfTwo(a: ObjRef, b: ObjRef)
    requires a != b
    ensures Removed([a, b], b) == [a]
  {
    assert [a, b][1..] == [b];
  }

  lemma TakenAndReturned(t: Queue, m: Msg)
    requires QueueOk(t) && t.free != []
    ensures t.free[0] < |t.table| && TakeFromTable(PutInTable(t, m), t.free[0]) == t
  {
    assert t.table[t.free[0]] == Index(Head(t.free[1..]));
  }
}
