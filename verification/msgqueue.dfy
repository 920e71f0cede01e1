/** The message queues and kernel objects of the microkernel, against the protocol. */
module MsgQueues {
  import opened Sequences
  import opened MsgProtocol

  const EBADF: int := 9
  const EAGAIN: int := 11
  const ENOMEM: int := 12
  const EMFILE: int := 24

  class MsgQueue {
    const pending: array<Slot>
    var lastFree: int
    var incoming: seq<Msg>

    /** The queue and its free list are as t says. */
    ghost predicate Shows(t: Queue)
      reads this, pending
    {
      && pending[..] == t.table && lastFree == Head(t.free)
      && incoming == t.incoming
    }

    /** msgq_new. */
    constructor ()
      ensures fresh(pending) && Shows(NewQueue())
    {
      pending := new Slot[PENDING_COUNT](i => Index(if i + 1 < PENDING_COUNT then i + 1 else -1));
      lastFree, incoming := 0, [];
      new;
      assert pending[..] == NewQueue().table;
    }

    /** __msgq_alloc_id: the slot keeps a null link until the caller fills it. */
    method AllocId(ghost free: seq<nat>) returns (id: int)
      requires FreeThreaded(pending[..], free) && lastFree == Head(free)
      modifies pending, `lastFree
      ensures free == [] ==> id == -1 && lastFree == -1 && pending[..] == old(pending[..])
      ensures free != [] ==> id == free[0] && lastFree == Head(free[1..]) && id < pending.Length
      ensures free != [] ==>
        pending[..] == old(pending[..])[id := Ptr(null)] && old(pending[..])[id] == Index(Head(free[1..]))
    {
      id := lastFree;
      if id == -1 { return; }
      assert pending[..][free[0]] == Index(Head(free[1..]));
      lastFree := pending[id].next;
      pending[id] := Ptr(null);
    }

    /** __msgq_release_id. */
    method ReleaseId(id: nat)
      requires id < pending.Length && pending[id].Ptr?
      modifies pending, `lastFree
      ensures lastFree == id && pending[..] == old(pending[..])[id := Index(old(lastFree))]
    {
      pending[id] := Index(lastFree);
      lastFree := id;
    }

    /** After AllocId the caller fills the slot, or gives the id back. */
    ghost predicate Allocated(t: Queue, id: int)
      reads this, pending
    {
      && QueueOk(t) && t.free != [] && 0 <= id == t.free[0] < |t.table| && t.table[id] == Index(Head(t.free[1..]))
      && Shows(t.(table := t.table[id := Ptr(null)], free := t.free[1..]))
    }

    method Take(ghost t: Queue) returns (id: int)
      requires QueueOk(t) && Shows(t)
      modifies pending, `lastFree
      ensures if t.free == [] then id == -1 && Shows(t) else id >= 0 && id == t.free[0] && Allocated(t, id)
    {
      hide FreeThreaded, NoDup;
      id := AllocId(t.free);
    }

    method Fill(id: nat, m: Msg, ghost t: Queue)
      requires Allocated(t, id)
      modifies pending
      ensures t.free != [] && t.free[0] < |t.table| && Shows(PutInTable(t, m))
    {
      hide FreeThreaded, NoDup, QueueOk;
      assert |pending[..]| == |t.table|;
      pending[id] := Ptr(m);
      assert pending[..] == t.table[id := Ptr(m)];
    }

    method GiveBack(id: nat, ghost t: Queue)
      requires Allocated(t, id)
      modifies pending, `lastFree
      ensures Shows(t)
    {
      hide FreeThreaded, NoDup, QueueOk;
      assert |pending[..]| == |t.table| && pending[..][id] == Ptr(null);
      ReleaseId(id);
      assert pending[..] == t.table;
    }

    /** circular_list_insert_tail, on the incoming messages. */
    method Append(m: Msg, ghost t: Queue)
      requires Shows(t)
      modifies `incoming
      ensures Shows(Arrived(t, m)) && incoming == old(incoming) + [m]
    {
      incoming := incoming + [m];
    }

    /** The id of a message goes back. */
    method Drop(id: nat, ghost t: Queue)
      requires Shows(t) && id < |t.table| && t.table[id].Ptr?
      modifies pending, `lastFree
      ensures Shows(TakeFromTable(t, id))
    {
      assert pending[..][id] == t.table[id];
      ReleaseId(id);
    }

    /** __msg_recv. */
    method Receive(ghost t: Queue) returns (r: int)
      requires QueueOk(t) && Shows(t)
      modifies this, pending
      ensures r == if t.incoming == [] then -EAGAIN else if t.free == [] then -EMFILE else t.free[0]
      ensures if r < 0 then Shows(t) else t.free[0] < |t.table| && Shows(Received(t))
    {
      hide FreeThreaded, NoDup;
      if incoming == [] { return -EAGAIN; }
      var m := incoming[0];
      var id := Take(t);
      if id == -1 { return -EMFILE; }
      Fill(id, m, t);
      incoming := incoming[1..];
      r := id;
    }
  }

  class MsgSystem {
    /** The queue of each task. */
    const queues: seq<MsgQueue>

    /** The protocol state that the queues and the objects are in. */
    ghost var state: State
    ghost const tables: set<array<Slot>>

    /** No queue or table is shared. */
    ghost predicate Separate()
    {
      && (forall i :: 0 <= i < |queues| ==> queues[i].pending in tables)
      && forall i, j :: 0 <= i < j < |queues| ==> queues[i] != queues[j] && queues[i].pending != queues[j].pending
    }

    ghost predicate QueuesShow(qs: seq<Queue>)
      requires Separate()
      reads queues, tables
    {
      |qs| == |queues| && forall i :: 0 <= i < |queues| ==> queues[i].Shows(qs[i])
    }

    /** All queues but one are as qs says. */
    ghost predicate OthersShow(q: nat, qs: seq<Queue>)
      requires Separate()
      reads queues, tables
    {
      |qs| == |queues| && forall i :: 0 <= i < |queues| && i != q ==> queues[i].Shows(qs[i])
    }

    ghost predicate ObjectsShow(objects: map<KernelObject, Object>)
      reads objects.Keys
    {
      forall o :: o in objects ==> o.count == objects[o].count && o.refs == objects[o].refs
    }

    ghost predicate Valid()
      reads this, queues, tables, state.objects.Keys
    {
      Separate() && Inv(state) && QueuesShow(state.queues) && ObjectsShow(state.objects)
    }

    constructor (queues: seq<MsgQueue>)
      requires forall i, j :: 0 <= i < j < |queues| ==> queues[i] != queues[j] && queues[i].pending != queues[j].pending
      requires forall i :: 0 <= i < |queues| ==> queues[i].Shows(NewQueue())
      ensures Valid() && state == Initial(|queues|)
    {
      this.queues := queues;
      state := Initial(|queues|);
      tables := set i | 0 <= i < |queues| :: queues[i].pending;
      new;
      InitialOk(|queues|);
    }

    lemma SameLength()
      requires Valid()
      ensures |state.queues| == |queues|
    {
    }

    lemma QueueAt(q: nat)
      requires Valid() && q < |queues|
      ensures |state.queues| == |queues| && queues[q].Shows(state.queues[q]) && QueueOk(state.queues[q])
      ensures queues[q].pending in tables && queues[q].pending.Length == PENDING_COUNT
    {
      hide QueueOk, QueuePlaced, FreeThreaded;
      PlacedAt(state, q);
      TableLength(state.queues[q]);
    }

    lemma TableLength(t: Queue)
      requires QueueOk(t)
      ensures |t.table| == PENDING_COUNT && FreeThreaded(t.table, t.free)
    {
    }

    /** __msg_get_ptr. */
    method GetMsg(q: nat, id: int) returns (m: Msg?)
      requires Valid() && q < |queues|
      ensures |state.queues| == |queues| && m == GetPtr(state.queues[q], id)
      ensures m != null ==> Holds(state, m) && 0 <= id < |state.queues[q].table|
    {
      hide Inv, Holds;
      QueueAt(q);
      m := if id < 0 || id >= PENDING_COUNT then null
          else if queues[q].pending[id].Ptr? then queues[q].pending[id].msg else null;
      assert queues[q].pending[..] == state.queues[q].table;
      if m != null { PointsSomewhere(state, q, id); }
    }

    /** __kernel_object_open. */
    method Open(target: KernelObject, ghost objects: map<KernelObject, Object>) returns (ref: ObjRef)
      requires ObjectsShow(objects) && (target in objects || (target.count == 0 && target.refs == []))
      modifies target
      ensures fresh(ref) && ref.target == target
      ensures var x := if target in objects then objects[target] else Object(0, []);
        ObjectsShow(objects[target := Object(x.count + 1, [ref] + x.refs)])
    {
      ref := new ObjRef(target);
      target.count := target.count + 1;
      target.refs := [ref] + target.refs;
    }

    /** __kernel_object_ref_close. With the last reference the object goes. */
    method Close(ref: ObjRef, ghost objects: map<KernelObject, Object>) returns (last: bool)
      requires ObjectsShow(objects) && ref.target in objects && objects[ref.target].count > 0
      modifies ref.target
      ensures var x := objects[ref.target];
        && ObjectsShow(objects - {ref.target})
        && ObjectsShow(objects[ref.target := Object(x.count - 1, Removed(x.refs, ref))])
        && (last <==> x.count == 1)
    {
      hide Removed;
      ref.target.count := ref.target.count - 1;
      ref.target.refs := Removed(ref.target.refs, ref);
      last := ref.target.count == 0;
    }

    // ---- what happens to one queue, among the others ----

    method TakeAt(q: nat, ghost qs: seq<Queue>) returns (id: int)
      requires Separate() && QueuesShow(qs) && q < |queues| == |qs| && QueueOk(qs[q])
      modifies queues[q], queues[q].pending
      ensures if qs[q].free == [] then id == -1 && QueuesShow(qs)
              else id >= 0 && id == qs[q].free[0] && OthersShow(q, qs) && queues[q].Allocated(qs[q], id)
    {
      hide QueueOk, MsgQueue.Shows, MsgQueue.Allocated;
      assert queues[q].pending in tables;
      id := queues[q].Take(qs[q]);
    }

    method FillAt(q: nat, id: nat, m: Msg, ghost qs: seq<Queue>)
      requires Separate() && OthersShow(q, qs) && q < |queues| == |qs| && queues[q].Allocated(qs[q], id)
      modifies queues[q].pending
      ensures qs[q].free != [] && qs[q].free[0] < |qs[q].table| && QueuesShow(qs[q := PutInTable(qs[q], m)])
    {
      hide MsgQueue.Shows, MsgQueue.Allocated, PutInTable;
      assert queues[q].pending in tables;
      queues[q].Fill(id, m, qs[q]);
    }

    method GiveBackAt(q: nat, id: nat, ghost qs: seq<Queue>)
      requires Separate() && OthersShow(q, qs) && q < |queues| == |qs| && queues[q].Allocated(qs[q], id)
      modifies queues[q], queues[q].pending
      ensures QueuesShow(qs)
    {
      hide MsgQueue.Shows, MsgQueue.Allocated;
      assert queues[q].pending in tables;
      queues[q].GiveBack(id, qs[q]);
    }

    method AppendAt(q: nat, m: Msg, ghost qs: seq<Queue>)
      requires Separate() && QueuesShow(qs) && q < |queues| == |qs|
      modifies queues[q]
      ensures QueuesShow(qs[q := Arrived(qs[q], m)])
    {
      hide MsgQueue.Shows, Arrived;
      queues[q].Append(m, qs[q]);
    }

    method DropAt(q: nat, id: nat, ghost qs: seq<Queue>)
      requires Separate() && QueuesShow(qs) && q < |queues| == |qs| && id < |qs[q].table| && qs[q].table[id].Ptr?
      modifies queues[q], queues[q].pending
      ensures QueuesShow(qs[q := TakeFromTable(qs[q], id)])
    {
      hide MsgQueue.Shows, TakeFromTable;
      queues[q].Drop(id, qs[q]);
    }

    // ---- the calls ----

    /** __msg_recv. */
    method Recv(q: nat) returns (r: int)
      requires Valid() && q < |queues|
      modifies this, queues[q], queues[q].pending
      ensures Valid() && state == Step(old(state), Event.Recv(q))
      ensures r == if old(state).queues[q].incoming == [] then -EAGAIN
                   else if old(state).queues[q].free == [] then -EMFILE else old(state).queues[q].free[0]
      ensures r < 0 ==> state == old(state)
      ensures r >= 0 ==>
        && |state.queues| == |old(state).queues| == |queues| && old(state).queues[q].incoming != []
        && var t, t', m := old(state).queues[q], state.queues[q], old(state).queues[q].incoming[0];
           && GetPtr(t, r) == null && GetPtr(t', r) == m && t.incoming == [m] + t'.incoming
           && t'.received == t.received + [m]
    {
      hide Inv, QueueOk, MsgQueue.Shows, Received;
      QueueAt(q);
      ghost var s0 := state;
      if s0.queues[q].incoming != [] && s0.queues[q].free != [] { RecvIs(s0, q); }
      StepKeeps(s0, Event.Recv(q));
      state := Step(s0, Event.Recv(q));
      r := queues[q].Receive(s0.queues[q]);
    }

    /** __msg_request; available tells whether body, message and reference can be allocated. */
    method Request(q: nat, available: bool) returns (r: int, ghost msg: Msg?)
      requires Valid() && q < |queues|
      modifies this, queues[q], queues[q].pending
      ensures Valid()
      ensures r == if old(state).queues[q].free == [] then -EMFILE else if !available then -ENOMEM
          else old(state).queues[q].free[0]
      ensures r < 0 ==> state == old(state)
      ensures r >= 0 ==>
        && msg != null && fresh(msg) && !msg.readOnly && Enabled(old(state), Event.Request(q, msg))
        && state == Step(old(state), Event.Request(q, msg))
    {
      hide Inv, QueueOk, MsgQueue.Allocated, PutInTable, QueuesShow, OthersShow, ObjectsShow;
      QueueAt(q);
      msg := null;
      ghost var s0 := state;
      var id := TakeAt(q, s0.queues);
      if id == -1 { return -EMFILE, null; }
      if !available {
        GiveBackAt(q, id, s0.queues);
        return -ENOMEM, null;
      }
      var body := new KernelObject();
      var ref := Open(body, s0.objects);
      var m := new Msg(ref);
      FillAt(q, id, m, s0.queues);
      StepKeeps(s0, Event.Request(q, m));
      RequestIs(s0, q, m);
      assert [ref] + [] == [ref];
      state := Step(s0, Event.Request(q, m));
      return id, m;
    }

    /** __msg_send; available tells whether message and reference can be allocated. The sender and the recipient
        may be the same queue. */
    method Send(q: nat, to: nat, id: int, available: bool) returns (r: int, ghost msg: Msg?)
      requires Valid() && q < |queues| && to < |queues|
      modifies this, queues[to], state.objects.Keys
      ensures Valid()
      ensures r == if GetPtr(old(state).queues[q], id) == null then -EBADF else if !available then -ENOMEM else 0
      ensures r < 0 ==> state == old(state)
      ensures r == 0 ==>
        && msg != null && fresh(msg) && msg.readOnly && Enabled(old(state), Event.Send(q, to, id, msg))
        && state == Step(old(state), Event.Send(q, to, id, msg))
        && |state.queues| == |old(state).queues| == |queues|
        && state.queues[to].incoming == old(state).queues[to].incoming + [msg]
        && state.queues[to].sent == old(state).queues[to].sent + [msg]
    {
      hide Inv, Holds, Arrived, Step, QueuesShow, ObjectsShow;
      SameLength();
      var m := GetMsg(q, id);
      if m == null { return -EBADF, null; }
      if !available { return -ENOMEM, null; }
      HeldBody(state, m);
      ghost var s0 := state;
      var n := SendNew(q, to, id, m);
      SendIs(s0, q, to, id, n);
      SentLast(s0, q, to, id, n);
      return 0, n;
    }

    /** The new message, for the recipient, of the same body. */
    method SendNew(q: nat, to: nat, ghost id: int, m: Msg) returns (n: Msg)
      requires Valid() && q < |queues| == |state.queues| && to < |queues| && m == GetPtr(state.queues[q], id)
        && m.ref.target in state.objects
      modifies this, queues[to], state.objects.Keys
      ensures Valid() && fresh(n) && n.readOnly && Enabled(old(state), Event.Send(q, to, id, n))
      ensures state == Step(old(state), Event.Send(q, to, id, n))
    {
      hide Inv, Arrived, Step, QueuesShow, ObjectsShow;
      ghost var s0 := state;
      var ref := Open(m.ref.target, s0.objects);
      n := new Msg(ref);
      n.readOnly := true;
      AppendAt(to, n, s0.queues);
      StepKeeps(s0, Event.Send(q, to, id, n));
      SendIs(s0, q, to, id, n);
      state := Step(s0, Event.Send(q, to, id, n));
    }

    /** __msg_release of a message that is not mapped. */
    method Release(q: nat, id: int) returns (r: int)
      requires Valid() && q < |queues|
      modifies this, queues[q], queues[q].pending, state.objects.Keys
      ensures Valid() && state == Step(old(state), Event.Release(q, id))
      ensures r == if GetPtr(old(state).queues[q], id) == null then -EBADF else 0
    {
      hide Inv, Holds, Removed, TakeFromTable, Step, QueuesShow, ObjectsShow;
      SameLength();
      ghost var s0 := state;
      StepKeeps(s0, Event.Release(q, id));
      var m := GetMsg(q, id);
      if m == null {
        NoRelease(s0, q, id);
        return -EBADF;
      }
      ReleaseIs(s0, q, id);
      DropAt(q, id, s0.queues);
      var _ := Close(m.ref, s0.objects);
      state := Step(s0, Event.Release(q, id));
      r := 0;
    }

    lemma NoRelease(s: State, q: nat, id: int)
      requires Inv(s) && q < |s.queues| && GetPtr(s.queues[q], id) == null
      ensures Step(s, Event.Release(q, id)) == s
    {
    }
  }
}
