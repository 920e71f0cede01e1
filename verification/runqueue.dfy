/** Tasks, and the circular doubly linked list in which the default scheduler keeps the runnable ones. */
module RunQueues {
  import opened Sequences

  const TASK_STATE_RUNNING: nat := 2
  const TASK_STATE_SOFT_WAIT: nat := 3
  const TASK_STATE_EXITED: nat := 7

  class Task {
    var next: Task?
    var prev: Task?
    var state: nat
    var wakeupReason: int
  }

  /** Neighbours in the circle. */
  function Succ(q: seq<Task>, i: nat): Task
    requires i < |q|
  {
    if i + 1 < |q| then q[i + 1] else q[0]
  }

  function Pred(q: seq<Task>, i: nat): Task
    requires i < |q|
  {
    if i > 0 then q[i - 1] else q[|q| - 1]
  }

  function First(q: seq<Task>): Task?
  {
    if q == [] then null else q[0]
  }

  function Scrolled(q: seq<Task>): seq<Task>
  {
    if q == [] then [] else q[1..] + [q[0]]
  }

  lemma WithoutElements(q: seq<Task>, k: nat)
    requires k < |q| && NoDup(q)
    ensures NoDup(Without(q, k))
    ensures forall x :: x in Without(q, k) <==> x in q && x != q[k]
  {
    WithoutAt(q, k);
    hide Without;
    forall x | x in q && x != q[k] ensures x in Without(q, k) {
      var i :| 0 <= i < |q| && q[i] == x;
      assert Without(q, k)[if i < k then i else i - 1] == x;
    }
  }

  lemma WithoutElement(q: seq<Task>, k: nat, x: Task)
    requires k < |q| && x in Without(q, k)
    ensures x in q
  {
  }

  lemma ScrolledAt(q: seq<Task>, i: nat)
    requires i < |q|
    ensures |Scrolled(q)| == |q| && Scrolled(q)[i] == Succ(q, i)
    ensures Succ(Scrolled(q), i) == Succ(q, if i + 1 < |q| then i + 1 else 0)
    ensures Pred(Scrolled(q), i) == q[i]
  {
  }

  lemma ScrolledElements(q: seq<Task>)
    requires NoDup(q)
    ensures NoDup(Scrolled(q)) && forall x :: x in Scrolled(q) <==> x in q
  {
    if q != [] { assert q == [q[0]] + q[1..]; }
  }

  /** The links of each task lead to its neighbours. */
  ghost predicate Linked(q: seq<Task>)
    reads q`next, q`prev
  {
    forall i :: 0 <= i < |q| ==> q[i].next == Succ(q, i) && q[i].prev == Pred(q, i)
  }

  /** A circle stays linked wherever it is cut open. */
  lemma ScrolledLinked(q: seq<Task>)
    requires q != []
    ensures Linked(Scrolled(q)) <==> Linked(q)
  {
    var t := Scrolled(q);
    if Linked(q) {
      forall i | 0 <= i < |t| ensures t[i].next == Succ(t, i) && t[i].prev == Pred(t, i) {
        ScrolledAt(q, i);
        var j := if i + 1 < |q| then i + 1 else 0;
        assert t[i] == q[j] && q[j].next == Succ(q, j) && q[j].prev == Pred(q, j);
      }
    }
    if Linked(t) {
      forall i | 0 <= i < |q| ensures q[i].next == Succ(q, i) && q[i].prev == Pred(q, i) {
        var j := if i > 0 then i - 1 else |q| - 1;
        ScrolledAt(q, j);
        assert t[j] == q[i] && t[j].next == Succ(t, j) && t[j].prev == Pred(t, j);
      }
    }
  }

  /** A task between the last and the first of a circle. */
  lemma AppendedLinked(q: seq<Task>, e: Task)
    requires q != []
    requires forall i :: 0 <= i < |q| - 1 ==> q[i].next == Succ(q, i)
    requires forall i :: 0 < i < |q| ==> q[i].prev == Pred(q, i)
    requires q[|q| - 1].next == e && q[0].prev == e && e.next == q[0] && e.prev == q[|q| - 1]
    ensures Linked(q + [e])
  {
    var t := q + [e];
    forall i | 0 <= i < |t| ensures t[i].next == Succ(t, i) && t[i].prev == Pred(t, i) {
      if i < |q| { assert t[i] == q[i]; }
    }
  }

  /** The places before and after place k in the circle. */
  function Before(n: nat, k: nat): nat
    requires k < n
  {
    if k > 0 then k - 1 else n - 1
  }

  function After(n: nat, k: nat): nat
    requires k < n
  {
    if k + 1 < n then k + 1 else 0
  }

  lemma WithoutNeighbours(q: seq<Task>, k: nat, i: nat)
    requires k < |q| && i + 1 < |q|
    ensures var t, j := Without(q, k), if i < k then i else i + 1;
      && |t| == |q| - 1 && t[i] == q[j]
      && Succ(t, i) == (if j == Before(|q|, k) then Succ(q, k) else Succ(q, j))
      && Pred(t, i) == (if j == After(|q|, k) then Pred(q, k) else Pred(q, j))
  {
  }

  lemma RemovedLinked(q: seq<Task>, k: nat)
    requires k < |q| && |q| > 1
    requires forall i :: 0 <= i < |q| && i != Before(|q|, k) && i != k ==> q[i].next == Succ(q, i)
    requires forall i :: 0 <= i < |q| && i != After(|q|, k) && i != k ==> q[i].prev == Pred(q, i)
    requires q[Before(|q|, k)].next == Succ(q, k) && q[After(|q|, k)].prev == Pred(q, k)
    ensures Linked(Without(q, k))
  {
    WithoutAt(q, k);
    var t := Without(q, k);
    forall i | 0 <= i < |t| ensures t[i].next == Succ(t, i) && t[i].prev == Pred(t, i) { WithoutNeighbours(q, k, i); }
  }

  class RunQueue {
    var head: Task?
    ghost var q: seq<Task>

    ghost predicate Valid()
      reads `head, `q, q`next, q`prev
    {
      NoDup(q) && head == First(q) && Linked(q)
    }

    constructor ()
      ensures Valid() && q == []
    {
      head, q := null, [];
    }

    /** The links of q[k], which stands nowhere else. */
    lemma Place(k: nat)
      requires Valid() && k < |q|
      ensures q[k].next == Succ(q, k) && q[k].prev == Pred(q, k) && q[k] in q
      ensures Succ(q, k) == q[After(|q|, k)] && Pred(q, k) == q[Before(|q|, k)]
      ensures forall i {:trigger q[i]} :: 0 <= i < |q| ==> (q[i] == q[k] <==> i == k)
    {
    }

    lemma AllLinks()
      requires Valid()
      ensures forall i :: 0 <= i < |q| ==> q[i].next == Succ(q, i) && q[i].prev == Pred(q, i)
    {
    }

    /** circular_list_remove_element, for the element at place k. */
    method Remove(e: Task, ghost k: nat)
      requires Valid() && k < |q| && q[k] == e
      modifies `head, `q, q`next, q`prev
      ensures Valid() && q == Without(old(q), k)
    {
      hide NoDup, Without, Succ, Pred, Linked;
      ghost var q0 := q;
      ghost var b, a := Before(|q|, k), After(|q|, k);
      Place(k);
      Place(b);
      Place(a);
      AllLinks();
      WithoutElements(q0, k);
      WithoutAt(q0, k);
      HeadAfter(q0, k);
      var prev, next := e.prev, e.next;
      if prev == e && e == next {
        head := null;
        q := [];
        Alone();
        return;
      }
      if head == e { head := next; }
      next.prev := prev;
      prev.next := next;
      q := Without(q0, k);
      RemovedLinked(q0, k);
    }

    lemma HeadAfter(q0: seq<Task>, k: nat)
      requires k < |q0|
      ensures First(Without(q0, k)) == if |q0| == 1 then null else if k == 0 then Succ(q0, 0) else q0[0]
      ensures |q0| == 1 ==> Without(q0, k) == []
    {
    }

    lemma Alone()
      requires q == [] && head == null
      ensures Valid()
    {
    }

    /** circular_list_insert_tail. */
    method InsertTail(e: Task)
      requires Valid() && e !in q
      modifies `head, `q, q`next, q`prev, e`next, e`prev
      ensures Valid() && q == old(q) + [e]
    {
      hide NoDup, Succ, Pred, Linked;
      ghost var q0 := q;
      if head == null {
        e.next, e.prev := e, e;
        head := e;
        q := q0 + [e];
        OneTask(e);
      } else {
        Place(0);
        Place(|q| - 1);
        AllLinks();
        var tail := head.prev;
        e.next := head;
        e.prev := tail;
        tail.next.prev := e;
        tail.next := e;
        q := q0 + [e];
        AppendedLinked(q0, e);
        NoDupAppended(q0, e);
      }
    }

    lemma OneTask(e: Task)
      requires e.next == e && e.prev == e
      ensures Linked([e]) && NoDup([e]) && [] + [e] == [e] && [e] + [] == [e]
    {
    }

    lemma NoDupAppended(q0: seq<Task>, e: Task)
      requires NoDup(q0) && e !in q0
      ensures NoDup(q0 + [e]) && NoDup([e] + q0)
    {
    }

    /** circular_list_insert_head. */
    method InsertHead(e: Task)
      requires Valid() && e !in q
      modifies `head, `q, q`next, q`prev, e`next, e`prev
      ensures Valid() && q == [e] + old(q)
    {
      hide NoDup, Succ, Pred, Linked, Scrolled;
      ghost var q0 := q;
      if head == null {
        e.next, e.prev := e, e;
        q := [e] + q0;
        OneTask(e);
      } else {
        Place(0);
        Place(|q| - 1);
        AllLinks();
        var oldHead := head;
        e.next := oldHead;
        e.prev := oldHead.prev;
        oldHead.prev.next := e;
        oldHead.prev := e;
        q := [e] + q0;
        AppendedLinked(q0, e);
        NoDupAppended(q0, e);
        ScrolledHead(q0, e);
        ScrolledLinked(q);
      }
      head := e;
    }

    lemma ScrolledHead(q0: seq<Task>, e: Task)
      ensures Scrolled([e] + q0) == q0 + [e]
    {
    }

    /** circular_list_scroll_next. */
    method ScrollNext()
      requires Valid()
      modifies `head, `q
      ensures Valid() && q == Scrolled(old(q))
    {
      hide NoDup, Linked, Scrolled;
      if head != null {
        Place(0);
        ScrolledLinked(q);
        ScrolledElements(q);
        ScrolledAt(q, 0);
        head := head.next;
        q := Scrolled(q);
      } else {
        NothingScrolled();
      }
    }

    lemma NothingScrolled()
      ensures Scrolled([]) == []
    {
    }
  }
}
