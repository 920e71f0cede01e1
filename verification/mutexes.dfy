/** Mutual exclusion as a protocol: one step per critical section, over every interleaving of steps. */
module MutexProtocol {
  import opened Sequences
  import opened RunQueues

  /** The runnable tasks in turn, the waiters in order, the mutex, and two facts about control that no field
      holds: which tasks are inside down's loop after a failed attempt, and which have acquired the mutex. */
  datatype State = State(q: seq<Task>, waiting: seq<Task>, locked: bool, owner: Task?, retry: set<Task>,
      holding: set<Task>)

  datatype Event = Down | TryDown | Up | Tick

  /** Whether the running task can take the step; up on a mutex that is not ours halts the kernel instead. */
  predicate Enabled(s: State, e: Event)
  {
    match e
    case Down => s.q != []
    case TryDown => s.q != [] && s.q[0] !in s.retry
    case Up => s.q != [] && s.q[0] !in s.retry && s.locked && s.owner == s.q[0]
    case Tick => true
  }

  function Step(s: State, e: Event): State
    requires Enabled(s, e)
  {
    match e
    case Down =>
      var c := s.q[0];
      if !s.locked then s.(locked := true, owner := c, retry := s.retry - {c}, holding := s.holding + {c})
      else s.(waiting := s.waiting + [c], q := Scrolled(s.q[1..]), retry := s.retry + {c})
    case TryDown =>
      var c := s.q[0];
      if !s.locked then s.(locked := true, owner := c, holding := s.holding + {c}) else s
    case Up =>
      if s.waiting == [] then s.(locked := false, holding := s.holding - {s.q[0]})
      else s.(locked := false, holding := s.holding - {s.q[0]}, waiting := s.waiting[1..],
          q := Scrolled([s.waiting[0]] + s.q))
    case Tick => s.(q := Scrolled(s.q))
  }

  /** At most one task holds the mutex; no task is twice runnable or waiting, nor both; all waiters are inside
      down; and an unlocked mutex with waiters has a woken task, runnable and about to retry. */
  ghost predicate Inv(s: State)
  {
    && (if s.locked then s.owner != null && s.holding == {s.owner} else s.holding == {})
    && NoDup(s.q) && NoDup(s.waiting)
    && (forall t :: t in s.waiting ==> t !in s.q && t in s.retry)
    && (forall t :: t in s.retry ==> t in s.q || t in s.waiting)
    && (!s.locked && s.waiting != [] ==> exists t :: t in s.q && t in s.retry)
  }

  lemma DownKeeps(s: State)
    requires Inv(s) && Enabled(s, Down)
    ensures Inv(Step(s, Down))
  {
    var c, rest := s.q[0], s.q[1..];
    assert s.q == [c] + rest;
    ScrolledElements(rest);
    hide Scrolled;
    var w := s.waiting + [c];
    forall i, j | 0 <= i < j < |w| ensures w[i] != w[j] { if j == |s.waiting| { assert w[i] in s.waiting; } }
    forall t | t in rest ensures t != c { var i :| 0 <= i < |rest| && rest[i] == t; assert s.q[i + 1] == t; }
  }

  lemma UpKeeps(s: State)
    requires Inv(s) && Enabled(s, Up)
    ensures Inv(Step(s, Up))
  {
    if s.waiting != [] {
      var w, rest := s.waiting[0], s.waiting[1..];
      var q := [w] + s.q;
      assert s.waiting == [w] + rest;
      forall i, j | 0 <= i < j < |q| ensures q[i] != q[j] { if i == 0 { assert q[j] in s.q; } }
      assert w in s.waiting && q[0] == w && w in q;
      forall t | t in rest ensures t != w { var i :| 0 <= i < |rest| && rest[i] == t; assert s.waiting[i + 1] == t; }
      ScrolledElements(q);
      hide Scrolled;
      var s' := Step(s, Up);
      assert w in s'.q && w in s'.retry;
    }
  }

  lemma TickKeeps(s: State)
    requires Inv(s)
    ensures Inv(Step(s, Tick))
  {
    ScrolledElements(s.q);
    hide Scrolled;
    if !s.locked && s.waiting != [] {
      var t :| t in s.q && t in s.retry;
      assert t in Step(s, Tick).q;
    }
  }

  lemma StepKeeps(s: State, e: Event)
    requires Inv(s) && Enabled(s, e)
    ensures Inv(Step(s, e))
  {
    match e
    case Down => DownKeeps(s);
    case TryDown =>
    case Up => UpKeeps(s);
    case Tick => TickKeeps(s);
  }

  /** No task appears or disappears. */
  lemma StepConserves(s: State, e: Event)
    requires Enabled(s, e)
    ensures multiset(Step(s, e).q) + multiset(Step(s, e).waiting) == multiset(s.q) + multiset(s.waiting)
  {
    ScrolledMultiset(s.q);
    match e
    case Down =>
      assert s.q == [s.q[0]] + s.q[1..];
      ScrolledMultiset(s.q[1..]);
    case TryDown =>
    case Up =>
      if s.waiting != [] {
        assert s.waiting == [s.waiting[0]] + s.waiting[1..];
        ScrolledMultiset([s.waiting[0]] + s.q);
      }
    case Tick =>
  }

  lemma ScrolledMultiset(q: seq<Task>)
    ensures multiset(Scrolled(q)) == multiset(q)
  {
    if q != [] { assert q == [q[0]] + q[1..]; }
  }

  // ---- runs ----

  predicate CanRun(s: State, es: seq<Event>)
    decreases |es|
  {
    es == [] || (Enabled(s, es[0]) && CanRun(Step(s, es[0]), es[1..]))
  }

  function Run(s: State, es: seq<Event>): State
    requires CanRun(s, es)
    decreases |es|
  {
    if es == [] then s else Run(Step(s, es[0]), es[1..])
  }

  /** The state in which a mutex starts: unlocked, nobody waiting, nobody inside down. */
  predicate Initial(s: State)
  {
    NoDup(s.q) && s.waiting == [] && !s.locked && s.retry == {} && s.holding == {}
  }

  lemma {:induction false} RunKeeps(s: State, es: seq<Event>)
    requires Inv(s) && CanRun(s, es)
    ensures Inv(Run(s, es))
    ensures multiset(Run(s, es).q) + multiset(Run(s, es).waiting) == multiset(s.q) + multiset(s.waiting)
    decreases |es|
  {
    if es != [] {
      StepKeeps(s, es[0]);
      StepConserves(s, es[0]);
      hide Step, Inv;
      RunKeeps(Step(s, es[0]), es[1..]);
    }
  }

  /** In every interleaving: one holder at most, no task runnable twice or runnable while it waits,
      and no wakeup lost. */
  lemma MutualExclusion(s: State, es: seq<Event>)
    requires Initial(s) && CanRun(s, es)
    ensures var r := Run(s, es);
      && |r.holding| <= 1 && (r.locked <==> r.holding != {}) && (r.locked ==> r.owner in r.holding)
      && NoDup(r.q) && NoDup(r.waiting) && (forall t :: t in r.waiting ==> t !in r.q)
      && (!r.locked && r.waiting != [] ==> exists t :: t in r.q && t in r.retry && t !in r.waiting)
      && forall t :: t in r.q || t in r.waiting <==> t in s.q
  {
    RunKeeps(s, es);
    var r := Run(s, es);
    hide Run;
    SameElements(s, r);
    if !r.locked && r.waiting != [] {
      var t :| t in r.q && t in r.retry;
      assert t !in r.waiting;
    }
  }

  lemma SameElements(s: State, r: State)
    requires multiset(r.q) + multiset(r.waiting) == multiset(s.q) + multiset(s.waiting) && s.waiting == []
    ensures forall t :: t in r.q || t in r.waiting <==> t in s.q
  {
    forall t ensures t in r.q || t in r.waiting <==> t in s.q {
      assert t in r.q || t in r.waiting <==> t in multiset(r.q) + multiset(r.waiting);
      assert t in s.q <==> t in multiset(s.q) + multiset(s.waiting);
    }
  }

  // ---- who goes to sleep, and who wakes ----

  /** A down on a locked mutex fails, and sends its caller to sleep. */
  function FailedBy(s: State, e: Event): seq<Task>
    requires Enabled(s, e)
  {
    if e == Down && s.locked then [s.q[0]] else []
  }

  /** The tasks of q that are not in q0. */
  function NewIn(q: seq<Task>, q0: seq<Task>): seq<Task>
  {
    if q == [] then [] else (if q[0] in q0 then [] else [q[0]]) + NewIn(q[1..], q0)
  }

  /** The tasks that a step makes runnable. */
  function WokenBy(s: State, e: Event): seq<Task>
    requires Enabled(s, e)
  {
    NewIn(Step(s, e).q, s.q)
  }

  /** The tasks whose down fails in a run, in this order. */
  function FailedIn(s: State, es: seq<Event>): seq<Task>
    requires CanRun(s, es)
    decreases |es|
  {
    if es == [] then [] else FailedBy(s, es[0]) + FailedIn(Step(s, es[0]), es[1..])
  }

  /** The tasks that become runnable in a run, in this order. */
  function WokenIn(s: State, es: seq<Event>): seq<Task>
    requires CanRun(s, es)
    decreases |es|
  {
    if es == [] then [] else WokenBy(s, es[0]) + WokenIn(Step(s, es[0]), es[1..])
  }

  lemma {:induction false} NoneNew(q: seq<Task>, q0: seq<Task>)
    requires forall t :: t in q ==> t in q0
    ensures NewIn(q, q0) == []
    decreases |q|
  {
    if q != [] { NoneNew(q[1..], q0); }
  }

  lemma {:induction false} LastIsNew(q: seq<Task>, q0: seq<Task>, t: Task)
    requires (forall x :: x in q ==> x in q0) && t !in q0
    ensures NewIn(q + [t], q0) == [t]
    decreases |q|
  {
    if q == [] {
      assert NewIn([], q0) == [] && ([] + [t])[1..] == [];
    } else {
      assert (q + [t])[1..] == q[1..] + [t];
      LastIsNew(q[1..], q0, t);
    }
  }

  /** A task whose down fails waits behind all others, and the task that waits longest is the one that up wakes. */
  lemma StepServes(s: State, e: Event)
    requires Inv(s) && Enabled(s, e)
    ensures s.waiting + FailedBy(s, e) == WokenBy(s, e) + Step(s, e).waiting
  {
    hide NewIn;
    var r := Step(s, e);
    ScrolledElements(s.q);
    match e
    case Down =>
      if s.q[1..] != [] { ScrolledElements(s.q[1..]) by { RestNoDup(s); } }
      hide Scrolled;
      NoneNew(r.q, s.q);
    case TryDown => NoneNew(r.q, s.q);
    case Up =>
      if s.waiting == [] {
        NoneNew(r.q, s.q);
      } else {
        UpWakes(s);
        assert s.waiting[0] in s.waiting;
        LastIsNew(s.q, s.q, s.waiting[0]);
      }
    case Tick =>
      hide Scrolled;
      NoneNew(r.q, s.q);
  }

  lemma RestNoDup(s: State)
    requires Inv(s) && s.q != []
    ensures NoDup(s.q[1..]) && forall t :: t in s.q[1..] ==> t in s.q
  {
  }

  lemma Chained<T>(w0: seq<T>, f: seq<T>, k: seq<T>, w1: seq<T>, fs: seq<T>, ks: seq<T>, w2: seq<T>)
    requires w0 + f == k + w1 && w1 + fs == ks + w2
    ensures w0 + (f + fs) == (k + ks) + w2
  {
    assert w0 + (f + fs) == (w0 + f) + fs;
    assert (k + w1) + fs == k + (w1 + fs);
    assert k + (ks + w2) == (k + ks) + w2;
  }

  lemma {:induction false} RunServes(s: State, es: seq<Event>)
    requires Inv(s) && CanRun(s, es)
    ensures s.waiting + FailedIn(s, es) == WokenIn(s, es) + Run(s, es).waiting
    decreases |es|
  {
    if es == [] {
      assert s.waiting + [] == [] + s.waiting;
    } else {
      StepKeeps(s, es[0]);
      StepServes(s, es[0]);
      hide Step, Inv, FailedBy, WokenBy;
      var s' := Step(s, es[0]);
      RunServes(s', es[1..]);
      Chained(s.waiting, FailedBy(s, es[0]), WokenBy(s, es[0]), s'.waiting,
        FailedIn(s', es[1..]), WokenIn(s', es[1..]), Run(s', es[1..]).waiting);
    }
  }

  lemma UpWakes(s: State)
    requires Enabled(s, Up) && s.waiting != []
    ensures var r := Step(s, Up);
      s.waiting == [s.waiting[0]] + r.waiting && r.q == s.q + [s.waiting[0]]
  {
    assert Scrolled([s.waiting[0]] + s.q) == s.q + [s.waiting[0]];
  }

  /** In every interleaving the waiters wake in the order in which their downs failed, and the others still wait in
      that order. An up wakes the first of them, and it becomes the last in turn. */
  lemma FirstWaiterWakes(s: State, es: seq<Event>)
    requires Initial(s) && CanRun(s, es)
    ensures FailedIn(s, es) == WokenIn(s, es) + Run(s, es).waiting
    ensures var r, failed, woken := Run(s, es), FailedIn(s, es), WokenIn(s, es);
      Enabled(r, Up) ==>
        if |woken| == |failed| then WokenBy(r, Up) == []
        else WokenBy(r, Up) == [failed[|woken|]] && Step(r, Up).q == r.q + [failed[|woken|]]
  {
    hide Run, NewIn;
    RunServes(s, es);
    RunKeeps(s, es);
    var r := Run(s, es);
    if Enabled(r, Up) {
      if r.waiting == [] {
        NoneNew(r.q, r.q);
      } else {
        UpWakes(r);
        assert r.waiting[0] in r.waiting;
        LastIsNew(r.q, r.q, r.waiting[0]);
      }
    }
  }

  /** Of two waiters the one whose down failed first stands first, in every later state until it wakes: from any
      state in which a waits and b does not. */
  lemma OlderFirst(s: State, es: seq<Event>, a: Task, b: Task)
    requires Inv(s) && CanRun(s, es) && a in s.waiting && b !in s.waiting
    ensures a !in WokenIn(s, es) && b in Run(s, es).waiting ==>
      exists i, j :: 0 <= i < j < |Run(s, es).waiting| && Run(s, es).waiting[i] == a && Run(s, es).waiting[j] == b
  {
    RunServes(s, es);
    hide Run, WokenIn, FailedIn, Inv;
    var w, r, n := WokenIn(s, es), Run(s, es).waiting, |WokenIn(s, es)|;
    if a !in w && b in r {
      var i :| 0 <= i < |s.waiting| && s.waiting[i] == a;
      var j :| 0 <= j < |r| && r[j] == b;
      Within(s.waiting, FailedIn(s, es), i);
      Within(w, r, i);
      Within(s.waiting, FailedIn(s, es), n + j);
      Within(w, r, n + j);
      assert r[i - n] == a;
    }
  }

  lemma Within<T>(s: seq<T>, t: seq<T>, i: nat)
    requires i < |s| + |t|
    ensures (s + t)[i] == if i < |s| then s[i] else t[i - |s|]
    ensures i < |s| ==> (s + t)[i] in s
  {
  }

  /** When one goes to sleep, the next runnable one runs exactly if it is the only other. Otherwise the one after it
      does, and the next is last. */
  lemma SleepPassesOver(s: State)
    requires Inv(s) && Enabled(s, Down) && s.locked && |s.q| >= 2
    ensures |Step(s, Down).q| == |s.q| - 1
    ensures Step(s, Down).q[0] == s.q[1] <==> |s.q| == 2
    ensures |s.q| > 2 ==> Step(s, Down).q[0] == s.q[2] && Step(s, Down).q[|s.q| - 2] == s.q[1]
  {
  }
}
