/** The priority scheduler of Assignment 4's thread.c with thread_mlfqs false: the state
    after each scheduling call as a function of the state before, and what holds over
    every run of such calls. Interrupts are off inside each call, so calls are atomic. */
module Scheduler {
  import opened OrderedList
  import opened Threads

  datatype Status = Running | Ready | Blocked | Dying

  datatype Thread = Thread(status: Status, priority: int)

  /** The scheduler's lists and threads. clock and arrived record the order in which
      threads were put on the ready list; the code has no such fields and reads neither. */
  datatype Sched = Sched(ready: seq<Tid>, threads: map<Tid, Thread>, current: Tid, idle: Tid,
                         clock: nat, arrived: map<Tid, nat>)

  /** thread_cmp_priority as a key: a higher priority sorts first. */
  function Rank(threads: map<Tid, Thread>): map<Tid, int> {
    map t | t in threads :: -threads[t].priority
  }

  ghost predicate Known(s: Sched) {
    && s.current in s.threads && s.idle in s.threads
    && Keyed(s.ready, Rank(s.threads))
  }

  function SetStatus(s: Sched, t: Tid, status: Status): Sched
    requires t in s.threads
  {
    s.(threads := s.threads[t := s.threads[t].(status := status)])
  }

  /** list_insert_ordered (&ready_list, ...) with the status that goes with it. */
  function Enqueue(s: Sched, t: Tid): Sched
    requires Known(s) && t in s.threads
  {
    SetStatus(s, t, Ready).(ready := InsertOrdered(s.ready, t, Rank(s.threads)),
                            clock := s.clock + 1, arrived := s.arrived[t := s.clock])
  }

  function NextThreadToRun(s: Sched): Tid {
    if s.ready == [] then s.idle else s.ready[0]
  }

  /** schedule and thread_schedule_tail: the next thread runs, a dying one is destroyed. */
  function Schedule(s: Sched): Sched
    requires Known(s)
  {
    var next := NextThreadToRun(s);
    var left := if s.threads[s.current].status.Dying? && s.current != next then s.threads - {s.current} else s.threads;
    s.(ready := if s.ready == [] then [] else s.ready[1..],
       threads := left[next := s.threads[next].(status := Running)], current := next)
  }

  // ---------- The scheduling calls ----------

  datatype Call =
    | Create(t: Tid, priority: int)
    | Unblock(t: Tid)
    | Yield            // thread_yield, also on return from a timer interrupt
    | Block
    | Exit
    | SetPriority(priority: int)

  /** What the code asserts or its callers ensure: new threads are new, only blocked
      threads other than idle are unblocked, idle neither exits nor creates. */
  ghost predicate Allowed(s: Sched, c: Call) {
    match c
    case Create(t, priority) => t !in s.threads && PRI_MIN <= priority <= PRI_MAX
    case Unblock(t) => t in s.threads && s.threads[t].status.Blocked? && t != s.idle
    case Exit => s.current != s.idle
    case _ => true
  }

  function DoYield(s: Sched): Sched
    requires Known(s)
  {
    EnqueueKnown(s, s.current);
    Schedule(if s.current != s.idle then Enqueue(s, s.current) else SetStatus(s, s.current, Ready))
  }

  function DoUnblock(s: Sched, t: Tid): Sched
    requires Known(s) && t in s.threads
  {
    Enqueue(s, t)
  }

  function DoCreate(s: Sched, t: Tid, priority: int): Sched
    requires Known(s) && t !in s.threads
  {
    var born := s.(threads := s.threads[t := Thread(Blocked, priority)]);
    EnqueueKnown(born, t);
    var queued := DoUnblock(born, t);
    if queued.threads[queued.current].priority < priority then DoYield(queued) else queued
  }

  function DoSetPriority(s: Sched, priority: int): Sched
    requires Known(s)
  {
    DoYield(s.(threads := s.threads[s.current := s.threads[s.current].(priority := priority)]))
  }

  /** The state after a call. */
  function Next(s: Sched, c: Call): Sched
    requires Known(s) && Allowed(s, c)
  {
    match c
    case Create(t, priority) => DoCreate(s, t, priority)
    case Unblock(t) => DoUnblock(s, t)
    case Yield => DoYield(s)
    case Block => Schedule(SetStatus(s, s.current, Blocked))
    case Exit => Schedule(SetStatus(s, s.current, Dying))
    case SetPriority(priority) => DoSetPriority(s, priority)
  }

  lemma EnqueueKnown(s: Sched, t: Tid)
    requires Known(s) && t in s.threads
    ensures Known(Enqueue(s, t)) && Known(SetStatus(s, t, Ready))
    ensures forall x :: x in Enqueue(s, t).ready <==> x == t || x in s.ready
  {
    InsertMembers(s.ready, t, Rank(s.threads));
    var u := Enqueue(s, t);
    forall i | 0 <= i < |u.ready|
      ensures u.ready[i] in Rank(u.threads)
    {
      assert u.ready[i] in u.ready;
      if u.ready[i] != t {
        var k :| 0 <= k < |s.ready| && s.ready[k] == u.ready[i];
        assert s.ready[k] in Rank(s.threads);
      }
    }
  }

  // ---------- The ready list ----------

  /** a is to run before b: more urgent, or as urgent and queued earlier. */
  ghost predicate Before(s: Sched, a: Tid, b: Tid)
    requires a in s.threads && b in s.threads && a in s.arrived && b in s.arrived
  {
    || s.threads[a].priority > s.threads[b].priority
    || (s.threads[a].priority == s.threads[b].priority && s.arrived[a] < s.arrived[b])
  }

  /** The ready list is in running order; in particular it has no duplicates. */
  ghost predicate Queued(s: Sched) {
    && Known(s)
    && (forall i :: 0 <= i < |s.ready| ==>
          s.ready[i] in s.threads && s.ready[i] in s.arrived && s.arrived[s.ready[i]] < s.clock)
    && (forall i, j :: 0 <= i < j < |s.ready| ==> Before(s, s.ready[i], s.ready[j]))
  }

  lemma RankSorted(s: Sched)
    requires Queued(s)
    ensures Keyed(s.ready, Rank(s.threads)) && SortedBy(s.ready, Rank(s.threads))
  {
    forall i, j | 0 <= i < j < |s.ready|
      ensures s.threads[s.ready[i]].priority >= s.threads[s.ready[j]].priority
    {
      assert Before(s, s.ready[i], s.ready[j]);
    }
  }

  lemma EnqueueKeepsOrder(s: Sched, t: Tid)
    requires Queued(s) && t in s.threads && t !in s.ready
    ensures Queued(Enqueue(s, t))
  {
    RankSorted(s);
    var i := InsertSplit(s.ready, t, Rank(s.threads));
    EnqueueKnown(s, t);
    hide InsertOrdered, Before, SortedBy, Keyed, Queued, Known;
    QueuedWith(s, Enqueue(s, t), t, i);
  }

  lemma QueuedWith(s: Sched, u: Sched, t: Tid, i: nat)
    requires Queued(s) && Known(u) && t in s.threads && t !in s.ready && i <= |s.ready|
    requires u.ready == s.ready[..i] + [t] + s.ready[i..]
    requires forall x :: x in s.threads ==> x in u.threads && u.threads[x].priority == s.threads[x].priority
    requires u.arrived == s.arrived[t := s.clock] && u.clock == s.clock + 1
    requires forall j :: 0 <= j < i ==> s.threads[s.ready[j]].priority >= s.threads[t].priority
    requires forall j :: i <= j < |s.ready| ==> s.threads[s.ready[j]].priority < s.threads[t].priority
    ensures Queued(u)
  {
    hide Known;
    forall k | 0 <= k < |u.ready|
      ensures u.ready[k] in u.threads && u.ready[k] in u.arrived && u.arrived[u.ready[k]] < u.clock
    {
      assert k == i || u.ready[k] == s.ready[if k < i then k else k - 1];
    }
    forall k, l | 0 <= k < l < |u.ready|
      ensures Before(u, u.ready[k], u.ready[l])
    {
      var k', l' := if k < i then k else k - 1, if l < i then l else l - 1;
      if k != i && l != i {
        assert u.ready[k] == s.ready[k'] && u.ready[l] == s.ready[l'];
        assert Before(s, s.ready[k'], s.ready[l']);
      } else if k != i {
        assert u.ready[k] == s.ready[k'];
      } else {
        assert u.ready[l] == s.ready[l'];
      }
    }
  }

  // ---------- The invariant ----------

  /** The ready list is in order and holds exactly the ready threads other than idle. */
  ghost predicate ListsReady(s: Sched) {
    && Queued(s)
    && (forall t :: t in s.ready <==> t in s.threads && s.threads[t].status.Ready? && t != s.idle)
  }

  /** At the entry of schedule: nobody runs, and only the old current thread may be dying. */
  ghost predicate AtSchedule(s: Sched) {
    && ListsReady(s)
    && (forall t :: t in s.threads ==> !s.threads[t].status.Running?)
    && (forall t :: t in s.threads && s.threads[t].status.Dying? ==> t == s.current && t != s.idle)
  }

  /** Between calls: exactly one thread runs, none is dying. */
  ghost predicate Inv(s: Sched) {
    && ListsReady(s)
    && (forall t :: t in s.threads ==> (s.threads[t].status.Running? <==> t == s.current))
    && (forall t :: t in s.threads ==> !s.threads[t].status.Dying?)
  }

  /** No ready thread is more urgent than the running one. */
  ghost predicate NotOutranked(s: Sched)
    requires Known(s)
  {
    forall t :: t in s.ready ==> t in s.threads && s.threads[t].priority <= s.threads[s.current].priority
  }

  /** schedule picks a most urgent ready thread, the earliest queued of these, and idle
      only when no thread is ready; the others keep their order. */
  lemma SchedulePicksBest(s: Sched)
    requires AtSchedule(s)
    ensures var u := Schedule(s);
            && Inv(u) && NotOutranked(u)
            && (s.ready == [] <==> u.current == s.idle)
            && (s.ready != [] ==> u.current in s.ready && u.ready == s.ready[1..])
            && (forall t :: t in s.ready && t != u.current ==> Before(s, u.current, t))
            && (forall t :: t in s.threads ==> s.threads[t].status.Dying? || t in u.threads)
  {
    var u := Schedule(s);
    if s.ready == [] {
      assert u.ready == [];
    } else {
      PopFront(s);
      forall t | t in s.ready && t != u.current
        ensures Before(s, u.current, t)
      {
        var i :| 0 <= i < |s.ready| && s.ready[i] == t;
        assert Before(s, s.ready[0], s.ready[i]);
      }
    }
    assert Known(u);
  }

  lemma PopFront(s: Sched)
    requires AtSchedule(s) && s.ready != []
    ensures var u := Schedule(s);
            && u.ready == s.ready[1..] && Queued(u)
            && (forall t :: t in u.ready <==> t in s.ready && t != u.current)
  {
    var u := Schedule(s);
    assert s.ready[0] in s.ready;
    forall i | 0 <= i < |u.ready|
      ensures u.ready[i] == s.ready[i + 1] && u.ready[i] in u.threads && u.ready[i] in Rank(u.threads)
      ensures u.ready[i] != u.current
    {
      assert s.ready[i + 1] in s.ready;
      assert Before(s, s.ready[0], s.ready[i + 1]);
    }
    forall i, j | 0 <= i < j < |u.ready|
      ensures Before(u, u.ready[i], u.ready[j])
    {
      assert Before(s, s.ready[i + 1], s.ready[j + 1]);
    }
    assert s.ready == [s.ready[0]] + u.ready;
  }

  // ---------- Every call keeps the invariant ----------

  lemma YieldKeepsInv(s: Sched)
    requires Inv(s)
    ensures Inv(DoYield(s)) && NotOutranked(DoYield(s))
  {
    EnqueueKnown(s, s.current);
    var r := if s.current != s.idle then Enqueue(s, s.current) else SetStatus(s, s.current, Ready);
    if s.current != s.idle {
      EnqueueKeepsOrder(s, s.current);
    } else {
      assert Queued(r) by { StatusKeepsOrder(s, s.current, Ready); }
    }
    SchedulePicksBest(r);
  }

  lemma StatusKeepsOrder(s: Sched, t: Tid, status: Status)
    requires Queued(s) && t in s.threads
    ensures Queued(SetStatus(s, t, status))
  {
    var u := SetStatus(s, t, status);
    forall i, j | 0 <= i < j < |u.ready|
      ensures Before(u, u.ready[i], u.ready[j])
    {
      assert Before(s, s.ready[i], s.ready[j]);
    }
    forall i | 0 <= i < |u.ready|
      ensures u.ready[i] in Rank(u.threads)
    {
      assert s.ready[i] in Rank(s.threads);
    }
  }

  lemma LeaveKeepsInv(s: Sched, status: Status)
    requires Inv(s) && (status.Blocked? || (status.Dying? && s.current != s.idle))
    ensures var u := Schedule(SetStatus(s, s.current, status)); Inv(u) && NotOutranked(u)
  {
    StatusKeepsOrder(s, s.current, status);
    SchedulePicksBest(SetStatus(s, s.current, status));
  }

  lemma UnblockKeepsInv(s: Sched, t: Tid)
    requires Inv(s) && Allowed(s, Unblock(t))
    ensures Inv(DoUnblock(s, t))
  {
    EnqueueKnown(s, t);
    EnqueueKeepsOrder(s, t);
  }

  lemma BornKeepsInv(s: Sched, t: Tid, priority: int)
    requires Inv(s) && t !in s.threads
    ensures Inv(s.(threads := s.threads[t := Thread(Blocked, priority)]))
  {
    var u := s.(threads := s.threads[t := Thread(Blocked, priority)]);
    forall i, j | 0 <= i < j < |u.ready|
      ensures Before(u, u.ready[i], u.ready[j])
    {
      assert Before(s, s.ready[i], s.ready[j]);
    }
    forall i | 0 <= i < |u.ready|
      ensures u.ready[i] in Rank(u.threads)
    {
      assert s.ready[i] in Rank(s.threads);
    }
  }

  lemma CreateKeepsInv(s: Sched, t: Tid, priority: int)
    requires Inv(s) && Allowed(s, Create(t, priority))
    ensures Inv(DoCreate(s, t, priority))
    ensures NotOutranked(s) ==> NotOutranked(DoCreate(s, t, priority))
  {
    var born := s.(threads := s.threads[t := Thread(Blocked, priority)]);
    BornKeepsInv(s, t, priority);
    EnqueueKnown(born, t);
    UnblockKeepsInv(born, t);
    var queued := DoUnblock(born, t);
    if queued.threads[queued.current].priority < priority {
      YieldKeepsInv(queued);
    }
  }

  lemma SetPriorityKeepsInv(s: Sched, priority: int)
    requires Inv(s)
    ensures Inv(DoSetPriority(s, priority)) && NotOutranked(DoSetPriority(s, priority))
  {
    var u := s.(threads := s.threads[s.current := s.threads[s.current].(priority := priority)]);
    forall i | 0 <= i < |u.ready|
      ensures u.ready[i] in Rank(u.threads) && u.ready[i] != s.current
    {
      assert u.ready[i] in s.ready && s.ready[i] in Rank(s.threads);
    }
    forall i, j | 0 <= i < j < |u.ready|
      ensures Before(u, u.ready[i], u.ready[j])
    {
      assert Before(s, s.ready[i], s.ready[j]);
    }
    YieldKeepsInv(u);
  }

  /** Each call keeps the invariant. Only a bare thread_unblock can leave a ready thread
      outranking the running one; yield, block, exit and set_priority end that state. */
  lemma CallKeepsInv(s: Sched, c: Call)
    requires Inv(s) && Allowed(s, c)
    ensures Inv(Next(s, c))
    ensures NotOutranked(s) && !c.Unblock? ==> NotOutranked(Next(s, c))
    ensures !c.Unblock? && !c.Create? ==> NotOutranked(Next(s, c))
  {
    match c
    case Create(t, priority) => CreateKeepsInv(s, t, priority);
    case Unblock(t) => UnblockKeepsInv(s, t);
    case Yield => YieldKeepsInv(s);
    case Block => LeaveKeepsInv(s, Blocked);
    case Exit => LeaveKeepsInv(s, Dying);
    case SetPriority(priority) => SetPriorityKeepsInv(s, priority);
  }

  // ---------- Runs ----------

  /** A run of calls: s is reached from s0 by calls that are allowed where they are made. */
  ghost predicate Reaches(s0: Sched, cs: seq<Call>, s: Sched)
    decreases |cs|
  {
    if cs == [] then s == s0
    else Known(s0) && Allowed(s0, cs[0]) && Reaches(Next(s0, cs[0]), cs[1..], s)
  }

  /** Start-up is over: the main thread runs, the idle thread has blocked. */
  function AfterStart(main: Tid, idle: Tid, priority: int): Sched
    requires main != idle
  {
    Sched([], map[main := Thread(Running, priority), idle := Thread(Blocked, PRI_MIN)], main, idle, 0, map[])
  }

  lemma {:induction false} RunKeepsInv(s0: Sched, cs: seq<Call>, s: Sched)
    requires Inv(s0) && Reaches(s0, cs, s)
    ensures Inv(s)
    ensures NotOutranked(s0) && (forall i :: 0 <= i < |cs| ==> !cs[i].Unblock?) ==> NotOutranked(s)
    decreases |cs|
  {
    if cs != [] {
      CallKeepsInv(s0, cs[0]);
      RunKeepsInv(Next(s0, cs[0]), cs[1..], s);
    }
  }

  /** In every state reached after start-up exactly one thread is running, and the ready
      list is duplicate-free, in running order, and holds exactly the ready threads. */
  lemma SchedulerSafety(main: Tid, idle: Tid, priority: int, cs: seq<Call>, s: Sched)
    requires main != idle && Reaches(AfterStart(main, idle, priority), cs, s)
    ensures Inv(s)
    ensures forall t :: t in s.threads ==> (s.threads[t].status.Running? <==> t == s.current)
    ensures forall i, j :: 0 <= i < j < |s.ready| ==> s.ready[i] != s.ready[j]
    ensures forall i, j :: 0 <= i < j < |s.ready| ==>
              s.ready[i] in s.threads && s.ready[j] in s.threads
              && s.threads[s.ready[i]].priority >= s.threads[s.ready[j]].priority
  {
    RunKeepsInv(AfterStart(main, idle, priority), cs, s);
    forall i, j | 0 <= i < j < |s.ready|
      ensures s.ready[i] != s.ready[j] && s.threads[s.ready[i]].priority >= s.threads[s.ready[j]].priority
    {
      assert Before(s, s.ready[i], s.ready[j]);
    }
  }

  // ---------- Round robin ----------

  /** The running thread and the first k ready ones have one priority; all others have less. */
  ghost predicate Peers(s: Sched, k: nat) {
    && Inv(s) && s.current != s.idle && k <= |s.ready|
    && (forall i :: 0 <= i < |s.ready| ==> s.ready[i] in s.threads)
    && (forall i :: 0 <= i < k ==> s.threads[s.ready[i]].priority == s.threads[s.current].priority)
    && (forall i :: k <= i < |s.ready| ==> s.threads[s.ready[i]].priority < s.threads[s.current].priority)
  }

  function Cycle(s: Sched, k: nat): seq<Tid>
    requires k <= |s.ready|
  {
    [s.current] + s.ready[..k]
  }

  lemma PeersInsert(s: Sched, k: nat)
    requires Peers(s, k)
    ensures Enqueue(s, s.current).ready == s.ready[..k] + [s.current] + s.ready[k..]
  {
    var i := InsertSplit(s.ready, s.current, Rank(s.threads));
    hide Inv;
    assert i < |s.ready| ==> s.threads[s.ready[i]].priority < s.threads[s.current].priority;
    assert k < |s.ready| ==> s.threads[s.ready[k]].priority < s.threads[s.current].priority;
  }

  lemma YieldRuns(s: Sched)
    requires Inv(s) && s.current != s.idle
    ensures var r, u := Enqueue(s, s.current), DoYield(s);
            && [u.current] + u.ready == r.ready && u.idle == s.idle
            && forall t :: t in s.threads ==> t in u.threads && u.threads[t].priority == s.threads[t].priority
  {}

  lemma YieldRotates(s: Sched, k: nat)
    requires Peers(s, k)
    ensures var u := DoYield(s);
            && Peers(u, k) && u.ready[k..] == s.ready[k..]
            && Cycle(u, k) == Cycle(s, k)[1..] + [s.current]
  {
    YieldKeepsInv(s);
    PeersInsert(s, k);
    YieldRuns(s);
    hide Inv, DoYield, Enqueue;
    CycleAfter(s.current, s.ready, DoYield(s).current, DoYield(s).ready, k);
    PeersAfter(s, DoYield(s), k);
  }

  lemma CycleAfter(c: Tid, ready: seq<Tid>, c': Tid, ready': seq<Tid>, k: nat)
    requires k <= |ready| && [c'] + ready' == ready[..k] + [c] + ready[k..]
    ensures |ready'| == |ready| && ready'[k..] == ready[k..]
    ensures [c'] + ready'[..k] == ready[..k] + [c]
  {
    var r := ready[..k] + [c] + ready[k..];
    assert c' == r[0] && ready' == r[1..];
  }

  lemma PeersAfter(s: Sched, u: Sched, k: nat)
    requires Peers(s, k) && Inv(u) && u.idle == s.idle
    requires [u.current] + u.ready == s.ready[..k] + [s.current] + s.ready[k..]
    requires forall t :: t in s.threads ==> t in u.threads && u.threads[t].priority == s.threads[t].priority
    ensures Peers(u, k)
  {
    assert forall i :: 0 <= i < |s.ready| ==> s.ready[i] in s.ready && s.ready[i] != s.idle;
    assert s.current in s.threads;
    hide Inv;
    var p := s.threads[s.current].priority;
    RotatedAt(s, u, k, 0);
    forall j | 0 <= j < |u.ready|
      ensures u.ready[j] in u.threads && u.ready[j] != s.idle
      ensures if j < k then u.threads[u.ready[j]].priority == p else u.threads[u.ready[j]].priority < p
    {
      RotatedAt(s, u, k, j + 1);
    }
  }

  lemma RotatedAt(s: Sched, u: Sched, k: nat, j: nat)
    requires k <= |s.ready| && j <= |u.ready|
    requires [u.current] + u.ready == s.ready[..k] + [s.current] + s.ready[k..]
    ensures |u.ready| == |s.ready|
    ensures (if j == 0 then u.current else u.ready[j - 1])
         == (if j < k then s.ready[j] else if j == k then s.current else s.ready[j - 1])
  {
    var r := [u.current] + u.ready;
    assert |r| == |s.ready| + 1;
    assert r[j] == if j == 0 then u.current else u.ready[j - 1];
  }

  /** n consecutive calls of thread_yield. */
  function Yields(s: Sched, n: nat): (u: Sched)
    requires Inv(s)
    ensures Inv(u)
    decreases n
  {
    if n == 0 then s
    else
      YieldKeepsInv(s);
      Yields(DoYield(s), n - 1)
  }

  lemma {:induction false} YieldsRotate(s: Sched, k: nat, n: nat)
    requires Peers(s, k) && n <= k + 1
    ensures var u := Yields(s, n);
            && Peers(u, k) && u.ready[k..] == s.ready[k..]
            && Cycle(u, k) == Cycle(s, k)[n..] + Cycle(s, k)[..n]
    decreases n
  {
    hide Peers, DoYield, Inv, Yields;
    PeersInv(s, k);
    if n > 0 {
      var v := DoYield(s);
      YieldRotates(s, k);
      YieldFirst(s, n);
      YieldsRotate(v, k, n - 1);
      assert Cycle(s, k)[..1] == [s.current];
      hide Cycle;
      Rotate(Cycle(s, k), n - 1);
    } else {
      YieldFirst(s, 0);
      assert Cycle(s, k)[0..] + Cycle(s, k)[..0] == Cycle(s, k);
    }
  }

  lemma YieldFirst(s: Sched, n: nat)
    requires Inv(s)
    ensures Inv(DoYield(s)) && Yields(s, n) == if n == 0 then s else Yields(DoYield(s), n - 1)
  {
    YieldKeepsInv(s);
    hide Inv, DoYield;
  }

  lemma PeersInv(s: Sched, k: nat)
    requires Peers(s, k)
    ensures Inv(s) && Known(s) && k <= |s.ready|
  {}

  lemma Rotate(c: seq<Tid>, n: nat)
    requires n + 1 <= |c|
    ensures var d := c[1..] + c[..1]; d[n..] + d[..n] == c[n + 1..] + c[..n + 1]
  {}

  /** Round robin: when k + 1 threads share the highest priority and only yield, k + 1
      yields run each of them exactly once, in queue order, and restore the ready list. */
  lemma RoundRobin(s: Sched, k: nat, n: nat)
    requires Peers(s, k) && n <= k + 1
    ensures n <= k ==> Yields(s, n).current == Cycle(s, k)[n]
    ensures n == k + 1 ==> Yields(s, n).current == s.current && Yields(s, n).ready == s.ready
    ensures forall i, j :: 0 <= i < j <= k ==> Cycle(s, k)[i] != Cycle(s, k)[j]
  {
    YieldsRotate(s, k, n);
    CycleDistinct(s, k);
    var u := Yields(s, n);
    hide Yields, Inv;
    assert u.current == Cycle(u, k)[0];
    if n == k + 1 {
      assert Cycle(u, k) == Cycle(s, k);
      assert u.ready == Cycle(u, k)[1..] + u.ready[k..];
      assert s.ready == Cycle(s, k)[1..] + s.ready[k..];
    }
  }

  lemma CycleDistinct(s: Sched, k: nat)
    requires Peers(s, k)
    ensures forall i, j :: 0 <= i < j <= k ==> Cycle(s, k)[i] != Cycle(s, k)[j]
  {
    forall i, j | 0 <= i < j <= k
      ensures Cycle(s, k)[i] != Cycle(s, k)[j]
    {
      assert s.ready[j - 1] in s.ready;
      if i > 0 {
        assert Before(s, s.ready[i - 1], s.ready[j - 1]);
      }
    }
  }
}
