/** What each scheduling call does to the threads: who runs afterwards, in which status the
    caller and the thread concerned are, and that nothing else changes. */
module SchedulerEffects {
  import opened OrderedList
  import opened Scheduler
  import opened Threads

  /** Every thread of s is still there in u with its priority; besides the threads in moved
      and the one now running, each keeps its status. */
  ghost predicate OnlyMoved(s: Sched, u: Sched, moved: set<Tid>) {
    && u.current in u.threads && u.threads[u.current].status.Running?
    && (forall x :: x in s.threads ==> x in u.threads && u.threads[x].priority == s.threads[x].priority)
    && (forall x :: x in s.threads && x !in moved && x != u.current ==> u.threads[x].status == s.threads[x].status)
  }

  ghost predicate Waiting(s: Sched, t: Tid) {
    t in s.threads && s.threads[t].status.Ready?
  }

  /** schedule without a dying thread: only the next thread changes its status. */
  lemma ScheduleMoves(s: Sched)
    requires Known(s) && !s.threads[s.current].status.Dying?
    ensures OnlyMoved(s, Schedule(s), {}) && Schedule(s).threads.Keys == s.threads.Keys
  {
    NextIsKnown(s);
  }

  lemma NextIsKnown(s: Sched)
    requires Known(s)
    ensures NextThreadToRun(s) in s.threads
  {
    if s.ready != [] {
      assert s.ready[0] in Rank(s.threads);
    }
  }

  lemma CurrentNotReady(s: Sched)
    requires Inv(s)
    ensures s.current !in s.ready && s.idle !in s.ready
  {}

  /** thread_unblock makes t ready and queues it; nobody else is affected. */
  lemma UnblockQueues(s: Sched, t: Tid)
    requires Inv(s) && Allowed(s, Unblock(t))
    ensures var u := Next(s, Unblock(t));
            && u.current == s.current
            && u.threads == s.threads[t := s.threads[t].(status := Ready)]
            && (forall x :: x in u.ready <==> x == t || x in s.ready)
  {
    InsertMembers(s.ready, t, Rank(s.threads));
  }

  /** thread_yield puts the caller back among the ready threads, or goes on with it. */
  lemma YieldMoves(s: Sched)
    requires Inv(s)
    ensures var u := DoYield(s);
            && OnlyMoved(s, u, {s.current}) && u.threads.Keys == s.threads.Keys
            && (u.current == s.current || Waiting(u, s.current))
  {
    EnqueueKnown(s, s.current);
    var r := if s.current != s.idle then Enqueue(s, s.current) else SetStatus(s, s.current, Ready);
    ScheduleMoves(r);
  }

  /** thread_block leaves the caller blocked, off the ready list; only the idle thread can
      go on, when nobody is ready. */
  lemma BlockBlocks(s: Sched)
    requires Inv(s)
    ensures var u := Next(s, Block);
            && OnlyMoved(s, u, {s.current}) && u.threads.Keys == s.threads.Keys
            && (u.current == s.current <==> s.current == s.idle && s.ready == [])
            && (u.current != s.current ==> u.threads[s.current].status.Blocked? && s.current !in u.ready)
  {
    StatusKeepsOrder(s, s.current, Blocked);
    CurrentNotReady(s);
    var r := SetStatus(s, s.current, Blocked);
    ScheduleMoves(r);
    hide Inv, OnlyMoved;
    NextFromList(r);
  }

  lemma NextFromList(s: Sched)
    requires Known(s)
    ensures var u := Schedule(s);
            && (s.ready == [] ==> u.current == s.idle && u.ready == [])
            && (s.ready != [] ==> u.current in s.ready && forall x :: x in u.ready ==> x in s.ready)
  {
    if s.ready != [] {
      assert s.ready == [s.ready[0]] + s.ready[1..];
    }
  }

  /** thread_exit removes the caller and nobody else. */
  lemma ExitRemoves(s: Sched)
    requires Inv(s) && Allowed(s, Exit)
    ensures var u := Next(s, Exit);
            && u.threads.Keys == s.threads.Keys - {s.current} && u.current != s.current
            && (forall x :: x in u.threads ==> u.threads[x].priority == s.threads[x].priority)
            && (forall x :: x in u.threads && x != u.current ==> u.threads[x].status == s.threads[x].status)
  {
    StatusKeepsOrder(s, s.current, Dying);
    CurrentNotReady(s);
    var r := SetStatus(s, s.current, Dying);
    NextIsKnown(r);
    hide Inv;
    NextFromList(r);
  }

  /** thread_set_priority gives the caller exactly the new priority, and yields. */
  lemma SetPriorityTakesEffect(s: Sched, priority: int)
    requires Inv(s)
    ensures var u := Next(s, SetPriority(priority));
            && u.threads.Keys == s.threads.Keys && u.threads[s.current].priority == priority
            && (u.current == s.current || Waiting(u, s.current))
            && (forall x :: x in s.threads && x != s.current ==> u.threads[x].priority == s.threads[x].priority)
            && (forall x :: x in s.threads && x != s.current && x != u.current ==>
                  u.threads[x].status == s.threads[x].status)
  {
    var m := s.(threads := s.threads[s.current := s.threads[s.current].(priority := priority)]);
    RepriorityKeepsInv(s, priority);
    hide Inv;
    YieldMoves(m);
  }

  lemma RepriorityKeepsInv(s: Sched, priority: int)
    requires Inv(s)
    ensures Inv(s.(threads := s.threads[s.current := s.threads[s.current].(priority := priority)]))
  {
    var u := s.(threads := s.threads[s.current := s.threads[s.current].(priority := priority)]);
    CurrentNotReady(s);
    forall i | 0 <= i < |u.ready|
      ensures u.ready[i] in Rank(u.threads) && u.ready[i] != s.current
    {
      assert u.ready[i] in s.ready && s.ready[i] in Rank(s.threads);
    }
    forall i, j | 0 <= i < j < |u.ready|
      ensures Before(u, u.ready[i], u.ready[j])
    {
      assert Before(s, s.ready[i], s.ready[j]);
    }
  }

  /** thread_create adds exactly the new thread, ready or already running, with its
      priority; the creator goes on running exactly unless the new thread is more urgent,
      and is ready otherwise. */
  lemma CreateAdds(s: Sched, t: Tid, priority: int)
    requires Inv(s) && Allowed(s, Create(t, priority))
    ensures var u := Next(s, Create(t, priority));
            && u.threads.Keys == s.threads.Keys + {t} && u.threads[t].priority == priority
            && (u.current == t || Waiting(u, t))
            && (u.current == s.current <==> s.threads[s.current].priority >= priority)
            && (u.current == s.current || Waiting(u, s.current))
            && (forall x :: x in s.threads ==> u.threads[x].priority == s.threads[x].priority)
            && (forall x :: x in s.threads && x != s.current && x != u.current ==>
                  u.threads[x].status == s.threads[x].status)
  {
    var born := s.(threads := s.threads[t := Thread(Blocked, priority)]);
    BornKeepsInv(s, t, priority);
    UnblockQueues(born, t);
    UnblockKeepsInv(born, t);
    var queued := DoUnblock(born, t);
    assert queued.threads[queued.current] == s.threads[s.current];
    assert queued.threads[t] == Thread(Ready, priority) && t in queued.ready;
    hide Inv, DoUnblock;
    if queued.threads[queued.current].priority < priority {
      YieldMoves(queued);
      UrgentPreempts(queued, t);
    } else {
      StillRuns(s);
    }
  }

  lemma StillRuns(s: Sched)
    requires Inv(s)
    ensures s.current in s.threads && s.threads[s.current].status.Running?
  {}

  /** A yield with a more urgent thread ready does not go on with the caller. */
  lemma UrgentPreempts(s: Sched, t: Tid)
    requires Inv(s) && t in s.ready && t in s.threads && s.threads[t].priority > s.threads[s.current].priority
    ensures DoYield(s).current != s.current
  {
    YieldKeepsInv(s);
    YieldMoves(s);
    YieldKeepsQueued(s, t);
    hide DoYield;
  }

  lemma YieldKeepsQueued(s: Sched, t: Tid)
    requires Inv(s) && t in s.ready
    ensures DoYield(s).current == t || t in DoYield(s).ready
  {
    EnqueueKnown(s, s.current);
    var r := if s.current != s.idle then Enqueue(s, s.current) else SetStatus(s, s.current, Ready);
    assert t in r.ready;
    assert r.ready == [r.ready[0]] + r.ready[1..];
  }
}
