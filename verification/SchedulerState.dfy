/** The scheduler's variables and the calls that update them in place, each proved to
    have exactly the effect Scheduler.Next describes. */
module SchedulerState {
  import opened OrderedList
  import opened Scheduler
  import opened Threads

  class Kernel {
    var readyList: seq<Tid>
    var threads: map<Tid, Thread>
    var running: Tid
    const idleThread: Tid
    ghost var clock: nat
    ghost var arrived: map<Tid, nat>

    ghost function View(): Sched
      reads this
    {
      Sched(readyList, threads, running, idleThread, clock, arrived)
    }

    constructor (main: Tid, idle: Tid, priority: int)
      requires main != idle
      ensures View() == AfterStart(main, idle, priority)
    {
      readyList := [];
      threads := map[main := Thread(Running, priority), idle := Thread(Blocked, PRI_MIN)];
      running := main;
      idleThread := idle;
      clock := 0;
      arrived := map[];
    }

    method Enqueue(t: Tid)
      requires Known(View()) && t in threads
      modifies this
      ensures View() == Scheduler.Enqueue(old(View()), t)
    {
      readyList := InsertOrdered(readyList, t, Rank(threads));
      threads := threads[t := threads[t].(status := Ready)];
      arrived := arrived[t := clock];
      clock := clock + 1;
    }

    method ScheduleNext()
      requires Known(View())
      modifies this
      ensures View() == Schedule(old(View()))
    {
      var cur := running;
      var next;
      if readyList == [] {
        next := idleThread;
      } else {
        next := readyList[0];
        readyList := readyList[1..];
        assert old(readyList)[0] in Rank(threads);
      }
      var dying := threads[cur].status.Dying? && cur != next;
      threads := threads[next := threads[next].(status := Running)];
      running := next;
      if dying {
        threads := threads - {cur};
      }
    }

    method ThreadUnblock(t: Tid)
      requires Inv(View()) && Allowed(View(), Unblock(t))
      modifies this
      ensures View() == Next(old(View()), Unblock(t))
    {
      Enqueue(t);
    }

    method ThreadYield()
      requires Known(View())
      modifies this
      ensures View() == DoYield(old(View()))
    {
      EnqueueKnown(View(), running);
      if running != idleThread {
        Enqueue(running);
      } else {
        threads := threads[running := threads[running].(status := Ready)];
      }
      ScheduleNext();
    }

    method ThreadBlock()
      requires Inv(View())
      modifies this
      ensures View() == Next(old(View()), Block)
    {
      StatusKeepsOrder(View(), running, Blocked);
      threads := threads[running := threads[running].(status := Blocked)];
      ScheduleNext();
    }

    method ThreadExit()
      requires Inv(View()) && Allowed(View(), Exit)
      modifies this
      ensures View() == Next(old(View()), Exit)
    {
      StatusKeepsOrder(View(), running, Dying);
      threads := threads[running := threads[running].(status := Dying)];
      ScheduleNext();
    }

    method ThreadCreate(t: Tid, priority: int)
      requires Inv(View()) && Allowed(View(), Create(t, priority))
      modifies this
      ensures View() == Next(old(View()), Create(t, priority))
    {
      BornKeepsInv(View(), t, priority);
      threads := threads[t := Thread(Blocked, priority)];
      EnqueueKnown(View(), t);
      Enqueue(t);
      if threads[running].priority < priority {
        ThreadYield();
      }
    }

    method ThreadSetPriority(newPriority: int)
      requires Inv(View())
      modifies this
      ensures View() == Next(old(View()), SetPriority(newPriority))
    {
      PriorityKeepsKnown(View(), newPriority);
      threads := threads[running := threads[running].(priority := newPriority)];
      ThreadYield();
    }
  }

  lemma PriorityKeepsKnown(s: Sched, priority: int)
    requires Known(s)
    ensures Known(s.(threads := s.threads[s.current := s.threads[s.current].(priority := priority)]))
  {
    forall i | 0 <= i < |s.ready|
      ensures s.ready[i] in Rank(s.threads[s.current := s.threads[s.current].(priority := priority)])
    {
      assert s.ready[i] in Rank(s.threads);
    }
  }
}
