/** The variables of the multi-level feedback queue and the functions that update them in
    place, each proved to have exactly the effect MlfqsClock describes. */
module MlfqsState {
  import opened FixedPoint
  import opened Mlfqs
  import opened MlfqsClock
  import opened Threads

  ghost predicate Lists(all: seq<Tid>, shares: map<Tid, Share>) {
    && (forall t :: t in all <==> t in shares)
    && (forall i, j :: 0 <= i < j < |all| ==> all[i] != all[j])
  }

  class Machine {
    var ticks: nat
    var loadAvg: int
    var allList: seq<Tid>
    var shares: map<Tid, Share>
    var readyList: seq<Tid>
    var current: Tid
    const idleThread: Tid

    ghost function View(): Clock
      reads this
    {
      Clock(ticks, loadAvg, shares, current, |readyList|, idleThread)
    }

    /** all_list holds each thread once, in no particular order. */
    ghost predicate Valid()
      reads this
    {
      current in shares && Lists(allList, shares)
    }

    constructor (main: Tid, idle: Tid, priority: int)
      requires main != idle
      ensures Valid() && View() == AfterBoot(main, idle, priority)
    {
      ticks, loadAvg := 0, 0;
      allList, readyList := [main, idle], [];
      shares := map[main := Share(0, 0, priority), idle := Share(0, 0, PRI_MIN)];
      current, idleThread := main, idle;
    }

    method MlfqsIncRecentCpu()
      requires Valid()
      modifies this
      ensures Valid() && View() == Charge(old(View()))
    {
      if current == idleThread {
        return;
      }
      shares := shares[current := shares[current].(recentCpu := FpAddMix(shares[current].recentCpu, 1))];
    }

    method MlfqsUpdatePriority(t: Tid)
      requires t in shares
      modifies this`shares
      ensures View() == UpdatePriority(old(View()), t)
    {
      if t == idleThread {
        return;
      }
      var priority := RawPriority(shares[t].recentCpu, shares[t].nice);
      if priority < PRI_MIN {
        priority := PRI_MIN;
      } else if priority > PRI_MAX {
        priority := PRI_MAX;
      }
      shares := shares[t := shares[t].(priority := priority)];
    }

    /** The body of the once-a-second loop over all_list. */
    method RefreshThread(t: Tid)
      requires t in shares && Denominator(loadAvg) != 0
      modifies this`shares
      ensures shares == if t == idleThread then old(shares)
                        else old(shares)[t := Refreshed(loadAvg, old(shares)[t])]
    {
      if t != idleThread {
        var recentCpu := NextRecentCpu(loadAvg, shares[t].recentCpu, shares[t].nice);
        shares := shares[t := shares[t].(recentCpu := recentCpu)];
        MlfqsUpdatePriority(t);
        hide NextRecentCpu, Denominator, Priority;
      }
    }

    method RefreshThreads()
      requires Lists(allList, shares) && Denominator(loadAvg) != 0
      modifies this`shares
      ensures shares == RefreshedAll(old(View()), loadAvg)
    {
      ghost var s := View();
      RefreshNone(s, loadAvg);
      hide Denominator, RefreshedPart, RefreshedAll, Refreshed;
      var e := 0;
      while e < |allList|
        invariant e <= |allList| && shares == RefreshedPart(s, allList[..e], loadAvg)
      {
        RefreshNext(s, allList, e, loadAvg);
        RefreshThread(allList[e]);
        e := e + 1;
      }
      assert allList[..e] == allList;
      RefreshDone(s, allList, loadAvg);
    }

    method MlfqsUpdateLoadAvgAndRecentCpu()
      requires Valid() && Denominator(NextLoadAvg(loadAvg, ReadyCount(View()))) != 0
      modifies this
      ensures Valid() && View() == UpdateAll(old(View()))
    {
      var readyCnt := |readyList|;
      if current != idleThread {
        readyCnt := readyCnt + 1;
      }
      hide NextLoadAvg, Denominator, Refreshed;
      loadAvg := NextLoadAvg(loadAvg, readyCnt);
      RefreshThreads();
    }

    method TimerInterrupt()
      requires Valid() && CanTick(View())
      modifies this
      ensures Valid() && View() == Tick(old(View()))
    {
      hide NextLoadAvg, Denominator, Refreshed, FpAddMix, Priority, Charge, UpdateAll;
      ticks := ticks + 1;
      MlfqsIncRecentCpu();
      MlfqsRefresh();
    }

    /** What timer_interrupt does last: work for every second or every fourth tick. */
    method MlfqsRefresh()
      requires Valid() && CanRefresh(View())
      modifies this
      ensures Valid() && View() == Refresh(old(View()))
    {
      hide NextLoadAvg, Denominator, Refreshed, UpdateAll, Priority;
      if ticks % TIMER_FREQ == 0 {
        MlfqsUpdateLoadAvgAndRecentCpu();
      } else if ticks % 4 == 0 {
        MlfqsUpdatePriority(current);
      }
    }

    /** thread_set_nice up to its call of thread_yield. */
    method ThreadSetNice(nice: int)
      requires Valid()
      modifies this
      ensures Valid() && View() == DoSetNice(old(View()), nice)
    {
      shares := shares[current := shares[current].(nice := nice)];
      MlfqsUpdatePriority(current);
    }
  }

  /** The loop over all_list after the threads in done have been updated. */
  ghost function RefreshedPart(s: Clock, done: seq<Tid>, loadAvg: int): map<Tid, Share>
    requires Denominator(loadAvg) != 0
  {
    map t | t in s.shares :: if t == s.idle || t !in done then s.shares[t] else Refreshed(loadAvg, s.shares[t])
  }

  lemma RefreshNone(s: Clock, loadAvg: int)
    requires Denominator(loadAvg) != 0
    ensures RefreshedPart(s, [], loadAvg) == s.shares
  {
    hide Refreshed, Denominator;
  }

  lemma RefreshDone(s: Clock, all: seq<Tid>, loadAvg: int)
    requires Denominator(loadAvg) != 0 && Lists(all, s.shares)
    ensures RefreshedPart(s, all, loadAvg) == RefreshedAll(s, loadAvg)
  {
    hide Refreshed, Denominator;
  }

  lemma RefreshNext(s: Clock, all: seq<Tid>, e: nat, loadAvg: int)
    requires Denominator(loadAvg) != 0 && e < |all| && Lists(all, s.shares)
    ensures all[e] in RefreshedPart(s, all[..e], loadAvg)
    ensures RefreshedPart(s, all[..e], loadAvg)[all[e]] == s.shares[all[e]]
    ensures RefreshedPart(s, all[..e + 1], loadAvg) ==
              if all[e] == s.idle then RefreshedPart(s, all[..e], loadAvg)
              else RefreshedPart(s, all[..e], loadAvg)[all[e] := Refreshed(loadAvg, s.shares[all[e]])]
  {
    assert all[e] in all;
    assert all[..e + 1] == all[..e] + [all[e]];
    hide Refreshed, Denominator;
  }
}
