/** timer_sleep and timer_interrupt of Assignment 3's timer.c on the variables they update.
    The interrupt's loop with its early break has the effect of a full scan. */
module TimerDevice {
  import opened OrderedList
  import opened SleepQueue
  import opened Threads

  class Device {
    var ticks: int
    var sleepingThreads: seq<Tid>
    var sleepTime: map<Tid, int>
    ghost var pending: map<Tid, Request>
    ghost var issued: multiset<Request>
    ghost var count: nat
    ghost var woken: seq<Wake>

    ghost function View(): Timer
      reads this
    {
      Timer(ticks, sleepingThreads, sleepTime, pending, issued, count, woken)
    }

    constructor ()
      ensures View() == START
    {
      ticks, sleepingThreads, sleepTime := 0, [], map[];
      pending, issued, count, woken := map[], multiset{}, 0, [];
    }

    /** The part of timer_sleep that runs with interrupts off; start is what timer_ticks
        returned before, so interrupts may have come in between. */
    method TimerSleep(t: Tid, wait: int, start: int)
      requires Known(View()) && CanSleep(View(), t, wait, start)
      modifies this
      ensures View() == Sleep(old(View()), t, wait, start)
    {
      hide InsertOrdered, Known, CanSleep;
      if wait <= 0 {
        return;
      }
      ghost var r := Request(t, start, wait, ticks, count);
      KnownKeyed(View(), t, Uint64(start + wait));
      sleepTime := sleepTime[t := Uint64(start + wait)];
      sleepingThreads := InsertOrdered(sleepingThreads, t, sleepTime);
      pending, issued, count := pending[t := r], issued + multiset{r}, count + 1;
    }

    /** Clears the front thread's sleep_time, unblocks it and takes it off the list. */
    method WakeFront()
      requires sleepingThreads != [] && sleepingThreads[0] in pending
      modifies this
      ensures View() == FrontWoken(old(View()))
    {
      var cur := sleepingThreads[0];
      sleepTime := sleepTime[cur := 0];
      woken := woken + [Wake(pending[cur], ticks)];
      sleepingThreads := sleepingThreads[1..];
    }

    method TimerInterrupt()
      requires Inv(View())
      modifies this
      ensures View() == Interrupt(old(View()))
    {
      ghost var s := View();
      ghost var k := FindSplit(s);
      NoneWokenYet(s);
      hide Inv, Known, SplitsAt, NoneOverdue, Before, WokenSoFar, Interrupt, FrontWoken;
      ticks := ticks + 1;
      ghost var j: nat := 0;
      while sleepingThreads != []
        invariant j <= k && WokenSoFar(s, View(), j)
        decreases k - j
      {
        FrontOfList(s, View(), j, k);
        if sleepTime[sleepingThreads[0]] > ticks {
          break;
        }
        WakeOne(s, View(), j);
        WakeFront();
        j := j + 1;
      }
      AllDueWoken(s, View(), j, k);
    }
  }

  lemma KnownKeyed(s: Timer, t: Tid, deadline: int)
    requires Known(s)
    ensures Keyed(s.sleeping, s.sleepTime[t := deadline])
  {}

  lemma AllDueWoken(s: Timer, u: Timer, j: nat, k: nat)
    requires Known(s) && WokenSoFar(s, u, j) && j <= k && SplitsAt(s, k)
    requires u.sleeping == [] || j == k
    ensures u == Interrupt(s)
  {
    InterruptIs(s, k);
  }
}
