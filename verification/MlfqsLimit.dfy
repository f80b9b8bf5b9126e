/** 136 ready threads are the exact limit of recent_cpu: with 137, one thread of nice value
    20 that always runs drives its recent_cpu out of 32 bits.

    In the run shown the other 136 threads are blocked on semaphores. Shortly before each
    full second the busy thread unblocks them all; thread_unblock does not preempt, so they count
    as ready at the tick; then each of them runs only to block again, within the tick that
    follows and so without being charged, and the busy thread is left as the only ready
    one. This needs no particular priorities, and a time slice of four ticks ends unused
    while nobody else is ready. */
module MlfqsLimit {
  import opened FixedPoint
  import opened Mlfqs
  import opened MlfqsClock
  import opened Threads

  /** Charging any thread one more tick stays within 32 bits. */
  ghost predicate NextTickFits(s: Clock) {
    forall t :: t in s.shares && t != s.idle ==> Fits(s.shares[t].recentCpu + 0x1_0000)
  }

  /** In second j the same thread of nice value 20 is running, with 136 others on all_list
      and queued of them ready. */
  ghost predicate Busy(s: Clock, j: nat, queued: nat) {
    && s.current in s.shares && s.current != s.idle && s.queued == queued && ThreadCount(s) >= 137
    && s.loadAvg == LoadAfter(j, 137)
    && s.shares[s.current].nice == 20 && s.shares[s.current].recentCpu >= 0 && Fits(s.shares[s.current].recentCpu)
  }

  function Recent(s: Clock): int
    requires s.current in s.shares
  {
    s.shares[s.current].recentCpu
  }

  // ---------- One tick ----------

  lemma TickInSecond(s: Clock, j: nat)
    requires Busy(s, j, 0) && Fits(Recent(s) + 0x1_0000) && (s.ticks + 1) % 100 != 0
    ensures CanTick(s) && Busy(Tick(s), j, 0)
    ensures Recent(Tick(s)) == Recent(s) + 0x1_0000 && Tick(s).ticks == s.ticks + 1
  {
    hide LoadAfter, Priority, Denominator, NextLoadAvg;
    assert Tick(s).shares.Keys == s.shares.Keys;
  }

  /** A second's update of a large recent_cpu does not overflow yet. */
  lemma UpdateFits(loadAvg: int, r: int)
    requires LoadOk(loadAvg, 137) && r >= 0 && Fits(r)
    ensures Denominator(loadAvg) != 0
    ensures NextRecentCpu(loadAvg, r, 20) == Decay(loadAvg) * r / 0x1_0000 + 20 * 0x1_0000
    ensures NextRecentCpu(loadAvg, r, 20) >= 0
  {
    DecayIsBelowOne(loadAvg, 137);
    hide Decay, Denominator;
    Shrinks(Decay(loadAvg), r);
  }

  lemma Shrinks(k: int, r: int)
    requires 0 <= k && k * 275 <= 274 * 0x1_0000 && r >= 0 && Fits(r)
    ensures 0 <= k * r / 0x1_0000 <= 2_140_000_000
  {
    assert 0 <= k * r by { Mul(k, 0, r); }
    assert k <= 65297;
    Mul(r, k, 65297);
    assert k * r <= 65297 * 0x7FFF_FFFF;
  }

  lemma LoadOkAfter(j: nat)
    ensures LoadOk(LoadAfter(j, 137), 137) && LoadAfter(j + 1, 137) == NextLoadAvg(LoadAfter(j, 137), 137)
  {
    SteadyLoadRises(j, 137);
  }

  lemma ChargedCurrent(s: Clock, j: nat)
    requires Busy(s, j, 136) && Fits(Recent(s) + 0x1_0000)
    ensures var c := Charged(s);
            && c.shares.Keys == s.shares.Keys
            && c == s.(ticks := s.ticks + 1, shares := c.shares) && c.current in c.shares
            && c.shares[c.current] == s.shares[s.current].(recentCpu := Recent(s) + 0x1_0000)
  {
    hide LoadAfter;
  }

  lemma UpdatedCurrent(c: Clock, loadAvg: int)
    requires c.current in c.shares && c.current != c.idle && c.queued == 136
    requires loadAvg == NextLoadAvg(c.loadAvg, 137) && Denominator(loadAvg) != 0
    ensures ReadyCount(c) == 137 && c.current in UpdateAll(c).shares && UpdateAll(c).shares.Keys == c.shares.Keys
    ensures UpdateAll(c) == c.(loadAvg := loadAvg, shares := UpdateAll(c).shares)
    ensures UpdateAll(c).shares[c.current] == Refreshed(loadAvg, c.shares[c.current])
  {
    hide NextLoadAvg, Denominator, Refreshed;
  }

  lemma TickAtSecond(s: Clock, j: nat)
    requires Busy(s, j, 136) && Fits(Recent(s) + 0x1_0000) && (s.ticks + 1) % 100 == 0
    ensures CanTick(s) && Busy(Tick(s), j + 1, 136) && Tick(s).current == s.current
    ensures Denominator(LoadAfter(j + 1, 137)) != 0
    ensures Recent(Tick(s)) == NextRecentCpu(LoadAfter(j + 1, 137), Recent(s) + 0x1_0000, 20)
    ensures Tick(s).ticks == s.ticks + 1
  {
    hide LoadAfter, NextRecentCpu, NextLoadAvg, Denominator, Priority, Decay, LoadOk, Charge, Charged, UpdateAll;
    LoadOkAfter(j);
    LoadOkAfter(j + 1);
    UpdateFits(LoadAfter(j + 1, 137), Recent(s) + 0x1_0000);
    ChargedCurrent(s, j);
    UpdatedCurrent(Charged(s), LoadAfter(j + 1, 137));
    NextRecentFits(LoadAfter(j + 1, 137), Recent(s) + 0x1_0000, 20);
  }

  lemma NextRecentFits(loadAvg: int, r: int, nice: int)
    requires Denominator(loadAvg) != 0
    ensures Fits(NextRecentCpu(loadAvg, r, nice))
  {}

  // ---------- One second ----------

  /** The ticks left in the current second. */
  function TicksLeft(s: Clock): nat {
    100 - s.ticks % 100
  }

  /** One event in front of a run. */
  lemma First(s: Clock, e: Event, rest: seq<Event>, u: Clock)
    requires s.current in s.shares && Allowed(s, e, 137) && Reaches(Step(s, e, 137), rest, u, 137)
    ensures Reaches(s, [e] + rest, u, 137)
  {
    assert ([e] + rest)[1..] == rest;
  }

  /** u starts a second after s, with every tick in between charged to the thread. */
  ghost predicate SecondLater(s: Clock, u: Clock, j: nat)
    requires s.current in s.shares
  {
    && Busy(u, j + 1, 0) && u.ticks % 100 == 0 && Denominator(LoadAfter(j + 1, 137)) != 0
    && Fits(Recent(s) + Fix(TicksLeft(s)))
    && Recent(u) == NextRecentCpu(LoadAfter(j + 1, 137), Recent(s) + Fix(TicksLeft(s)), 20)
  }

  lemma Queue(s: Clock, j: nat, was: nat, queued: nat)
    requires Busy(s, j, was) && queued <= 136
    ensures Allowed(s, Dispatch(s.current, queued), 137)
    ensures Busy(Step(s, Dispatch(s.current, queued), 137), j, queued)
    ensures Step(s, Dispatch(s.current, queued), 137) == s.(queued := queued)
  {
    hide LoadAfter;
  }

  /** The last tick of a second, with the others released before it and blocked after it. */
  lemma SecondEnds(s: Clock, j: nat) returns (events: seq<Event>, u: Clock)
    requires Busy(s, j, 0) && Fits(Recent(s) + 0x1_0000) && (s.ticks + 1) % 100 == 0
    ensures Reaches(s, events, u, 137) && Busy(u, j + 1, 0) && u.ticks == s.ticks + 1
    ensures Denominator(LoadAfter(j + 1, 137)) != 0
    ensures Recent(u) == NextRecentCpu(LoadAfter(j + 1, 137), Recent(s) + 0x1_0000, 20)
  {
    hide Tick, CanTick, LoadAfter, Denominator, NextRecentCpu, Reaches, Busy, CanDispatch;
    var c := s.current;
    RunsNow(s, j, 0);
    Queue(s, j, 0, 136);
    var m := Step(s, Dispatch(c, 136), 137);
    RunsNow(m, j, 136);
    TickAtSecond(m, j);
    var t := Step(m, TimerTick, 137);
    RunsNow(t, j + 1, 136);
    Queue(t, j + 1, 136, 0);
    u := Step(t, Dispatch(c, 0), 137);
    ReachesSelf(u);
    First(t, Dispatch(c, 0), [], u);
    First(m, TimerTick, [Dispatch(c, 0)] + [], u);
    First(s, Dispatch(c, 136), [TimerTick] + ([Dispatch(c, 0)] + []), u);
    events := [Dispatch(c, 136)] + ([TimerTick] + ([Dispatch(c, 0)] + []));
  }

  /** Ticks until the second is over, or until the next charge would overflow. */
  lemma {:induction false} Second(s: Clock, j: nat) returns (events: seq<Event>, u: Clock)
    requires Busy(s, j, 0)
    ensures Reaches(s, events, u, 137)
    ensures NextTickFits(u) ==> SecondLater(s, u, j)
    decreases TicksLeft(s)
  {
    hide Tick, CanTick, LoadAfter, Denominator, NextRecentCpu, Reaches, NextTickFits, Busy;
    RunsNow(s, j, 0);
    if !Fits(Recent(s) + 0x1_0000) {
      events, u := [], s;
      ReachesSelf(s);
    } else if (s.ticks + 1) % 100 == 0 {
      events, u := SecondEnds(s, j);
    } else {
      TickInSecond(s, j);
      RunsNow(Tick(s), j, 0);
      var rest;
      rest, u := Second(Tick(s), j);
      events := [TimerTick] + rest;
      First(s, TimerTick, rest, u);
    }
  }

  lemma RunsNow(s: Clock, j: nat, queued: nat)
    requires Busy(s, j, queued)
    ensures s.current in s.shares && 0 <= Recent(s) < 0x8000_0000
    ensures NextTickFits(s) ==> Fits(Recent(s) + 0x1_0000)
  {}

  lemma ReachesSelf(s: Clock)
    ensures Reaches(s, [], s, 137)
  {}

  // ---------- Many seconds ----------

  lemma {:induction false} ReachesJoin(s: Clock, a: seq<Event>, m: Clock, b: seq<Event>, u: Clock, n: nat)
    requires Reaches(s, a, m, n) && Reaches(m, b, u, n)
    ensures Reaches(s, a + b, u, n)
    decreases |a|
  {
    hide Allowed, Step;
    if a == [] {
      assert a + b == b;
    } else {
      ReachesJoin(Step(s, a[0], n), a[1..], m, b, u, n);
      assert (a + b)[1..] == a[1..] + b;
    }
  }

  lemma {:induction false} LoadStaysHigh(k: nat, j: nat)
    requires k <= j
    ensures LoadAfter(k, 137) <= LoadAfter(j, 137)
    decreases j - k
  {
    if k < j {
      SteadyLoadRises(k, 137);
      LoadStaysHigh(k + 1, j);
    }
  }

  /** With the load average settled, a second without overflow raises recent_cpu. */
  lemma SecondRaises(loadAvg: int, r: int)
    requires LoadOk(loadAvg, 137) && loadAvg > Fix(137) - 120
    requires 0 <= r && Fits(r + Fix(100))
    ensures Denominator(loadAvg) != 0 && NextRecentCpu(loadAvg, r + Fix(100), 20) > r
  {
    DecayIsBelowOne(loadAvg, 137);
    UpdateFits(loadAvg, r + Fix(100));
    hide Decay, NextRecentCpu, Denominator;
    DecayIsHigh(loadAvg, Decay(loadAvg));
    LittleLost(Decay(loadAvg), r + Fix(100));
  }

  lemma DecayIsHigh(loadAvg: int, k: int)
    requires loadAvg > Fix(137) - 120 && Fix(2 * loadAvg) < (k + 1) * (2 * loadAvg + 0x1_0000)
    ensures k >= 0x1_0000 - 239
  {
    var a := 2 * loadAvg + 0x1_0000;
    if k + 1 <= 0x1_0000 - 239 {
      Mul(a, k + 1, 0x1_0000 - 239);
    }
  }

  lemma LittleLost(k: int, r: int)
    requires 0x1_0000 - 239 <= k && 0 <= r && Fits(r)
    ensures k * r / 0x1_0000 > r - 120 * 0x1_0000
  {
    Mul(r, 0x1_0000 - 239, k);
    assert k * r >= 0x1_0000 * r - 239 * r;
  }

  /** From a busy state some later charge overflows. */
  lemma {:induction false} Overflows(s: Clock, j: nat, k: nat) returns (events: seq<Event>, u: Clock)
    requires Busy(s, j, 0) && s.ticks % 100 == 0 && LoadAfter(k, 137) > Fix(137) - 120
    ensures Reaches(s, events, u, 137) && !NextTickFits(u)
    decreases if j < k then k - j else 0, 0x8000_0000 - Recent(s)
  {
    hide Reaches, NextTickFits, NextRecentCpu, LoadAfter, Denominator, LoadOk;
    events, u := Second(s, j);
    if NextTickFits(u) {
      if j >= k {
        LoadStaysHigh(k, j + 1);
        LoadOkAfter(j + 1);
        SecondRaises(LoadAfter(j + 1, 137), Recent(s));
      }
      var more, v := Overflows(u, j + 1, k);
      ReachesJoin(s, events, u, more, v, 137);
      events, u := events + more, v;
    }
  }

  /** Creates count threads, each of which runs at once and blocks. */
  lemma {:induction false} CreateMany(s: Clock, from: Tid, count: nat) returns (events: seq<Event>, u: Clock)
    requires s.current in s.shares && s.current != s.idle && s.queued == 0 && s.idle < from
    requires forall t :: t in s.shares ==> t < from
    ensures Reaches(s, events, u, 137)
    ensures u == s.(shares := u.shares) && s.current in u.shares && u.shares[s.current] == s.shares[s.current]
    ensures ThreadCount(u) == ThreadCount(s) + count
    decreases count
  {
    hide Reaches;
    if count == 0 {
      events, u := [], s;
      ReachesSelf(s);
    } else {
      var created := s.(shares := s.shares[from := Share(0, 0, PRI_MIN)], queued := 1);
      var blocked := created.(queued := 0);
      OneThreadMore(s, blocked, from);
      var rest;
      rest, u := CreateMany(blocked, from + 1, count - 1);
      assert Step(created, Dispatch(s.current, 0), 137) == blocked;
      First(created, Dispatch(s.current, 0), rest, u);
      First(s, Create(from, PRI_MIN), [Dispatch(s.current, 0)] + rest, u);
      events := [Create(from, PRI_MIN)] + ([Dispatch(s.current, 0)] + rest);
    }
  }

  lemma OneThreadMore(s: Clock, u: Clock, t: Tid)
    requires t !in s.shares && t != s.idle && u.idle == s.idle && u.shares.Keys == s.shares.Keys + {t}
    ensures ThreadCount(u) == ThreadCount(s) + 1
  {
    assert u.shares.Keys - {u.idle} == (s.shares.Keys - {s.idle}) + {t};
  }

  /** 136 threads are created and the running one is made nice 20. */
  lemma BusyStart(main: Tid, idle: Tid, priority: int) returns (events: seq<Event>, u: Clock)
    requires main != idle
    ensures Reaches(AfterBoot(main, idle, priority), events, u, 137)
    ensures Busy(u, 0, 0) && u.ticks == 0
  {
    hide Reaches, Priority;
    var s := AfterBoot(main, idle, priority);
    var m := Step(s, SetNice(20), 137);
    assert m == s.(shares := m.shares) && m.shares.Keys == {main, idle};
    assert m.shares[main].nice == 20 && m.shares[main].recentCpu == 0;
    assert m.shares.Keys - {idle} == {main};
    var rest;
    rest, u := CreateMany(m, if main < idle then idle + 1 else main + 1, 136);
    First(s, SetNice(20), rest, u);
    events := [SetNice(20)] + rest;
  }

  lemma {:induction false} ReachesMore(s: Clock, events: seq<Event>, u: Clock, n: nat, more: nat)
    requires Reaches(s, events, u, n) && n <= more
    ensures Reaches(s, events, u, more)
    decreases |events|
  {
    if events != [] {
      assert Step(s, events[0], n) == Step(s, events[0], more);
      ReachesMore(Step(s, events[0], n), events[1..], u, n, more);
    }
  }

  lemma RunThatOverflows(main: Tid, idle: Tid, priority: int, n: nat) returns (events: seq<Event>, u: Clock)
    requires main != idle && n >= 137
    ensures Reaches(AfterBoot(main, idle, priority), events, u, n) && !NextTickFits(u)
  {
    hide Reaches, Busy, LoadAfter, NextTickFits, AfterBoot;
    var s := AfterBoot(main, idle, priority);
    var start, m := BusyStart(main, idle, priority);
    var k := LoadSettles(0, 137);
    var more;
    more, u := Overflows(m, 0, k);
    events := start + more;
    ReachesJoin(s, start, m, more, u, 137);
    ReachesMore(s, events, u, 137, n);
  }

  lemma BoundedFits(main: Tid, idle: Tid, priority: int, events: seq<Event>, u: Clock, n: nat)
    requires main != idle && PRI_MIN <= priority <= PRI_MAX && 1 <= n <= 136
    requires Reaches(AfterBoot(main, idle, priority), events, u, n)
    ensures NextTickFits(u)
  {
    hide Reaches, CanTick, AfterBoot;
    EveryRunFits(main, idle, priority, events, u, n);
  }

  /** With at most n threads ready at a time, every run keeps the next charge of every
      thread within 32 bits if and only if n <= 136. */
  lemma RecentLimit(main: Tid, idle: Tid, priority: int, n: nat)
    requires main != idle && PRI_MIN <= priority <= PRI_MAX && n >= 1
    ensures n <= 136 <==>
              forall events, u :: Reaches(AfterBoot(main, idle, priority), events, u, n) ==> NextTickFits(u)
  {
    hide Reaches, NextTickFits, AfterBoot;
    if n <= 136 {
      forall events, u | Reaches(AfterBoot(main, idle, priority), events, u, n)
        ensures NextTickFits(u)
      {
        BoundedFits(main, idle, priority, events, u, n);
      }
    } else {
      var events, u := RunThatOverflows(main, idle, priority, n);
    }
  }
}
