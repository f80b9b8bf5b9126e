/** The multi-level feedback queue over whole runs: timer interrupts charge the running
    thread, recompute load_avg, recent_cpu and priority once a second, and refresh the
    running thread's priority every fourth tick. */
module MlfqsClock {
  import opened FixedPoint
  import opened Mlfqs
  import opened Threads

  const TIMER_FREQ := 100

  datatype Share = Share(recentCpu: int, nice: int, priority: int)

  /** shares covers all_list; queued is the length of ready_list. */
  datatype Clock = Clock(ticks: nat, loadAvg: int, shares: map<Tid, Share>,
                         current: Tid, queued: nat, idle: Tid)

  // ---------- The timer interrupt ----------

  function ReadyCount(s: Clock): int {
    s.queued + if s.current != s.idle then 1 else 0
  }

  /** mlfqs_inc_recent_cpu */
  function Charge(s: Clock): Clock
    requires s.current in s.shares
  {
    var sh := s.shares[s.current];
    if s.current == s.idle then s
    else s.(shares := s.shares[s.current := sh.(recentCpu := FpAddMix(sh.recentCpu, 1))])
  }

  /** mlfqs_update_priority */
  function UpdatePriority(s: Clock, t: Tid): Clock
    requires t in s.shares
  {
    var sh := s.shares[t];
    if t == s.idle then s
    else s.(shares := s.shares[t := sh.(priority := Priority(sh.recentCpu, sh.nice))])
  }

  function Refreshed(loadAvg: int, sh: Share): Share
    requires Denominator(loadAvg) != 0
  {
    var recentCpu := NextRecentCpu(loadAvg, sh.recentCpu, sh.nice);
    Share(recentCpu, sh.nice, Priority(recentCpu, sh.nice))
  }

  function RefreshedAll(s: Clock, loadAvg: int): map<Tid, Share>
    requires Denominator(loadAvg) != 0
  {
    map t | t in s.shares :: if t == s.idle then s.shares[t] else Refreshed(loadAvg, s.shares[t])
  }

  /** mlfqs_update_load_avg_and_recent_cpu */
  function UpdateAll(s: Clock): Clock
    requires Denominator(NextLoadAvg(s.loadAvg, ReadyCount(s))) != 0
  {
    var loadAvg := NextLoadAvg(s.loadAvg, ReadyCount(s));
    s.(loadAvg := loadAvg, shares := RefreshedAll(s, loadAvg))
  }

  /** The division in the once-a-second update is defined. */
  ghost predicate CanRefresh(s: Clock) {
    && s.current in s.shares
    && (s.ticks % TIMER_FREQ == 0 ==> Denominator(NextLoadAvg(s.loadAvg, ReadyCount(s))) != 0)
  }

  function Refresh(s: Clock): Clock
    requires CanRefresh(s)
  {
    if s.ticks % TIMER_FREQ == 0 then UpdateAll(s)
    else if s.ticks % 4 == 0 then UpdatePriority(s, s.current)
    else s
  }

  /** timer_interrupt under thread_mlfqs: ticks and the running thread's recent_cpu go
      up, then comes the periodic work. */
  function Charged(s: Clock): Clock
    requires s.current in s.shares
  {
    Charge(s.(ticks := s.ticks + 1))
  }

  ghost predicate CanTick(s: Clock) {
    s.current in s.shares && CanRefresh(Charged(s))
  }

  function Tick(s: Clock): Clock
    requires CanTick(s)
  {
    Refresh(Charged(s))
  }

  // ---------- What else happens between ticks ----------

  datatype Event =
    | TimerTick
    | Dispatch(next: Tid, queued: nat)     // blocking, waking, switching: who runs, how many wait
    | SetNice(nice: int)
    | Create(t: Tid, priority: int)
    | Exit(next: Tid, queued: nat)

  /** How many threads there are, idle aside. */
  function ThreadCount(s: Clock): nat {
    |s.shares.Keys - {s.idle}|
  }

  /** next runs and queued threads wait; they all exist, and no more than n are ready. */
  ghost predicate CanDispatch(s: Clock, next: Tid, queued: nat, n: nat) {
    var u := s.(current := next, queued := queued);
    next in s.shares && ReadyCount(u) <= ThreadCount(u) && ReadyCount(u) <= n
  }

  /** n bounds the threads counted as ready. */
  ghost predicate Allowed(s: Clock, e: Event, n: nat) {
    match e
    case TimerTick => CanTick(s)
    case Dispatch(next, queued) => CanDispatch(s, next, queued, n)
    case SetNice(nice) => NiceOk(nice)
    case Create(t, priority) => t !in s.shares && PRI_MIN <= priority <= PRI_MAX && ReadyCount(s) + 1 <= n
    case Exit(next, queued) => s.current != s.idle && CanDispatch(s.(shares := s.shares - {s.current}), next, queued, n)
  }

  function DoSetNice(s: Clock, nice: int): Clock
    requires s.current in s.shares
  {
    UpdatePriority(s.(shares := s.shares[s.current := s.shares[s.current].(nice := nice)]), s.current)
  }

  function Step(s: Clock, e: Event, n: nat): Clock
    requires s.current in s.shares && Allowed(s, e, n)
  {
    match e
    case TimerTick => Tick(s)
    case Dispatch(next, queued) => s.(current := next, queued := queued)
    case SetNice(nice) => DoSetNice(s, nice)
    case Create(t, priority) => s.(shares := s.shares[t := Share(0, 0, priority)], queued := s.queued + 1)
    case Exit(next, queued) => s.(shares := s.shares - {s.current}, current := next, queued := queued)
  }

  // ---------- The bounds over every run ----------

  ghost predicate ShareOk(sh: Share, n: nat, charged: nat) {
    NiceOk(sh.nice) && RecentOk(sh.recentCpu, n, charged) && PRI_MIN <= sh.priority <= PRI_MAX
  }

  ghost predicate SharesOk(s: Clock, n: nat, charged: nat) {
    forall t :: t in s.shares && t != s.idle ==> ShareOk(s.shares[t], n, charged)
  }

  /** load_avg is at most n, and recent_cpu within its bounds with one more tick charged
      for each tick since the last update. */
  ghost predicate Bounded(s: Clock, n: nat) {
    && s.current in s.shares && ReadyCount(s) <= n
    && LoadOk(s.loadAvg, n) && SharesOk(s, n, s.ticks % TIMER_FREQ)
  }

  lemma ChargeKeepsOk(s: Clock, n: nat, charged: nat)
    requires n <= 136 && s.current in s.shares && charged < 100 && SharesOk(s, n, charged)
    ensures SharesOk(Charge(s), n, charged + 1)
    ensures s.current != s.idle ==>
              Charge(s).shares[s.current].recentCpu == s.shares[s.current].recentCpu + 0x1_0000
  {
    if s.current != s.idle {
      assert ShareOk(s.shares[s.current], n, charged);
    }
  }

  lemma PriorityKeepsOk(s: Clock, t: Tid, n: nat, charged: nat)
    requires n <= 136 && charged <= 100 && SharesOk(s, n, charged) && t in s.shares
    ensures SharesOk(UpdatePriority(s, t), n, charged)
  {
    if t != s.idle {
      assert ShareOk(s.shares[t], n, charged);
      PriorityIsClose(s.shares[t].recentCpu, s.shares[t].nice);
      hide Priority;
    }
  }

  lemma RefreshedOk(sh: Share, loadAvg: int, n: nat)
    requires n <= 136 && LoadOk(loadAvg, n) && ShareOk(sh, n, 100)
    ensures Denominator(loadAvg) != 0 && ShareOk(Refreshed(loadAvg, sh), n, 0)
  {
    RecentStaysBounded(loadAvg, sh.recentCpu, sh.nice, n);
    hide NextRecentCpu, Priority;
    PriorityIsClose(NextRecentCpu(loadAvg, sh.recentCpu, sh.nice), sh.nice);
  }

  lemma UpdateAllOk(s: Clock, n: nat)
    requires n <= 136 && LoadOk(s.loadAvg, n) && 0 <= ReadyCount(s) <= n && SharesOk(s, n, 100)
    ensures Denominator(NextLoadAvg(s.loadAvg, ReadyCount(s))) != 0
    ensures LoadOk(UpdateAll(s).loadAvg, n) && SharesOk(UpdateAll(s), n, 0)
  {
    LoadStaysBounded(s.loadAvg, ReadyCount(s), n);
    var loadAvg := NextLoadAvg(s.loadAvg, ReadyCount(s));
    DecayIsBelowOne(loadAvg, n);
    forall t | t in s.shares && t != s.idle
      ensures ShareOk(Refreshed(loadAvg, s.shares[t]), n, 0)
    {
      RefreshedOk(s.shares[t], loadAvg, n);
    }
  }

  /** The ticks charged since the last update, counting the one at tick now. */
  function ChargedBy(now: nat): nat {
    if now % TIMER_FREQ == 0 then TIMER_FREQ else now % TIMER_FREQ
  }

  lemma ChargedKeepsOk(s: Clock, n: nat)
    requires n <= 136 && Bounded(s, n)
    ensures SharesOk(Charged(s), n, ChargedBy(s.ticks + 1))
  {
    ChargeKeepsOk(s.(ticks := s.ticks + 1), n, s.ticks % TIMER_FREQ);
  }

  lemma RefreshKeepsBounds(s: Clock, n: nat)
    requires n <= 136 && s.current in s.shares && ReadyCount(s) <= n && LoadOk(s.loadAvg, n)
    requires SharesOk(s, n, ChargedBy(s.ticks))
    ensures CanRefresh(s) && Bounded(Refresh(s), n)
  {
    if s.ticks % TIMER_FREQ == 0 {
      UpdateAllOk(s, n);
    } else if s.ticks % 4 == 0 {
      PriorityKeepsOk(s, s.current, n, s.ticks % TIMER_FREQ);
    }
    hide NextLoadAvg, Denominator, Priority, Refreshed, SharesOk, LoadOk;
  }

  /** A timer interrupt in a bounded state divides by no zero and keeps the bounds. */
  lemma TickKeepsBounds(s: Clock, n: nat)
    requires n <= 136 && Bounded(s, n)
    ensures CanTick(s) && Bounded(Tick(s), n)
  {
    ChargedKeepsOk(s, n);
    hide SharesOk, FpAddMix, LoadOk, CanRefresh, Refresh;
    RefreshKeepsBounds(Charged(s), n);
  }

  lemma StepKeepsBounds(s: Clock, e: Event, n: nat)
    requires n <= 136 && Bounded(s, n) && Allowed(s, e, n)
    ensures Bounded(Step(s, e, n), n)
  {
    match e
    case TimerTick => TickKeepsBounds(s, n);
    case SetNice(nice) =>
      var c := s.(shares := s.shares[s.current := s.shares[s.current].(nice := nice)]);
      PriorityKeepsOk(c, s.current, n, s.ticks % TIMER_FREQ);
    case _ =>
  }

  ghost predicate Reaches(s: Clock, events: seq<Event>, u: Clock, n: nat)
    decreases |events|
  {
    if events == [] then u == s
    else s.current in s.shares && Allowed(s, events[0], n) && Reaches(Step(s, events[0], n), events[1..], u, n)
  }

  lemma {:induction false} RunKeepsBounds(s: Clock, events: seq<Event>, u: Clock, n: nat)
    requires n <= 136 && Bounded(s, n) && Reaches(s, events, u, n)
    ensures Bounded(u, n)
    decreases |events|
  {
    if events != [] {
      StepKeepsBounds(s, events[0], n);
      RunKeepsBounds(Step(s, events[0], n), events[1..], u, n);
    }
  }

  /** After thread_start: main runs, idle has been created, nothing has been charged. */
  function AfterBoot(main: Tid, idle: Tid, priority: int): Clock {
    Clock(0, 0, map[main := Share(0, 0, priority), idle := Share(0, 0, PRI_MIN)], main, 0, idle)
  }

  /** With at most n <= 136 threads ready at a time and nice values from -20 to 20, every
      run keeps load_avg in [0, n] and recent_cpu in 32 bits, for any number of threads,
      and the next interrupt divides by no zero. */
  lemma EveryRunFits(main: Tid, idle: Tid, priority: int, events: seq<Event>, u: Clock, n: nat)
    requires main != idle && PRI_MIN <= priority <= PRI_MAX && 1 <= n <= 136
    requires Reaches(AfterBoot(main, idle, priority), events, u, n)
    ensures LoadOk(u.loadAvg, n) && CanTick(u)
    ensures forall t :: t in u.shares && t != u.idle ==>
              RecentOk(u.shares[t].recentCpu, n, u.ticks % TIMER_FREQ) && Fits(u.shares[t].recentCpu)
  {
    RunKeepsBounds(AfterBoot(main, idle, priority), events, u, n);
    TickKeepsBounds(u, n);
    hide CanTick, Tick, Reaches;
  }

  // ---------- What a second's update does to priorities ----------

  /** The priority is the one computed from the stored values, and less than 1 from the
      documented formula on them. */
  ghost predicate NearFormula(sh: Share) {
    && sh.priority == Priority(sh.recentCpu, sh.nice)
    && -4 * 0x1_0000 < 4 * Fix(sh.priority) - ExactPriority(sh.recentCpu, sh.nice) <= 3
  }

  ghost predicate SameNiceNoMoreCpu(a: Share, b: Share) {
    a.nice == b.nice && a.recentCpu <= b.recentCpu
  }

  lemma RefreshedNear(sh: Share, loadAvg: int, n: nat)
    requires n <= 136 && LoadOk(loadAvg, n) && ShareOk(sh, n, 100)
    ensures Denominator(loadAvg) != 0 && NearFormula(Refreshed(loadAvg, sh))
  {
    RecentStaysBounded(loadAvg, sh.recentCpu, sh.nice, n);
    hide NextRecentCpu, Priority;
    PriorityIsClose(NextRecentCpu(loadAvg, sh.recentCpu, sh.nice), sh.nice);
  }

  lemma RefreshedOrder(a: Share, b: Share, loadAvg: int, n: nat)
    requires n <= 136 && LoadOk(loadAvg, n) && ShareOk(a, n, 100) && ShareOk(b, n, 100)
    requires SameNiceNoMoreCpu(a, b)
    ensures Denominator(loadAvg) != 0
    ensures Refreshed(loadAvg, a).priority >= Refreshed(loadAvg, b).priority
  {
    UpdateKeepsOrder(loadAvg, a.recentCpu, b.recentCpu, a.nice, n);
  }

  /** The tick that completes a second recomputes every thread's share. */
  lemma SecondTickRefreshes(s: Clock, n: nat) returns (loadAvg: int)
    requires n <= 136 && Bounded(s, n) && (s.ticks + 1) % TIMER_FREQ == 0
    ensures LoadOk(loadAvg, n) && Denominator(loadAvg) != 0 && CanTick(s)
    ensures SharesOk(Charged(s), n, 100)
    ensures Tick(s).shares == RefreshedAll(Charged(s), loadAvg)
  {
    ChargedKeepsOk(s, n);
    var c := Charged(s);
    assert c.current in c.shares && c.ticks == s.ticks + 1;
    hide SharesOk, FpAddMix, LoadOk, NextLoadAvg, Denominator, RefreshedAll;
    UpdateAllOk(c, n);
    loadAvg := NextLoadAvg(c.loadAvg, ReadyCount(c));
    hide Refreshed, UpdatePriority, Charge;
  }

  /** At each full second every thread other than idle gets the priority that its new
      recent_cpu and its nice call for, and threads of equal nice keep their order. */
  lemma SecondTick(s: Clock, n: nat)
    requires n <= 136 && Bounded(s, n) && (s.ticks + 1) % TIMER_FREQ == 0
    ensures CanTick(s)
    ensures forall t :: t in s.shares && t != s.idle ==> t in Tick(s).shares && NearFormula(Tick(s).shares[t])
    ensures forall a, b | a in s.shares && b in s.shares && a != s.idle && b != s.idle ::
              SameNiceNoMoreCpu(Charged(s).shares[a], Charged(s).shares[b]) ==>
              a in Tick(s).shares && b in Tick(s).shares && Tick(s).shares[a].priority >= Tick(s).shares[b].priority
  {
    var loadAvg := SecondTickRefreshes(s, n);
    var c := Charged(s);
    assert c.shares.Keys == s.shares.Keys && c.idle == s.idle;
    hide Bounded, CanTick, Tick, Charge, Charged, Denominator, Refreshed, NearFormula, LoadOk, SameNiceNoMoreCpu,
      ShareOk;
    forall t | t in c.shares && t != s.idle
      ensures NearFormula(RefreshedAll(c, loadAvg)[t])
    {
      RefreshedNear(c.shares[t], loadAvg, n);
    }
    forall a, b | a in c.shares && b in c.shares && a != s.idle && b != s.idle
                  && SameNiceNoMoreCpu(c.shares[a], c.shares[b])
      ensures RefreshedAll(c, loadAvg)[a].priority >= RefreshedAll(c, loadAvg)[b].priority
    {
      RefreshedOrder(c.shares[a], c.shares[b], loadAvg, n);
    }
  }
}
