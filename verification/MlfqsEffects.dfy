/** What each event of the multi-level feedback queue does to load_avg and to the threads'
    fields, in unbounded arithmetic and without reference to the code's own helpers. */
module MlfqsEffects {
  import opened FixedPoint
  import opened Mlfqs
  import opened MlfqsClock
  import opened Threads

  /** Apart from thread t, nothing changes in the threads. */
  ghost predicate OthersSame(s: Clock, u: Clock, t: Tid) {
    && u.shares.Keys == s.shares.Keys
    && (forall x :: x in s.shares && x != t ==> u.shares[x] == s.shares[x])
  }

  /** At each full second load_avg becomes 59/60 of itself and 1/60 of the threads that run
      or are ready, the idle thread not counted, rounded down by less than 2 units. */
  lemma SecondAverages(s: Clock, n: nat)
    requires CanTick(s) && (s.ticks + 1) % TIMER_FREQ == 0 && LoadOk(s.loadAvg, n) && n <= 555
    requires s.queued + (if s.current == s.idle then 0 else 1) <= n
    ensures var r := if s.current == s.idle then s.queued else s.queued + 1;
            -120 < 60 * Tick(s).loadAvg - (59 * s.loadAvg + Fix(r)) <= 0
  {
    hide NextLoadAvg, Denominator;
    LoadStaysBounded(s.loadAvg, ReadyCount(s), n);
  }

  lemma ChargedIs(s: Clock, n: nat)
    requires n <= 136 && Bounded(s, n)
    ensures var c := Charged(s);
            && c == s.(ticks := s.ticks + 1, shares := c.shares) && OthersSame(s, c, s.current)
            && (s.current == s.idle ==> c.shares == s.shares)
            && (s.current != s.idle ==>
                  c.shares[s.current] == s.shares[s.current].(recentCpu := s.shares[s.current].recentCpu + 0x1_0000))
  {
    hide LoadOk;
    if s.current != s.idle {
      assert ShareOk(s.shares[s.current], n, s.ticks % TIMER_FREQ);
    }
  }

  /** Within a second a tick charges exactly the running thread, and never idle; every
      fourth tick that thread's priority is recomputed, and load_avg stays. */
  lemma TickCharges(s: Clock, n: nat)
    requires n <= 136 && Bounded(s, n) && (s.ticks + 1) % TIMER_FREQ != 0
    ensures CanTick(s)
    ensures var u := Tick(s);
            && u == s.(ticks := s.ticks + 1, shares := u.shares) && OthersSame(s, u, s.current)
            && (s.current == s.idle ==> u.shares == s.shares)
            && (s.current != s.idle ==>
                  var was, sh := s.shares[s.current], u.shares[s.current];
                  && sh.recentCpu == was.recentCpu + 0x1_0000 && sh.nice == was.nice
                  && (if (s.ticks + 1) % 4 == 0 then NearFormula(sh) else sh.priority == was.priority))
  {
    hide NearFormula, LoadOk, Charge, Charged, SharesOk, Priority;
    TickKeepsBounds(s, n);
    ChargedIs(s, n);
    ChargedKeepsOk(s, n);
    var c := Charged(s);
    if s.current != s.idle {
      CurrentOk(c, n, ChargedBy(s.ticks + 1));
      RepricedNear(c.shares[c.current], n, ChargedBy(s.ticks + 1));
    }
  }

  lemma CurrentOk(s: Clock, n: nat, charged: nat)
    requires SharesOk(s, n, charged) && s.current in s.shares && s.current != s.idle
    ensures ShareOk(s.shares[s.current], n, charged)
  {}

  lemma RepricedNear(sh: Share, n: nat, charged: nat)
    requires n <= 136 && charged <= 100 && ShareOk(sh, n, charged)
    ensures NearFormula(sh.(priority := Priority(sh.recentCpu, sh.nice)))
  {
    hide Priority;
    PriorityIsClose(sh.recentCpu, sh.nice);
  }

  /** The recent_cpu a second's update computes from r, without overflow. */
  function Decayed(loadAvg: int, r: int, nice: int): int
    requires Denominator(loadAvg) != 0
  {
    Decay(loadAvg) * r / 0x1_0000 + Fix(nice)
  }

  lemma RefreshedIs(sh: Share, loadAvg: int, n: nat)
    requires n <= 136 && LoadOk(loadAvg, n) && ShareOk(sh, n, 100)
    ensures Denominator(loadAvg) != 0
    ensures Refreshed(loadAvg, sh).recentCpu == Decayed(loadAvg, sh.recentCpu, sh.nice)
    ensures Refreshed(loadAvg, sh).nice == sh.nice
  {
    RecentStaysBounded(loadAvg, sh.recentCpu, sh.nice, n);
    hide Decay, NextRecentCpu, Denominator, Priority;
  }

  lemma RefreshedAt(c: Clock, loadAvg: int, n: nat, t: Tid)
    requires n <= 136 && LoadOk(loadAvg, n) && SharesOk(c, n, 100) && t in c.shares && t != c.idle
    ensures Denominator(loadAvg) != 0 && t in RefreshedAll(c, loadAvg)
    ensures RefreshedAll(c, loadAvg)[t].nice == c.shares[t].nice
    ensures RefreshedAll(c, loadAvg)[t].recentCpu == Decayed(loadAvg, c.shares[t].recentCpu, c.shares[t].nice)
  {
    hide Refreshed, Decayed, Denominator, LoadOk;
    assert ShareOk(c.shares[t], n, 100);
    RefreshedIs(c.shares[t], loadAvg, n);
  }

  lemma RefreshedElsewhere(c: Clock, loadAvg: int)
    requires Denominator(loadAvg) != 0
    ensures RefreshedAll(c, loadAvg).Keys == c.shares.Keys
    ensures c.idle in c.shares ==> RefreshedAll(c, loadAvg)[c.idle] == c.shares[c.idle]
  {
    hide Refreshed, Denominator;
  }

  /** At each full second every thread but idle, the running one charged first, has its
      recent_cpu decayed by the new load_avg and its nice value added. */
  lemma SecondDecays(s: Clock, n: nat)
    requires n <= 136 && Bounded(s, n) && (s.ticks + 1) % TIMER_FREQ == 0
    ensures CanTick(s) && Denominator(Tick(s).loadAvg) != 0 && Tick(s).shares.Keys == s.shares.Keys
    ensures s.idle in s.shares ==> Tick(s).shares[s.idle] == s.shares[s.idle]
    ensures forall t :: t in s.shares && t != s.idle ==>
              var was, sh := s.shares[t], Tick(s).shares[t];
              && sh.nice == was.nice
              && sh.recentCpu ==
                   Decayed(Tick(s).loadAvg, was.recentCpu + if t == s.current then 0x1_0000 else 0, was.nice)
  {
    hide Tick, CanTick, Charged, RefreshedAll, Decayed, Denominator, LoadOk, SharesOk;
    SecondUpdates(s, n);
    ChargedKeepsOk(s, n);
    ChargedIs(s, n);
    var c, loadAvg := Charged(s), Tick(s).loadAvg;
    RefreshedElsewhere(c, loadAvg);
    forall t | t in s.shares && t != s.idle
      ensures Tick(s).shares[t].nice == s.shares[t].nice
      ensures Tick(s).shares[t].recentCpu ==
                Decayed(loadAvg, s.shares[t].recentCpu + if t == s.current then 0x1_0000 else 0, s.shares[t].nice)
    {
      RefreshedAt(c, loadAvg, n, t);
    }
  }

  lemma SecondUpdates(s: Clock, n: nat)
    requires n <= 136 && Bounded(s, n) && (s.ticks + 1) % TIMER_FREQ == 0
    ensures CanTick(s) && LoadOk(Tick(s).loadAvg, n) && Denominator(Tick(s).loadAvg) != 0
    ensures Tick(s).shares == RefreshedAll(Charged(s), Tick(s).loadAvg)
    ensures ChargedBy(s.ticks + 1) == 100
  {
    TickKeepsBounds(s, n);
    DecayIsBelowOne(Tick(s).loadAvg, n);
    ChargedIs(s, n);
    hide NextLoadAvg, Denominator, Charged, Refreshed, SharesOk, LoadOk, Decay;
  }

  /** thread_set_nice stores the nice value and recomputes the caller's priority from it. */
  lemma SetNiceTakesEffect(s: Clock, nice: int, n: nat)
    requires n <= 136 && Bounded(s, n) && NiceOk(nice)
    ensures var u := DoSetNice(s, nice);
            && u == s.(shares := u.shares) && OthersSame(s, u, s.current)
            && u.shares[s.current].nice == nice && u.shares[s.current].recentCpu == s.shares[s.current].recentCpu
            && (s.current != s.idle ==> NearFormula(u.shares[s.current]))
  {
    if s.current != s.idle {
      CurrentOk(s, n, s.ticks % TIMER_FREQ);
      RepricedNear(s.shares[s.current].(nice := nice), n, s.ticks % TIMER_FREQ);
    }
    hide NearFormula, Priority;
  }

  /** A new thread starts with nothing charged, nice 0 and the priority asked for, and is
      ready; an exit removes just the caller; neither touches another thread or load_avg. */
  lemma ThreadsComeAndGo(s: Clock, e: Event, n: nat)
    requires s.current in s.shares && Allowed(s, e, n) && (e.Create? || e.Exit? || e.Dispatch?)
    ensures var u := Step(s, e, n);
            && u.ticks == s.ticks && u.loadAvg == s.loadAvg
            && (forall x :: x in s.shares && (e.Exit? ==> x != s.current) ==>
                  x in u.shares && u.shares[x] == s.shares[x])
            && match e
               case Create(t, priority) =>
                 && u.shares.Keys == s.shares.Keys + {t} && u.shares[t] == Share(0, 0, priority)
                 && ReadyCount(u) == ReadyCount(s) + 1
               case Exit(next, queued) => u.shares.Keys == s.shares.Keys - {s.current} && u.current == next
               case Dispatch(next, queued) => u.shares == s.shares && u.current == next && u.queued == queued
               case _ => true
  {}
}
