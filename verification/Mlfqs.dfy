/** The arithmetic of the multi-level feedback queue in Assignment 4's thread.c and its
    bounds: load_avg, recent_cpu and priority in 16.16 fixed point on 32-bit integers. */
module Mlfqs {
  import opened FixedPoint
  import opened Threads

  // ---------- The formulas ----------

  function NextLoadAvg(loadAvg: int, ready: int): int {
    FpAdd(FpDivMix(FpMultMix(loadAvg, 59), 60), FpDivMix(FpConst(ready), 60))
  }

  function Denominator(loadAvg: int): int {
    FpAddMix(FpMultMix(loadAvg, 2), 1)
  }

  function Decay(loadAvg: int): int
    requires Denominator(loadAvg) != 0
  {
    FpDiv(FpMultMix(loadAvg, 2), Denominator(loadAvg))
  }

  function NextRecentCpu(loadAvg: int, recentCpu: int, nice: int): int
    requires Denominator(loadAvg) != 0
  {
    FpAddMix(FpMult(Decay(loadAvg), recentCpu), nice)
  }

  function RawPriority(recentCpu: int, nice: int): int {
    FpIntPart(FpSubMix(FpSub(FpConst(PRI_MAX), FpDivMix(recentCpu, 4)), Int32(2 * nice)))
  }

  function Clamp(x: int, low: int, high: int): int {
    if x < low then low else if x > high then high else x
  }

  function Priority(recentCpu: int, nice: int): int {
    Clamp(RawPriority(recentCpu, nice), PRI_MIN, PRI_MAX)
  }

  // ---------- Load average ----------

  /** The update with unbounded integers. */
  function IdealLoadAvg(loadAvg: int, ready: int): int {
    loadAvg * 59 / 60 + Fix(ready) / 60
  }

  predicate LoadOk(loadAvg: int, n: nat) {
    0 <= loadAvg <= Fix(n)
  }

  /** With at most n <= 555 threads ready the update stays between 0 and n, and none of
      its 32-bit operations overflows; it is less than 2 units below the exact average. */
  lemma LoadStaysBounded(loadAvg: int, ready: int, n: nat)
    requires n <= 555 && LoadOk(loadAvg, n) && 0 <= ready <= n
    ensures Fits(loadAvg * 59) && Fits(Fix(ready))
    ensures NextLoadAvg(loadAvg, ready) == IdealLoadAvg(loadAvg, ready)
    ensures LoadOk(NextLoadAvg(loadAvg, ready), n)
    ensures -120 < 60 * NextLoadAvg(loadAvg, ready) - (59 * loadAvg + Fix(ready)) <= 0
  {
    assert loadAvg * 59 <= 59 * Fix(555);
    assert Fix(ready) <= Fix(n);
  }

  /** load_avg after the seconds whose ready counts are given. */
  function LoadOver(ready: seq<int>): int {
    if ready == [] then 0 else NextLoadAvg(LoadOver(ready[..|ready| - 1]), ready[|ready| - 1])
  }

  /** Whatever the ready counts, as long as none exceeds n <= 555, load_avg never leaves
      [0, n] and no second's update overflows. */
  lemma {:induction false} EveryLoadFits(ready: seq<int>, n: nat)
    requires n <= 555 && forall i :: 0 <= i < |ready| ==> 0 <= ready[i] <= n
    ensures LoadOk(LoadOver(ready), n)
    ensures forall k :: 0 <= k < |ready| ==> Fits(LoadOver(ready[..k]) * 59) && Fits(Fix(ready[k]))
  {
    if ready != [] {
      var init := ready[..|ready| - 1];
      EveryLoadFits(init, n);
      LoadStaysBounded(LoadOver(init), ready[|ready| - 1], n);
      hide NextLoadAvg, LoadOver;
      forall k | 0 <= k < |ready|
        ensures Fits(LoadOver(ready[..k]) * 59) && Fits(Fix(ready[k]))
      {
        if k < |init| {
          assert ready[..k] == init[..k] && ready[k] == init[k];
        }
      }
    }
  }

  lemma LoadIsMonotone(a: int, b: int, ready: int)
    requires a <= b
    ensures IdealLoadAvg(a, ready) <= IdealLoadAvg(b, ready)
  {}

  /** load_avg after k seconds with ready threads counted in each. */
  function LoadAfter(k: nat, ready: int): int {
    if k == 0 then 0 else NextLoadAvg(LoadAfter(k - 1, ready), ready)
  }

  lemma {:induction false} SteadyLoadRises(k: nat, ready: nat)
    requires ready <= 555
    ensures LoadOk(LoadAfter(k, ready), ready) && LoadAfter(k, ready) <= LoadAfter(k + 1, ready)
  {
    if k == 0 {
      LoadStaysBounded(0, ready, ready);
    } else {
      SteadyLoadRises(k - 1, ready);
      LoadStaysBounded(LoadAfter(k - 1, ready), ready, ready);
      LoadStaysBounded(LoadAfter(k, ready), ready, ready);
      LoadIsMonotone(LoadAfter(k - 1, ready), LoadAfter(k, ready), ready);
    }
  }

  /** Any fixed point lies within 120 units of the true average, never above it. */
  lemma FixedPointIsClose(loadAvg: int, ready: nat)
    requires ready <= 555 && LoadOk(loadAvg, ready)
    requires NextLoadAvg(loadAvg, ready) == loadAvg
    ensures Fix(ready) - 120 < loadAvg <= Fix(ready)
  {
    LoadStaysBounded(loadAvg, ready, ready);
  }

  lemma SettledIsClose(k: nat, ready: nat)
    requires ready <= 555 && LoadAfter(k + 1, ready) == LoadAfter(k, ready) && LoadOk(LoadAfter(k, ready), ready)
    ensures Fix(ready) - 120 < LoadAfter(k, ready) <= Fix(ready)
  {
    assert LoadAfter(k + 1, ready) == NextLoadAvg(LoadAfter(k, ready), ready);
    hide LoadAfter, NextLoadAvg;
    FixedPointIsClose(LoadAfter(k, ready), ready);
  }

  /** With a constant number of ready threads load_avg reaches a fixed point and stays. */
  lemma {:induction false} LoadSettles(from: nat, ready: nat) returns (k: nat)
    requires ready <= 555
    ensures k >= from && LoadAfter(k + 1, ready) == LoadAfter(k, ready)
    ensures Fix(ready) - 120 < LoadAfter(k, ready) <= Fix(ready)
    decreases Fix(ready) - LoadAfter(from, ready)
  {
    SteadyLoadRises(from, ready);
    SteadyLoadRises(from + 1, ready);
    hide NextLoadAvg, LoadAfter;
    if LoadAfter(from + 1, ready) == LoadAfter(from, ready) {
      k := from;
      SettledIsClose(k, ready);
    } else {
      k := LoadSettles(from + 1, ready);
    }
  }

  lemma {:induction false} LoadOverflows(from: nat, ready: nat) returns (k: nat)
    requires 556 <= ready < 0x8000 && LoadAfter(from, ready) >= 0
    ensures !Fits(LoadAfter(k, ready) * 59)
    decreases 0x8000_0000 - LoadAfter(from, ready)
  {
    k := from;
    if Fits(LoadAfter(from, ready) * 59) {
      StepUp(LoadAfter(from, ready), ready);
      hide NextLoadAvg;
      k := LoadOverflows(from + 1, ready);
    }
  }

  lemma StepUp(loadAvg: int, ready: nat)
    requires 556 <= ready < 0x8000 && loadAvg >= 0 && Fits(loadAvg * 59)
    ensures loadAvg < NextLoadAvg(loadAvg, ready)
  {
    assert Fix(ready) >= Fix(556);
    assert IdealLoadAvg(loadAvg, ready) >= loadAvg + 600;
  }

  /** 555 is the exact limit: the multiplication by 59 stays within 32 bits for ever just
      if no more than 555 threads are ready each second. */
  lemma LoadLimit(ready: nat)
    requires ready < 0x8000
    ensures (forall k: nat :: Fits(LoadAfter(k, ready) * 59)) <==> ready <= 555
  {
    if ready <= 555 {
      forall k: nat
        ensures Fits(LoadAfter(k, ready) * 59)
      {
        SteadyLoadRises(k, ready);
        LoadStaysBounded(LoadAfter(k, ready), ready, ready);
      }
    } else {
      var k := LoadOverflows(0, ready);
    }
  }

  /** thread_get_load_avg */
  function ReportedLoad(loadAvg: int): int {
    FpRound(FpMultMix(loadAvg, 100))
  }

  /** It reports 100 * load_avg, rounded to the nearest integer, exactly when that fits 32
      bits with half a unit to spare; above that it reports something else. */
  lemma ReportedLoadIsNearest(loadAvg: int)
    requires 0 <= loadAvg && Fits(loadAvg)
    ensures -0x8000 <= Fix(ReportedLoad(loadAvg)) - 100 * loadAvg <= 0x8000 <==> Fits(100 * loadAvg + 0x8000)
  {
    var a := FpMultMix(loadAvg, 100);
    if !Fits(100 * loadAvg) {
      assert a <= 100 * loadAvg - 0x1_0000_0000;
    }
  }

  // ---------- Recent CPU ----------

  /** The decay factor is 2*load_avg / (2*load_avg + 1) rounded down, at least 0 and below
      1; with load_avg at most n it is at most 2n / (2n + 1). */
  lemma DecayIsBelowOne(loadAvg: int, n: nat)
    requires n <= 555 && LoadOk(loadAvg, n)
    ensures Denominator(loadAvg) == 2 * loadAvg + 0x1_0000
    ensures 0 <= Decay(loadAvg) < 0x1_0000 && Decay(loadAvg) * (2 * n + 1) <= Fix(2 * n)
    ensures Decay(loadAvg) * (2 * loadAvg + 0x1_0000) <= Fix(2 * loadAvg)
    ensures Fix(2 * loadAvg) < (Decay(loadAvg) + 1) * (2 * loadAvg + 0x1_0000)
  {
    var a := 2 * loadAvg;
    assert Denominator(loadAvg) == a + 0x1_0000;
    var k := Fix(a) / (a + 0x1_0000);
    QuotientBelow(a, k);
    assert Decay(loadAvg) == k;
    Scale(a, k, n);
  }

  lemma FloorDiv(x: int, d: int)
    requires x >= 0 && d > 0
    ensures 0 <= x / d && x / d * d <= x < (x / d + 1) * d
  {
    var k := x / d;
    assert x == d * k + x % d;
    assert (k + 1) * d == k * d + d;
  }

  lemma QuotientBelow(a: int, k: int)
    requires a >= 0 && k == Fix(a) / (a + 0x1_0000)
    ensures 0 <= k < 0x1_0000 && k * (a + 0x1_0000) <= Fix(a) < (k + 1) * (a + 0x1_0000)
  {
    var d := a + 0x1_0000;
    FloorDiv(Fix(a), d);
    if k >= 0x1_0000 {
      Mul(d, 0x1_0000, k);
      assert false;
    }
  }

  lemma Scale(a: int, k: int, n: nat)
    requires 0 <= a <= Fix(2 * n) && 0 <= k < 0x1_0000 && k * (a + 0x1_0000) <= Fix(a)
    ensures k * (2 * n + 1) <= Fix(2 * n)
  {
    var c := 0x1_0000 - k;
    assert k * 0x1_0000 <= a * c;
    assert a * c <= Fix(2 * n) * c;
    assert Fix(2 * n) * c == (2 * n * c) * 0x1_0000;
    assert k <= 2 * n * c;
    assert 2 * n * c == Fix(2 * n) - k * (2 * n);
  }

  predicate NiceOk(nice: int) {
    -20 <= nice <= 20
  }

  /** The bounds on recent_cpu, charged ticks after the last update. */
  predicate RecentOk(recentCpu: int, n: nat, charged: nat) {
    -Fix(40 * n + 20) <= recentCpu <= Fix(240 * n + 20 + charged)
  }

  lemma DecayedBounds(k: int, r: int, n: nat)
    requires 0 <= k < 0x1_0000 && k * (2 * n + 1) <= Fix(2 * n)
    requires -Fix(40 * n + 20) <= r <= Fix(240 * n + 120)
    ensures -Fix(40 * n) <= k * r / 0x1_0000 <= Fix(240 * n)
  {
    var m := 2 * n + 1;
    assert k * r <= k * (120 * m * 0x1_0000) by { Mul(k, r, 120 * m * 0x1_0000); }
    assert k * (120 * m * 0x1_0000) == (k * m) * (120 * 0x1_0000);
    assert k * (-20 * m * 0x1_0000) <= k * r by { Mul(k, -20 * m * 0x1_0000, r); }
    assert k * (-20 * m * 0x1_0000) == (k * m) * (-20 * 0x1_0000);
  }

  lemma Mul(k: int, a: int, b: int)
    requires 0 <= k && a <= b
    ensures k * a <= k * b
  {}

  /** A second's update takes any recent_cpu with up to 100 ticks charged to one within
      the bounds for none, for every nice value from -20 to 20. */
  lemma RecentStaysBounded(loadAvg: int, r: int, nice: int, n: nat)
    requires n <= 136 && LoadOk(loadAvg, n) && NiceOk(nice) && RecentOk(r, n, 100)
    ensures Denominator(loadAvg) != 0
    ensures RecentOk(NextRecentCpu(loadAvg, r, nice), n, 0)
    ensures NextRecentCpu(loadAvg, r, nice) == Decay(loadAvg) * r / 0x1_0000 + Fix(nice)
  {
    DecayIsBelowOne(loadAvg, n);
    DecayedBounds(Decay(loadAvg), r, n);
  }

  // ---------- Priority ----------

  /** The documented value 63 - recent_cpu/4 - 2*nice, in units of 1/2^18 and clamped. */
  function ExactPriority(recentCpu: int, nice: int): int {
    Clamp(4 * Fix(PRI_MAX) - recentCpu - 8 * Fix(nice), 4 * Fix(PRI_MIN), 4 * Fix(PRI_MAX))
  }

  lemma RawPriorityFits(recentCpu: int, nice: int)
    requires Fits(recentCpu) && NiceOk(nice)
    ensures RawPriority(recentCpu, nice) == (Fix(PRI_MAX) - TruncDiv(recentCpu, 4) - Fix(2 * nice)) / 0x1_0000
  {}

  /** The computed priority is less than 1 from the documented one. */
  lemma PriorityIsClose(recentCpu: int, nice: int)
    requires Fits(recentCpu) && NiceOk(nice)
    ensures PRI_MIN <= Priority(recentCpu, nice) <= PRI_MAX
    ensures -4 * 0x1_0000 < 4 * Fix(Priority(recentCpu, nice)) - ExactPriority(recentCpu, nice) <= 3
  {
    RawPriorityFits(recentCpu, nice);
    hide RawPriority;
  }

  lemma PriorityFalls(a: int, b: int, nice: int)
    requires Fits(a) && Fits(b) && a <= b && NiceOk(nice)
    ensures Priority(a, nice) >= Priority(b, nice)
  {
    hide RawPriority;
    RawPriorityFits(a, nice);
    RawPriorityFits(b, nice);
    QuarterRises(a, b);
    hide TruncDiv;
  }

  lemma QuarterRises(a: int, b: int)
    requires a <= b
    ensures TruncDiv(a, 4) <= TruncDiv(b, 4)
  {}

  /** The update keeps threads of equal nice in order of recent_cpu, and so in reverse
      order of priority. */
  lemma UpdateKeepsOrder(loadAvg: int, a: int, b: int, nice: int, n: nat)
    requires n <= 136 && LoadOk(loadAvg, n) && NiceOk(nice)
    requires RecentOk(a, n, 100) && RecentOk(b, n, 100) && a <= b
    ensures Denominator(loadAvg) != 0
    ensures NextRecentCpu(loadAvg, a, nice) <= NextRecentCpu(loadAvg, b, nice)
    ensures Priority(NextRecentCpu(loadAvg, a, nice), nice) >= Priority(NextRecentCpu(loadAvg, b, nice), nice)
  {
    RecentStaysBounded(loadAvg, a, nice, n);
    RecentStaysBounded(loadAvg, b, nice, n);
    DecayIsBelowOne(loadAvg, n);
    Mul(Decay(loadAvg), a, b);
    hide NextRecentCpu, Decay, Priority;
    PriorityFalls(NextRecentCpu(loadAvg, a, nice), NextRecentCpu(loadAvg, b, nice), nice);
  }
}
