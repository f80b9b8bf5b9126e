/** When main's waiting loop of Assignment 5 can end: the exact condition on the number of
    jobs, the workers and the size of the queue. */
module MainsEnd {
  import opened JobHeap
  import opened ProducerConsumer

  /** Some interleaving of the workers leads from s to a state in which main's test succeeds. */
  ghost predicate EndReachable(s: State) {
    exists ss: seq<State>, es: seq<Event> :: Run(ss, es) && ss[0] == s && MainSeesEnd(ss[|ss| - 1])
  }

  /** What the user and the queue's size must provide. */
  ghost predicate CanFinish(s: State) {
    s.jobs == 0 || (s.jobs > 0 && |s.producers| >= 1 && |s.consumerStopped| >= 1 && s.pqSize >= 2)
  }

  lemma RunLength(ss: seq<State>, es: seq<Event>)
    requires Run(ss, es)
    ensures |ss| == |es| + 1
  {
    hide Init, Step;
  }

  lemma RunMore(ss: seq<State>, es: seq<Event>, e: Event, t: State)
    requires Run(ss, es) && Step(ss[|ss| - 1], t, e)
    ensures Run(ss + [t], es + [e])
  {
    var ss', es' := ss + [t], es + [e];
    forall i | 0 <= i < |es'|
      ensures Step(ss'[i], ss'[i + 1], es'[i])
    {
      if i < |es| {
        assert Step(ss[i], ss[i + 1], es[i]);
      }
    }
  }

  // ---------- With the condition, every run can be completed ----------

  /** However the workers have interleaved so far, they can still finish. */
  lemma {:induction false} Finish(ss: seq<State>, es: seq<Event>) returns (ss': seq<State>, es': seq<Event>)
    requires Run(ss, es) && CanFinish(ss[0])
    ensures Run(ss', es') && ss <= ss' && MainSeesEnd(ss'[|ss'| - 1])
    decreases Measure(ss[|ss| - 1])
  {
    hide Step, MainSeesEnd;
    if ss[0].jobs == 0 {
      EmptyRunIsOver(ss, es, |ss| - 1);
      ss', es' := ss, es;
    } else if MainSeesEnd(ss[|ss| - 1]) {
      ss', es' := ss, es;
    } else {
      var e, t := Progress(ss, es, Job(0, 0, 0, 0, 0));
      RunMore(ss, es, e, t);
      ss', es' := Finish(ss + [t], es + [e]);
    }
  }

  lemma EmptyRunIsOver(ss: seq<State>, es: seq<Event>, i: nat)
    requires Run(ss, es) && i < |ss|
    ensures ss[0].jobs == 0 ==> MainSeesEnd(ss[i])
  {
    RunKeepsInv(ss, es, i);
    Conservation(ss, es, i);
  }

  // ---------- With the condition, every fair run ends ----------

  /** Nothing was created, inserted or removed between s and t; at most, producers that had
      nothing in hand have stopped. */
  ghost predicate SameWork(s: State, t: State) {
    && SameShape(s, t)
    && t.queue == s.queue && t.created == s.created && t.removed == s.removed
    && t.jobCreated == s.jobCreated && t.jobCompleted == s.jobCompleted
    && forall p :: 0 <= p < |s.producers| ==>
         t.producers[p] == s.producers[p] || (s.producers[p].Looping? && t.producers[p].Stopped?)
  }

  lemma Loses(m: multiset<Job>, job: Job)
    requires job in m
    ensures m - multiset{job} != m
  {
    assert (m - multiset{job})[job] == m[job] - 1;
  }

  lemma IdleTurn(s: State, t: State, e: Event)
    requires Step(s, t, e) && !Effective(s, t)
    ensures SameWork(s, t)
  {
    match e
    case ProducerTurn(p, newJob) =>
      Grows(s.created, newJob);
      if s.producers[p].Holding? {
        Grows(s.queue, s.producers[p].job);
      }
    case ConsumerTurn(c) =>
      forall job | job in s.queue
        ensures s.queue - multiset{job} != s.queue
      {
        Loses(s.queue, job);
      }
  }

  lemma SameWorkJoins(s: State, m: State, t: State)
    requires SameWork(s, m) && SameWork(m, t)
    ensures SameWork(s, t)
  {}

  ghost predicate AnyEffective(ss: seq<State>, a: nat, b: nat)
    requires a <= b < |ss|
  {
    exists i :: a <= i < b && Effective(ss[i], ss[i + 1])
  }

  lemma {:induction false} IdleStretch(ss: seq<State>, es: seq<Event>, a: nat, b: nat)
    requires Run(ss, es) && a <= b < |ss| && !AnyEffective(ss, a, b)
    ensures SameWork(ss[a], ss[b])
    decreases b - a
  {
    if a < b {
      hide SameWork, Step, Init;
      assert Step(ss[b - 1], ss[b - 1 + 1], es[b - 1]) && !Effective(ss[b - 1], ss[b - 1 + 1]);
      assert !AnyEffective(ss, a, b - 1);
      IdleStretch(ss, es, a, b - 1);
      IdleTurn(ss[b - 1], ss[b], es[b - 1]);
      SameWorkJoins(ss[a], ss[b - 1], ss[b]);
    }
  }

  ghost predicate ProducerHasTurn(es: seq<Event>, a: nat, b: nat, p: nat) {
    exists i :: a <= i < b && i < |es| && es[i].ProducerTurn? && es[i].p == p
  }

  ghost predicate ConsumerHasTurn(es: seq<Event>, a: nat, b: nat, c: nat) {
    exists i :: a <= i < b && i < |es| && es[i].ConsumerTurn? && es[i].c == c
  }

  /** From state a to state b every worker that has not stopped by then had a turn. */
  ghost predicate Round(ss: seq<State>, es: seq<Event>, a: nat, b: nat) {
    && a <= b < |ss|
    && (forall p :: 0 <= p < |ss[b].producers| ==> ss[b].producers[p].Stopped? || ProducerHasTurn(es, a, b, p))
    && (forall c :: 0 <= c < |ss[b].consumerStopped| ==> ss[b].consumerStopped[c] || ConsumerHasTurn(es, a, b, c))
  }

  /** With a job queued, any consumer's turn removes one. */
  lemma ConsumerWorks(s: State, x: State, y: State, c: nat)
    requires SameWork(s, x) && ConsumerStep(x, y, c) && |s.queue| > 0 && s.jobCompleted < s.jobs
    ensures Effective(x, y)
  {
    var job :| Removes(x, y, job);
    Loses(x.queue, job);
  }

  /** With the queue empty, the turn of a producer that holds a job inserts it. */
  lemma HolderWorks(s: State, x: State, y: State, p: nat, newJob: Job)
    requires SameWork(s, x) && ProducerStep(x, y, p, newJob) && s.queue == multiset{} && s.pqSize >= 2
    requires s.producers[p].Holding?
    ensures Effective(x, y)
  {
    Grows(x.queue, s.producers[p].job);
  }

  /** With the queue empty and jobs left to create, the turn of any other producer creates
      one. */
  lemma CreatorWorks(s: State, x: State, y: State, p: nat, newJob: Job)
    requires SameWork(s, x) && ProducerStep(x, y, p, newJob) && s.queue == multiset{} && s.pqSize >= 2
    requires !s.producers[p].Holding? && s.jobCreated < s.jobs
    ensures Effective(x, y)
  {
    Grows(x.created, newJob);
  }

  lemma TurnIsStep(ss: seq<State>, es: seq<Event>, i: nat)
    requires Run(ss, es) && i < |es|
    ensures |ss| == |es| + 1 && Step(ss[i], ss[i + 1], es[i])
  {}

  lemma PrefixIdle(ss: seq<State>, es: seq<Event>, a: nat, i: nat, b: nat)
    requires Run(ss, es) && a <= i <= b < |ss| && !AnyEffective(ss, a, b)
    ensures SameWork(ss[a], ss[i])
  {
    assert !AnyEffective(ss, a, i);
    hide SameWork;
    IdleStretch(ss, es, a, i);
  }

  /** A queued job is removed within any round. */
  lemma RoundRemoves(ss: seq<State>, es: seq<Event>, a: nat, b: nat)
    requires Run(ss, es) && CanFinish(ss[0]) && Round(ss, es, a, b)
    requires |ss[a].queue| > 0 && ss[a].jobCompleted < ss[a].jobs
    ensures AnyEffective(ss, a, b)
  {
    hide Run, Step, Init, InFlight;
    RunKeepsInv(ss, es, a);
    RunKeepsInv(ss, es, b);
    if !AnyEffective(ss, a, b) {
      PrefixIdle(ss, es, a, b, b);
      assert 0 < |ss[b].consumerStopped| && !ss[b].consumerStopped[0];
      assert ConsumerHasTurn(es, a, b, 0);
      var i :| a <= i < b && i < |es| && es[i].ConsumerTurn? && es[i].c == 0;
      PrefixIdle(ss, es, a, i, b);
      TurnIsStep(ss, es, i);
      ConsumerTurnIs(ss[i], ss[i + 1], es[i]);
      ConsumerWorks(ss[a], ss[i], ss[i + 1], 0);
    }
  }

  lemma ConsumerTurnIs(x: State, y: State, e: Event)
    requires Step(x, y, e)
    ensures e.ConsumerTurn? ==> ConsumerStep(x, y, e.c)
    ensures e.ProducerTurn? ==> ProducerStep(x, y, e.p, e.newJob)
  {
    hide ConsumerStep, ProducerStep;
  }

  /** With the queue empty, a producer that holds a job, or may create one, acts within any
      round. */
  lemma RoundProduces(ss: seq<State>, es: seq<Event>, a: nat, b: nat, p: nat)
    requires Run(ss, es) && CanFinish(ss[0]) && Round(ss, es, a, b) && ss[a].pqSize >= 2
    requires p < |ss[a].producers| && ss[a].queue == multiset{}
    requires ss[a].producers[p].Holding? || ss[a].jobCreated < ss[a].jobs
    ensures AnyEffective(ss, a, b)
  {
    hide Run, Step, Init, InFlight, Accounted, ProducerStep;
    RunKeepsInv(ss, es, b);
    if !AnyEffective(ss, a, b) {
      PrefixIdle(ss, es, a, b, b);
      assert p < |ss[b].producers| && !ss[b].producers[p].Stopped?;
      assert ProducerHasTurn(es, a, b, p);
      var i :| a <= i < b && i < |es| && es[i].ProducerTurn? && es[i].p == p;
      PrefixIdle(ss, es, a, i, b);
      TurnIsStep(ss, es, i);
      ConsumerTurnIs(ss[i], ss[i + 1], es[i]);
      if ss[a].producers[p].Holding? {
        HolderWorks(ss[a], ss[i], ss[i + 1], p, es[i].newJob);
      } else {
        CreatorWorks(ss[a], ss[i], ss[i + 1], p, es[i].newJob);
      }
    }
  }

  ghost predicate SomeoneHolds(ps: seq<Producer>) {
    exists p :: 0 <= p < |ps| && ps[p].Holding?
  }

  /** Every round of an unfinished run holds an effective turn. */
  lemma RoundWorks(ss: seq<State>, es: seq<Event>, a: nat, b: nat)
    requires Run(ss, es) && CanFinish(ss[0]) && Round(ss, es, a, b) && !MainSeesEnd(ss[a])
    ensures AnyEffective(ss, a, b)
  {
    assert a <= b < |ss|;
    hide Run, Step, Init, Round, AnyEffective;
    RunKeepsInv(ss, es, a);
    Conservation(ss, es, a);
    var s := ss[a];
    if |s.queue| > 0 {
      EmptyRunIsOver(ss, es, a);
      RoundRemoves(ss, es, a, b);
    } else if SomeoneHolds(s.producers) {
      EmptyRunIsOver(ss, es, a);
      var p: nat :| p < |s.producers| && s.producers[p].Holding?;
      RoundProduces(ss, es, a, b, p);
    } else {
      NothingInFlight(s.producers);
      EmptyRunIsOver(ss, es, a);
      RoundProduces(ss, es, a, b, 0);
    }
  }

  lemma LastOrBefore(ss: seq<State>, a: nat, b: nat)
    requires a < b < |ss|
    ensures AnyEffective(ss, a, b) ==> AnyEffective(ss, a, b - 1) || Effective(ss[b - 1], ss[b])
  {
    hide Effective;
    if AnyEffective(ss, a, b) {
      var i :| a <= i < b && Effective(ss[i], ss[i + 1]);
    }
  }

  lemma TurnMeasure(ss: seq<State>, es: seq<Event>, i: nat)
    requires Run(ss, es) && 0 < i < |ss|
    ensures Measure(ss[i]) == Measure(ss[i - 1]) - if Effective(ss[i - 1], ss[i]) then 1 else 0
  {
    hide Run, Step, Init, Inv, Measure, Effective;
    RunLength(ss, es);
    TurnIsStep(ss, es, i - 1);
    RunKeepsInv(ss, es, i - 1);
    StepKeepsInv(ss[i - 1], ss[i], es[i - 1]);
  }

  lemma {:induction false} MeasureFalls(ss: seq<State>, es: seq<Event>, a: nat, b: nat)
    requires Run(ss, es) && a <= b < |ss|
    ensures Measure(ss[b]) <= Measure(ss[a]) - if AnyEffective(ss, a, b) then 1 else 0
    decreases b - a
  {
    hide Run, Measure, Effective;
    if a < b {
      TurnMeasure(ss, es, b);
      MeasureFalls(ss, es, a, b - 1);
      LastOrBefore(ss, a, b);
    }
  }

  /** cuts divides the run, from its start on, into rounds. */
  ghost predicate Rounds(ss: seq<State>, es: seq<Event>, cuts: seq<nat>) {
    && |cuts| >= 1 && cuts[0] == 0
    && (forall r :: 0 <= r < |cuts| ==> cuts[r] < |ss|)
    && (forall r :: 0 < r < |cuts| ==> Round(ss, es, cuts[r - 1], cuts[r]))
  }

  lemma {:induction false} AfterRounds(ss: seq<State>, es: seq<Event>, cuts: seq<nat>, r: nat)
    requires Run(ss, es) && CanFinish(ss[0]) && Rounds(ss, es, cuts) && r < |cuts|
    ensures MainSeesEnd(ss[cuts[r]]) || Measure(ss[cuts[r]]) <= 3 * ss[0].jobs - r
  {
    if r == 0 {
      NothingInFlight(ss[0].producers);
    } else {
      hide Run, Init, MainSeesEnd, Measure;
      var a, b := cuts[r - 1], cuts[r];
      assert Round(ss, es, a, b);
      AfterRounds(ss, es, cuts, r - 1);
      if MainSeesEnd(ss[a]) {
        EndIsFinal(ss, es, a, b);
      } else {
        RoundWorks(ss, es, a, b);
        MeasureFalls(ss, es, a, b);
      }
    }
  }

  lemma NothingLeft(s: State)
    requires Inv(s) && s.jobs >= 0 && Measure(s) <= 0
    ensures MainSeesEnd(s)
  {
    assert s.created == InFlight(s.producers) + s.queue + s.removed;
    assert |s.created| == |InFlight(s.producers)| + |s.queue| + |s.removed|;
  }

  /** Any run that the condition holds for, cut into 3 * jobs rounds in each of which every
      worker that has not stopped has a turn, is over after the last round, and stays so. */
  lemma FairRunsEnd(ss: seq<State>, es: seq<Event>, cuts: seq<nat>)
    requires Run(ss, es) && CanFinish(ss[0]) && Rounds(ss, es, cuts) && |cuts| == 3 * ss[0].jobs + 1
    ensures MainSeesEnd(ss[cuts[|cuts| - 1]]) && MainSeesEnd(ss[|ss| - 1])
  {
    var last := cuts[|cuts| - 1];
    hide Run, Init, MainSeesEnd, Measure, Inv;
    AfterRounds(ss, es, cuts, |cuts| - 1);
    RunKeepsInv(ss, es, last);
    if !MainSeesEnd(ss[last]) {
      NothingLeft(ss[last]);
    }
    EndIsFinal(ss, es, last, |ss| - 1);
  }

  // ---------- Without it, main waits for ever ----------

  /** What never happens when s0 lacks a producer, a usable slot or a consumer. */
  ghost predicate Idle(s0: State, s: State) {
    && (|s0.producers| == 0 || s0.pqSize == 1 ==> s.jobCreated == 0)
    && (|s0.consumerStopped| == 0 ==> s.jobCompleted == 0)
  }

  lemma StepKeepsIdle(s0: State, s: State, t: State, e: Event)
    requires SameShape(s0, s) && Idle(s0, s) && Step(s, t, e)
    ensures Idle(s0, t)
  {}

  lemma StepOfRun(ss: seq<State>, es: seq<Event>, i: nat)
    requires Run(ss, es) && i < |es|
    ensures |ss| == |es| + 1 && Step(ss[i], ss[i + 1], es[i]) && SameShape(ss[0], ss[i])
  {
    hide Step, Inv, Init;
    RunKeepsInv(ss, es, i);
  }

  lemma {:induction false} NothingHappens(ss: seq<State>, es: seq<Event>, i: nat)
    requires Run(ss, es) && i < |ss|
    ensures Idle(ss[0], ss[i])
  {
    if i > 0 {
      hide Step, SameShape, Idle, Init;
      NothingHappens(ss, es, i - 1);
      StepOfRun(ss, es, i - 1);
      StepKeepsIdle(ss[0], ss[i - 1], ss[i], es[i - 1]);
    }
  }

  lemma EndNeeds(ss: seq<State>, es: seq<Event>)
    requires Run(ss, es) && MainSeesEnd(ss[|ss| - 1])
    ensures CanFinish(ss[0])
  {
    var n := |ss| - 1;
    RunKeepsInv(ss, es, n);
    NothingHappens(ss, es, n);
  }

  /** main's loop can end if and only if there is nothing to do, or there are jobs to do,
      a producer, a consumer, and a queue array with a slot besides the unused one. */
  lemma EndReachableIff(s: State)
    requires Init(s) && s.pqSize >= 1
    ensures EndReachable(s) <==> CanFinish(s)
  {
    hide MainSeesEnd, CanFinish, Step;
    if CanFinish(s) {
      assert Run([s], []);
      var ss, es := Finish([s], []);
      assert ss[0] == s;
    }
    if ss: seq<State>, es: seq<Event> :| Run(ss, es) && ss[0] == s && MainSeesEnd(ss[|ss| - 1]) {
      EndNeeds(ss, es);
    }
  }

  // ---------- When a worker stops ----------

  /** Producer p, with nothing in hand, takes its turn and finds every job counted. */
  ghost predicate FindsAllCreated(s: State, e: Event, p: nat) {
    e.ProducerTurn? && e.p == p && p < |s.producers| && s.producers[p].Looping? && s.jobCreated >= s.jobs
  }

  ghost predicate FindsAllCompleted(s: State, e: Event, c: nat) {
    e.ConsumerTurn? && e.c == c && s.jobCompleted >= s.jobs
  }

  ghost predicate FoundAllCreated(ss: seq<State>, es: seq<Event>, i: nat, p: nat) {
    exists k :: 0 <= k < i && k < |ss| && k < |es| && FindsAllCreated(ss[k], es[k], p)
  }

  ghost predicate FoundAllCompleted(ss: seq<State>, es: seq<Event>, i: nat, c: nat) {
    exists k :: 0 <= k < i && k < |ss| && k < |es| && FindsAllCompleted(ss[k], es[k], c)
  }

  lemma FoundLater(ss: seq<State>, es: seq<Event>, i: nat, w: nat)
    requires 0 < i <= |es| < |ss|
    ensures FoundAllCreated(ss, es, i, w) <==>
              FoundAllCreated(ss, es, i - 1, w) || FindsAllCreated(ss[i - 1], es[i - 1], w)
    ensures FoundAllCompleted(ss, es, i, w) <==>
              FoundAllCompleted(ss, es, i - 1, w) || FindsAllCompleted(ss[i - 1], es[i - 1], w)
  {
    hide FindsAllCreated, FindsAllCompleted;
  }

  lemma ProducerTurnStops(s: State, t: State, e: Event, p: nat)
    requires Step(s, t, e) && p < |s.producers|
    ensures |t.producers| == |s.producers|
    ensures t.producers[p].Stopped? <==> s.producers[p].Stopped? || FindsAllCreated(s, e, p)
    ensures s.producers[p].Stopped? ==> !(e.ProducerTurn? && e.p == p)
  {}

  lemma ConsumerTurnStops(s: State, t: State, e: Event, c: nat)
    requires Step(s, t, e) && c < |s.consumerStopped|
    ensures |t.consumerStopped| == |s.consumerStopped|
    ensures t.consumerStopped[c] <==> s.consumerStopped[c] || FindsAllCompleted(s, e, c)
    ensures s.consumerStopped[c] ==> !(e.ConsumerTurn? && e.c == c)
  {}

  lemma RunStart(ss: seq<State>, es: seq<Event>)
    requires Run(ss, es)
    ensures Init(ss[0]) && |ss| == |es| + 1
  {
    hide Init, Step;
  }

  /** A producer has stopped exactly if one of its turns found job_created at jobs or above. */
  lemma {:induction false} ProducerStopsIff(ss: seq<State>, es: seq<Event>, i: nat, p: nat)
    requires Run(ss, es) && i < |ss| && p < |ss[0].producers|
    ensures |ss[i].producers| == |ss[0].producers|
    ensures ss[i].producers[p].Stopped? <==> FoundAllCreated(ss, es, i, p)
  {
    hide Run, Step, FindsAllCreated;
    RunStart(ss, es);
    if i > 0 {
      hide Init, FoundAllCreated;
      ProducerStopsIff(ss, es, i - 1, p);
      TurnIsStep(ss, es, i - 1);
      ProducerTurnStops(ss[i - 1], ss[i], es[i - 1], p);
      FoundLater(ss, es, i, p);
    }
  }

  /** A consumer has stopped exactly if one of its turns found job_completed at jobs or
      above. */
  lemma {:induction false} ConsumerStopsIff(ss: seq<State>, es: seq<Event>, i: nat, c: nat)
    requires Run(ss, es) && i < |ss| && c < |ss[0].consumerStopped|
    ensures |ss[i].consumerStopped| == |ss[0].consumerStopped|
    ensures ss[i].consumerStopped[c] <==> FoundAllCompleted(ss, es, i, c)
  {
    hide Run, Step, FindsAllCompleted;
    RunStart(ss, es);
    if i > 0 {
      hide Init, FoundAllCompleted;
      ConsumerStopsIff(ss, es, i - 1, c);
      TurnIsStep(ss, es, i - 1);
      ConsumerTurnStops(ss[i - 1], ss[i], es[i - 1], c);
      FoundLater(ss, es, i, c);
    }
  }

  /** A turn that stops its worker touches neither the jobs nor the counters. */
  lemma StoppingTurnIsIdle(s: State, t: State, e: Event)
    requires Step(s, t, e) && TurnStops(t, e)
    ensures SameWork(s, t)
  {
    Grows(s.created, if e.ProducerTurn? then e.newJob else Job(0, 0, 0, 0, 0));
  }

  // ---------- A negative number of jobs ----------

  ghost predicate AllStopped(s: State) {
    && (forall p :: 0 <= p < |s.producers| ==> s.producers[p].Stopped?)
    && (forall c :: 0 <= c < |s.consumerStopped| ==> s.consumerStopped[c])
  }

  /** The worker whose turn it is has stopped. */
  ghost predicate TurnStops(t: State, e: Event) {
    match e
    case ProducerTurn(p, _) => p < |t.producers| && t.producers[p].Stopped?
    case ConsumerTurn(c) => c < |t.consumerStopped| && t.consumerStopped[c]
  }

  lemma HoldingCounts(ps: seq<Producer>, p: nat)
    requires p < |ps|
    ensures ps[p].Holding? ==> |InFlight(ps)| >= 1
  {
    InFlightUpdate(ps, p, Looping);
    assert |InFlight(ps)| + 0 == |InFlight(ps) + Held(Looping)|;
  }

  lemma NobodyHolds(ss: seq<State>, es: seq<Event>, i: nat, p: nat)
    requires Run(ss, es) && i < |ss| && ss[0].jobs < 0 && p < |ss[i].producers|
    ensures !ss[i].producers[p].Holding?
  {
    RunKeepsInv(ss, es, i);
    Conservation(ss, es, i);
    HoldingCounts(ss[i].producers, p);
  }

  /** With a negative number of jobs the first turn of every worker is its last. */
  lemma NegativeJobsStop(ss: seq<State>, es: seq<Event>, i: nat)
    requires Run(ss, es) && i < |es| && ss[0].jobs < 0
    ensures TurnStops(ss[i + 1], es[i])
  {
    RunKeepsInv(ss, es, i);
    assert Step(ss[i], ss[i + 1], es[i]);
    match es[i]
    case ProducerTurn(p, _) => NobodyHolds(ss, es, i, p);
    case ConsumerTurn(_) =>
  }

  /** Some run stops all workers, so that main waits for nobody. */
  lemma NegativeJobsAllStop(s: State) returns (ss: seq<State>, es: seq<Event>)
    requires Init(s) && s.pqSize >= 1 && s.jobs < 0
    ensures Run(ss, es) && ss[0] == s && AllStopped(ss[|ss| - 1])
  {
    ss, es := [s], [];
    var p := 0;
    var t := s;
    while p < |s.producers|
      invariant p <= |s.producers| && Run(ss, es) && ss[0] == s && ss[|ss| - 1] == t
      invariant t == s.(producers := t.producers) && |t.producers| == |s.producers|
      invariant forall q :: 0 <= q < |s.producers| ==> t.producers[q] == if q < p then Stopped else Looping
    {
      var u := t.(producers := t.producers[p := Stopped]);
      assert Step(t, u, ProducerTurn(p, Job(0, 0, 0, 0, 0)));
      RunMore(ss, es, ProducerTurn(p, Job(0, 0, 0, 0, 0)), u);
      ss, es, t, p := ss + [u], es + [ProducerTurn(p, Job(0, 0, 0, 0, 0))], u, p + 1;
    }
    var c := 0;
    var v := t;
    while c < |s.consumerStopped|
      invariant c <= |s.consumerStopped| && Run(ss, es) && ss[0] == s && ss[|ss| - 1] == t
      invariant t == v.(consumerStopped := t.consumerStopped) && |t.consumerStopped| == |s.consumerStopped|
      invariant forall q :: 0 <= q < |s.consumerStopped| ==> t.consumerStopped[q] == (q < c)
    {
      var u := t.(consumerStopped := t.consumerStopped[c := true]);
      assert Step(t, u, ConsumerTurn(c));
      RunMore(ss, es, ConsumerTurn(c), u);
      ss, es, t, c := ss + [u], es + [ConsumerTurn(c)], u, c + 1;
    }
  }
}
