/** The producer/consumer protocol of Assignment 5. A step is one region executed while
    holding the mutex; runs are arbitrary interleavings of such regions. */
module ProducerConsumer {
  import opened JobHeap

  /** Where a producer is between two lock-held regions. */
  datatype Producer =
    | Looping            // about to test job_created
    | Holding(job: Job)  // has counted a job as created and not yet inserted it
    | Stopped

  datatype Event =
    | ProducerTurn(p: nat, newJob: Job)  // newJob is what create_job would return
    | ConsumerTurn(c: nat)

  /** The shared counters and queue, each worker's local position, and the history of
      created and removed jobs. */
  datatype State = State(
    jobs: int, pqSize: int,
    producers: seq<Producer>, consumerStopped: seq<bool>,
    jobCreated: int, jobCompleted: int, queue: multiset<Job>,
    created: multiset<Job>, removed: multiset<Job>)

  ghost predicate Init(s: State) {
    && s.jobCreated == s.jobCompleted == 0 && s.queue == multiset{}
    && s.created == s.removed == multiset{}
    && (forall p :: 0 <= p < |s.producers| ==> s.producers[p] == Looping)
    && (forall c :: 0 <= c < |s.consumerStopped| ==> !s.consumerStopped[c])
  }

  ghost predicate HasRoom(s: State) {
    |s.queue| < s.pqSize - 1
  }

  /** One lock-held region of producer p. */
  ghost predicate ProducerStep(s: State, t: State, p: nat, newJob: Job) {
    && p < |s.producers|
    && match s.producers[p]
       case Stopped => false
       case Looping =>
         if s.jobCreated >= s.jobs then
           t == s.(producers := s.producers[p := Stopped])
         else if HasRoom(s) then Creates(s, t, p, newJob)
         else t == s
       case Holding(job) =>
         if HasRoom(s) then Inserts(s, t, p, job)
         else t == s
  }

  ghost predicate Creates(s: State, t: State, p: nat, newJob: Job)
    requires p < |s.producers|
  {
    t == s.(producers := s.producers[p := Holding(newJob)],
            jobCreated := s.jobCreated + 1, created := s.created + multiset{newJob})
  }

  ghost predicate Inserts(s: State, t: State, p: nat, job: Job)
    requires p < |s.producers|
  {
    t == s.(producers := s.producers[p := Looping], queue := s.queue + multiset{job})
  }

  /** One lock-held region of consumer c. */
  ghost predicate ConsumerStep(s: State, t: State, c: nat) {
    && c < |s.consumerStopped| && !s.consumerStopped[c]
    && if s.jobCompleted >= s.jobs then
         t == s.(consumerStopped := s.consumerStopped[c := true])
       else if |s.queue| > 0 then
         exists job :: Removes(s, t, job)
       else t == s
  }

  /** job is a most urgent queued job, and t is s with job removed. */
  ghost predicate Removes(s: State, t: State, job: Job) {
    IsMax(job, s.queue) && t == AfterRemoval(s, job)
  }

  ghost function AfterRemoval(s: State, job: Job): State {
    s.(queue := s.queue - multiset{job}, jobCompleted := s.jobCompleted + 1,
       removed := s.removed + multiset{job})
  }

  lemma RemovalIsStep(s: State, c: nat, job: Job)
    requires c < |s.consumerStopped| && !s.consumerStopped[c]
    requires s.jobCompleted < s.jobs && IsMax(job, s.queue)
    ensures Step(s, AfterRemoval(s, job), ConsumerTurn(c))
  {
    assert Removes(s, AfterRemoval(s, job), job) && |s.queue| > 0;
  }

  ghost predicate Step(s: State, t: State, e: Event) {
    match e
    case ProducerTurn(p, newJob) => ProducerStep(s, t, p, newJob)
    case ConsumerTurn(c) => ConsumerStep(s, t, c)
  }

  /** A run: states joined by steps, from the state main sets up. */
  ghost predicate Run(ss: seq<State>, es: seq<Event>) {
    && |ss| == |es| + 1 && Init(ss[0]) && ss[0].pqSize >= 1
    && forall i :: 0 <= i < |es| ==> Step(ss[i], ss[i + 1], es[i])
  }

  // ---------- Conservation ----------

  ghost function Held(p: Producer): multiset<Job> {
    if p.Holding? then multiset{p.job} else multiset{}
  }

  /** The jobs counted as created that their producers still hold. */
  ghost function InFlight(ps: seq<Producer>): multiset<Job> {
    if ps == [] then multiset{} else Held(ps[0]) + InFlight(ps[1..])
  }

  lemma AddBoth(h: multiset<Job>, a: multiset<Job>, b: multiset<Job>, c: multiset<Job>, d: multiset<Job>)
    requires a + b == c + d
    ensures (h + a) + b == (h + c) + d
  {
    assert (h + a) + b == h + (a + b) && (h + c) + d == h + (c + d);
  }

  lemma {:induction false} InFlightUpdate(ps: seq<Producer>, p: nat, q: Producer)
    requires p < |ps|
    ensures InFlight(ps[p := q]) + Held(ps[p]) == InFlight(ps) + Held(q)
  {
    var rest := InFlight(ps[1..]);
    if p != 0 {
      InFlightUpdate(ps[1..], p - 1, q);
      assert ps[p := q][1..] == ps[1..][p - 1 := q];
      AddBoth(Held(ps[0]), InFlight(ps[1..][p - 1 := q]), Held(ps[p]), rest, Held(q));
    } else {
      assert ps[p := q][1..] == ps[1..];
      assert InFlight(ps[p := q]) == Held(q) + rest;
    }
  }

  ghost predicate Accounted(s: State) {
    s.created == InFlight(s.producers) + s.queue + s.removed
  }

  /** Every created job is in exactly one place, the counters count, the queue fits its
      array, and nobody stops early. */
  ghost predicate Inv(s: State) {
    && Accounted(s)
    && s.jobCreated == |s.created| && s.jobCompleted == |s.removed|
    && (s.jobCreated == 0 || s.jobCreated <= s.jobs)
    && 1 <= s.pqSize && |s.queue| <= s.pqSize - 1
    && (forall p :: 0 <= p < |s.producers| && s.producers[p].Stopped? ==> s.jobCreated >= s.jobs)
    && (forall c :: 0 <= c < |s.consumerStopped| && s.consumerStopped[c] ==> s.jobCompleted >= s.jobs)
  }

  lemma {:induction false} NothingInFlight(ps: seq<Producer>)
    requires forall p :: 0 <= p < |ps| ==> !ps[p].Holding?
    ensures InFlight(ps) == multiset{}
  {
    if ps != [] {
      NothingInFlight(ps[1..]);
    }
  }

  lemma CreateMoves(s: State, t: State, p: nat, newJob: Job)
    requires p < |s.producers| && s.producers[p].Looping? && Creates(s, t, p, newJob)
    ensures InFlight(t.producers) == InFlight(s.producers) + multiset{newJob}
    ensures Accounted(s) ==> Accounted(t)
  {
    InFlightUpdate(s.producers, p, Holding(newJob));
    assert InFlight(t.producers) + multiset{} == InFlight(t.producers);
  }

  lemma InsertMoves(s: State, t: State, p: nat, job: Job)
    requires p < |s.producers| && s.producers[p] == Holding(job) && Inserts(s, t, p, job)
    ensures InFlight(s.producers) == InFlight(t.producers) + multiset{job}
    ensures Accounted(s) ==> Accounted(t)
  {
    InFlightUpdate(s.producers, p, Looping);
    assert InFlight(s.producers) + multiset{} == InFlight(s.producers);
  }

  lemma StopMoves(s: State, p: nat)
    requires p < |s.producers| && s.producers[p].Looping?
    ensures InFlight(s.producers[p := Stopped]) == InFlight(s.producers)
  {
    InFlightUpdate(s.producers, p, Stopped);
    assert InFlight(s.producers) + multiset{} == InFlight(s.producers);
  }

  lemma CreateKeepsInv(s: State, t: State, p: nat, newJob: Job)
    requires Inv(s) && p < |s.producers| && s.producers[p].Looping? && s.jobCreated < s.jobs && Creates(s, t, p, newJob)
    ensures Inv(t) && Effective(s, t) && Measure(t) == Measure(s) - 1
  {
    hide InFlight, Accounted;
    CreateMoves(s, t, p, newJob);
    Grows(s.created, newJob);
    Grows(InFlight(s.producers), newJob);
  }

  lemma InsertKeepsInv(s: State, t: State, p: nat, job: Job)
    requires Inv(s) && p < |s.producers| && s.producers[p] == Holding(job) && HasRoom(s) && Inserts(s, t, p, job)
    ensures Inv(t) && Effective(s, t) && Measure(t) == Measure(s) - 1
  {
    hide InFlight, Accounted;
    InsertMoves(s, t, p, job);
    Grows(s.queue, job);
    Grows(InFlight(t.producers), job);
  }

  lemma StopKeepsInv(s: State, p: nat)
    requires Inv(s) && p < |s.producers| && s.producers[p].Looping? && s.jobCreated >= s.jobs
    ensures var t := s.(producers := s.producers[p := Stopped]); Inv(t) && Measure(t) == Measure(s)
  {
    StopMoves(s, p);
    hide InFlight;
  }

  lemma Grows(m: multiset<Job>, job: Job)
    ensures |m + multiset{job}| == |m| + 1 && m + multiset{job} != m
  {
    assert (m + multiset{job})[job] == m[job] + 1;
  }

  lemma ProducerStepKeepsInv(s: State, t: State, p: nat, newJob: Job)
    requires Inv(s) && ProducerStep(s, t, p, newJob)
    ensures Inv(t)
    ensures Measure(t) == Measure(s) - (if Effective(s, t) then 1 else 0)
  {
    hide Inv, Measure, Creates, Inserts;
    if s.producers[p].Holding? {
      if HasRoom(s) {
        InsertKeepsInv(s, t, p, s.producers[p].job);
      }
    } else if s.jobCreated >= s.jobs {
      StopKeepsInv(s, p);
    } else if HasRoom(s) {
      CreateKeepsInv(s, t, p, newJob);
    }
  }

  lemma RemoveKeepsInv(s: State, job: Job)
    requires Inv(s) && s.jobCompleted < s.jobs && job in s.queue
    ensures var t := AfterRemoval(s, job); Inv(t) && Effective(s, t) && Measure(t) == Measure(s) - 1
  {
    var rest := s.queue - multiset{job};
    assert rest + multiset{job} == s.queue;
    Grows(rest, job);
    Grows(s.removed, job);
    MoveOne(InFlight(s.producers), rest, s.removed, job);
    hide InFlight;
  }

  lemma MoveOne(a: multiset<Job>, rest: multiset<Job>, removed: multiset<Job>, job: Job)
    ensures a + (rest + multiset{job}) + removed == a + rest + (removed + multiset{job})
  {}

  lemma ConsumerStepKeepsInv(s: State, t: State, c: nat)
    requires Inv(s) && ConsumerStep(s, t, c)
    ensures Inv(t)
    ensures Measure(t) == Measure(s) - (if Effective(s, t) then 1 else 0)
  {
    if s.jobCompleted < s.jobs && |s.queue| > 0 {
      var job :| Removes(s, t, job);
      hide Inv, Measure, AfterRemoval;
      RemoveKeepsInv(s, job);
    }
  }

  /** Each effective turn uses up exactly one unit of the measure; polling and stopping
      use none; the accounting is kept. */
  lemma StepKeepsInv(s: State, t: State, e: Event)
    requires Inv(s) && Step(s, t, e)
    ensures Inv(t)
    ensures Measure(t) == Measure(s) - (if Effective(s, t) then 1 else 0)
  {
    match e
    case ProducerTurn(p, newJob) => ProducerStepKeepsInv(s, t, p, newJob);
    case ConsumerTurn(c) => ConsumerStepKeepsInv(s, t, c);
  }

  lemma StepKeepsShape(s: State, t: State, e: Event)
    requires Step(s, t, e)
    ensures SameShape(s, t)
  {}

  ghost predicate SameShape(s: State, t: State) {
    && t.jobs == s.jobs && t.pqSize == s.pqSize
    && |t.producers| == |s.producers| && |t.consumerStopped| == |s.consumerStopped|
  }

  lemma {:induction false} RunKeepsInv(ss: seq<State>, es: seq<Event>, i: nat)
    requires Run(ss, es) && i < |ss|
    ensures Inv(ss[i])
    ensures SameShape(ss[0], ss[i])
  {
    if i == 0 {
      NothingInFlight(ss[0].producers);
    } else {
      RunKeepsInv(ss, es, i - 1);
      assert Step(ss[i - 1], ss[i - 1 + 1], es[i - 1]);
      StepKeepsInv(ss[i - 1], ss[i], es[i - 1]);
      StepKeepsShape(ss[i - 1], ss[i], es[i - 1]);
    }
  }

  /** In every reachable state: created = in flight + queued + removed, as multisets and
      as counts, and the queue never outgrows its array. */
  lemma Conservation(ss: seq<State>, es: seq<Event>, i: nat)
    requires Run(ss, es) && i < |ss|
    ensures var s := ss[i];
            && s.created == InFlight(s.producers) + s.queue + s.removed
            && s.jobCreated == |InFlight(s.producers)| + |s.queue| + s.jobCompleted
            && (s.jobs >= 0 ==> s.jobCreated <= s.jobs)
            && |s.queue| < s.pqSize
  {
    RunKeepsInv(ss, es, i);
  }

  // ---------- Termination as main sees it ----------

  ghost predicate MainSeesEnd(s: State) {
    s.jobCreated == s.jobs && s.jobCompleted == s.jobs
  }

  /** What main may rely on when its test succeeds: nothing is queued or in flight, the
      created jobs are the removed jobs, and no later step undoes this. */
  lemma EndIsFinal(ss: seq<State>, es: seq<Event>, i: nat, j: nat)
    requires Run(ss, es) && i <= j < |ss| && MainSeesEnd(ss[i])
    ensures InFlight(ss[j].producers) == ss[j].queue == multiset{}
    ensures ss[j].created == ss[j].removed
    ensures |ss[j].removed| == ss[0].jobs
    ensures MainSeesEnd(ss[j]) && ss[j].created == ss[i].created && ss[j].removed == ss[i].removed
    decreases j - i
  {
    RunKeepsInv(ss, es, i);
    if i == j {
      AllAccountedFor(ss[i]);
    } else {
      RunKeepsInv(ss, es, i + 1);
      AllAccountedFor(ss[i]);
      assert Step(ss[i], ss[i + 1], es[i]);
      if es[i].ProducerTurn? {
        InFlightUpdate(ss[i].producers, es[i].p, Looping);
      }
      EndIsFinal(ss, es, i + 1, j);
    }
  }

  lemma AllAccountedFor(s: State)
    requires Inv(s) && s.jobCreated == s.jobCompleted
    ensures InFlight(s.producers) == s.queue == multiset{}
    ensures s.created == s.removed
  {
    assert |InFlight(s.producers)| + |s.queue| == 0;
  }

  /** With a negative job count the workers stop at once and main's test never succeeds. */
  lemma NegativeJobsNeverEnd(ss: seq<State>, es: seq<Event>, i: nat)
    requires Run(ss, es) && i < |ss| && ss[0].jobs < 0
    ensures !MainSeesEnd(ss[i])
  {
    RunKeepsInv(ss, es, i);
  }

  // ---------- Progress ----------

  /** Turns left: three for a job not yet created, two for one in flight, one for one queued. */
  ghost function Measure(s: State): int {
    (if s.jobs > s.jobCreated then 3 * (s.jobs - s.jobCreated) else 0)
    + 2 * |InFlight(s.producers)| + |s.queue|
  }

  /** A turn that creates, inserts or removes a job. */
  ghost predicate Effective(s: State, t: State) {
    s.created != t.created || s.queue != t.queue
  }

  ghost function EffectiveTurns(ss: seq<State>): nat {
    if |ss| < 2 then 0
    else EffectiveTurns(ss[..|ss| - 1]) + (if Effective(ss[|ss| - 2], ss[|ss| - 1]) then 1 else 0)
  }

  lemma {:induction false} MeasureCountsTurns(ss: seq<State>, es: seq<Event>)
    requires Run(ss, es)
    ensures Measure(ss[0]) == Measure(ss[|ss| - 1]) + EffectiveTurns(ss)
    decreases |ss|
  {
    if |es| > 0 {
      var n := |es|;
      assert Run(ss[..n], es[..n - 1]);
      MeasureCountsTurns(ss[..n], es[..n - 1]);
      RunKeepsInv(ss, es, n - 1);
      assert Step(ss[n - 1], ss[n - 1 + 1], es[n - 1]);
      StepKeepsInv(ss[n - 1], ss[n], es[n - 1]);
    }
  }

  /** However the workers interleave, a run that ends finished has exactly three effective
      turns per job, and no run has more. */
  lemma CompleteRunLength(ss: seq<State>, es: seq<Event>)
    requires Run(ss, es) && ss[0].jobs >= 0
    ensures EffectiveTurns(ss) <= 3 * ss[0].jobs
    ensures MainSeesEnd(ss[|ss| - 1]) <==> EffectiveTurns(ss) == 3 * ss[0].jobs
  {
    var n := |ss| - 1;
    MeasureCountsTurns(ss, es);
    RunKeepsInv(ss, es, n);
    NothingInFlight(ss[0].producers);
    var s := ss[n];
    if MainSeesEnd(s) {
      EndIsFinal(ss, es, n, n);
    }
  }

  /** No deadlock: as long as main's test fails, some worker's next turn is effective. */
  lemma Progress(ss: seq<State>, es: seq<Event>, newJob: Job) returns (e: Event, t: State)
    requires Run(ss, es) && ss[0].jobs >= 0 && ss[0].pqSize >= 2
    requires |ss[0].producers| >= 1 && |ss[0].consumerStopped| >= 1
    requires !MainSeesEnd(ss[|ss| - 1])
    ensures Step(ss[|ss| - 1], t, e) && Measure(t) == Measure(ss[|ss| - 1]) - 1
  {
    var n := |ss| - 1;
    var s := ss[n];
    RunKeepsInv(ss, es, n);
    if |s.queue| > 0 {
      var job := Urgent(s.queue);
      t := AfterRemoval(s, job);
      e := ConsumerTurn(0);
      RemovalIsStep(s, 0, job);
      assert t.queue[job] == s.queue[job] - 1;
    } else if p :| 0 <= p < |s.producers| && s.producers[p].Holding? {
      var job := s.producers[p].job;
      t := s.(producers := s.producers[p := Looping], queue := s.queue + multiset{job});
      e := ProducerTurn(p, newJob);
      assert t.queue[job] == s.queue[job] + 1;
    } else {
      NothingInFlight(s.producers);
      t := s.(producers := s.producers[0 := Holding(newJob)],
              jobCreated := s.jobCreated + 1, created := s.created + multiset{newJob});
      e := ProducerTurn(0, newJob);
      assert t.created[newJob] == s.created[newJob] + 1;
    }
    StepKeepsInv(s, t, e);
  }

  lemma {:induction false} Urgent(m: multiset<Job>) returns (j: Job)
    requires |m| > 0
    ensures IsMax(j, m)
    decreases |m|
  {
    j :| j in m;
    var rest := m - multiset{j};
    if |rest| > 0 {
      var k := Urgent(rest);
      if k.priority > j.priority {
        forall x | x in m
          ensures x.priority <= k.priority
        {
          assert x == j || x in rest;
        }
        j := k;
      } else {
        forall x | x in m
          ensures x.priority <= j.priority
        {
          assert x == j || x in rest;
        }
      }
    } else {
      forall x | x in m
        ensures x == j
      {
        assert x == j || x in rest;
      }
    }
  }
}
