/** What exec and wait return, in terms of the steps of a run alone: of what load returned
    and of the statuses given to exit (). */
module HandshakeTrace {
  import opened Handshake
  import opened Threads
  import opened Wrappers

  /** Child t took step a somewhere in the run. */
  ghost predicate Took(steps: seq<Step>, t: Tid, a: ChildStep) {
    exists i :: 0 <= i < |steps| && steps[i] == ByChild(t, a)
  }

  lemma TookMore(steps: seq<Step>, step: Step, t: Tid, a: ChildStep)
    ensures Took(steps + [step], t, a) <==> Took(steps, t, a) || step == ByChild(t, a)
  {
    var more := steps + [step];
    if Took(steps, t, a) {
      var i :| 0 <= i < |steps| && steps[i] == ByChild(t, a);
      assert more[i] == ByChild(t, a);
    }
    if step == ByChild(t, a) {
      assert more[|steps|] == ByChild(t, a);
    }
  }

  /** The child's record tells what it did in the run. */
  ghost predicate Recorded(steps: seq<Step>, t: Tid, c: Child) {
    && (forall v :: Took(steps, t, StoreLoadStatus(v)) <==> c.pc != Loading && c.loaded == v)
    && (forall v :: Took(steps, t, CallExit(v)) <==> c.end == Some(Called(v)))
  }

  ghost predicate Traced(steps: seq<Step>, s: Family) {
    && (forall t :: t in s.children ==> Recorded(steps, t, s.children[t]))
    && (forall i :: 0 <= i < |steps| && steps[i].ByChild? ==> steps[i].t in s.children)
  }

  lemma OwnStepRecorded(p: ParentPc, steps: seq<Step>, t: Tid, c: Child, a: ChildStep)
    requires Recorded(steps, t, c) && ChildOk(p, t, c) && ChildCan(c, a)
    ensures Recorded(steps + [ByChild(t, a)], t, ChildNext(c, a))
  {
    var step := ByChild(t, a);
    forall v
      ensures Took(steps + [step], t, StoreLoadStatus(v))
         <==> Took(steps, t, StoreLoadStatus(v)) || a == StoreLoadStatus(v)
    {
      TookMore(steps, step, t, StoreLoadStatus(v));
    }
    forall v
      ensures Took(steps + [step], t, CallExit(v)) <==> Took(steps, t, CallExit(v)) || a == CallExit(v)
    {
      TookMore(steps, step, t, CallExit(v));
    }
    hide Took;
  }

  lemma OtherStepRecorded(steps: seq<Step>, t: Tid, c: Child, d: Child, step: Step)
    requires Recorded(steps, t, c) && (step.ByChild? ==> step.t != t)
    requires d.pc == c.pc && d.loaded == c.loaded && d.end == c.end
    ensures Recorded(steps + [step], t, d)
  {
    forall v
      ensures Took(steps + [step], t, StoreLoadStatus(v)) <==> Took(steps, t, StoreLoadStatus(v))
    {
      TookMore(steps, step, t, StoreLoadStatus(v));
    }
    forall v
      ensures Took(steps + [step], t, CallExit(v)) <==> Took(steps, t, CallExit(v))
    {
      TookMore(steps, step, t, CallExit(v));
    }
    hide Took;
  }

  lemma NewbornRecorded(steps: seq<Step>, t: Tid)
    requires forall i :: 0 <= i < |steps| && steps[i].ByChild? ==> steps[i].t != t
    ensures Recorded(steps, t, NEWBORN)
  {}

  /** Apart from a child's own steps, nothing changes its point, load result or end. */
  lemma ParentLeavesRecord(s: Family, step: Step, t: Tid)
    requires Can(s, step) && t in s.children && (step.ByChild? ==> step.t != t) && (step.Exec? ==> s.nextTid != t)
    ensures t in Next(s, step).children
    ensures var c, d := s.children[t], Next(s, step).children[t];
            d.pc == c.pc && d.loaded == c.loaded && d.end == c.end
  {}

  lemma StepTraced(steps: seq<Step>, s: Family, step: Step)
    requires Inv(s) && Traced(steps, s) && Can(s, step)
    ensures Traced(steps + [step], Next(s, step))
  {
    var more, u := steps + [step], Next(s, step);
    hide ChildOk, LogOk, Recorded, ChildCan, ChildNext;
    forall t | t in u.children
      ensures Recorded(more, t, u.children[t])
    {
      if step == Exec && t == s.nextTid {
        NewbornRecorded(more, t);
      } else if step.ByChild? && step.t == t {
        OwnStepRecorded(s.parent, steps, t, s.children[t], step.a);
      } else {
        ParentLeavesRecord(s, step, t);
        OtherStepRecorded(steps, t, s.children[t], u.children[t], step);
      }
    }
    forall i | 0 <= i < |more| && more[i].ByChild?
      ensures more[i].t in u.children
    {
      if i < |steps| {
        assert more[i] == steps[i];
      }
    }
  }

  lemma {:induction false} LastStep(s: Family, steps: seq<Step>, u: Family) returns (m: Family)
    requires Reaches(s, steps, u) && steps != []
    ensures Reaches(s, steps[..|steps| - 1], m) && Can(m, steps[|steps| - 1]) && u == Next(m, steps[|steps| - 1])
    decreases |steps|
  {
    if |steps| == 1 {
      m := s;
    } else {
      m := LastStep(Next(s, steps[0]), steps[1..], u);
      assert steps[1..][..|steps| - 2] == steps[..|steps| - 1][1..];
    }
  }

  lemma StartTraced(firstTid: Tid)
    ensures Traced([], Start(firstTid))
  {}

  lemma {:induction false} RunTraced(firstTid: Tid, steps: seq<Step>, s: Family)
    requires firstTid > 0 && Reaches(Start(firstTid), steps, s)
    ensures Traced(steps, s)
    decreases |steps|
  {
    hide Inv, Traced, Next, Can, Start;
    if steps == [] {
      StartTraced(firstTid);
    } else {
      hide Reaches;
      var m := LastStep(Start(firstTid), steps, s);
      var init, last := steps[..|steps| - 1], steps[|steps| - 1];
      RunTraced(firstTid, init, m);
      StartIsFine(firstTid);
      RunKeepsInv(Start(firstTid), init, m);
      StepTraced(init, m, last);
      assert steps == init + [last];
    }
  }

  lemma StartIsFine(firstTid: Tid)
    requires firstTid > 0
    ensures Inv(Start(firstTid))
  {}

  /** In every interleaving exec returns the child's tid exactly if load returned true in
      that child, and -1 otherwise. */
  lemma ExecReportsLoad(firstTid: Tid, steps: seq<Step>, s: Family, i: nat)
    requires firstTid > 0 && Reaches(Start(firstTid), steps, s)
    requires i < |s.log| && s.log[i].ExecReturned?
    ensures var t, r := s.log[i].t, s.log[i].result;
            && (r == t <==> Took(steps, t, StoreLoadStatus(true)))
            && (r == -1 <==> Took(steps, t, StoreLoadStatus(false)))
  {
    var r := s.log[i];
    hide Reaches, Took, EndOk, FirstServed, Answered;
    RunTraced(firstTid, steps, s);
    StartIsFine(firstTid);
    RunKeepsInv(Start(firstTid), steps, s);
    assert ReturnOk(s.children, r) && Recorded(steps, r.t, s.children[r.t]) && r.t > 0;
  }

  /** In every interleaving the first wait for a child whose load succeeded returns the one
      status that child gave to exit (). */
  lemma WaitReportsExit(firstTid: Tid, steps: seq<Step>, s: Family, i: nat)
    requires firstTid > 0 && Reaches(Start(firstTid), steps, s)
    requires i < |s.log| && s.log[i].WaitReturned? && Took(steps, s.log[i].t, StoreLoadStatus(true))
    ensures forall v :: Took(steps, s.log[i].t, CallExit(v)) <==> v == s.log[i].result
  {
    var r := s.log[i];
    hide Reaches, Took, EndOk, FirstServed, Answered;
    LoadedChildIsNeverRaced(firstTid, steps, s, i);
    RunTraced(firstTid, steps, s);
    assert Recorded(steps, r.t, s.children[r.t]);
  }

  /** The first wait for a child whose load returned false gives -1, or UNDEFINED_EXIT if
      the read came between the two stores of process_exit. */
  lemma WaitReportsFailedLoad(firstTid: Tid, steps: seq<Step>, s: Family, i: nat)
    requires firstTid > 0 && Reaches(Start(firstTid), steps, s)
    requires i < |s.log| && s.log[i].WaitReturned? && Took(steps, s.log[i].t, StoreLoadStatus(false))
    ensures s.log[i].result == if s.log[i].raced then UNDEFINED_EXIT else -1
    ensures !exists v :: Took(steps, s.log[i].t, CallExit(v))
  {
    var r := s.log[i];
    hide Reaches, Took, EndOk, FirstServed, Answered;
    LoadedChildIsNeverRaced(firstTid, steps, s, i);
    HandshakeIsSound(firstTid, steps, s);
    RunTraced(firstTid, steps, s);
    assert Recorded(steps, r.t, s.children[r.t]) && Trustworthy(s.children[r.t], r);
  }
}
