/** How a process and its children meet in exec, exit and wait: two semaphores and a few
    status fields per child, accessed without a lock. Every store, test and semaphore
    operation is a step of its own, and steps of the parent and of all children interleave
    freely. */
module Handshake {
  import opened Threads
  import opened Wrappers

  const KILLED := 0
  const EXITED := 1
  const ALIVE := 2
  const UNDEFINED_EXIT := -999

  // ---------- A child ----------

  datatype Pc =
    | Loading                // start_process before load_status is stored
    | Loaded                 // about to up wait_load
    | Running                // the user program
    | ExitStored             // exit () has stored exit_status, not yet cur_status
    | Leaving                // at the start of process_exit
    | Marked                 // process_exit has stored cur_status, not yet exit_status
    | Settled                // about to up wait_exit
    | Gone

  /** How a child came to its end: by exit (), which also the kernel calls for a process it
      kills, or straight from start_process. */
  datatype End = Called(status: int) | LoadFailed

  /** The status its parent should see. */
  function StatusOf(e: End): int {
    if e.Called? then e.status else -1
  }

  /** The fields of the child's element and its two semaphores; loaded and end record
      whether load succeeded and how the child ended. */
  datatype Child = Child(pc: Pc, loadStatus: bool, exitStatus: int, curStatus: int, parentWaiting: bool,
                         waitLoad: nat, waitExit: nat, loaded: bool, end: Option<End>)

  const NEWBORN := Child(Loading, false, UNDEFINED_EXIT, ALIVE, false, 0, 0, false, None)

  datatype ChildStep =
    | StoreLoadStatus(success: bool)
    | UpWaitLoad             // and exit at once if the load failed
    | CallExit(status: int)  // exit () stores exit_status; a kill is exit (-1)
    | StoreCurStatus         // exit () stores cur_status
    | TestAlive              // process_exit tests cur_status and, if ALIVE, stores KILLED
    | StoreKilledStatus      // process_exit stores exit_status
    | UpWaitExit

  predicate ChildCan(c: Child, a: ChildStep) {
    match a
    case StoreLoadStatus(_) => c.pc == Loading
    case UpWaitLoad => c.pc == Loaded
    case CallExit(_) => c.pc == Running
    case StoreCurStatus => c.pc == ExitStored
    case TestAlive => c.pc == Leaving
    case StoreKilledStatus => c.pc == Marked
    case UpWaitExit => c.pc == Settled
  }

  function ChildNext(c: Child, a: ChildStep): Child {
    match a
    case StoreLoadStatus(success) => c.(pc := Loaded, loadStatus := success, loaded := success)
    case UpWaitLoad =>
      if c.loaded then c.(pc := Running, waitLoad := c.waitLoad + 1)
      else c.(pc := Leaving, waitLoad := c.waitLoad + 1, end := Some(LoadFailed))
    case CallExit(status) => c.(pc := ExitStored, exitStatus := status, end := Some(Called(status)))
    case StoreCurStatus => c.(pc := Leaving, curStatus := if c.exitStatus == -1 then KILLED else EXITED)
    case TestAlive => if c.curStatus == ALIVE then c.(pc := Marked, curStatus := KILLED) else c.(pc := Settled)
    case StoreKilledStatus => c.(pc := Settled, exitStatus := -1)
    case UpWaitExit => c.(pc := Gone, waitExit := c.waitExit + 1)
  }

  // ---------- The parent ----------

  datatype ParentPc =
    | Idle
    | ExecDown(t: Tid)       // exec () is to down wait_load
    | ExecRead(t: Tid)       // exec () is to read load_status
    | WaitTest(t: Tid)       // process_wait is to test cur_status
    | WaitDown(t: Tid)       // process_wait is to down wait_exit
    | WaitRead(t: Tid)       // process_wait is to read exit_status

  /** What exec and wait returned, in order. raced records that the child stood between
      its two stores in process_exit when exit_status was read. */
  datatype Return =
    | ExecReturned(t: Tid, result: int)
    | WaitReturned(t: Tid, result: int, raced: bool)
    | WaitRefused(t: Tid, result: int)

  datatype Family = Family(children: map<Tid, Child>, parent: ParentPc, nextTid: Tid, log: seq<Return>)

  datatype Step =
    | Exec                   // process_execute creates the child
    | CallWait(t: Tid)       // process_wait tests and sets parent_waiting
    | Continue               // the parent's next step in the call it is in
    | ByChild(t: Tid, a: ChildStep)

  predicate Can(s: Family, step: Step) {
    match step
    case Exec => s.parent == Idle
    case CallWait(t) => s.parent == Idle && t in s.children
    case Continue =>
      s.parent != Idle && s.parent.t in s.children
      && (s.parent.ExecDown? ==> s.children[s.parent.t].waitLoad > 0)
      && (s.parent.WaitDown? ==> s.children[s.parent.t].waitExit > 0)
    case ByChild(t, a) => t in s.children && ChildCan(s.children[t], a)
  }

  function Go(s: Family): Family
    requires Can(s, Continue)
  {
    var t := s.parent.t;
    var c := s.children[t];
    match s.parent
    case ExecDown(_) => s.(parent := ExecRead(t), children := s.children[t := c.(waitLoad := c.waitLoad - 1)])
    case ExecRead(_) => s.(parent := Idle, log := s.log + [ExecReturned(t, if c.loadStatus then t else -1)])
    case WaitTest(_) => s.(parent := if c.curStatus == ALIVE then WaitDown(t) else WaitRead(t))
    case WaitDown(_) => s.(parent := WaitRead(t), children := s.children[t := c.(waitExit := c.waitExit - 1)])
    case WaitRead(_) => s.(parent := Idle, log := s.log + [WaitReturned(t, c.exitStatus, c.pc == Marked)])
  }

  function Next(s: Family, step: Step): Family
    requires Can(s, step)
  {
    match step
    case Exec =>
      s.(children := s.children[s.nextTid := NEWBORN], parent := ExecDown(s.nextTid), nextTid := s.nextTid + 1)
    case CallWait(t) =>
      var c := s.children[t];
      if c.parentWaiting then s.(log := s.log + [WaitRefused(t, -1)])
      else s.(children := s.children[t := c.(parentWaiting := true)], parent := WaitTest(t))
    case Continue => Go(s)
    case ByChild(t, a) => s.(children := s.children[t := ChildNext(s.children[t], a)])
  }

  // ---------- The invariant ----------

  /** The statuses fit the point the child has reached. */
  ghost predicate EndOk(c: Child) {
    match c.pc
    case Loading | Loaded | Running => c.end == None && c.curStatus == ALIVE && c.exitStatus == UNDEFINED_EXIT
    case ExitStored => c.end == Some(Called(c.exitStatus)) && c.curStatus == ALIVE
    case Leaving =>
      if c.curStatus == ALIVE then c.end == Some(LoadFailed) && c.exitStatus == UNDEFINED_EXIT else Final(c)
    case Marked => c.end == Some(LoadFailed) && c.curStatus == KILLED && c.exitStatus == UNDEFINED_EXIT
    case Settled | Gone => Final(c)
  }

  ghost predicate Final(c: Child) {
    && c.end.Some? && StatusOf(c.end.value) == c.exitStatus
    && c.curStatus == if c.exitStatus == -1 then KILLED else EXITED
  }

  predicate LoadSignalled(pc: Pc) {
    pc != Loading && pc != Loaded
  }

  predicate InWait(p: ParentPc, t: Tid) {
    p == WaitTest(t) || p == WaitDown(t) || p == WaitRead(t)
  }

  /** No signal is lost: wait_load counts the child's up less exec's down, and wait_exit
      the child's up until the one process_wait that may down it has passed. */
  ghost predicate ChildOk(p: ParentPc, t: Tid, c: Child) {
    && EndOk(c)
    && (if c.pc == Loading then !c.loadStatus else c.loadStatus == c.loaded)
    && (c.pc == Running ==> c.loaded) && (c.end != None ==> (c.loaded <==> c.end.value.Called?))
    && (if p == ExecDown(t) then c.waitLoad == (if LoadSignalled(c.pc) then 1 else 0)
        else LoadSignalled(c.pc) && c.waitLoad == 0)
    && (!c.parentWaiting || p == WaitTest(t) || p == WaitDown(t) ==> c.waitExit == if c.pc == Gone then 1 else 0)
    && (InWait(p, t) ==> c.parentWaiting)
    && (p == WaitRead(t) ==> c.curStatus != ALIVE)
  }

  ghost predicate Answered(log: seq<Return>, t: Tid) {
    exists i :: 0 <= i < |log| && log[i].WaitReturned? && log[i].t == t
  }

  /** A returned value is right for what the child did. */
  ghost predicate ReturnOk(children: map<Tid, Child>, r: Return) {
    && r.t in children
    && var c := children[r.t];
       match r
       case ExecReturned(t, result) => c.pc != Loading && result == if c.loaded then t else -1
       case WaitReturned(t, result, raced) =>
         if raced then c.end == Some(LoadFailed) && result == UNDEFINED_EXIT
         else c.end.Some? && result == StatusOf(c.end.value)
       case WaitRefused(t, result) => result == -1
  }

  /** The first wait for a child is served and every later one refused. */
  ghost predicate FirstServed(log: seq<Return>, i: nat)
    requires i < |log|
  {
    match log[i]
    case ExecReturned(_, _) => true
    case WaitReturned(t, _, _) => !Answered(log[..i], t)
    case WaitRefused(t, _) => Answered(log[..i], t)
  }

  ghost predicate LogOk(s: Family) {
    && (forall i :: 0 <= i < |s.log| ==> ReturnOk(s.children, s.log[i]))
    && (forall i :: 0 <= i < |s.log| ==> FirstServed(s.log, i))
    && (forall t :: t in s.children ==>
          (Answered(s.log, t) <==> s.children[t].parentWaiting && !InWait(s.parent, t)))
  }

  ghost predicate ChildrenOk(s: Family) {
    && (forall t :: t in s.children ==> 0 < t < s.nextTid && ChildOk(s.parent, t, s.children[t]))
    && (s.parent != Idle ==> s.parent.t in s.children)
    && 0 < s.nextTid
  }

  ghost predicate Inv(s: Family) {
    ChildrenOk(s) && LogOk(s)
  }

  // ---------- What never changes again ----------

  ghost predicate Stable(c: Child, d: Child) {
    && (c.pc != Loading ==> d.pc != Loading && d.loaded == c.loaded)
    && (c.end != None ==> d.end == c.end)
    && (c.curStatus != ALIVE ==> d.curStatus == c.curStatus)
    && (c.parentWaiting ==> d.parentWaiting)
  }

  ghost predicate AllStable(a: map<Tid, Child>, b: map<Tid, Child>) {
    forall t :: t in a ==> t in b && Stable(a[t], b[t])
  }

  lemma ChildStepOk(p: ParentPc, t: Tid, c: Child, a: ChildStep)
    requires ChildOk(p, t, c) && ChildCan(c, a)
    ensures ChildOk(p, t, ChildNext(c, a)) && Stable(c, ChildNext(c, a))
    ensures ChildNext(c, a).parentWaiting == c.parentWaiting
  {}

  lemma ReturnsStayOk(a: map<Tid, Child>, b: map<Tid, Child>, r: Return)
    requires AllStable(a, b) && ReturnOk(a, r)
    ensures ReturnOk(b, r)
  {}

  // ---------- Every step keeps the invariant ----------

  /** Steps that return nothing to the parent's program. */
  lemma SilentKeepsLog(s: Family, u: Family)
    requires LogOk(s) && u.log == s.log && AllStable(s.children, u.children)
    requires forall t :: t in u.children ==>
               (u.children[t].parentWaiting && !InWait(u.parent, t) <==>
                t in s.children && s.children[t].parentWaiting && !InWait(s.parent, t))
    ensures LogOk(u)
  {
    forall i | 0 <= i < |u.log|
      ensures ReturnOk(u.children, u.log[i]) && FirstServed(u.log, i)
    {
      ReturnsStayOk(s.children, u.children, s.log[i]);
    }
    forall t | t in u.children
      ensures Answered(u.log, t) <==> u.children[t].parentWaiting && !InWait(u.parent, t)
    {}
  }

  lemma AnsweredGrows(log: seq<Return>, r: Return, t: Tid)
    ensures Answered(log + [r], t) <==> Answered(log, t) || (r.WaitReturned? && r.t == t)
  {
    if Answered(log, t) {
      var i :| 0 <= i < |log| && log[i].WaitReturned? && log[i].t == t;
      assert (log + [r])[i] == log[i];
    }
    if r.WaitReturned? && r.t == t {
      assert (log + [r])[|log|] == r;
    }
  }

  /** Steps that return r to the parent's program. */
  lemma ReturnKeepsLog(s: Family, u: Family, r: Return)
    requires LogOk(s) && u.log == s.log + [r] && u.children == s.children
    requires ReturnOk(s.children, r)
    requires r.WaitReturned? ==> !Answered(s.log, r.t)
    requires r.WaitRefused? ==> Answered(s.log, r.t)
    requires forall t :: t in s.children ==>
               (s.children[t].parentWaiting && !InWait(u.parent, t) <==>
                (s.children[t].parentWaiting && !InWait(s.parent, t)) || (r.WaitReturned? && r.t == t))
    ensures LogOk(u)
  {
    forall i | 0 <= i < |u.log|
      ensures ReturnOk(u.children, u.log[i]) && FirstServed(u.log, i)
    {
      assert u.log[..i] == s.log[..i];
      if i < |s.log| {
        assert ReturnOk(s.children, s.log[i]) && FirstServed(s.log, i);
      }
    }
    forall t | t in u.children
      ensures Answered(u.log, t) <==> u.children[t].parentWaiting && !InWait(u.parent, t)
    {
      AnsweredGrows(s.log, r, t);
    }
  }

  lemma ExecKeepsInv(s: Family)
    requires Inv(s) && Can(s, Exec)
    ensures Inv(Next(s, Exec))
  {
    SilentKeepsLog(s, Next(s, Exec));
  }

  lemma CallWaitKeepsInv(s: Family, t: Tid)
    requires Inv(s) && Can(s, CallWait(t))
    ensures Inv(Next(s, CallWait(t)))
  {
    var u := Next(s, CallWait(t));
    hide EndOk, Final, FirstServed, Answered;
    if s.children[t].parentWaiting {
      ReturnKeepsLog(s, u, WaitRefused(t, -1));
    } else {
      SilentKeepsLog(s, u);
    }
  }

  lemma ChildKeepsInv(s: Family, t: Tid, a: ChildStep)
    requires Inv(s) && Can(s, ByChild(t, a))
    ensures Inv(Next(s, ByChild(t, a)))
  {
    ChildStepOk(s.parent, t, s.children[t], a);
    hide ChildOk, ChildNext;
    SilentKeepsLog(s, Next(s, ByChild(t, a)));
  }

  lemma DownExecKeepsInv(s: Family)
    requires Inv(s) && s.parent.ExecDown? && Can(s, Continue)
    ensures Inv(Next(s, Continue))
  {
    assert ChildOk(s.parent, s.parent.t, s.children[s.parent.t]);
    hide FirstServed, ReturnOk, Answered;
    SilentKeepsLog(s, Next(s, Continue));
  }

  lemma TestKeepsInv(s: Family)
    requires Inv(s) && s.parent.WaitTest? && Can(s, Continue)
    ensures Inv(Next(s, Continue))
  {
    hide EndOk, Final, FirstServed, ReturnOk, Answered;
    SilentKeepsLog(s, Next(s, Continue));
  }

  lemma DownWaitKeepsInv(s: Family)
    requires Inv(s) && s.parent.WaitDown? && Can(s, Continue)
    ensures Inv(Next(s, Continue))
  {
    assert ChildOk(s.parent, s.parent.t, s.children[s.parent.t]);
    hide FirstServed, ReturnOk, Answered;
    SilentKeepsLog(s, Next(s, Continue));
  }

  lemma ReadKeepsInv(s: Family)
    requires Inv(s) && Can(s, Continue) && (s.parent.ExecRead? || s.parent.WaitRead?)
    ensures Inv(Next(s, Continue))
  {
    var t := s.parent.t;
    var c, u := s.children[t], Next(s, Continue);
    if s.parent.ExecRead? {
      ReturnKeepsLog(s, u, ExecReturned(t, if c.loadStatus then t else -1));
    } else {
      ReturnKeepsLog(s, u, WaitReturned(t, c.exitStatus, c.pc == Marked));
    }
  }

  lemma StepKeepsInv(s: Family, step: Step)
    requires Inv(s) && Can(s, step)
    ensures Inv(Next(s, step))
  {
    match step
    case Exec => ExecKeepsInv(s);
    case CallWait(t) => CallWaitKeepsInv(s, t);
    case ByChild(t, a) => ChildKeepsInv(s, t, a);
    case Continue =>
      match s.parent
      case ExecDown(_) => DownExecKeepsInv(s);
      case WaitTest(_) => TestKeepsInv(s);
      case WaitDown(_) => DownWaitKeepsInv(s);
      case _ => ReadKeepsInv(s);
  }

  // ---------- Every run ----------

  ghost predicate Reaches(s: Family, steps: seq<Step>, u: Family)
    decreases |steps|
  {
    if steps == [] then u == s
    else Can(s, steps[0]) && Reaches(Next(s, steps[0]), steps[1..], u)
  }

  function Start(nextTid: Tid): Family {
    Family(map[], Idle, nextTid, [])
  }

  lemma {:induction false} RunKeepsInv(s: Family, steps: seq<Step>, u: Family)
    requires Inv(s) && Reaches(s, steps, u)
    ensures Inv(u)
    decreases |steps|
  {
    if steps != [] {
      StepKeepsInv(s, steps[0]);
      RunKeepsInv(Next(s, steps[0]), steps[1..], u);
    }
  }

  /** What the parent's program may rely on: exec gives the tid exactly if the load
      succeeded, and a first wait the child's status, unless it raced. */
  ghost predicate Trustworthy(c: Child, r: Return) {
    match r
    case ExecReturned(t, result) => (result == t <==> c.loaded) && (result == -1 <==> !c.loaded)
    case WaitReturned(t, result, raced) =>
      && c.end.Some?
      && (result == StatusOf(c.end.value) <==> !raced)
      && (raced ==> result == UNDEFINED_EXIT)
    case WaitRefused(t, result) => result == -1
  }

  /** In every interleaving exec returns the child's tid exactly if its load succeeded and
      -1 otherwise; the first wait for a child returns the status it ended with, unless
      the read fell between the two stores of process_exit, and every later wait returns
      -1. */
  lemma HandshakeIsSound(firstTid: Tid, steps: seq<Step>, s: Family)
    requires firstTid > 0 && Reaches(Start(firstTid), steps, s)
    ensures forall i :: 0 <= i < |s.log| ==> s.log[i].t in s.children && Trustworthy(s.children[s.log[i].t], s.log[i])
    ensures forall i :: 0 <= i < |s.log| && s.log[i].WaitReturned? ==> !Answered(s.log[..i], s.log[i].t)
    ensures forall i :: 0 <= i < |s.log| && s.log[i].WaitRefused? ==> Answered(s.log[..i], s.log[i].t)
  {
    RunKeepsInv(Start(firstTid), steps, s);
    forall i | 0 <= i < |s.log|
      ensures ReturnOk(s.children, s.log[i]) && FirstServed(s.log, i) && s.log[i].t > 0
    {
      assert ReturnOk(s.children, s.log[i]);
    }
  }

  /** In every interleaving the first wait for a child that loaded returns exactly the
      status given to exit (), -1 if it was killed. Only a wait for a child whose load
      failed can read between the two stores. */
  lemma LoadedChildIsNeverRaced(firstTid: Tid, steps: seq<Step>, s: Family, i: nat)
    requires firstTid > 0 && Reaches(Start(firstTid), steps, s)
    requires i < |s.log| && s.log[i].WaitReturned?
    ensures s.log[i].t in s.children
    ensures var c := s.children[s.log[i].t];
            && c.end.Some? && (c.loaded <==> c.end.value.Called?)
            && (c.loaded ==> !s.log[i].raced && s.log[i].result == c.end.value.status)
            && (s.log[i].raced ==> c.end.value.LoadFailed?)
  {
    RunKeepsInv(Start(firstTid), steps, s);
    hide FirstServed, Answered, EndOk;
    assert ReturnOk(s.children, s.log[i]);
    assert ChildOk(s.parent, s.log[i].t, s.children[s.log[i].t]);
  }

  /** A caller that waits only for tids that exec has returned never gets a raced status:
      the first wait returns what the child gave to exit (). */
  lemma WaitAfterExecIsExact(firstTid: Tid, steps: seq<Step>, s: Family, e: nat, i: nat)
    requires firstTid > 0 && Reaches(Start(firstTid), steps, s)
    requires e < |s.log| && s.log[e].ExecReturned? && s.log[e].result != -1
    requires i < |s.log| && s.log[i].WaitReturned? && s.log[i].t == s.log[e].result
    ensures !s.log[i].raced && s.log[i].t in s.children
    ensures s.children[s.log[i].t].end == Some(Called(s.log[i].result))
  {
    LoadedChildIsNeverRaced(firstTid, steps, s, i);
    HandshakeIsSound(firstTid, steps, s);
    assert Trustworthy(s.children[s.log[e].t], s.log[e]);
  }

  /** cur_status leaves ALIVE at most once, and how a child ended never changes. */
  lemma {:induction false} StatusLeavesAliveOnce(s: Family, steps: seq<Step>, u: Family)
    requires Inv(s) && Reaches(s, steps, u)
    ensures AllStable(s.children, u.children)
    decreases |steps|
  {
    if steps != [] {
      var m := Next(s, steps[0]);
      StepKeepsInv(s, steps[0]);
      StepIsStable(s, steps[0]);
      StatusLeavesAliveOnce(m, steps[1..], u);
      forall t | t in s.children
        ensures t in u.children && Stable(s.children[t], u.children[t])
      {
        assert Stable(s.children[t], m.children[t]);
      }
    }
  }

  lemma StepIsStable(s: Family, step: Step)
    requires Inv(s) && Can(s, step)
    ensures AllStable(s.children, Next(s, step).children)
  {
    match step
    case ByChild(t, a) => ChildStepOk(s.parent, t, s.children[t], a);
    case _ =>
  }

  // ---------- Exactly when wait misses the status ----------

  /** process_wait reads the child's final status just if the child is not between the two
      stores of process_exit; a wait that had to block never meets it there. */
  lemma WaitReadsStatus(s: Family)
    requires Inv(s) && s.parent.WaitRead?
    ensures var c := s.children[s.parent.t];
            && c.end.Some?
            && (c.exitStatus == StatusOf(c.end.value) <==> c.pc != Marked)
            && (c.pc == Marked ==> c.end == Some(LoadFailed))
  {
    assert ChildOk(s.parent, s.parent.t, s.children[s.parent.t]);
  }

  lemma BlockedWaitReadsStatus(s: Family)
    requires Inv(s) && s.parent.WaitDown? && Can(s, Continue)
    ensures var c := s.children[s.parent.t];
            c.pc == Gone && c.end.Some? && c.exitStatus == StatusOf(c.end.value)
  {
    assert ChildOk(s.parent, s.parent.t, s.children[s.parent.t]);
  }

  lemma {:induction false} Extend(s: Family, steps: seq<Step>, m: Family, step: Step)
    requires Reaches(s, steps, m) && Can(m, step)
    ensures Reaches(s, steps + [step], Next(m, step))
    decreases |steps|
  {
    if steps == [] {
      assert steps + [step] == [step];
      assert Reaches(Next(s, step), [], Next(m, step));
    } else {
      Extend(Next(s, steps[0]), steps[1..], m, step);
      assert (steps + [step])[1..] == steps[1..] + [step];
    }
  }

  lemma ReachesSelf(s: Family)
    ensures Reaches(s, [], s)
  {}

  lemma Take(steps: seq<Step>, s: Family, step: Step) returns (steps': seq<Step>, u: Family)
    requires Reaches(Start(1), steps, s) && Can(s, step)
    ensures Reaches(Start(1), steps', u) && u == Next(s, step)
  {
    Extend(Start(1), steps, s, step);
    steps', u := steps + [step], Next(s, step);
  }

  /** A run in which exec reports a failed load and the first wait for that child all the
      same returns UNDEFINED_EXIT instead of -1. */
  lemma RacingRun() returns (steps: seq<Step>, s: Family)
    ensures Reaches(Start(1), steps, s)
    ensures s.log == [ExecReturned(1, -1), WaitReturned(1, UNDEFINED_EXIT, true)]
    ensures 1 in s.children && s.children[1].end == Some(LoadFailed)
  {
    hide Reaches;
    steps, s := [], Start(1);
    ReachesSelf(s);
    steps, s := Take(steps, s, Exec);
    steps, s := Take(steps, s, ByChild(1, StoreLoadStatus(false)));
    steps, s := Take(steps, s, ByChild(1, UpWaitLoad));
    steps, s := Take(steps, s, Continue);
    steps, s := Take(steps, s, Continue);
    steps, s := Take(steps, s, ByChild(1, TestAlive));
    steps, s := Take(steps, s, CallWait(1));
    steps, s := Take(steps, s, Continue);
    steps, s := Take(steps, s, Continue);
  }

  // ---------- No wakeup is lost ----------

  /** How many of its steps a child can still take; the user program itself is none. */
  function Work(pc: Pc): nat {
    match pc
    case Loading => 7 case Loaded => 6 case Running => 5 case ExitStored => 4
    case Leaving => 3 case Marked => 2 case Settled => 1 case Gone => 0
  }

  ghost predicate OnlyChild(steps: seq<Step>, t: Tid) {
    forall i :: 0 <= i < |steps| ==> steps[i].ByChild? && steps[i].t == t
  }

  /** A parent inside exec or wait is never stuck: it can go on, or else the child it
      waits for can, by no more than Work steps; once the child is gone the parent can. */
  lemma NoWakeupIsLost(s: Family)
    requires Inv(s) && s.parent != Idle
    ensures var t := s.parent.t;
            && t in s.children
            && (Can(s, Continue) || exists a :: Can(s, ByChild(t, a)))
            && (s.children[t].pc == Gone ==> Can(s, Continue))
  {
    var t := s.parent.t;
    var c := s.children[t];
    assert ChildOk(s.parent, t, c);
    var a := match c.pc
             case Loading => StoreLoadStatus(true)
             case Loaded => UpWaitLoad
             case Running => CallExit(-1)
             case ExitStored => StoreCurStatus
             case Leaving => TestAlive
             case Marked => StoreKilledStatus
             case Settled => UpWaitExit
             case Gone => UpWaitExit;
    if c.pc != Gone {
      assert Can(s, ByChild(t, a));
    }
  }

  lemma ChildWorks(s: Family, t: Tid, a: ChildStep)
    requires Can(s, ByChild(t, a))
    ensures var m := Next(s, ByChild(t, a));
            t in m.children && m.parent == s.parent && Work(m.children[t].pc) < Work(s.children[t].pc)
  {}

  lemma {:induction false} ChildGetsDone(s: Family, steps: seq<Step>, u: Family, t: Tid)
    requires Inv(s) && Reaches(s, steps, u) && OnlyChild(steps, t) && t in s.children
    ensures t in u.children && u.parent == s.parent && |steps| + Work(u.children[t].pc) <= Work(s.children[t].pc)
    decreases |steps|
  {
    if steps != [] {
      StepKeepsInv(s, steps[0]);
      ChildWorks(s, steps[0].t, steps[0].a);
      hide Inv, Next, ChildNext, Work;
      ChildGetsDone(Next(s, steps[0]), steps[1..], u, t);
    }
  }

  /** However a child runs on while its parent is blocked on it, it stops after at most
      seven steps, and then the parent can go on. */
  lemma WakeupArrives(s: Family, steps: seq<Step>, u: Family)
    requires Inv(s) && s.parent != Idle && Reaches(s, steps, u) && OnlyChild(steps, s.parent.t)
    ensures |steps| <= 7
    ensures (forall a :: !Can(u, ByChild(s.parent.t, a))) ==> Can(u, Continue)
  {
    ChildGetsDone(s, steps, u, s.parent.t);
    RunKeepsInv(s, steps, u);
    NoWakeupIsLost(u);
  }
}
