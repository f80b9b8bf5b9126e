/** The fields of struct child_element and the child's semaphores, updated in place by the
    functions of process.c and syscall.c. Run without interruption, each function is a
    sequence of the steps that Handshake interleaves. */
module HandshakeState {
  import opened Handshake
  import opened Threads
  import opened Wrappers

  /** start_process, exit () and process_exit as steps without a break. */
  function LoadFinished(c: Child, success: bool): Child {
    ChildNext(ChildNext(c, StoreLoadStatus(success)), UpWaitLoad)
  }

  function Exited(c: Child, status: int): Child {
    ChildNext(ChildNext(c, CallExit(status)), StoreCurStatus)
  }

  function ProcessExited(c: Child): Child {
    var d := ChildNext(c, TestAlive);
    ChildNext(if d.pc == Marked then ChildNext(d, StoreKilledStatus) else d, UpWaitExit)
  }

  class ChildElement {
    var loadStatus: bool
    var exitStatus: int
    var curStatus: int
    var parentWaiting: bool
    var waitLoad: nat
    var waitExit: nat
    ghost var pc: Pc
    ghost var loaded: bool
    ghost var end: Option<End>

    ghost function View(): Child
      reads this
    {
      Child(pc, loadStatus, exitStatus, curStatus, parentWaiting, waitLoad, waitExit, loaded, end)
    }

    /** What thread_create and init_thread set up for a new child. */
    constructor ()
      ensures View() == NEWBORN
    {
      loadStatus, exitStatus, curStatus, parentWaiting := false, UNDEFINED_EXIT, ALIVE, false;
      waitLoad, waitExit := 0, 0;
      pc, loaded, end := Loading, false, None;
    }

    /** start_process once load has returned success. */
    method FinishLoad(success: bool)
      requires pc == Loading
      modifies this
      ensures View() == LoadFinished(old(View()), success)
      ensures loadStatus == success && waitLoad == old(waitLoad) + 1
      ensures pc == if success then Running else Leaving
    {
      loadStatus, loaded := success, success;
      waitLoad := waitLoad + 1;
      pc := if success then Running else Leaving;
      end := if success then end else Some(LoadFailed);
    }

    /** exit () up to its call of thread_exit. */
    method Exit(status: int)
      requires pc == Running
      modifies this
      ensures View() == Exited(old(View()), status)
    {
      exitStatus, end := status, Some(Called(status));
      if status == -1 {
        curStatus := KILLED;
      } else {
        curStatus := EXITED;
      }
      pc := Leaving;
    }

    /** The first part of process_exit. */
    method ProcessExit()
      requires pc == Leaving
      modifies this
      ensures View() == ProcessExited(old(View()))
    {
      if curStatus == ALIVE {
        curStatus := KILLED;
        exitStatus := -1;
      }
      waitExit := waitExit + 1;
      pc := Gone;
    }

    /** process_wait by the parent when it need not block. */
    method ProcessWait() returns (result: int)
      requires parentWaiting || curStatus != ALIVE || waitExit > 0
      modifies this
      ensures result == WaitResult(old(View())) && View() == AfterWait(old(View()))
      ensures forall s: Family, t: Tid :: CanWaitNow(s, t) && s.children[t] == old(View()) ==>
                var u := Waited(s, t);
                t in u.children && u.children[t] == View() && |u.log| == |s.log| + 1 && u.log[|s.log|].result == result
    {
      ghost var c := View();
      forall s: Family, t: Tid | CanWaitNow(s, t) && s.children[t] == c {
        WaitedIs(s, t);
      }
      hide Waited, CanWaitNow;
      if !parentWaiting {
        parentWaiting := true;
        if curStatus == ALIVE {
          waitExit := waitExit - 1;
        }
        return exitStatus;
      }
      return -1;
    }
  }

  /** Without interruption a child that calls exit (status), or is killed with status -1,
      leaves that status and one signal for its parent; one whose load failed leaves -1. */
  lemma ExitLeavesStatus(p: ParentPc, t: Tid, c: Child, status: int)
    requires ChildOk(p, t, c) && !c.parentWaiting
    ensures c.pc == Running ==>
              var d := ProcessExited(Exited(c, status));
              d.pc == Gone && d.exitStatus == status && d.waitExit == 1 && d.curStatus != ALIVE
    ensures c.pc == Loading ==>
              var d := ProcessExited(LoadFinished(c, false));
              d.pc == Gone && d.exitStatus == -1 && d.waitExit == 1 && d.curStatus == KILLED
  {}

  // ---------- process_wait ----------

  /** The parent may call process_wait (t), and the call need not block. */
  ghost predicate CanWaitNow(s: Family, t: Tid) {
    && s.parent == Idle && t in s.children
    && (s.children[t].parentWaiting || s.children[t].curStatus != ALIVE || s.children[t].waitExit > 0)
  }

  /** The steps of process_wait (t) without a break. */
  ghost function Waited(s: Family, t: Tid): Family
    requires CanWaitNow(s, t)
  {
    var a := Next(s, CallWait(t));
    if a.parent == Idle then a
    else
      var b := Next(a, Continue);
      var c := if b.parent.WaitDown? then Next(b, Continue) else b;
      Next(c, Continue)
  }

  /** In terms of one child: its fields afterwards, and what is returned. */
  lemma WaitedIs(s: Family, t: Tid)
    requires CanWaitNow(s, t)
    ensures var c, u := s.children[t], Waited(s, t);
            && u.parent == Idle && t in u.children && |u.log| == |s.log| + 1
            && u.log[|s.log|].t == t && u.log[|s.log|].result == WaitResult(c)
            && u.children[t] == AfterWait(c)
  {}

  function WaitResult(c: Child): int {
    if c.parentWaiting then -1 else c.exitStatus
  }

  function AfterWait(c: Child): Child
    requires c.parentWaiting || c.curStatus != ALIVE || c.waitExit > 0
  {
    if c.parentWaiting then c
    else if c.curStatus == ALIVE then c.(parentWaiting := true, waitExit := c.waitExit - 1)
    else c.(parentWaiting := true)
  }
}
