/** The sleep queue of Assignment 3's timer.c: timer_sleep keeps the sleeping threads in
    order of their wake-up tick, and timer_interrupt wakes from the front until it meets a
    thread whose time has not come. */
module SleepQueue {
  import opened OrderedList
  import opened Threads

  /** One call of timer_sleep that went to sleep: started at tick start for wait ticks, put
      on the list at tick since, as number serial. */
  datatype Request = Request(tid: Tid, start: int, wait: int, since: int, serial: nat)

  const INT64_MAX := 0x7FFF_FFFF_FFFF_FFFF

  /** x cut to 64 bits and read as an unsigned number. */
  function Uint64(x: int): (r: int)
    ensures 0 <= r < 0x1_0000_0000_0000_0000
    ensures 0 <= x < 0x1_0000_0000_0000_0000 ==> r == x
  {
    x % 0x1_0000_0000_0000_0000
  }

  /** What timer_sleep stores in the uint64_t field sleep_time. */
  function Expiry(r: Request): int {
    Uint64(r.start + r.wait)
  }

  datatype Wake = Wake(request: Request, at: int)

  /** ticks, sleeping and sleepTime are the code's variables; the rest is history. */
  datatype Timer = Timer(ticks: int, sleeping: seq<Tid>, sleepTime: map<Tid, int>,
                         pending: map<Tid, Request>, issued: multiset<Request>, count: nat, woken: seq<Wake>)

  // ---------- The two operations ----------

  /** timer_sleep (wait) by running thread t, which read the clock at tick start. */
  function Sleep(s: Timer, t: Tid, wait: int, start: int): Timer
    requires Known(s)
  {
    if wait <= 0 then s
    else
      var r := Request(t, start, wait, s.ticks, s.count);
      var sleepTime := s.sleepTime[t := Expiry(r)];
      s.(sleepTime := sleepTime, sleeping := InsertOrdered(s.sleeping, t, sleepTime),
         pending := s.pending[t := r], issued := s.issued + multiset{r}, count := s.count + 1)
  }

  ghost predicate Known(s: Timer) {
    forall i :: 0 <= i < |s.sleeping| ==> s.sleeping[i] in s.sleepTime && s.sleeping[i] in s.pending
  }

  /** The elements of xs whose wake-up tick has come at tick now, by a full scan. */
  function Due(xs: seq<Tid>, sleepTime: map<Tid, int>, now: int): seq<Tid>
    requires Keyed(xs, sleepTime)
  {
    if xs == [] then []
    else (if sleepTime[xs[0]] <= now then [xs[0]] else []) + Due(xs[1..], sleepTime, now)
  }

  function NotDue(xs: seq<Tid>, sleepTime: map<Tid, int>, now: int): seq<Tid>
    requires Keyed(xs, sleepTime)
  {
    if xs == [] then []
    else (if sleepTime[xs[0]] > now then [xs[0]] else []) + NotDue(xs[1..], sleepTime, now)
  }

  function Wakes(xs: seq<Tid>, pending: map<Tid, Request>, at: int): (w: seq<Wake>)
    requires forall i :: 0 <= i < |xs| ==> xs[i] in pending
    ensures |w| == |xs| && forall i :: 0 <= i < |xs| ==> w[i] == Wake(pending[xs[i]], at)
  {
    seq(|xs|, i requires 0 <= i < |xs| => Wake(pending[xs[i]], at))
  }

  /** A timer interrupt that scans the whole list: every due thread is woken, in list
      order, has its sleep_time cleared and leaves the list. */
  function Interrupt(s: Timer): Timer
    requires Known(s)
  {
    var now := s.ticks + 1;
    var due := Due(s.sleeping, s.sleepTime, now);
    DueKnown(s, now);
    s.(ticks := now, sleeping := NotDue(s.sleeping, s.sleepTime, now),
       sleepTime := Cleared(s.sleepTime, due), woken := s.woken + Wakes(due, s.pending, now))
  }

  function Cleared(sleepTime: map<Tid, int>, due: seq<Tid>): map<Tid, int> {
    map t | t in sleepTime :: if t in due then 0 else sleepTime[t]
  }

  lemma DueKnown(s: Timer, now: int)
    requires Known(s)
    ensures forall i :: 0 <= i < |Due(s.sleeping, s.sleepTime, now)| ==>
              Due(s.sleeping, s.sleepTime, now)[i] in s.pending
  {
    DueMembers(s.sleeping, s.sleepTime, now);
    var due := Due(s.sleeping, s.sleepTime, now);
    forall i | 0 <= i < |due|
      ensures due[i] in s.pending
    {
      assert due[i] in due;
      var k :| 0 <= k < |s.sleeping| && s.sleeping[k] == due[i];
    }
  }

  lemma {:induction false} DueMembers(xs: seq<Tid>, sleepTime: map<Tid, int>, now: int)
    requires Keyed(xs, sleepTime)
    ensures forall t :: t in Due(xs, sleepTime, now) <==> t in xs && sleepTime[t] <= now
  {
    if xs != [] {
      DueMembers(xs[1..], sleepTime, now);
      assert xs == [xs[0]] + xs[1..];
    }
  }

  // ---------- The invariant ----------

  /** a wakes before b: an earlier deadline, or the same one asked for earlier. */
  ghost predicate Before(a: Request, b: Request) {
    Expiry(a) < Expiry(b) || (Expiry(a) == Expiry(b) && a.serial < b.serial)
  }

  /** start is an earlier reading of the clock, and wait a positive int64_t. */
  ghost predicate Asked(r: Request) {
    0 <= r.start <= r.since && 0 < r.wait <= INT64_MAX
  }

  /** A sleeper on the list: its deadline is ahead, unless it only just lay down. */
  ghost predicate Sleeper(s: Timer, t: Tid)
    requires t in s.sleepTime && t in s.pending
  {
    var r := s.pending[t];
    && r.tid == t && s.sleepTime[t] == Expiry(r)
    && Asked(r) && r.since <= s.ticks && r.serial < s.count
    && (Expiry(r) > s.ticks || r.since == s.ticks)
  }

  /** When the request must be answered: at its deadline, or at the first interrupt after
      it got onto the list if that came later. */
  function DueTick(r: Request): int {
    if Expiry(r) > r.since then Expiry(r) else r.since + 1
  }

  ghost function Pending(xs: seq<Tid>, pending: map<Tid, Request>): multiset<Request> {
    if xs == [] then multiset{}
    else (if xs[0] in pending then multiset{pending[xs[0]]} else multiset{}) + Pending(xs[1..], pending)
  }

  ghost function Answered(woken: seq<Wake>): multiset<Request> {
    if woken == [] then multiset{}
    else Answered(woken[..|woken| - 1]) + multiset{woken[|woken| - 1].request}
  }

  ghost predicate InOrder(s: Timer)
    requires Known(s)
  {
    forall i, j :: 0 <= i < j < |s.sleeping| ==> Before(s.pending[s.sleeping[i]], s.pending[s.sleeping[j]])
  }

  ghost predicate OnceEach(issued: multiset<Request>, count: nat) {
    forall r :: r in issued ==> issued[r] == 1 && r.serial < count
  }

  /** An answer given when it was due. */
  ghost predicate Answer(s: Timer, w: Wake) {
    w.at == DueTick(w.request) && w.at <= s.ticks && Asked(w.request)
  }

  /** Answers are in order of time, and those of one interrupt in order of waking. */
  ghost predicate WokenInOrder(woken: seq<Wake>) {
    forall i, j :: 0 <= i < j < |woken| ==>
      woken[i].at < woken[j].at || (woken[i].at == woken[j].at && Before(woken[i].request, woken[j].request))
  }

  ghost predicate AllSleepers(s: Timer)
    requires Known(s)
  {
    forall i :: 0 <= i < |s.sleeping| ==> Sleeper(s, s.sleeping[i])
  }

  ghost predicate AllAnswers(s: Timer) {
    forall i :: 0 <= i < |s.woken| ==> Answer(s, s.woken[i])
  }

  /** Every request is on the list or answered. */
  ghost predicate Balanced(s: Timer) {
    s.issued == Pending(s.sleeping, s.pending) + Answered(s.woken)
  }

  ghost predicate Inv(s: Timer) {
    && Known(s) && InOrder(s) && AllSleepers(s)
    && Balanced(s) && OnceEach(s.issued, s.count)
    && AllAnswers(s) && WokenInOrder(s.woken)
  }

  /** Once a timer interrupt is over, no sleeper is overdue. */
  ghost predicate NoneOverdue(s: Timer) {
    forall i :: 0 <= i < |s.sleeping| ==> s.sleeping[i] in s.sleepTime && s.sleepTime[s.sleeping[i]] > s.ticks
  }

  // ---------- A full scan against the front of a sorted list ----------

  lemma {:induction false} SortedScan(xs: seq<Tid>, sleepTime: map<Tid, int>, now: int, k: nat)
    requires Keyed(xs, sleepTime) && k <= |xs|
    requires forall i :: 0 <= i < k ==> sleepTime[xs[i]] <= now
    requires forall i :: k <= i < |xs| ==> sleepTime[xs[i]] > now
    ensures Due(xs, sleepTime, now) == xs[..k] && NotDue(xs, sleepTime, now) == xs[k..]
  {
    if xs != [] {
      SortedScan(xs[1..], sleepTime, now, if k > 0 then k - 1 else 0);
      if k > 0 {
        assert xs[..k] == [xs[0]] + xs[1..][..k - 1];
      }
    }
  }

  lemma {:induction false} PendingSplit(xs: seq<Tid>, k: nat, pending: map<Tid, Request>)
    requires k <= |xs|
    ensures Pending(xs, pending) == Pending(xs[..k], pending) + Pending(xs[k..], pending)
  {
    if k > 0 {
      PendingSplit(xs[1..], k - 1, pending);
      assert xs[..k][1..] == xs[1..][..k - 1] && xs[k..] == xs[1..][k - 1..];
    } else {
      assert xs[..0] == [] && xs[0..] == xs;
    }
  }

  lemma {:induction false} AnsweredWakes(woken: seq<Wake>, xs: seq<Tid>, pending: map<Tid, Request>, at: int)
    requires forall i :: 0 <= i < |xs| ==> xs[i] in pending
    ensures Answered(woken + Wakes(xs, pending, at)) == Answered(woken) + Pending(xs, pending)
    decreases |xs|
  {
    if xs == [] {
      assert woken + Wakes(xs, pending, at) == woken;
    } else {
      var first, rest := Wake(pending[xs[0]], at), Wakes(xs[1..], pending, at);
      assert woken + Wakes(xs, pending, at) == (woken + [first]) + rest;
      AnsweredLast(woken, first);
      AnsweredWakes(woken + [first], xs[1..], pending, at);
      hide Answered, Wakes;
    }
  }

  lemma AnsweredLast(woken: seq<Wake>, w: Wake)
    ensures Answered(woken + [w]) == Answered(woken) + multiset{w.request}
  {
    assert (woken + [w])[..|woken|] == woken;
  }

  lemma PendingFirst(t: Tid, xs: seq<Tid>, pending: map<Tid, Request>)
    requires t in pending
    ensures Pending([t] + xs, pending) == multiset{pending[t]} + Pending(xs, pending)
  {
    assert ([t] + xs)[1..] == xs;
  }

  /** In a sorted list the due threads are a prefix. */
  lemma {:induction false} DuePrefix(xs: seq<Tid>, sleepTime: map<Tid, int>, now: int) returns (k: nat)
    requires Keyed(xs, sleepTime) && SortedBy(xs, sleepTime)
    ensures k <= |xs|
    ensures forall i :: 0 <= i < k ==> sleepTime[xs[i]] <= now
    ensures forall i :: k <= i < |xs| ==> sleepTime[xs[i]] > now
  {
    k := 0;
    if xs != [] && sleepTime[xs[0]] <= now {
      var m := DuePrefix(xs[1..], sleepTime, now);
      k := m + 1;
    }
  }

  // ---------- Both operations keep the invariant ----------

  lemma InvSorted(s: Timer)
    requires Inv(s)
    ensures Keyed(s.sleeping, s.sleepTime) && SortedBy(s.sleeping, s.sleepTime)
  {
    forall i, j | 0 <= i < j < |s.sleeping|
      ensures s.sleepTime[s.sleeping[i]] <= s.sleepTime[s.sleeping[j]]
    {
      assert Before(s.pending[s.sleeping[i]], s.pending[s.sleeping[j]]);
    }
  }

  ghost predicate CanSleep(s: Timer, t: Tid, wait: int, start: int) {
    t !in s.sleeping && 0 <= start <= s.ticks && wait <= INT64_MAX
  }

  lemma {:induction false} PendingOthers(xs: seq<Tid>, pending: map<Tid, Request>, t: Tid, r: Request)
    requires t !in xs
    ensures Pending(xs, pending[t := r]) == Pending(xs, pending)
  {
    if xs != [] {
      PendingOthers(xs[1..], pending, t, r);
    }
  }

  lemma SleepInserts(s: Timer, t: Tid, wait: int, start: int) returns (i: nat)
    requires Inv(s) && CanSleep(s, t, wait, start) && wait > 0
    ensures i <= |s.sleeping|
    ensures Sleep(s, t, wait, start).sleeping == s.sleeping[..i] + [t] + s.sleeping[i..]
    ensures forall j :: 0 <= j < i ==> s.sleepTime[s.sleeping[j]] <= Uint64(start + wait)
    ensures forall j :: i <= j < |s.sleeping| ==> s.sleepTime[s.sleeping[j]] > Uint64(start + wait)
  {
    InvSorted(s);
    var u := Sleep(s, t, wait, start);
    forall i | 0 <= i < |s.sleeping|
      ensures u.sleepTime[s.sleeping[i]] == s.sleepTime[s.sleeping[i]]
    {
      assert s.sleeping[i] in s.sleeping;
    }
    hide Pending, Before, Sleeper, DueTick, Answered, OnceEach;
    i := InsertSplit(s.sleeping, t, u.sleepTime);
  }

  lemma SleepKeepsOrder(s: Timer, t: Tid, wait: int, start: int)
    requires Inv(s) && CanSleep(s, t, wait, start) && wait > 0
    ensures var u := Sleep(s, t, wait, start);
            && Known(u) && InOrder(u) && forall j :: 0 <= j < |u.sleeping| ==> Sleeper(u, u.sleeping[j])
  {
    var i := SleepInserts(s, t, wait, start);
    hide InsertOrdered, Before, Sleeper, InOrder, OnceEach;
    var u := Sleep(s, t, wait, start);
    SleepSleepers(s, u, t, u.pending[t], i);
    SleepOrder(s, u, t, u.pending[t], i);
  }

  lemma SleepKeepsAccount(s: Timer, t: Tid, wait: int, start: int)
    requires Inv(s) && CanSleep(s, t, wait, start) && wait > 0
    ensures var u := Sleep(s, t, wait, start);
            u.issued == Pending(u.sleeping, u.pending) + Answered(u.woken) && OnceEach(u.issued, u.count)
  {
    var i := SleepInserts(s, t, wait, start);
    hide InsertOrdered, Before, Sleeper, InOrder, OnceEach, Pending, Answered;
    var u := Sleep(s, t, wait, start);
    SleepPending(s, u, t, u.pending[t], i);
    IssueOne(s.issued, Pending(s.sleeping, s.pending), Answered(s.woken), u.pending[t], s.count);
  }

  lemma SleepKeepsInv(s: Timer, t: Tid, wait: int, start: int)
    requires Inv(s) && CanSleep(s, t, wait, start)
    ensures Inv(Sleep(s, t, wait, start))
  {
    if wait > 0 {
      SleepKeepsOrder(s, t, wait, start);
      SleepKeepsAccount(s, t, wait, start);
      hide InsertOrdered, Before, Sleeper, InOrder, OnceEach, Pending, Answered, DueTick;
    }
  }

  lemma IssueOne(issued: multiset<Request>, p: multiset<Request>, a: multiset<Request>, r: Request, count: nat)
    requires OnceEach(issued, count) && r.serial == count && issued == p + a
    ensures OnceEach(issued + multiset{r}, count + 1) && issued + multiset{r} == (p + multiset{r}) + a
  {}

  lemma SleepPending(s: Timer, u: Timer, t: Tid, r: Request, i: nat)
    requires t !in s.sleeping && i <= |s.sleeping|
    requires u.sleeping == s.sleeping[..i] + [t] + s.sleeping[i..] && u.pending == s.pending[t := r]
    ensures Pending(u.sleeping, u.pending) == Pending(s.sleeping, s.pending) + multiset{r}
  {
    var front, back := s.sleeping[..i], s.sleeping[i..];
    assert u.sleeping[..i] == front && u.sleeping[i..] == [t] + back;
    hide Pending;
    PendingSplit(s.sleeping, i, s.pending);
    PendingSplit(u.sleeping, i, u.pending);
    PendingFirst(t, back, u.pending);
    PendingOthers(front, s.pending, t, r);
    PendingOthers(back, s.pending, t, r);
  }

  /** u is s with request r of thread t at place i of the list. */
  ghost predicate Joined(s: Timer, u: Timer, t: Tid, r: Request, i: nat) {
    && t !in s.sleeping && i <= |s.sleeping|
    && u.sleeping == s.sleeping[..i] + [t] + s.sleeping[i..] && u.pending == s.pending[t := r]
    && u.sleepTime == s.sleepTime[t := Expiry(r)]
    && r.serial == s.count && u.count == s.count + 1 && u.ticks == s.ticks
    && r.tid == t && Asked(r) && r.since == s.ticks
  }

  lemma OldSleeper(s: Timer, u: Timer, t: Tid, r: Request, i: nat, j: nat)
    requires Inv(s) && Joined(s, u, t, r, i) && j < |u.sleeping| && j != i
    ensures var old' := if j < i then j else j - 1;
            && old' < |s.sleeping| && u.sleeping[j] == s.sleeping[old']
            && u.sleeping[j] in s.pending && u.sleeping[j] in s.sleepTime
            && u.sleeping[j] != t && Sleeper(s, u.sleeping[j])
  {
    var old' := if j < i then j else j - 1;
    assert s.sleeping[old'] in s.sleeping && Sleeper(s, s.sleeping[old']);
  }

  lemma SleepSleepers(s: Timer, u: Timer, t: Tid, r: Request, i: nat)
    requires Inv(s) && Joined(s, u, t, r, i)
    ensures Known(u) && forall j :: 0 <= j < |u.sleeping| ==> Sleeper(u, u.sleeping[j])
  {
    forall j | 0 <= j < |u.sleeping|
      ensures u.sleeping[j] in u.sleepTime && u.sleeping[j] in u.pending && Sleeper(u, u.sleeping[j])
    {
      if j != i {
        OldSleeper(s, u, t, r, i, j);
      }
    }
  }

  lemma SleepOrder(s: Timer, u: Timer, t: Tid, r: Request, i: nat)
    requires Inv(s) && Joined(s, u, t, r, i)
    requires forall j :: 0 <= j < i ==> s.sleepTime[s.sleeping[j]] <= Expiry(r)
    requires forall j :: i <= j < |s.sleeping| ==> s.sleepTime[s.sleeping[j]] > Expiry(r)
    ensures Known(u) && InOrder(u)
  {
    SleepSleepers(s, u, t, r, i);
    forall k, l | 0 <= k < l < |u.sleeping|
      ensures Before(u.pending[u.sleeping[k]], u.pending[u.sleeping[l]])
    {
      if k != i {
        OldSleeper(s, u, t, r, i, k);
      }
      if l != i {
        OldSleeper(s, u, t, r, i, l);
      }
      if k != i && l != i {
        var k', l' := if k < i then k else k - 1, if l < i then l else l - 1;
        assert Before(s.pending[s.sleeping[k']], s.pending[s.sleeping[l']]);
      }
    }
  }

  /** A scan at the next tick would wake the first k threads of the list. */
  ghost predicate SplitsAt(s: Timer, k: nat)
    requires Known(s)
  {
    && k <= |s.sleeping|
    && Due(s.sleeping, s.sleepTime, s.ticks + 1) == s.sleeping[..k] && Interrupt(s).sleeping == s.sleeping[k..]
    && (forall i :: 0 <= i < k ==> s.sleepTime[s.sleeping[i]] <= s.ticks + 1)
    && (forall i :: k <= i < |s.sleeping| ==> s.sleepTime[s.sleeping[i]] > s.ticks + 1)
  }

  lemma FindSplit(s: Timer) returns (k: nat)
    requires Inv(s)
    ensures SplitsAt(s, k)
  {
    InvSorted(s);
    k := DuePrefix(s.sleeping, s.sleepTime, s.ticks + 1);
    SortedScan(s.sleeping, s.sleepTime, s.ticks + 1, k);
  }

  /** What the interrupt does to the fields, in terms of the split. */
  lemma InterruptIs(s: Timer, k: nat)
    requires Known(s) && SplitsAt(s, k)
    ensures forall i :: 0 <= i < k ==> s.sleeping[..k][i] in s.pending
    ensures var u := Interrupt(s);
            && u.ticks == s.ticks + 1 && u.sleeping == s.sleeping[k..]
            && u.sleepTime == Cleared(s.sleepTime, s.sleeping[..k])
            && u.pending == s.pending && u.issued == s.issued && u.count == s.count
            && u.woken == s.woken + Wakes(s.sleeping[..k], s.pending, s.ticks + 1)
  {
    DueKnown(s, s.ticks + 1);
    hide Due, NotDue, Cleared, Wakes;
  }

  lemma Accounts(s: Timer, k: nat)
    requires Known(s) && SplitsAt(s, k) && Balanced(s)
    ensures Balanced(Interrupt(s))
  {
    hide Interrupt, Pending, Answered, Wakes, SplitsAt, Due, Cleared;
    assert k <= |s.sleeping| by { SplitLength(s, k); }
    InterruptIs(s, k);
    PendingSplit(s.sleeping, k, s.pending);
    AnsweredWakes(s.woken, s.sleeping[..k], s.pending, s.ticks + 1);
    Regroup(Pending(s.sleeping[..k], s.pending), Pending(s.sleeping[k..], s.pending), Answered(s.woken));
  }

  lemma SplitLength(s: Timer, k: nat)
    requires Known(s) && SplitsAt(s, k)
    ensures k <= |s.sleeping|
  {}

  lemma Regroup(a: multiset<Request>, b: multiset<Request>, c: multiset<Request>)
    ensures (a + b) + c == b + (c + a)
  {}

  lemma Distinct(s: Timer, i: nat, j: nat)
    requires Known(s) && InOrder(s) && i < j < |s.sleeping|
    ensures s.sleeping[i] != s.sleeping[j]
  {
    assert Before(s.pending[s.sleeping[i]], s.pending[s.sleeping[j]]);
  }

  lemma NotAmongFirst(s: Timer, j: nat, m: nat)
    requires Known(s) && InOrder(s) && m <= j < |s.sleeping|
    ensures s.sleeping[j] !in s.sleeping[..m]
  {
    forall i | 0 <= i < m
      ensures s.sleeping[i] != s.sleeping[j]
    {
      Distinct(s, i, j);
    }
  }

  /** A thread behind the split keeps its time and request. */
  lemma StaysAsleep(s: Timer, k: nat, i: nat)
    requires Known(s) && InOrder(s) && AllSleepers(s) && SplitsAt(s, k) && k <= i < |s.sleeping|
    ensures var u, t := Interrupt(s), s.sleeping[i];
            && u.sleeping == s.sleeping[k..] && u.pending == s.pending
            && t in u.sleepTime && u.sleepTime[t] > u.ticks && Sleeper(u, t)
  {
    InterruptIs(s, k);
    assert Sleeper(s, s.sleeping[i]);
    hide InOrder, Interrupt, Wakes, Expiry;
    NotAmongFirst(s, i, k);
  }

  lemma StillAsleep(s: Timer, k: nat)
    requires Known(s) && InOrder(s) && AllSleepers(s) && SplitsAt(s, k)
    ensures var u := Interrupt(s); Known(u) && AllSleepers(u) && NoneOverdue(u)
  {
    var u := Interrupt(s);
    SplitLength(s, k);
    hide InOrder, Sleeper, SplitsAt, Interrupt, AllSleepers;
    InterruptIs(s, k);
    forall i | 0 <= i < |u.sleeping|
      ensures u.sleeping[i] in u.sleepTime && u.sleeping[i] in u.pending
      ensures u.sleepTime[u.sleeping[i]] > u.ticks && Sleeper(u, u.sleeping[i])
    {
      StaysAsleep(s, k, k + i);
    }
    AllSleepersIs(u);
  }

  lemma AllSleepersIs(s: Timer)
    requires Known(s) && forall i :: 0 <= i < |s.sleeping| ==> Sleeper(s, s.sleeping[i])
    ensures AllSleepers(s)
  {}

  lemma StillInOrder(s: Timer, k: nat)
    requires Known(s) && InOrder(s) && SplitsAt(s, k) && Known(Interrupt(s))
    ensures InOrder(Interrupt(s))
  {
    SplitLength(s, k);
    InterruptIs(s, k);
    hide Interrupt, SplitsAt, Before, Wakes, Cleared;
  }

  lemma OrderContinues(a: seq<Wake>, b: seq<Wake>, now: int)
    requires WokenInOrder(a) && (forall i :: 0 <= i < |a| ==> a[i].at < now)
    requires forall i :: 0 <= i < |b| ==> b[i].at == now
    requires forall i, j :: 0 <= i < j < |b| ==> Before(b[i].request, b[j].request)
    ensures WokenInOrder(a + b)
  {
    hide Before;
  }

  lemma WakesOnTime(s: Timer, k: nat)
    requires Known(s) && AllSleepers(s) && InOrder(s) && SplitsAt(s, k)
    ensures forall i :: 0 <= i < k ==> s.sleeping[..k][i] in s.pending
    ensures var w := Wakes(s.sleeping[..k], s.pending, s.ticks + 1);
            && (forall i :: 0 <= i < k ==> Answer(s.(ticks := s.ticks + 1), w[i]))
            && (forall i, j :: 0 <= i < j < k ==> Before(w[i].request, w[j].request))
  {
    hide Interrupt, Expiry, Due;
    forall i | 0 <= i < k
      ensures s.sleeping[..k][i] == s.sleeping[i] && Sleeper(s, s.sleeping[i])
    {}
    var w := Wakes(s.sleeping[..k], s.pending, s.ticks + 1);
    forall i, j | 0 <= i < j < k
      ensures Before(w[i].request, w[j].request)
    {
      assert Before(s.pending[s.sleeping[i]], s.pending[s.sleeping[j]]);
    }
  }

  lemma WokenOnTime(s: Timer, k: nat)
    requires Known(s) && AllSleepers(s) && InOrder(s) && AllAnswers(s) && WokenInOrder(s.woken) && SplitsAt(s, k)
    ensures var u := Interrupt(s);
            && |u.woken| == |s.woken| + k && AllAnswers(u) && WokenInOrder(u.woken)
            && (forall i, j :: |s.woken| <= i < j < |u.woken| ==> Before(u.woken[i].request, u.woken[j].request))
  {
    SplitLength(s, k);
    hide SplitsAt, Sleeper, AllSleepers, InOrder, Before, Interrupt, Wakes, DueTick, WokenInOrder, Cleared;
    WakesOnTime(s, k);
    InterruptIs(s, k);
    var u, w := Interrupt(s), Wakes(s.sleeping[..k], s.pending, s.ticks + 1);
    forall i | 0 <= i < |s.woken|
      ensures Answer(u, u.woken[i]) && u.woken[i].at < s.ticks + 1
    {
      assert Answer(s, s.woken[i]);
    }
    OrderContinues(s.woken, w, s.ticks + 1);
  }

  lemma WokenAreCleared(s: Timer, k: nat)
    requires Known(s) && SplitsAt(s, k)
    ensures k <= |s.sleeping|
    ensures forall i :: 0 <= i < k ==>
              s.sleeping[i] in Interrupt(s).sleepTime && Interrupt(s).sleepTime[s.sleeping[i]] == 0
    ensures forall t :: t in s.sleepTime && t !in s.sleeping ==>
              t in Interrupt(s).sleepTime && Interrupt(s).sleepTime[t] == s.sleepTime[t]
  {
    SplitLength(s, k);
    InterruptIs(s, k);
    hide SplitsAt, Interrupt, Wakes;
    forall i | 0 <= i < k
      ensures s.sleeping[i] in s.sleeping[..k]
    {
      assert s.sleeping[..k][i] == s.sleeping[i];
    }
  }

  /** A timer interrupt keeps the invariant and leaves nobody overdue; it wakes a prefix
      of the list, in order of deadline and then of arrival, and clears their times alone. */
  lemma InterruptKeepsInv(s: Timer) returns (k: nat)
    requires Inv(s)
    ensures var u := Interrupt(s);
            && Inv(u) && NoneOverdue(u) && SplitsAt(s, k)
            && |u.woken| == |s.woken| + k
            && (forall i, j :: |s.woken| <= i < j < |u.woken| ==> Before(u.woken[i].request, u.woken[j].request))
    ensures k <= |s.sleeping|
    ensures forall i :: 0 <= i < k ==>
              s.sleeping[i] in Interrupt(s).sleepTime && Interrupt(s).sleepTime[s.sleeping[i]] == 0
    ensures forall t :: t in s.sleepTime && t !in s.sleeping ==>
              t in Interrupt(s).sleepTime && Interrupt(s).sleepTime[t] == s.sleepTime[t]
  {
    hide SplitsAt, InOrder, AllSleepers, Balanced, OnceEach, AllAnswers, WokenInOrder, NoneOverdue, Before, Interrupt,
      Known;
    k := FindSplit(s);
    WokenAreCleared(s, k);
    InterruptIs(s, k);
    WokenOnTime(s, k);
    StillAsleep(s, k);
    StillInOrder(s, k);
    Accounts(s, k);
  }

  // ---------- Runs ----------

  datatype Op = CallSleep(t: Tid, wait: int, start: int) | TimerInterrupt

  ghost predicate Reaches(s0: Timer, ops: seq<Op>, s: Timer)
    decreases |ops|
  {
    if ops == [] then s == s0
    else
      && Known(s0)
      && match ops[0]
         case CallSleep(t, wait, start) =>
           CanSleep(s0, t, wait, start) && Reaches(Sleep(s0, t, wait, start), ops[1..], s)
         case TimerInterrupt => Reaches(Interrupt(s0), ops[1..], s)
  }

  /** After timer_init. */
  const START := Timer(0, [], map[], map[], multiset{}, 0, [])

  lemma {:induction false} RunKeepsInv(s0: Timer, ops: seq<Op>, s: Timer)
    requires Inv(s0) && Reaches(s0, ops, s)
    ensures Inv(s)
    decreases |ops|
  {
    if ops != [] {
      match ops[0]
      case CallSleep(t, wait, start) =>
        SleepKeepsInv(s0, t, wait, start);
        RunKeepsInv(Sleep(s0, t, wait, start), ops[1..], s);
      case TimerInterrupt =>
        var k := InterruptKeepsInv(s0);
        RunKeepsInv(Interrupt(s0), ops[1..], s);
    }
  }

  /** What the calls of timer_sleep in ops ask for, in order, when the first operation comes
      at this tick and the next request has this number: a call with a positive wait asks once. */
  function Requests(ops: seq<Op>, ticks: int, serial: nat): seq<Request> {
    if ops == [] then []
    else
      match ops[0]
      case TimerInterrupt => Requests(ops[1..], ticks + 1, serial)
      case CallSleep(t, wait, start) =>
        if wait <= 0 then Requests(ops[1..], ticks, serial)
        else [Request(t, start, wait, ticks, serial)] + Requests(ops[1..], ticks, serial + 1)
  }

  lemma OneMore(issued: multiset<Request>, r: Request, rest: seq<Request>)
    ensures (issued + multiset{r}) + multiset(rest) == issued + multiset([r] + rest)
  {}

  /** A run records the requests its calls make, and no others. */
  lemma {:induction false} RunIssues(s0: Timer, ops: seq<Op>, s: Timer)
    requires Reaches(s0, ops, s)
    ensures s.issued == s0.issued + multiset(Requests(ops, s0.ticks, s0.count))
    decreases |ops|
  {
    if ops == [] {
    } else {
      match ops[0]
      case TimerInterrupt => RunIssues(Interrupt(s0), ops[1..], s);
      case CallSleep(t, wait, start) =>
        RunIssues(Sleep(s0, t, wait, start), ops[1..], s);
        if wait > 0 {
          OneMore(s0.issued, Request(t, start, wait, s0.ticks, s0.count), Requests(ops[1..], s0.ticks, s0.count + 1));
        }
    }
  }

  /** The condition on which the polling loop that timer_sleep replaces would end. */
  predicate PollEnds(r: Request, tick: int) {
    tick - r.start >= r.wait
  }

  /** Answered at the first tick, after the thread got onto the list, at which polling
      would have ended. */
  ghost predicate OnTime(w: Wake) {
    && w.at > w.request.since && PollEnds(w.request, w.at)
    && forall tick :: w.request.since < tick < w.at ==> !PollEnds(w.request, tick)
  }

  /** The sum of two int64_t values that are not negative is exact in a uint64_t, so every
      answer is on time. */
  lemma AnswersAreOnTime(s: Timer, w: Wake)
    requires Answer(s, w) && s.ticks <= INT64_MAX
    ensures OnTime(w)
  {}

  /** In every run, as long as the tick counter itself fits 64 bits: each call with a
      positive wait makes one request, of its thread, reading of the clock and wait; each
      request is on the list or has been answered, never both or twice; an answer comes at the first tick
      after the thread got onto the list at which polling would have ended; answers are in
      order of time and then of deadline and arrival; and no request is still waiting
      after the tick at which it is due. */
  lemma SleepersWakeOnTime(ops: seq<Op>, s: Timer)
    requires Reaches(START, ops, s) && s.ticks <= INT64_MAX
    ensures s.issued == multiset(Requests(ops, 0, 0))
    ensures s.issued == Pending(s.sleeping, s.pending) + Answered(s.woken)
    ensures forall r :: r in s.issued ==> s.issued[r] == 1
    ensures forall i :: 0 <= i < |s.woken| ==> OnTime(s.woken[i])
    ensures WokenInOrder(s.woken)
    ensures forall i :: 0 <= i < |s.sleeping| ==>
              s.sleeping[i] in s.pending && DueTick(s.pending[s.sleeping[i]]) > s.ticks
  {
    hide Inv, Reaches, OnTime, WokenInOrder, Answered, Pending, Expiry, Requests;
    StartIsFine();
    RunKeepsInv(START, ops, s);
    RunIssues(START, ops, s);
    EachOnce(s);
    AllOnTime(s);
    NoneForgotten(s);
  }

  lemma StartIsFine()
    ensures Inv(START)
  {}

  lemma EachOnce(s: Timer)
    requires Inv(s)
    ensures s.issued == Pending(s.sleeping, s.pending) + Answered(s.woken) && WokenInOrder(s.woken)
    ensures forall r :: r in s.issued ==> s.issued[r] == 1
  {
    hide Sleeper, Answer, InOrder, WokenInOrder, Pending, Answered;
  }

  lemma AllOnTime(s: Timer)
    requires Inv(s) && s.ticks <= INT64_MAX
    ensures forall i :: 0 <= i < |s.woken| ==> OnTime(s.woken[i])
  {
    hide Sleeper, OnTime, Answer, InOrder, WokenInOrder, Pending, Answered;
    forall i | 0 <= i < |s.woken|
      ensures OnTime(s.woken[i])
    {
      AnswersAreOnTime(s, s.woken[i]);
    }
  }

  lemma NoneForgotten(s: Timer)
    requires Inv(s)
    ensures forall i :: 0 <= i < |s.sleeping| ==>
              s.sleeping[i] in s.pending && DueTick(s.pending[s.sleeping[i]]) > s.ticks
  {
    hide Expiry, Answer, InOrder, WokenInOrder, Pending, Answered;
    forall i | 0 <= i < |s.sleeping|
      ensures s.sleeping[i] in s.pending && DueTick(s.pending[s.sleeping[i]]) > s.ticks
    {
      assert Sleeper(s, s.sleeping[i]);
    }
  }

  // ---------- The interrupt's loop ----------

  /** Inside timer_interrupt, after waking the first j threads of the list it found. */
  ghost predicate WokenSoFar(s: Timer, u: Timer, j: nat)
    requires Known(s)
  {
    && j <= |s.sleeping|
    && u == s.(ticks := s.ticks + 1, sleeping := s.sleeping[j..],
               sleepTime := Cleared(s.sleepTime, s.sleeping[..j]),
               woken := s.woken + Wakes(s.sleeping[..j], s.pending, s.ticks + 1))
  }

  lemma NoneWokenYet(s: Timer)
    requires Known(s)
    ensures WokenSoFar(s, s.(ticks := s.ticks + 1), 0)
  {
    assert Cleared(s.sleepTime, []) == s.sleepTime;
  }

  /** The next sleeper's time is untouched, and it is due exactly if it is among the k
      that a full scan would wake. */
  lemma FrontOfList(s: Timer, u: Timer, j: nat, k: nat)
    requires Inv(s) && SplitsAt(s, k) && WokenSoFar(s, u, j) && j <= k && u.sleeping != []
    ensures j < |s.sleeping| && u.sleeping[0] == s.sleeping[j]
    ensures u.sleeping[0] in u.sleepTime && u.sleeping[0] in u.pending
    ensures u.sleepTime[u.sleeping[0]] <= u.ticks <==> j < k
  {
    assert s.sleeping[j] in s.sleepTime && s.sleeping[j] in s.pending;
    hide InOrder, AllSleepers, Balanced, OnceEach, AllAnswers, WokenInOrder, Due, Interrupt, Wakes;
    NotAmongFirst(s, j, j);
  }

  /** The thread at the front of the list is unblocked. */
  ghost function FrontWoken(u: Timer): Timer
    requires u.sleeping != [] && u.sleeping[0] in u.pending
  {
    var t := u.sleeping[0];
    u.(sleeping := u.sleeping[1..], sleepTime := u.sleepTime[t := 0],
       woken := u.woken + [Wake(u.pending[t], u.ticks)])
  }

  lemma WakeOne(s: Timer, u: Timer, j: nat)
    requires Known(s) && WokenSoFar(s, u, j) && j < |s.sleeping|
    requires u.sleeping != [] && s.sleeping[j] in u.sleepTime && u.sleeping[0] in u.pending
    ensures WokenSoFar(s, FrontWoken(u), j + 1)
  {
    assert s.sleeping[..j + 1] == s.sleeping[..j] + [s.sleeping[j]];
    var t := s.sleeping[j];
    assert u.sleepTime[t := 0] == Cleared(s.sleepTime, s.sleeping[..j + 1]);
    assert Wakes(s.sleeping[..j + 1], s.pending, s.ticks + 1)
        == Wakes(s.sleeping[..j], s.pending, s.ticks + 1) + [Wake(s.pending[t], s.ticks + 1)];
  }
}
