/** The bounded max-heap of jobs that producers and consumers share: insert_job and
    remove_job of Assignment 5, working in place on a one-based array. */
module JobHeap {

  datatype Job = Job(procId: int, prodNum: int, priority: int, compTime: int, jobId: int)

  /** No job of m is more urgent than j. */
  ghost predicate IsMax(j: Job, m: multiset<Job>) {
    j in m && forall k :: k in m ==> k.priority <= j.priority
  }

  // ---------- The heap order on one-based slots 1..n ----------

  ghost predicate Ordered(s: seq<Job>, n: nat)
    requires n < |s|
  {
    forall j :: 2 <= j <= n ==> s[j].priority <= s[j / 2].priority
  }

  /** Ordered everywhere except possibly between slot i and its parent; i's children
      are still below i's parent. */
  ghost predicate OrderedExceptUp(s: seq<Job>, n: nat, i: nat)
    requires n < |s|
  {
    && (forall j :: 2 <= j <= n && j != i ==> s[j].priority <= s[j / 2].priority)
    && (forall j :: 2 <= j <= n && j / 2 == i && 2 <= i ==> s[j].priority <= s[i / 2].priority)
  }

  /** Ordered everywhere except possibly between slot i and its children; those children
      are still below i's parent. */
  ghost predicate OrderedExceptDown(s: seq<Job>, n: nat, i: nat)
    requires n < |s|
  {
    && (forall j :: 2 <= j <= n && j / 2 != i ==> s[j].priority <= s[j / 2].priority)
    && (forall j :: 2 <= j <= n && j / 2 == i && 2 <= i ==> s[j].priority <= s[i / 2].priority)
  }

  /** The slots in use, as a multiset. */
  ghost function Slots(s: seq<Job>, n: nat): multiset<Job>
    requires n < |s|
  {
    multiset(s[1..n + 1])
  }

  lemma {:induction false} RootIsLargest(s: seq<Job>, n: nat, j: nat)
    requires n < |s| && Ordered(s, n) && 1 <= j <= n
    ensures s[j].priority <= s[1].priority
    decreases j
  {
    if j != 1 {
      RootIsLargest(s, n, j / 2);
    }
  }

  lemma RootIsMax(s: seq<Job>, n: nat)
    requires 1 <= n < |s| && Ordered(s, n)
    ensures IsMax(s[1], Slots(s, n))
  {
    var used := s[1..n + 1];
    assert used[0] == s[1];
    forall k | k in Slots(s, n)
      ensures k.priority <= s[1].priority
    {
      var i :| 0 <= i < |used| && used[i] == k;
      RootIsLargest(s, n, i + 1);
    }
  }

  function Swap(s: seq<Job>, a: nat, b: nat): (r: seq<Job>)
    requires a < |s| && b < |s|
    ensures |r| == |s|
  {
    s[a := s[b]][b := s[a]]
  }

  lemma SwapKeepsSlots(s: seq<Job>, n: nat, a: nat, b: nat)
    requires n < |s| && 1 <= a <= n && 1 <= b <= n
    ensures Slots(Swap(s, a, b), n) == Slots(s, n)
  {
    var used := s[1..n + 1];
    assert Swap(s, a, b)[1..n + 1] == used[a - 1 := used[b - 1]][b - 1 := used[a - 1]];
  }

  /** One round of sift-up moves the only possible violation to the parent. */
  lemma SiftUpStep(s: seq<Job>, n: nat, i: nat)
    requires n < |s| && 2 <= i <= n
    requires OrderedExceptUp(s, n, i) && s[i / 2].priority < s[i].priority
    ensures OrderedExceptUp(Swap(s, i, i / 2), n, i / 2)
  {
    var t := Swap(s, i, i / 2);
    forall j | 2 <= j <= n && j != i / 2
      ensures t[j].priority <= t[j / 2].priority
    {
      assert j == i || s[j].priority <= s[j / 2].priority;
    }
    forall j | 2 <= j <= n && j / 2 == i / 2 && 2 <= i / 2
      ensures t[j].priority <= t[i / 2 / 2].priority
    {
      assert s[i / 2].priority <= s[i / 2 / 2].priority;
      assert j == i || s[j].priority <= s[j / 2].priority;
    }
  }

  /** The slot among i and its children that holds the most urgent job. */
  function Larger(s: seq<Job>, n: nat, i: nat): (c: nat)
    requires n < |s| && 1 <= i <= n
    ensures i <= c <= n
  {
    var l := if 2 * i <= n && s[i].priority < s[2 * i].priority then 2 * i else i;
    if 2 * i + 1 <= n && s[l].priority < s[2 * i + 1].priority then 2 * i + 1 else l
  }

  /** One round of sift-down moves the only possible violation to the larger child, or
      finds that there is none. */
  lemma SiftDownStep(s: seq<Job>, n: nat, i: nat)
    requires n < |s| && 1 <= i <= n && OrderedExceptDown(s, n, i)
    ensures var c := Larger(s, n, i);
            if c == i then Ordered(s, n) else OrderedExceptDown(Swap(s, c, i), n, c)
  {
    var c := Larger(s, n, i);
    var t := Swap(s, c, i);
    assert forall j :: 2 <= j <= n && j / 2 == i ==> j == 2 * i || j == 2 * i + 1;
    if c != i {
      forall j | 2 <= j <= n && j / 2 != c
        ensures t[j].priority <= t[j / 2].priority
      {
        assert j / 2 == i || s[j].priority <= s[j / 2].priority;
      }
      forall j | 2 <= j <= n && j / 2 == c
        ensures t[j].priority <= t[c / 2].priority
      {
        assert s[j].priority <= s[j / 2].priority;
      }
    }
  }

  /** Moving the last job into the root slot removes the root from the slots in use and
      leaves only the root possibly out of order. */
  lemma LastToRoot(s: seq<Job>, n: nat)
    requires 2 <= n < |s| && Ordered(s, n)
    ensures OrderedExceptDown(s[1 := s[n]], n - 1, 1)
    ensures Slots(s[1 := s[n]], n - 1) == Slots(s, n) - multiset{s[1]}
  {
    assert s[1..n + 1] == [s[1]] + s[2..n] + [s[n]];
    assert s[1 := s[n]][1..n] == [s[n]] + s[2..n];
  }

  // ---------- Draining ----------

  /** Repeatedly removing a most urgent job from m hands back out and leaves rest. */
  ghost predicate Drains(m: multiset<Job>, out: seq<Job>, rest: multiset<Job>)
    decreases |out|
  {
    if out == [] then m == rest
    else IsMax(out[0], m) && Drains(m - multiset{out[0]}, out[1..], rest)
  }

  ghost predicate NonIncreasing(out: seq<Job>) {
    forall i, k :: 0 <= i < k < |out| ==> out[k].priority <= out[i].priority
  }

  lemma {:induction false} DrainsMore(m: multiset<Job>, out: seq<Job>, rest: multiset<Job>, j: Job)
    requires Drains(m, out, rest) && IsMax(j, rest)
    ensures Drains(m, out + [j], rest - multiset{j})
    decreases |out|
  {
    if out == [] {
      assert out + [j] == [j];
    } else {
      DrainsMore(m - multiset{out[0]}, out[1..], rest, j);
      assert (out + [j])[1..] == out[1..] + [j];
    }
  }

  /** Emptying the queue by repeated removal yields exactly the non-increasing
      permutations of its contents. */
  lemma DrainIsSortedPermutation(m: multiset<Job>, out: seq<Job>)
    ensures Drains(m, out, multiset{}) <==> multiset(out) == m && NonIncreasing(out)
  {
    if Drains(m, out, multiset{}) {
      DrainSorts(m, out);
    }
    if multiset(out) == m && NonIncreasing(out) {
      SortedDrains(m, out);
    }
  }

  lemma {:induction false} DrainSorts(m: multiset<Job>, out: seq<Job>)
    requires Drains(m, out, multiset{})
    ensures multiset(out) == m && NonIncreasing(out)
    decreases |out|
  {
    if out != [] {
      var rest := out[1..];
      assert out == [out[0]] + rest;
      DrainSorts(m - multiset{out[0]}, rest);
      forall i, k | 0 <= i < k < |out|
        ensures out[k].priority <= out[i].priority
      {
        assert out[k] == rest[k - 1] && out[k] in m;
        if i != 0 {
          assert out[i] == rest[i - 1];
        }
      }
    }
  }

  lemma {:induction false} SortedDrains(m: multiset<Job>, out: seq<Job>)
    requires multiset(out) == m && NonIncreasing(out)
    ensures Drains(m, out, multiset{})
    decreases |out|
  {
    if out != [] {
      var rest := out[1..];
      assert out == [out[0]] + rest;
      SortedDrains(m - multiset{out[0]}, rest);
      forall k | k in m
        ensures k.priority <= out[0].priority
      {
        assert k in out;
      }
    }
  }

  // ---------- The queue ----------

  class JobQueue {
    const slots: array<Job>  // slot 0 is never used, as in the source
    var currSize: nat

    ghost predicate Valid()
      reads this, slots
    {
      currSize < slots.Length && Ordered(slots[..], currSize)
    }

    ghost function Contents(): multiset<Job>
      reads this, slots
      requires Valid()
    {
      Slots(slots[..], currSize)
    }

    constructor (pqSize: nat, filler: Job)
      requires 1 <= pqSize
      ensures Valid() && Contents() == multiset{} && currSize == 0
      ensures slots.Length == pqSize && fresh(slots)
    {
      slots := new Job[pqSize](_ => filler);
      currSize := 0;
    }

    method InsertJob(newJob: Job)
      requires Valid() && currSize < slots.Length - 1
      modifies this, slots
      ensures Valid() && currSize == old(currSize) + 1
      ensures Contents() == old(Contents()) + multiset{newJob}
    {
      currSize := currSize + 1;
      var size := currSize;
      slots[size] := newJob;
      assert slots[1..size + 1] == old(slots[1..currSize + 1]) + [newJob];
      assert slots[..][1..size + 1] == slots[1..size + 1];
      assert old(slots[..][1..currSize + 1]) == old(slots[1..currSize + 1]);
      ghost var target := Slots(slots[..], size);
      if size != 1 {
        var index := size;
        while index > 1
          invariant 1 <= index <= size == currSize < slots.Length
          invariant OrderedExceptUp(slots[..], size, index)
          invariant Slots(slots[..], size) == target
        {
          if slots[index / 2].priority < slots[index].priority {
            SiftUpStep(slots[..], size, index);
            SwapKeepsSlots(slots[..], size, index, index / 2);
            ghost var sifted := Swap(slots[..], index, index / 2);
            var swap := slots[index];
            slots[index] := slots[index / 2];
            slots[index / 2] := swap;
            assert slots[..] == sifted;
            index := index / 2;
          } else {
            break;
          }
        }
      }
    }

    method RemoveJob() returns (rem: Job)
      requires Valid() && 0 < currSize
      modifies this, slots
      ensures Valid() && currSize == old(currSize) - 1
      ensures IsMax(rem, old(Contents()))
      ensures Contents() == old(Contents()) - multiset{rem}
    {
      RootIsMax(slots[..], currSize);
      if currSize == 1 {
        rem := slots[1];
        currSize := 0;
        assert old(slots[..][1..2]) == [rem];
      } else {
        var size := currSize;
        rem := slots[1];
        var last := slots[size];
        currSize := size - 1;
        slots[1] := last;
        LastToRoot(old(slots[..]), size);
        assert slots[..] == old(slots[..])[1 := last];
        SiftDown();
      }
    }

    /** The loop of remove_job: restores the order below the root. */
    method SiftDown()
      requires 1 <= currSize < slots.Length && OrderedExceptDown(slots[..], currSize, 1)
      modifies slots
      ensures Valid() && Contents() == old(Slots(slots[..], currSize))
    {
      var index := 1;
      while index < currSize + 1
        invariant 1 <= index <= currSize
        invariant OrderedExceptDown(slots[..], currSize, index)
        invariant Slots(slots[..], currSize) == old(Slots(slots[..], currSize))
        decreases currSize - index
      {
        var child := index;
        if 2 * index <= currSize && slots[child].priority < slots[2 * index].priority {
          child := 2 * index;
        }
        if 2 * index + 1 <= currSize && slots[child].priority < slots[2 * index + 1].priority {
          child := 2 * index + 1;
        }
        assert child == Larger(slots[..], currSize, index);
        SiftDownStep(slots[..], currSize, index);
        if child == index {
          break;
        } else {
          SwapKeepsSlots(slots[..], currSize, child, index);
          ghost var sifted := Swap(slots[..], child, index);
          var swap := slots[child];
          slots[child] := slots[index];
          slots[index] := swap;
          assert slots[..] == sifted;
          index := child;
        }
      }
    }
  }

  lemma EmptySlots(s: seq<Job>)
    requires |s| > 0
    ensures Slots(s, 0) == multiset{}
  {
    assert s[1..1] == [];
  }

  /** Calling remove_job until the queue is empty hands back all its jobs, most urgent
      first. */
  method Drain(q: JobQueue) returns (out: seq<Job>)
    requires q.Valid()
    modifies q, q.slots
    ensures q.Valid() && q.Contents() == multiset{}
    ensures multiset(out) == old(q.Contents()) && NonIncreasing(out)
  {
    ghost var m := q.Contents();
    hide IsMax, Ordered, NonIncreasing, Slots;
    out := [];
    assert Drains(m, [], m);
    hide Drains;
    while q.currSize > 0
      invariant q.Valid() && Drains(m, out, q.Contents())
      decreases q.currSize
    {
      ghost var left := q.Contents();
      var rem := q.RemoveJob();
      DrainsMore(m, out, left, rem);
      out := out + [rem];
    }
    EmptySlots(q.slots[..]);
    DrainIsSortedPermutation(m, out);
  }
}
