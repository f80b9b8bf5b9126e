/** The shared-memory segment of Assignment 5 and the regions that run while holding its
    mutex. Each region is proved to be a step of the protocol in ProducerConsumer, so the
    results about runs are results about this code. */
module SharedMemory {
  import opened JobHeap
  import opened ProducerConsumer

  datatype Turn = Removed(job: Job) | Nothing | Stop

  class Segment {
    const priorityQ: JobQueue
    const jobs: int
    var jobCreated: int
    var jobCompleted: int
    ghost var model: State

    ghost predicate Valid()
      reads this, priorityQ, priorityQ.slots
    {
      priorityQ.Valid() && Coupled(priorityQ.Contents())
    }

    ghost predicate Coupled(queue: multiset<Job>)
      reads this, priorityQ
    {
      && model.jobs == jobs && model.pqSize == priorityQ.slots.Length
      && model.jobCreated == jobCreated && model.jobCompleted == jobCompleted
      && model.queue == queue
    }

    constructor (pqSize: nat, jobs: int, ghost producers: nat, ghost consumers: nat, filler: Job)
      requires 1 <= pqSize
      ensures Valid() && Init(model) && model.pqSize == pqSize && model.jobs == jobs
      ensures |model.producers| == producers && |model.consumerStopped| == consumers
      ensures fresh(priorityQ) && fresh(priorityQ.slots)
    {
      priorityQ := new JobQueue(pqSize, filler);
      this.jobs := jobs;
      jobCreated := 0;
      jobCompleted := 0;
      model := State(jobs, pqSize, seq(producers, _ => Looping), seq(consumers, _ => false),
                     0, 0, multiset{}, multiset{}, multiset{});
    }

    /** One region of producer_generate_job by producer p, whose local position is at. */
    method ProducerRegion(ghost p: nat, at: Producer, newJob: Job) returns (next: Producer)
      requires Valid() && p < |model.producers| && model.producers[p] == at && !at.Stopped?
      modifies this, priorityQ, priorityQ.slots
      ensures Valid() && Step(old(model), model, ProducerTurn(p, newJob))
      ensures model.producers[p] == next
    {
      next := at;
      assert model.producers[p := at] == model.producers;
      SizeIsCurrSize();
      if at.Looping? {
        if jobCreated >= jobs {
          next := Stopped;
        } else if priorityQ.currSize < priorityQ.slots.Length - 1 {
          next := Holding(newJob);
          jobCreated := jobCreated + 1;
        }
      } else {
        if priorityQ.currSize < priorityQ.slots.Length - 1 {
          priorityQ.InsertJob(at.job);
          next := Looping;
        }
      }
      model := model.(producers := model.producers[p := next], jobCreated := jobCreated,
                      created := if at.Looping? && next.Holding? then model.created + multiset{newJob}
                                 else model.created,
                      queue := priorityQ.Contents());
    }

    /** The consumer's branch for a queue that is not empty. */
    method RemoveAndCount() returns (remJob: Job)
      requires Valid() && priorityQ.currSize > 0
      modifies this, priorityQ, priorityQ.slots
      ensures Valid() && IsMax(remJob, old(model.queue)) && model == AfterRemoval(old(model), remJob)
    {
      hide IsMax, priorityQ.Valid, priorityQ.Contents;
      remJob := priorityQ.RemoveJob();
      jobCompleted := jobCompleted + 1;
      model := AfterRemoval(model, remJob);
    }

    /** One region of consumer_finish_job by consumer c. */
    method ConsumerRegion(ghost c: nat) returns (turn: Turn)
      requires Valid() && c < |model.consumerStopped| && !model.consumerStopped[c]
      modifies this, priorityQ, priorityQ.slots
      ensures Valid() && Step(old(model), model, ConsumerTurn(c))
      ensures turn.Stop? <==> model.consumerStopped[c]
      ensures turn.Removed? ==> Removes(old(model), model, turn.job)
      ensures turn.Nothing? ==> model == old(model)
    {
      SizeIsCurrSize();
      hide IsMax, priorityQ.Valid, priorityQ.Contents, AfterRemoval;
      if jobCompleted >= jobs {
        turn := Stop;
        model := model.(consumerStopped := model.consumerStopped[c := true]);
      } else if priorityQ.currSize > 0 {
        var remJob := RemoveAndCount();
        turn := Removed(remJob);
        RemovalIsStep(old(model), c, remJob);
      } else {
        turn := Nothing;
      }
    }

    /** The test main repeats: when it succeeds every created job has been removed, and
        nothing is left in the queue or in a producer's hands. */
    method MainRegion() returns (done: bool)
      requires Valid() && Inv(model)
      ensures done <==> MainSeesEnd(model)
      ensures done ==> model.queue == InFlight(model.producers) == multiset{} && model.created == model.removed
    {
      done := jobCreated == jobs && jobCompleted == jobs;
      if done {
        AllAccountedFor(model);
      }
    }

    lemma SizeIsCurrSize()
      requires Valid()
      ensures |model.queue| == priorityQ.currSize
    {
      assert |multiset(priorityQ.slots[..][1..priorityQ.currSize + 1])| == priorityQ.currSize;
    }
  }
}
