/** The bookkeeping state machine of distributed fitness evaluation: a table of
    workers with their availability and load, the list of jobs of the current
    batch, and a completion semaphore counted in permits. */
module Manager {
  import opened WorkerTable
  import opened Jobs

  /** The exceptions the manager raises. */
  datatype Error =
    | JobsAlreadyCreated          // `create_jobs` while a batch is pending
    | JobsNotCreated              // `job_done`, `job_failed`, `jobs_finished` with no batch
    | UnknownWorker(workerId: WorkerId)  // `KeyError` / `ValueError` on a worker id the table lacks
    | NoWorkers                   // `min()` of an empty sequence: a job with no worker to run it
    | JobIndexOutOfRange(jobId: int)     // `IndexError` on `_jobs[job_id]`

  datatype Result<T> = Ok(value: T) | Err(error: Error)

  /** The table built from a list of worker ids: every worker available and unloaded. */
  function InitialTable(workerList: seq<WorkerId>): (t: Table)
    ensures Idle(t)
    ensures forall id :: id in t <==> id in workerList
  {
    map id | id in workerList :: WorkerDescriptor(true, 0)
  }

  /** The table after `_reset`: the same workers, every one available and unloaded. */
  function IdleTable(table: Table): (t: Table)
    ensures Idle(t) && t.Keys == table.Keys
  {
    map id | id in table :: WorkerDescriptor(true, 0)
  }

  /** The manager's invariant, on its parts. With no batch pending every worker is
      available and unloaded; a pending batch has its semaphore; and the loads add up
      to the jobs created less the jobs reported done. */
  ghost predicate Consistent<D, R>(ids: seq<WorkerId>, workers: Table, jobs: seq<Job<D, R>>,
                                   semaphoreCreated: bool, permits: nat, doneCalls: nat)
  {
    && WellFormed(ids, workers)
    && (jobs == [] ==> IdleAlong(ids, workers))
    && (jobs != [] ==> semaphoreCreated)
    && (!semaphoreCreated ==> permits == 0)
    && SumLoads(ids, workers) == |jobs| - doneCalls
  }

  /** A batch created on an idle table keeps the invariant: its jobs are exactly the
      load it adds. */
  lemma BatchConsistent<D, R>(ids: seq<WorkerId>, table: Table, chunks: seq<seq<D>>,
                              semaphoreCreated: bool, permits: nat, doneCalls: nat)
    requires Consistent<D, R>(ids, table, [], semaphoreCreated, permits, doneCalls)
    requires ids != [] || chunks == []
    ensures doneCalls == 0
    ensures Consistent(ids, AssignWorkers(ids, table, |chunks|).1,
                       Batch<D, R>(chunks, AssignWorkers(ids, table, |chunks|).0), true, permits, doneCalls)
  {
    IdleAlongIsIdle(ids, table);
    SumLoadsIdle(ids, table);
    AssignWorkersAddsLoad(ids, table, |chunks|);
    if ids != [] {
      AssignWorkersSnoc(ids, table, |chunks|);
    }
  }

  /** The jobs `create_jobs` makes from the kept chunks: job `i` is numbered `i`, carries
      the `i`-th chunk, which is not empty, and has an empty result. */
  lemma CreatedJobsShape<D, R>(ids: seq<WorkerId>, table: Table, chunks: seq<seq<D>>)
    requires WellFormed(ids, table) && (ids != [] || chunks == [])
    requires forall i :: 0 <= i < |chunks| ==> chunks[i] != []
    ensures var jobs := Batch<D, R>(chunks, AssignWorkers(ids, table, |chunks|).0);
      && |jobs| == |chunks|
      && forall i :: 0 <= i < |jobs| ==>
           jobs[i].jobId == i && jobs[i].data == chunks[i] && jobs[i].data != [] && jobs[i].result == []
  {
    var chosen := AssignWorkers(ids, table, |chunks|).0;
    forall i | 0 <= i < |chunks|
      ensures Batch<D, R>(chunks, chosen)[i] == Job(i, chosen[i], chunks[i], [])
    {
      BatchAt<D, R>(chunks, chosen, i);
    }
  }

  /** On an idle table (a fresh manager, or one after `jobs_finished`), a batch of no more
      jobs than workers puts every job on a different worker. */
  lemma CreatedJobsOnDistinctWorkers<D, R>(ids: seq<WorkerId>, table: Table, chunks: seq<seq<D>>)
    requires WellFormed(ids, table) && Idle(table) && ids != [] && |chunks| <= |ids|
    ensures var jobs := Batch<D, R>(chunks, AssignWorkers(ids, table, |chunks|).0);
      forall i, j :: 0 <= i < j < |jobs| ==> jobs[i].workerId != jobs[j].workerId
  {
    var chosen := AssignWorkers(ids, table, |chunks|).0;
    var jobs := Batch<D, R>(chunks, chosen);
    AssignWorkersDistinct(ids, table, |chunks|);
    forall i | 0 <= i < |jobs|
      ensures jobs[i].workerId == chosen[i]
    {
      BatchAt<D, R>(chunks, chosen, i);
    }
  }

  /** A reset table, with no batch and no semaphore, satisfies the invariant. */
  lemma IdleConsistent<D, R>(ids: seq<WorkerId>, table: Table)
    requires WellFormed(ids, table)
    ensures Consistent<D, R>(ids, IdleTable(table), [], false, 0, 0)
  {
    SumLoadsIdle(ids, IdleTable(table));
    IdleAlongIsIdle(ids, IdleTable(table));
  }

  class JobManager<D, R> {
    /** The keys of `workers` in insertion order (the dict's iteration order). */
    var ids: seq<WorkerId>
    var workers: Table
    var jobs: seq<Job<D, R>>
    /** Whether the completion semaphore exists, and the permits it holds. */
    var semaphoreCreated: bool
    var permits: nat
    /** Successful `job_done` calls since the batch was created. */
    ghost var doneCalls: nat

    /** The manager's invariant (see `Consistent`). */
    ghost predicate Valid()
      reads this
    {
      Consistent(ids, workers, jobs, semaphoreCreated, permits, doneCalls)
    }

    /** `__init__`: one idle descriptor per distinct worker id, in first-occurrence order. */
    constructor (workerList: seq<WorkerId>)
      ensures Valid()
      ensures ids == Dedup(workerList) && workers == InitialTable(workerList)
      ensures jobs == [] && !semaphoreCreated && permits == 0
    {
      var order: seq<WorkerId> := [];
      var table: Table := map[];
      for i := 0 to |workerList|
        invariant order == Dedup(workerList[..i])
        invariant table == InitialTable(workerList[..i])
      {
        var id := workerList[i];
        assert workerList[..i + 1][..i] == workerList[..i];
        if id !in table {
          order := order + [id];
        }
        table := table[id := WorkerDescriptor(true, 0)];
      }
      assert workerList[..|workerList|] == workerList;
      ids := order;
      workers := table;
      jobs := [];
      semaphoreCreated := false;
      permits := 0;
      doneCalls := 0;
      new;
      SumLoadsIdle(ids, workers);
      IdleAlongIsIdle(ids, workers);
    }

    /** `_reset_workers_status`: every worker becomes available; the loads stay. */
    method ResetWorkersStatus()
      requires WellFormed(ids, workers)
      modifies this`workers
      ensures workers == ResetStatus(old(workers))
    {
      for i := 0 to |ids|
        invariant workers.Keys == old(workers).Keys
        invariant forall id :: id in workers ==>
          workers[id] == if id in ids[..i] then old(workers)[id].(status := true) else old(workers)[id]
      {
        workers := workers[ids[i] := workers[ids[i]].(status := true)];
      }
      assert ids[..|ids|] == ids;
    }

    /** `_available_workers`: the available workers in table order; when there is none,
        every status is reset and every worker is returned. */
    method AvailableWorkers() returns (avail: seq<WorkerId>)
      requires WellFormed(ids, workers)
      modifies this`workers
      ensures avail == Available(ids, old(workers)).0 && workers == Available(ids, old(workers)).1
    {
      avail := [];
      for i := 0 to |ids|
        invariant avail == AvailableIds(ids[..i], workers)
      {
        assert ids[..i + 1][..i] == ids[..i];
        if workers[ids[i]].status {
          avail := avail + [ids[i]];
        }
      }
      assert ids[..|ids|] == ids;
      if avail == [] {
        ResetWorkersStatus();
        avail := ids;
      }
    }

    /** The scan `min` makes over the candidates keyed by load: the first least-loaded one. */
    method FirstLeastLoaded(cands: seq<WorkerId>) returns (best: nat)
      requires cands != [] && forall id :: id in cands ==> id in workers
      ensures best == FirstLeastLoadedIndex(cands, workers)
    {
      best := 0;
      for i := 1 to |cands|
        invariant best == FirstLeastLoadedIndex(cands[..i], workers)
      {
        assert cands[..i + 1][..i] == cands[..i];
        if workers[cands[i]].assignedJobs < workers[cands[best]].assignedJobs {
          best := i;
        }
      }
      assert cands[..|cands|] == cands;
    }

    /** `_get_one_worker`: the first least-loaded available worker gets one more job.
        With no worker at all, Python's `min` raises. */
    method GetOneWorker() returns (r: Result<WorkerId>)
      requires WellFormed(ids, workers)
      modifies this`workers
      ensures WellFormed(ids, workers)
      ensures ids == [] ==> r == Err(NoWorkers) && workers == old(workers)
      ensures ids != [] ==> r == Ok(Select(ids, old(workers)).0) && workers == Select(ids, old(workers)).1
    {
      ghost var before := workers;
      var avail := AvailableWorkers();
      if avail == [] {
        assert workers.Keys == {} == before.Keys;
        return Err(NoWorkers);
      }
      AvailableFacts(ids, before);
      var best := FirstLeastLoaded(avail);
      var w := avail[best];
      workers := Raise(workers, w);
      r := Ok(w);
    }

    /** One pick of the loop of `create_jobs`: after `i` picks from `start`, the next pick
        extends the workers chosen so far and the table as `AssignWorkers` does. */
    method PickNext(ghost start: Table, ghost i: nat, ghost chosenSoFar: seq<WorkerId>) returns (w: WorkerId)
      requires WellFormed(ids, start) && ids != []
      requires chosenSoFar == AssignWorkers(ids, start, i).0 && workers == AssignWorkers(ids, start, i).1
      modifies this`workers
      ensures WellFormed(ids, workers)
      ensures chosenSoFar + [w] == AssignWorkers(ids, start, i + 1).0 && workers == AssignWorkers(ids, start, i + 1).1
    {
      AssignWorkersSnoc(ids, start, i);
      var chosen := GetOneWorker();
      w := chosen.value;
    }

    /** The loop of `create_jobs` on a non-empty table: one job per chunk, numbered in
        order, each given to the worker `_get_one_worker` picks. */
    method BuildBatch(chunks: seq<seq<D>>) returns (batch: seq<Job<D, R>>)
      requires WellFormed(ids, workers) && ids != []
      modifies this`workers
      ensures WellFormed(ids, workers)
      ensures batch == Batch(chunks, AssignWorkers(ids, old(workers), |chunks|).0)
      ensures workers == AssignWorkers(ids, old(workers), |chunks|).1
    {
      ghost var start := workers;
      ghost var chosenSoFar: seq<WorkerId> := [];
      batch := [];
      for i := 0 to |chunks|
        invariant WellFormed(ids, workers)
        invariant chosenSoFar == AssignWorkers(ids, start, i).0
        invariant workers == AssignWorkers(ids, start, i).1
        invariant batch == Batch(chunks[..i], chosenSoFar)
      {
        var w := PickNext(start, i, chosenSoFar);
        BatchAppend<D, R>(chunks[..i], chosenSoFar, chunks[i], w);
        PrefixSnoc(chunks, i);
        batch := batch + [Job(i, w, chunks[i], [])];
        chosenSoFar := chosenSoFar + [w];
      }
      assert chunks[..|chunks|] == chunks;
    }

    /** The rest of `create_jobs` once the chunks are known: one job per chunk, stored in
        the manager, then the completion semaphore. With no worker at all the first pick
        raises, before any job is stored. */
    method CreateBatch(chunks: seq<seq<D>>) returns (r: Result<seq<Job<D, R>>>)
      requires Valid() && jobs == []
      modifies this`workers, this`jobs, this`semaphoreCreated
      ensures Valid() && ids == old(ids) && permits == old(permits) && doneCalls == old(doneCalls)
      ensures ids == [] && chunks != [] ==>
        r == Err(NoWorkers) && jobs == [] && workers == old(workers) && semaphoreCreated == old(semaphoreCreated)
      ensures ids != [] || chunks == [] ==>
        && r == Ok(jobs) && semaphoreCreated
        && jobs == Batch(chunks, AssignWorkers(ids, old(workers), |chunks|).0)
        && workers == AssignWorkers(ids, old(workers), |chunks|).1
    {
      if ids == [] && chunks != [] {
        return Err(NoWorkers);
      }
      BatchConsistent<D, R>(ids, workers, chunks, semaphoreCreated, permits, doneCalls);
      if ids != [] {
        jobs := BuildBatch(chunks);
      }
      if !semaphoreCreated {
        semaphoreCreated := true;
      }
      r := Ok(jobs);
    }

    /** `create_jobs`: split the data into at most `JobCount` chunks with `split`
        (`split_into_chunks`, not part of this model), drop the empty chunks, and make
        one job per kept chunk. */
    method CreateJobs(data: seq<D>, maxJobs: Option<int>, split: (seq<D>, int) -> seq<seq<D>>)
      returns (r: Result<seq<Job<D, R>>>)
      requires Valid()
      modifies this`workers, this`jobs, this`semaphoreCreated
      ensures Valid() && ids == old(ids) && permits == old(permits) && doneCalls == old(doneCalls)
      ensures old(jobs) != [] ==>
        r == Err(JobsAlreadyCreated) && jobs == old(jobs) && workers == old(workers)
        && semaphoreCreated == old(semaphoreCreated)
      ensures old(jobs) == [] ==>
        var chunks := NonEmptyChunks(split(data, JobCount(maxJobs, |ids|)));
        if ids == [] && chunks != [] then
          r == Err(NoWorkers) && jobs == [] && workers == old(workers) && semaphoreCreated == old(semaphoreCreated)
        else
          r == Ok(jobs) && semaphoreCreated
          && jobs == Batch(chunks, AssignWorkers(ids, old(workers), |chunks|).0)
          && workers == AssignWorkers(ids, old(workers), |chunks|).1
    {
      if jobs != [] {
        return Err(JobsAlreadyCreated);
      }
      IdleAlongIsIdle(ids, workers);
      AvailableWhenIdle(ids, workers);
      var available := AvailableWorkers();
      assert available == ids && workers == old(workers);
      var njobs := JobCount(maxJobs, |available|);
      var chunks := NonEmptyChunks(split(data, njobs));
      r := CreateBatch(chunks);
    }

    /** `job_done`: store the reported job in its slot, make its worker available with
        one job less, and release one permit. An unknown worker is found only after the
        job has been stored. */
    method JobDone(job: Job<D, R>) returns (r: Result<()>)
      requires Valid()
      modifies this`workers, this`jobs, this`permits, this`doneCalls
      ensures Valid() && ids == old(ids) && semaphoreCreated == old(semaphoreCreated)
      ensures old(jobs) == [] ==>
        r == Err(JobsNotCreated) && jobs == old(jobs) && workers == old(workers) && permits == old(permits)
      ensures old(jobs) != [] && PyIndex(job.jobId, |old(jobs)|).None? ==>
        r == Err(JobIndexOutOfRange(job.jobId)) && jobs == old(jobs) && workers == old(workers) && permits == old(permits)
      ensures old(jobs) != [] && PyIndex(job.jobId, |old(jobs)|).Some? ==>
        jobs == old(jobs)[PyIndex(job.jobId, |old(jobs)|).value := job]
      ensures old(jobs) != [] && PyIndex(job.jobId, |old(jobs)|).Some? && job.workerId !in old(workers) ==>
        r == Err(UnknownWorker(job.workerId)) && workers == old(workers) && permits == old(permits)
      ensures old(jobs) != [] && PyIndex(job.jobId, |old(jobs)|).Some? && job.workerId in old(workers) ==>
        && r == Ok(())
        && workers == Done(old(workers), job.workerId)
        && permits == old(permits) + 1
    {
      if jobs == [] {
        return Err(JobsNotCreated);
      }
      var slot := PyIndex(job.jobId, |jobs|);
      if slot.None? {
        return Err(JobIndexOutOfRange(job.jobId));
      }
      jobs := jobs[slot.value := job];
      var w := job.workerId;
      if w !in workers {
        return Err(UnknownWorker(w));
      }
      DoneLowersLoad(ids, workers, w);
      workers := Done(workers, w);
      permits := permits + 1;
      doneCalls := doneCalls + 1;
      r := Ok(());
    }

    /** `job_failed`: the failed worker becomes unavailable with one job less, a new
        worker is chosen as `_get_one_worker` does, and the stored job is moved to it.
        The job index is looked up only after the worker table has changed. */
    method JobFailed(job: Job<D, R>) returns (r: Result<Job<D, R>>)
      requires Valid()
      modifies this`workers, this`jobs
      ensures Valid() && ids == old(ids) && semaphoreCreated == old(semaphoreCreated)
      ensures permits == old(permits) && doneCalls == old(doneCalls)
      ensures old(jobs) == [] ==> r == Err(JobsNotCreated) && jobs == old(jobs) && workers == old(workers)
      ensures old(jobs) != [] && job.workerId !in old(workers) ==>
        r == Err(UnknownWorker(job.workerId)) && jobs == old(jobs) && workers == old(workers)
      ensures old(jobs) != [] && job.workerId in old(workers) ==>
        var failed := Fail(old(workers), job.workerId);
        && workers == Select(ids, failed).1
        && (PyIndex(job.jobId, |old(jobs)|).None? ==> r == Err(JobIndexOutOfRange(job.jobId)) && jobs == old(jobs))
        && (PyIndex(job.jobId, |old(jobs)|).Some? ==>
              var k := PyIndex(job.jobId, |old(jobs)|).value;
              jobs == old(jobs)[k := old(jobs)[k].(workerId := Select(ids, failed).0)] && r == Ok(jobs[k]))
      ensures r.Ok? && OtherAvailable(old(workers), job.workerId) ==> r.value.workerId != job.workerId
    {
      if jobs == [] {
        return Err(JobsNotCreated);
      }
      var w := job.workerId;
      if w !in workers {
        return Err(UnknownWorker(w));
      }
      Reassign(ids, workers, w);
      workers := Fail(workers, w);
      var chosen := GetOneWorker();
      var slot := PyIndex(job.jobId, |jobs|);
      if slot.None? {
        return Err(JobIndexOutOfRange(job.jobId));
      }
      var k := slot.value;
      jobs := jobs[k := jobs[k].(workerId := chosen.value)];
      r := Ok(jobs[k]);
    }

    /** The wait of `jobs_finished`: one permit acquired per job. */
    method AwaitJobs()
      requires permits >= |jobs|
      modifies this`permits
      ensures permits == old(permits) - |jobs|
    {
      for i := 0 to |jobs|
        invariant permits == old(permits) - i
      {
        permits := permits - 1;
      }
    }

    /** `_reset`: no batch, no semaphore, and every worker available and unloaded. */
    method Reset()
      requires WellFormed(ids, workers)
      modifies this`workers, this`jobs, this`semaphoreCreated, this`permits, this`doneCalls
      ensures Valid() && ids == old(ids)
      ensures workers == IdleTable(old(workers)) && jobs == [] && !semaphoreCreated && permits == 0
    {
      IdleConsistent<D, R>(ids, workers);
      workers := IdleTable(workers);
      jobs := [];
      semaphoreCreated := false;
      permits := 0;
      doneCalls := 0;
    }

    /** `jobs_finished`: wait for one permit per job, concatenate the results in job
        order, and reset the manager. */
    method JobsFinished() returns (r: Result<seq<R>>)
      requires Valid() && (jobs != [] ==> permits >= |jobs|)
      modifies this`workers, this`jobs, this`semaphoreCreated, this`permits, this`doneCalls
      ensures Valid() && ids == old(ids)
      ensures old(jobs) == [] ==>
        r == Err(JobsNotCreated) && jobs == old(jobs) && workers == old(workers)
        && semaphoreCreated == old(semaphoreCreated) && permits == old(permits)
      ensures old(jobs) != [] ==>
        && r == Ok(Results(old(jobs)))
        && jobs == [] && workers == IdleTable(old(workers))
        && !semaphoreCreated && permits == 0
    {
      if jobs == [] {
        return Err(JobsNotCreated);
      }
      AwaitJobs();
      var results: seq<R> := [];
      for i := 0 to |jobs|
        invariant results == Results(jobs[..i])
      {
        assert jobs[..i + 1][..i] == jobs[..i];
        results := results + jobs[i].result;
      }
      assert jobs[..|jobs|] == jobs;
      Reset();
      r := Ok(results);
    }
  }
}
