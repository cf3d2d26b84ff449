/** Job records and the list arithmetic the job manager does on them: how many
    jobs a batch is split into, which chunks become jobs, Python list indexing,
    and the concatenation of the jobs' results. */
module Jobs {
  import opened WorkerTable

  datatype Option<T> = None | Some(value: T)

  /** A unit of work: its position in the job list, the worker it is assigned to,
      its slice of the input and, once done, its result. */
  datatype Job<D, R> = Job(jobId: int, workerId: WorkerId, data: seq<D>, result: seq<R>)

  /** `njobs` of `create_jobs`: the requested maximum (the number of available workers
      when none is given), raised to at least one and capped by the number of workers. */
  function JobCount(maxJobs: Option<int>, nworkers: nat): (n: int)
    ensures nworkers >= 1 ==> 1 <= n <= nworkers
    ensures nworkers == 0 ==> n == 0
    ensures maxJobs.None? ==> n == nworkers
    ensures maxJobs.Some? && 1 <= maxJobs.value <= nworkers ==> n == maxJobs.value
    ensures maxJobs.Some? && maxJobs.value < 1 ==> n == if nworkers == 0 then 0 else 1
    ensures maxJobs.Some? && maxJobs.value > nworkers ==> n == nworkers
  {
    var requested := if maxJobs.None? then nworkers else maxJobs.value;
    var atLeastOne := if requested < 1 then 1 else requested;
    if atLeastOne < nworkers then atLeastOne else nworkers
  }

  /** A prefix one longer is the prefix followed by the next element. */
  lemma PrefixSnoc<T>(s: seq<T>, i: nat)
    requires i < |s|
    ensures s[..i + 1] == s[..i] + [s[i]]
  {
  }

  /** Concatenation of a list of lists, as `itertools.chain(*lists)`. */
  function Flatten<T>(lists: seq<seq<T>>): seq<T> {
    if lists == [] then [] else Flatten(lists[..|lists| - 1]) + lists[|lists| - 1]
  }

  /** Concatenation distributes over appending lists of lists. */
  lemma {:induction false} FlattenAppend<T>(a: seq<seq<T>>, b: seq<seq<T>>)
    ensures Flatten(a + b) == Flatten(a) + Flatten(b)
  {
    if b != [] {
      var c := b[..|b| - 1];
      assert (a + b)[..|a + b| - 1] == a + c;
      assert (a + b)[|a + b| - 1] == b[|b| - 1];
      FlattenAppend(a, c);
    } else {
      assert a + b == a;
    }
  }

  /** The chunks that `filter(None, chunks)` keeps: the non-empty ones, in order. */
  function NonEmptyChunks<T>(chunks: seq<seq<T>>): (kept: seq<seq<T>>)
    ensures |kept| <= |chunks|
    ensures forall i :: 0 <= i < |kept| ==> kept[i] != []
    ensures (forall i :: 0 <= i < |chunks| ==> chunks[i] != []) ==> kept == chunks
  {
    if chunks == [] then []
    else
      var prefix := NonEmptyChunks(chunks[..|chunks| - 1]);
      var last := chunks[|chunks| - 1];
      assert chunks == chunks[..|chunks| - 1] + [last];
      if last != [] then prefix + [last] else prefix
  }

  /** Every kept chunk comes from the input, and every non-empty input chunk is kept. */
  lemma {:induction false} NonEmptyChunksMembers<T>(chunks: seq<seq<T>>, c: seq<T>)
    ensures c in NonEmptyChunks(chunks) <==> c in chunks && c != []
  {
    if chunks != [] {
      var prefix := chunks[..|chunks| - 1];
      var last := chunks[|chunks| - 1];
      assert chunks == prefix + [last];
      NonEmptyChunksMembers(prefix, c);
    }
  }

  /** Dropping the empty chunks loses no data: the kept chunks concatenate to the same list. */
  lemma {:induction false} NonEmptyChunksKeepData<T>(chunks: seq<seq<T>>)
    ensures Flatten(NonEmptyChunks(chunks)) == Flatten(chunks)
  {
    if chunks != [] {
      var prefix := chunks[..|chunks| - 1];
      var last := chunks[|chunks| - 1];
      NonEmptyChunksKeepData(prefix);
      if last != [] {
        FlattenAppend(NonEmptyChunks(prefix), [last]);
        assert Flatten([last]) == last by {
          assert [last][..0] == [];
        }
      }
    }
  }

  /** The position that Python's `list[i]` designates in a list of length `n`:
      a negative index counts from the end; anything else out of range is an `IndexError`. */
  function PyIndex(i: int, n: nat): (r: Option<nat>)
    ensures r.Some? <==> -(n as int) <= i < n
    ensures r.Some? ==> r.value < n && (r.value - i) % n == 0
    ensures 0 <= i < n ==> r == Some(i)
  {
    if 0 <= i < n then Some(i)
    else if -(n as int) <= i < 0 then Some(n + i)
    else None
  }

  /** The jobs `create_jobs` builds from the kept chunks and the workers chosen for them,
      appended one per chunk in chunk order. */
  function Batch<D, R>(chunks: seq<seq<D>>, chosen: seq<WorkerId>): (jobs: seq<Job<D, R>>)
    requires |chosen| == |chunks|
    ensures |jobs| == |chunks|
  {
    if chunks == [] then []
    else
      var n := |chunks| - 1;
      Batch(chunks[..n], chosen[..n]) + [Job(n, chosen[n], chunks[n], [])]
  }

  /** Extending the batch by one chunk appends one job, numbered by its position. */
  lemma BatchAppend<D, R>(chunks: seq<seq<D>>, chosen: seq<WorkerId>, chunk: seq<D>, w: WorkerId)
    requires |chosen| == |chunks|
    ensures Batch<D, R>(chunks + [chunk], chosen + [w]) == Batch<D, R>(chunks, chosen) + [Job(|chunks|, w, chunk, [])]
  {
    assert (chunks + [chunk])[..|chunks|] == chunks;
    assert (chosen + [w])[..|chunks|] == chosen;
  }

  /** Job `i` of a batch is numbered `i`, runs chunk `i` on the `i`-th chosen worker,
      and has no result yet. */
  lemma {:induction false} BatchAt<D, R>(chunks: seq<seq<D>>, chosen: seq<WorkerId>, i: nat)
    requires |chosen| == |chunks| && i < |chunks|
    ensures Batch<D, R>(chunks, chosen)[i] == Job(i, chosen[i], chunks[i], [])
  {
    var n := |chunks| - 1;
    if i < n {
      BatchAt<D, R>(chunks[..n], chosen[..n], i);
    }
  }

  /** A list whose job `i` is numbered `i`, runs chunk `i` on the `i`-th chosen worker and
      has no result is the batch of those chunks and workers. */
  lemma BatchFromJobs<D, R>(jobs: seq<Job<D, R>>, chunks: seq<seq<D>>, chosen: seq<WorkerId>)
    requires |chosen| == |chunks| == |jobs|
    requires forall i :: 0 <= i < |jobs| ==> jobs[i] == Job(i, chosen[i], chunks[i], [])
    ensures jobs == Batch(chunks, chosen)
  {
    forall i | 0 <= i < |jobs|
      ensures jobs[i] == Batch<D, R>(chunks, chosen)[i]
    {
      BatchAt<D, R>(chunks, chosen, i);
    }
  }

  /** The data of the jobs, in job order. */
  function DataOf<D, R>(jobs: seq<Job<D, R>>): (data: seq<seq<D>>)
    ensures |data| == |jobs|
    ensures forall i :: 0 <= i < |jobs| ==> data[i] == jobs[i].data
  {
    seq(|jobs|, i requires 0 <= i < |jobs| => jobs[i].data)
  }

  /** The results of the jobs concatenated in job order: what `jobs_finished` returns. */
  function Results<D, R>(jobs: seq<Job<D, R>>): seq<R> {
    if jobs == [] then [] else Results(jobs[..|jobs| - 1]) + jobs[|jobs| - 1].result
  }

  /** The results of two runs of jobs are the results of the first run followed by those of the second. */
  lemma {:induction false} ResultsAppend<D, R>(a: seq<Job<D, R>>, b: seq<Job<D, R>>)
    ensures Results(a + b) == Results(a) + Results(b)
  {
    if b != [] {
      var c := b[..|b| - 1];
      assert (a + b)[..|a + b| - 1] == a + c;
      assert (a + b)[|a + b| - 1] == b[|b| - 1];
      ResultsAppend(a, c);
    } else {
      assert a + b == a;
    }
  }

  /** Every result of job `i` sits in the concatenation right after the results of the jobs before it. */
  lemma {:induction false} ResultsAt<D, R>(jobs: seq<Job<D, R>>, i: nat, k: nat)
    requires i < |jobs| && k < |jobs[i].result|
    ensures |Results(jobs[..i])| + k < |Results(jobs)|
    ensures Results(jobs)[|Results(jobs[..i])| + k] == jobs[i].result[k]
  {
    assert jobs == jobs[..i] + [jobs[i]] + jobs[i + 1..];
    ResultsAppend(jobs[..i] + [jobs[i]], jobs[i + 1..]);
    ResultsAppend(jobs[..i], [jobs[i]]);
    assert Results([jobs[i]]) == jobs[i].result by {
      assert [jobs[i]][..0] == [];
    }
  }

  /** A freshly created batch carries no results, and its data is the kept chunks in order. */
  lemma BatchIsFresh<D, R>(chunks: seq<seq<D>>, chosen: seq<WorkerId>)
    requires |chosen| == |chunks|
    ensures Results(Batch<D, R>(chunks, chosen)) == []
    ensures DataOf(Batch<D, R>(chunks, chosen)) == chunks
  {
    var jobs := Batch<D, R>(chunks, chosen);
    forall i | 0 <= i < |jobs|
      ensures jobs[i].result == [] && jobs[i].data == chunks[i]
    {
      BatchAt<D, R>(chunks, chosen, i);
    }
    ResultsEmpty(jobs);
  }

  /** Jobs without results contribute nothing to the concatenated results. */
  lemma {:induction false} ResultsEmpty<D, R>(jobs: seq<Job<D, R>>)
    requires forall i :: 0 <= i < |jobs| ==> jobs[i].result == []
    ensures Results(jobs) == []
  {
    if jobs != [] {
      ResultsEmpty(jobs[..|jobs| - 1]);
    }
  }
}
