# Job manager and moving-average fitness — a Dafny model

This project models the two pieces of sequential logic in a multi-agent trading
system.

**The job manager** (`job_manager.py`) is the bookkeeping behind distributed fitness
evaluation. A `JobManager` holds:

- a worker table: each worker id maps to a status flag and a count of assigned jobs,
  kept in the dict's insertion order;
- the list of `Job` records of the current batch;
- a completion semaphore.

The manager does the following:

- `create_jobs` splits the data into chunks and gives each non-empty chunk to the
  least-loaded available worker.
- `job_done` stores a finished job, frees its worker and releases a permit.
- `job_failed` marks the worker unavailable and moves the job to another worker.
- `jobs_finished` waits for one permit per job, concatenates the results and resets
  the manager.

A worker descriptor (job_manager.py:18-21) is the datatype `WorkerTable.WorkerDescriptor`.
A job (job_manager.py:10-15) is the datatype `Jobs.Job`. The descriptors are changed in
place in Python but never shared, so values stand for them.

In Dafny the manager is the class `Manager.JobManager`. Its methods change its fields
step by step, as the Python methods do. Each method is proved against pure functions
on values in `WorkerTable` and `Jobs`, which define:

- which workers are available;
- which worker `min` picks;
- what `k` successive picks give;
- which jobs a batch holds.

The class invariant `Valid` says five things:

- the table is well formed: the id list holds each worker once, and exactly the
  table's keys;
- with no batch pending, every worker is available and unloaded;
- a pending batch has its semaphore;
- no permit is released before the semaphore exists;
- the total load equals the jobs created less the `job_done` calls since the last reset.

**The cost function** (`cost_function.py`) scores a pair of moving-average windows over
a price series:

1. It builds zero-padded simple moving averages.
2. It takes the sign of their difference.
3. It signals a buy where that sign rises and a sell where it falls.
4. It keeps the non-zero buy and sell prices.
5. It pairs them by occurrence, drops the first pair and sums `sell − buy`.

The module `CostFunction` follows these steps as functions on `seq<real>`. The final
accumulating loop is the method `AddUpProfit`. The method `Cost` is proved equal to the
function `Fitness`.

Files:

- `worker_table.dfy`: the worker table, availability, least-loaded selection, repeated
  selection, load sums and the round-robin lemmas.
- `jobs.dfy`: the `Job` record, `njobs`, chunk filtering, Python list indexing, batches
  and result concatenation.
- `job_manager.dfy`: the class invariant and the `JobManager` class.
- `cost_function.dfy`: moving averages, crossings, prices, profit, the `Cost` method and
  a worked example.

## Model

| member | source | states |
|---|---|---|
| Manager.JobManager.constructor | job_manager.py:27-30 | the table has one available, unloaded descriptor per distinct id, in first-occurrence order; there are no jobs and no semaphore; the invariant holds |
| WorkerTable.Dedup | job_manager.py:28 | the keys of the comprehension are the given ids, each once |
| WorkerTable.FirstIndex | job_manager.py:28 | the position of the first occurrence of an id: it holds the id, and no earlier position does |
| WorkerTable.DedupInFirstOccurrenceOrder | job_manager.py:28 | the keys follow the order of their first occurrences in the given ids |
| Manager.InitialTable | job_manager.py:28 | the built table holds exactly the given ids, every one available and unloaded |
| Manager.JobManager.Reset | job_manager.py:32-35 | afterwards there are the same workers, all available and unloaded, no jobs, no semaphore and no permits; the invariant holds |
| Manager.IdleTable | job_manager.py:33 | the reset table has the same keys, every descriptor `(True, 0)` |
| Manager.IdleConsistent | job_manager.py:32-35 | a reset manager satisfies the invariant |
| Manager.Consistent | job_manager.py:27-35 | the invariant itself: the table is well formed; with no jobs every worker is available and unloaded; jobs imply a semaphore; no permits without one; the loads add up to the jobs created less the `job_done` calls |
| Manager.JobManager.Valid | job_manager.py:24-35 | `Consistent` over the manager's fields |
| Manager.JobManager.ResetWorkersStatus | job_manager.py:37-39 | every status becomes true and every load is unchanged |
| WorkerTable.ResetStatus | job_manager.py:37-39 | the same keys; every status set; every load unchanged |
| Manager.JobManager.AvailableWorkers | job_manager.py:41-47 | returns the available ids in table order; when there are none, first resets every status and returns all ids |
| WorkerTable.Available | job_manager.py:41-47 | keeps the keys; the result is non-empty when there are workers; the table changes only when nobody was available, and then every id is returned |
| WorkerTable.AvailableIds | job_manager.py:42 | no more ids than the table lists |
| WorkerTable.AvailableFacts | job_manager.py:41-47 | loads are untouched; the ids returned are exactly those available afterwards, each once; after the global reset all are available |
| WorkerTable.AvailableIdsMembers | job_manager.py:42 | an id is listed exactly when it is in the table with its status set |
| WorkerTable.AvailableIdsKeepOrder | job_manager.py:42 | two available ids appear in the list in their table order |
| WorkerTable.AvailableWhenIdle | job_manager.py:68 | on an idle table every id is available and nothing is reset |
| Manager.JobManager.FirstLeastLoaded | job_manager.py:52-53 | the loop finds the position `min` picks among the candidates |
| WorkerTable.FirstLeastLoadedIndex | job_manager.py:52-53 | a position among the candidates |
| WorkerTable.FirstLeastLoadedIndexIsFirstLeast | job_manager.py:52-53 | the position `min` picks has the smallest load, and every earlier candidate has a strictly larger one |
| Manager.JobManager.GetOneWorker | job_manager.py:49-55 | with no workers it fails (`min` of nothing); otherwise it returns the selected worker and leaves the table `Select` describes |
| WorkerTable.SelectIsFirstLeastLoaded | job_manager.py:49-55 | the chosen worker is available when anyone is; it is least loaded among the eligible and the first such in table order; only its load changes, by exactly one |
| WorkerTable.Select | job_manager.py:49-55 | the chosen worker is one of the workers, and the table keeps its keys |
| WorkerTable.Raise | job_manager.py:54 | the keys are kept and the chosen worker has one job more |
| WorkerTable.SelectRaisesChosen | job_manager.py:49-55 | when someone is available, no status changes and only the chosen worker's load rises |
| WorkerTable.SelectAddsOneLoad | job_manager.py:54 | each selection adds exactly one to the total load |
| WorkerTable.SelectAvoidsUnavailable | job_manager.py:49-55 | an unavailable worker is not chosen while another worker is available |
| Jobs.JobCount | job_manager.py:69-71 | `njobs` is the requested maximum (the worker count by default), at least one, at most the worker count, and 0 with no workers |
| Jobs.NonEmptyChunks | job_manager.py:73 | the kept chunks are all non-empty, no more than the input, and all of it when none is empty |
| Jobs.NonEmptyChunksMembers | job_manager.py:73 | a chunk is kept exactly when it is an input chunk and not empty |
| Jobs.NonEmptyChunksKeepData | job_manager.py:73 | dropping empty chunks loses no element: the concatenation is unchanged |
| WorkerTable.AssignWorkers | job_manager.py:75-76 | `k` selections choose `k` workers and keep the table's keys |
| WorkerTable.AssignWorkersAddsLoad | job_manager.py:75-78 | `k` selections add exactly `k` to the total load |
| WorkerTable.AssignWorkersRoundRobin | job_manager.py:75-78 | from an idle table the `i`-th selection takes the worker at position `i mod n`; after `k` selections each worker holds `k div n` jobs, plus one for the first `k mod n` workers |
| WorkerTable.AssignWorkersDistinct | job_manager.py:75-78 | from an idle table, at most `n` selections choose pairwise distinct workers |
| Jobs.BatchAt | job_manager.py:75-78 | job `i` of a batch has id `i`, the `i`-th chosen worker, the `i`-th chunk and an empty result |
| Jobs.BatchAppend | job_manager.py:75-78 | one more loop iteration appends one job, numbered by its position |
| Jobs.BatchFromJobs | job_manager.py:75-78 | a list that agrees with those job fields at every position is the batch |
| Jobs.Batch | job_manager.py:75-78 | one job per chunk |
| Jobs.BatchIsFresh | job_manager.py:77 | a fresh batch has no results, and its data is the kept chunks in order |
| Manager.CreatedJobsShape | job_manager.py:73-78 | one job per kept chunk; job `i` has id `i`, the `i`-th chunk (non-empty) and an empty result |
| Manager.CreatedJobsOnDistinctWorkers | job_manager.py:75-78 | on an idle table a batch of no more jobs than workers puts every job on a different worker |
| Manager.JobManager.PickNext | job_manager.py:76 | one pick extends the chosen workers and the table as one more selection does |
| Manager.JobManager.BuildBatch | job_manager.py:75-78 | the loop leaves the batch of the chunks on the workers that `k` selections choose, and the table those selections leave |
| Manager.JobManager.CreateBatch | job_manager.py:75-81 | with no workers and some chunk, it fails before storing a job; otherwise it stores the batch of the chunks on the workers that successive selections choose, leaves the table they leave, creates the semaphore and keeps the invariant |
| Manager.BatchConsistent | job_manager.py:75-81 | a batch created on an idle table keeps the invariant: the load added equals the jobs created |
| Manager.JobManager.CreateJobs | job_manager.py:57-86 | fails with no state change when jobs exist; fails with no workers and some non-empty chunk; otherwise stores and returns the batch, updates the table, creates the semaphore and keeps the invariant |
| Jobs.PyIndex | job_manager.py:97 | Python's `list[i]`: defined exactly for `-n <= i < n`, at a position congruent to `i` mod `n`, and `i` itself when `i` is non-negative |
| Manager.JobManager.JobDone | job_manager.py:88-101 | fails with no jobs or a bad index; otherwise stores the whole job in its slot; an unknown worker then fails; a known one becomes available with one job less, and one permit is released; the invariant holds |
| WorkerTable.Done | job_manager.py:98-99 | the reported worker becomes available with one job less |
| WorkerTable.DoneLowersLoad | job_manager.py:98 | `job_done` takes exactly one job off the total load |
| Manager.JobManager.JobFailed | job_manager.py:103-125 | fails with no jobs or an unknown worker; otherwise marks the worker unavailable with one job less and selects anew; a bad index then fails; otherwise only the stored job's worker changes, and a copy is returned; the new worker differs from the failed one whenever another worker was available; the invariant holds |
| WorkerTable.Fail | job_manager.py:117-118 | the failed worker becomes unavailable with one job less |
| WorkerTable.Reassign | job_manager.py:117-119 | a reassignment keeps the total load, and moves the job off the failed worker whenever another was available |
| Manager.JobManager.AwaitJobs | job_manager.py:136-137 | exactly one permit is consumed per job |
| Manager.JobManager.JobsFinished | job_manager.py:127-142 | fails with no change when there are no jobs; otherwise consumes one permit per job, returns the results concatenated in job order, and resets to the same workers, all idle, with no jobs and no semaphore |
| Jobs.ResultsAt | job_manager.py:139 | each result of job `i` sits in the concatenation right after the results of the jobs before it |
| Jobs.ResultsAppend | job_manager.py:139 | concatenating results distributes over joining job lists |
| Jobs.Results | job_manager.py:139 | the results of the jobs, concatenated in job order |
| CostFunction.RollingMeans | cost_function.py:6 | one mean per full window |
| CostFunction.MovingAverage | cost_function.py:5-8 | one value per price |
| CostFunction.MovingAverageShape | cost_function.py:5-8 | the first `length - 1` values are zero; every later value is the mean of the `length` prices ending there |
| CostFunction.MovingAverageByRunningTotals | cost_function.py:5-8 | each full-window value equals the difference of two running totals divided by the length |
| CostFunction.WindowPastTheEnd | cost_function.py:5-8 | a window one longer than the series gives all zeros |
| CostFunction.Trend | cost_function.py:14-15 | 1, -1 or 0 exactly where the short average is above, below or equal to the long one |
| CostFunction.Sign | cost_function.py:14 | `np.sign` of a real: -1, 0 or 1, zero exactly at zero and 1 exactly for positives |
| CostFunction.Signals | cost_function.py:16-17 | one signal per position, and none at the first |
| CostFunction.IntSign | cost_function.py:16 | `np.sign` of an integer: -1, 0 or 1, zero exactly at zero and 1 exactly for positives |
| CostFunction.SignalsMarkCrossings | cost_function.py:16-17 | for `i >= 1`: a buy (-1) exactly where the trend rises, a sell (1) exactly where it falls, nothing where it stays, so moves into or out of 0 count too |
| CostFunction.BuyMask | cost_function.py:18-20 | one value per price: the price where the signal is a buy, 0 elsewhere |
| CostFunction.SellMask | cost_function.py:19-21 | one value per price: the price where the signal is a sell, 0 elsewhere |
| CostFunction.NonZero | cost_function.py:22-23 | no more prices than given, and none of them zero |
| CostFunction.NonZeroMembers | cost_function.py:22-23 | a price is kept exactly when it occurs and is not zero |
| CostFunction.BuyPricesAreSignalPrices | cost_function.py:18-22 | the buy prices are the prices at the buy signals, in chronological order, with zeros dropped |
| CostFunction.SellPricesAreSignalPrices | cost_function.py:19-23 | the sell prices are the prices at the sell signals, in chronological order, with zeros dropped |
| CostFunction.BuyPrices | cost_function.py:12-22 | the non-zero prices at the buy signals; none for an empty series |
| CostFunction.SellPrices | cost_function.py:12-23 | the non-zero prices at the sell signals; none for an empty series |
| CostFunction.Zip | cost_function.py:25 | as many pairs as the shorter of the two price lists |
| CostFunction.DropFirst | cost_function.py:26 | one pair fewer, none from none |
| CostFunction.Profit | cost_function.py:26-27 | the sum of `sell - buy` over the pairs |
| CostFunction.AddUpProfit | cost_function.py:26-27 | the loop accumulates the profit of the pairs it is given |
| CostFunction.Cost | cost_function.py:11-29 | returns the fitness of the window pair |
| CostFunction.Fitness | cost_function.py:11-29 | the value `cost_function` returns |
| CostFunction.ProfitIsSellsMinusBuys | cost_function.py:24-27 | the fitness is the sum of the sells less the sum of the buys over pair positions 1 to `min(#buys, #sells) - 1`; pairing is by occurrence and surplus signals are ignored |
| CostFunction.FitnessIsSellsMinusBuys | cost_function.py:11-29 | for every window pair the fitness is the sum of the sells less the sum of the buys over positions 1 to `min(#buys, #sells) - 1`, and 0 with no pair |
| CostFunction.FewerThanTwoPairs | cost_function.py:24-29 | with fewer than two buy prices or fewer than two sell prices the result is 0 |
| CostFunction.FlatTrendNoSignalPrices | cost_function.py:16-19 | with no signal anywhere there are no buy or sell prices |
| CostFunction.EqualWindows | cost_function.py:12-29 | equal windows give no buys, no sells and fitness 0 |
| CostFunction.ExampleTrend | cost_function.py:12-15 | for the example series with windows 2 and 4 the trend is `[0,1,1,1,1,1,0,-1,-1,-1,0,1,1,1,0]` |
| CostFunction.ExampleSignals | cost_function.py:16-17 | its signals are `[0,-1,0,0,0,0,1,1,0,0,-1,-1,0,0,1]` |
| CostFunction.ExampleBuys | cost_function.py:18-22 | its buy prices are `[1,1,3]` |
| CostFunction.ExampleSells | cost_function.py:19-23 | its sell prices are `[2,1,3]` |
| CostFunction.WorkedExample | cost_function.py:11-29 | for prices `[1,1,1,2,2,2,2,1,1,1,1,3,3,3,3]` with windows 2 and 4: buys `[1,1,3]`, sells `[2,1,3]`, fitness 0 |

## Left out

- Agent messaging, HTTP, the web interface, the database and logging are outside the
  model. It covers only `job_manager.py` and `cost_function.py`.
- `split_into_chunks`, which `create_jobs` calls, is not part of this model. `CreateJobs`
  takes it as a function parameter, and nothing is assumed about how its chunks relate
  to the data.
- Manager.JobManager.JobsFinished: the semaphore is a flag and a permit counter.
  Waiting is replaced by the precondition that at least one permit per job has been
  released, so scheduling and blocking are not modelled.
- Manager.JobManager.CreateJobs: the deep copies of `SAFE_MODE` need no modelling,
  since jobs are values. The `SAFE_MODE = False` branch, which returns aliases of the
  stored jobs, is not modelled.
- Manager.JobManager.constructor: it takes a list of ids. Python's default
  `workers=None` builds the same empty table as an empty list, so it is the
  constructor called with `[]`.
- Manager.CreatedJobsOnDistinctWorkers: this needs the chunk count to be at most the
  worker count. That holds only if `split_into_chunks` returns at most `njobs` chunks.
  With more chunks, `AssignWorkersRoundRobin` gives the round-robin order.
- Manager.JobManager.JobDone: the code does not reject a second `job_done` for the same
  job, and the model keeps that. The ghost counter of `job_done` calls, and with it the
  load invariant, count such repeats too.
- Manager.JobManager.CreateBatch: with no workers and at least one kept chunk, Python
  raises in the first `_get_one_worker` call, before any job is appended. The model
  returns that error before the loop, with the same state.
- Manager.JobManager.JobDone: the model stores a copy of the reported job. Python
  stores the caller's own object (job_manager.py:97), so a later change to it by the
  caller shows in what `jobs_finished` concatenates. A later `job_failed` on that slot
  (job_manager.py:121) also changes the caller's object. This aliasing is not modelled.
- Jobs.Results: a job's `result` is always a list in the model. A job reported with
  `result=None` would make `jobs_finished` raise at job_manager.py:139. That error is not
  modelled.
- Exceptions become `Result` values. The mutations made before the exception stay, as
  in Python: in `job_done` the job is stored before the worker lookup, and in
  `job_failed` the table changes before the job index is checked.
- CostFunction.MovingAverage: prices are exact reals, so pandas and numpy rounding,
  NaN and infinities are not modelled.
- CostFunction.Cost: windows below 1 or above `len(records) + 1` are excluded by
  precondition. A negative window makes pandas raise. A window of 0 gives a one-element
  NaN average that numpy broadcasts, and NaN is not modelled. A longer window gives an
  average longer than the series, and the element-wise steps then work on arrays of
  different lengths. A window of exactly `len(records) + 1` is modelled: its average
  is all zeros. An empty series is modelled too: numpy broadcasts the one leading
  signal against no prices, and the result is 0.
- The worked example is stated for any series with the example's fifteen prices,
  written out position by position.
