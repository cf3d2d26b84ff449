/** The worker table of the job manager and the least-loaded selection over it,
    as pure functions on values. The class in job_manager.dfy is proved against them. */
module WorkerTable {

  /** A worker's address. */
  type WorkerId = string

  /** Per-worker bookkeeping: `status` says whether the worker may be handed new jobs,
      `assignedJobs` counts the jobs it currently holds. */
  datatype WorkerDescriptor = WorkerDescriptor(status: bool, assignedJobs: int)

  /** The worker table, keyed by worker id. */
  type Table = map<WorkerId, WorkerDescriptor>

  ghost predicate Distinct(ids: seq<WorkerId>) {
    forall i, j :: 0 <= i < j < |ids| ==> ids[i] != ids[j]
  }

  /** `ids` lists the keys of `table`, each once, in insertion order. */
  ghost predicate WellFormed(ids: seq<WorkerId>, table: Table) {
    Distinct(ids) && forall id :: id in ids <==> id in table
  }

  /** Every worker available and holding no job: a fresh or reset table. */
  ghost predicate Idle(table: Table) {
    forall id :: id in table ==> table[id] == WorkerDescriptor(true, 0)
  }

  /** `Idle`, stated worker by worker along `ids`. */
  ghost predicate IdleAlong(ids: seq<WorkerId>, table: Table)
    requires forall id :: id in ids ==> id in table
  {
    ids != [] ==> IdleAlong(ids[..|ids| - 1], table) && table[ids[|ids| - 1]] == WorkerDescriptor(true, 0)
  }

  /** Checking the workers one by one along `ids` is the same as checking the whole table. */
  lemma {:induction false} IdleAlongIsIdle(ids: seq<WorkerId>, table: Table)
    requires WellFormed(ids, table)
    ensures IdleAlong(ids, table) <==> Idle(table)
  {
    if Idle(table) {
      IdleAlongFromAll(ids, table);
    }
    if IdleAlong(ids, table) {
      IdleAlongAt(ids, table);
      forall id | id in table ensures table[id] == WorkerDescriptor(true, 0) {
        var j :| 0 <= j < |ids| && ids[j] == id;
      }
    }
  }

  /** Every worker along `ids` is idle when `IdleAlong` holds. */
  lemma {:induction false} IdleAlongAt(ids: seq<WorkerId>, table: Table)
    requires forall id :: id in ids ==> id in table
    ensures IdleAlong(ids, table) ==> forall j :: 0 <= j < |ids| ==> table[ids[j]] == WorkerDescriptor(true, 0)
  {
    if ids != [] {
      IdleAlongAt(ids[..|ids| - 1], table);
    }
  }

  /** `IdleAlong` holds when every worker along `ids` is idle. */
  lemma {:induction false} IdleAlongFromAll(ids: seq<WorkerId>, table: Table)
    requires forall id :: id in ids ==> id in table && table[id] == WorkerDescriptor(true, 0)
    ensures IdleAlong(ids, table)
  {
    if ids != [] {
      IdleAlongFromAll(ids[..|ids| - 1], table);
    }
  }

  /** The keys of a table built from `workers` by a dict comprehension: first occurrences, in order. */
  function Dedup(workers: seq<WorkerId>): (ids: seq<WorkerId>)
    ensures Distinct(ids)
    ensures forall id :: id in ids <==> id in workers
  {
    if workers == [] then []
    else
      var prefix := Dedup(workers[..|workers| - 1]);
      var last := workers[|workers| - 1];
      assert forall id :: id in workers <==> id in workers[..|workers| - 1] || id == last by {
        assert workers == workers[..|workers| - 1] + [last];
      }
      if last in prefix then prefix else prefix + [last]
  }

  /** The position of the first occurrence of `id` in `workers`. */
  function FirstIndex(workers: seq<WorkerId>, id: WorkerId): (k: nat)
    requires id in workers
    ensures k < |workers| && workers[k] == id
    ensures forall m :: 0 <= m < k ==> workers[m] != id
  {
    var prefix := workers[..|workers| - 1];
    assert workers == prefix + [workers[|workers| - 1]];
    if id in prefix then FirstIndex(prefix, id) else |workers| - 1
  }

  /** Appending a worker does not move the first occurrence of one already present. */
  lemma FirstIndexSnoc(workers: seq<WorkerId>, last: WorkerId, id: WorkerId)
    requires id in workers
    ensures FirstIndex(workers + [last], id) == FirstIndex(workers, id)
  {
    assert (workers + [last])[..|workers|] == workers;
  }

  /** `Dedup` lists the distinct workers in the order of their first occurrences. */
  lemma {:induction false} DedupInFirstOccurrenceOrder(workers: seq<WorkerId>)
    ensures forall i, j :: 0 <= i < j < |Dedup(workers)| ==>
      FirstIndex(workers, Dedup(workers)[i]) < FirstIndex(workers, Dedup(workers)[j])
  {
    if workers != [] {
      var prefix := workers[..|workers| - 1];
      var last := workers[|workers| - 1];
      assert workers == prefix + [last];
      DedupInFirstOccurrenceOrder(prefix);
      var old_ids := Dedup(prefix);
      forall x | x in old_ids
        ensures FirstIndex(workers, x) == FirstIndex(prefix, x)
      {
        FirstIndexSnoc(prefix, last, x);
      }
      var ids := Dedup(workers);
      assert ids == if last in old_ids then old_ids else old_ids + [last];
      forall i, j | 0 <= i < j < |ids|
        ensures FirstIndex(workers, ids[i]) < FirstIndex(workers, ids[j])
      {
        assert ids[i] == old_ids[i] && old_ids[i] in old_ids;
        if j < |old_ids| {
          assert ids[j] == old_ids[j] && old_ids[j] in old_ids;
        } else {
          assert last !in prefix && ids[j] == last;
          assert FirstIndex(workers, last) == |prefix|;
          assert FirstIndex(prefix, old_ids[i]) < |prefix|;
        }
      }
    }
  }

  /** The ids whose status is set, in table order. */
  function AvailableIds(ids: seq<WorkerId>, table: Table): (r: seq<WorkerId>)
    requires forall id :: id in ids ==> id in table
    ensures |r| <= |ids|
  {
    if ids == [] then []
    else
      var prefix := AvailableIds(ids[..|ids| - 1], table);
      var last := ids[|ids| - 1];
      if table[last].status then prefix + [last] else prefix
  }

  /** An id is listed as available exactly when it is in the table with its status set. */
  lemma {:induction false} AvailableIdsMembers(ids: seq<WorkerId>, table: Table)
    requires forall id :: id in ids ==> id in table
    ensures forall id :: id in AvailableIds(ids, table) <==> id in ids && table[id].status
  {
    if ids != [] {
      var prefix := ids[..|ids| - 1];
      assert ids == prefix + [ids[|ids| - 1]];
      AvailableIdsMembers(prefix, table);
    }
  }

  /** When every worker is available, all of them are listed, in order. */
  lemma {:induction false} AvailableIdsAll(ids: seq<WorkerId>, table: Table)
    requires forall id :: id in ids ==> id in table && table[id].status
    ensures AvailableIds(ids, table) == ids
  {
    if ids != [] {
      var prefix := ids[..|ids| - 1];
      assert ids == prefix + [ids[|ids| - 1]];
      AvailableIdsAll(prefix, table);
    }
  }

  /** Listing the available workers repeats none. */
  lemma {:induction false} AvailableIdsDistinct(ids: seq<WorkerId>, table: Table)
    requires forall id :: id in ids ==> id in table
    requires Distinct(ids)
    ensures Distinct(AvailableIds(ids, table))
  {
    if ids != [] {
      var prefix := ids[..|ids| - 1];
      var last := ids[|ids| - 1];
      assert ids == prefix + [last];
      AvailableIdsDistinct(prefix, table);
      AvailableIdsMembers(prefix, table);
      assert last !in prefix;
    }
  }

  /** The table after the global recovery: every worker available again, loads untouched. */
  function ResetStatus(table: Table): (t: Table)
    ensures t.Keys == table.Keys
    ensures forall id :: id in t ==> t[id].status && t[id].assignedJobs == table[id].assignedJobs
  {
    map id | id in table :: table[id].(status := true)
  }

  /** `_available_workers`: the available ids in table order and the table afterwards.
      When nobody is available, every status is reset first and every id is returned. */
  function Available(ids: seq<WorkerId>, table: Table): (r: (seq<WorkerId>, Table))
    requires WellFormed(ids, table)
    ensures r.1.Keys == table.Keys
    ensures ids != [] ==> r.0 != []
    ensures AvailableIds(ids, table) != [] ==> r.1 == table
    ensures AvailableIds(ids, table) == [] ==> r.0 == ids
  {
    var avail := AvailableIds(ids, table);
    if avail != [] then (avail, table) else (ids, ResetStatus(table))
  }

  /** What `_available_workers` promises: the loads stay; the ids returned are exactly
      the available ones afterwards, each once; after a global recovery all are available. */
  lemma AvailableFacts(ids: seq<WorkerId>, table: Table)
    requires WellFormed(ids, table)
    ensures forall id :: id in Available(ids, table).1 ==> Available(ids, table).1[id].assignedJobs == table[id].assignedJobs
    ensures forall id :: id in Available(ids, table).0 <==> id in ids && Available(ids, table).1[id].status
    ensures Distinct(Available(ids, table).0)
    ensures AvailableIds(ids, table) == [] ==> forall id :: id in table ==> Available(ids, table).1[id].status
  {
    AvailableIdsMembers(ids, table);
    AvailableIdsDistinct(ids, table);
  }

  /** The position `min` picks when it scans `cands` keyed by load: a least-loaded
      candidate, and the first of them, since a later one replaces the best only when strictly smaller. */
  function FirstLeastLoadedIndex(cands: seq<WorkerId>, table: Table): (k: nat)
    requires cands != []
    requires forall id :: id in cands ==> id in table
    ensures k < |cands|
  {
    if |cands| == 1 then 0
    else
      var best := FirstLeastLoadedIndex(cands[..|cands| - 1], table);
      if table[cands[|cands| - 1]].assignedJobs < table[cands[best]].assignedJobs then |cands| - 1 else best
  }

  /** The scan finds a candidate with the smallest load, and every candidate before it is strictly more loaded. */
  lemma {:induction false} FirstLeastLoadedIndexIsFirstLeast(cands: seq<WorkerId>, table: Table)
    requires cands != []
    requires forall id :: id in cands ==> id in table
    ensures var k := FirstLeastLoadedIndex(cands, table);
      && (forall j :: 0 <= j < |cands| ==> table[cands[k]].assignedJobs <= table[cands[j]].assignedJobs)
      && (forall j :: 0 <= j < k ==> table[cands[k]].assignedJobs < table[cands[j]].assignedJobs)
  {
    if |cands| > 1 {
      var prefix := cands[..|cands| - 1];
      FirstLeastLoadedIndexIsFirstLeast(prefix, table);
      assert forall j :: 0 <= j < |prefix| ==> prefix[j] == cands[j];
    }
  }

  /** The table with one job more for worker `w`. */
  function Raise(table: Table, w: WorkerId): (t: Table)
    requires w in table
    ensures t.Keys == table.Keys && t[w].assignedJobs == table[w].assignedJobs + 1
  {
    table[w := table[w].(assignedJobs := table[w].assignedJobs + 1)]
  }

  /** `_get_one_worker`: the worker chosen and the table afterwards, with its load raised by one. */
  function Select(ids: seq<WorkerId>, table: Table): (r: (WorkerId, Table))
    requires WellFormed(ids, table) && ids != []
    ensures r.0 in ids && r.1.Keys == table.Keys
  {
    AvailableFacts(ids, table);
    var avail := Available(ids, table).0;
    var t := Available(ids, table).1;
    var w := avail[FirstLeastLoadedIndex(avail, t)];
    (w, Raise(t, w))
  }

  /** `k` successive selections, as the loop of `create_jobs` makes them: the workers chosen, in order, and the final table. */
  function AssignWorkers(ids: seq<WorkerId>, table: Table, k: nat): (r: (seq<WorkerId>, Table))
    requires WellFormed(ids, table) && (ids != [] || k == 0)
    ensures |r.0| == k && r.1.Keys == table.Keys
  {
    if k == 0 then ([], table)
    else
      var previous := AssignWorkers(ids, table, k - 1);
      var next := Select(ids, previous.1);
      (previous.0 + [next.0], next.1)
  }

  /** One more selection extends the choices by the worker picked on the table so far. */
  lemma AssignWorkersSnoc(ids: seq<WorkerId>, table: Table, k: nat)
    requires WellFormed(ids, table) && ids != []
    ensures WellFormed(ids, AssignWorkers(ids, table, k).1)
    ensures AssignWorkers(ids, table, k + 1).0 == AssignWorkers(ids, table, k).0 + [Select(ids, AssignWorkers(ids, table, k).1).0]
    ensures AssignWorkers(ids, table, k + 1).1 == Select(ids, AssignWorkers(ids, table, k).1).1
  {
  }

  /** Total of the load counters. */
  function SumLoads(ids: seq<WorkerId>, table: Table): int
    requires forall id :: id in ids ==> id in table
  {
    if ids == [] then 0 else SumLoads(ids[..|ids| - 1], table) + table[ids[|ids| - 1]].assignedJobs
  }

  // ---------------------------------------------------------------------------
  // Selection
  // ---------------------------------------------------------------------------

  /** Two available ids keep their relative order in the list of available ids. */
  lemma {:induction false} AvailableIdsKeepOrder(ids: seq<WorkerId>, table: Table, j: nat, i: nat)
    requires forall id :: id in ids ==> id in table
    requires Distinct(ids) && j < i < |ids|
    requires table[ids[j]].status && table[ids[i]].status
    ensures exists p, q :: (0 <= p < q < |AvailableIds(ids, table)| &&
      AvailableIds(ids, table)[p] == ids[j] && AvailableIds(ids, table)[q] == ids[i])
  {
    var prefix := ids[..|ids| - 1];
    var last := ids[|ids| - 1];
    var avail := AvailableIds(prefix, table);
    var full := AvailableIds(ids, table);
    assert full == if table[last].status then avail + [last] else avail;
    if i < |ids| - 1 {
      AvailableIdsKeepOrder(prefix, table, j, i);
      var p, q :| 0 <= p < q < |avail| && avail[p] == prefix[j] && avail[q] == prefix[i];
      assert 0 <= p < q < |full| && full[p] == ids[j] && full[q] == ids[i] by {
        assert full[p] == avail[p] && full[q] == avail[q];
      }
    } else {
      var p: nat :| p < |avail| && avail[p] == ids[j] by {
        assert ids == prefix + [last];
        AvailableIdsMembers(prefix, table);
        assert ids[j] in avail;
      }
      assert 0 <= p < |avail| < |full| && full[p] == ids[j] && full[|avail|] == ids[i];
    }
  }

  /** On a fresh or reset table every worker is available and nothing is reset. */
  lemma AvailableWhenIdle(ids: seq<WorkerId>, table: Table)
    requires WellFormed(ids, table) && Idle(table)
    ensures Available(ids, table).0 == ids && Available(ids, table).1 == table
  {
    AvailableIdsAll(ids, table);
    if ids == [] {
      assert table.Keys == {};
      assert Available(ids, table).1 == table;
    }
  }

  /** The chosen worker is least loaded among the eligible ones. */
  lemma SelectIsLeastLoaded(ids: seq<WorkerId>, table: Table)
    requires WellFormed(ids, table) && ids != []
    ensures forall id :: id in ids && Available(ids, table).1[id].status ==>
      table[Select(ids, table).0].assignedJobs <= table[id].assignedJobs
  {
    var avail := Available(ids, table).0;
    var e := Available(ids, table).1;
    AvailableFacts(ids, table);
    var k := FirstLeastLoadedIndex(avail, e);
    FirstLeastLoadedIndexIsFirstLeast(avail, e);
    forall id | id in ids && e[id].status
      ensures table[avail[k]].assignedJobs <= table[id].assignedJobs
    {
      var p :| 0 <= p < |avail| && avail[p] == id;
    }
  }

  /** No eligible worker before the chosen one in table order has the same load. */
  lemma SelectIsFirst(ids: seq<WorkerId>, table: Table, i: nat, j: nat)
    requires WellFormed(ids, table) && ids != []
    requires j < i < |ids| && ids[i] == Select(ids, table).0 && Available(ids, table).1[ids[j]].status
    ensures table[ids[i]].assignedJobs < table[ids[j]].assignedJobs
  {
    var avail := Available(ids, table).0;
    var e := Available(ids, table).1;
    AvailableFacts(ids, table);
    var k := FirstLeastLoadedIndex(avail, e);
    FirstLeastLoadedIndexIsFirstLeast(avail, e);
    var p, q: int;
    if AvailableIds(ids, table) != [] {
      AvailableIdsKeepOrder(ids, table, j, i);
      p, q :| 0 <= p < q < |avail| && avail[p] == ids[j] && avail[q] == ids[i];
    } else {
      p, q := j, i;
    }
    assert avail[q] == avail[k];
  }

  /** `_get_one_worker` picks an available worker (every worker, after the global
      recovery, if none was) with the smallest load, the first such in table order,
      and raises that worker's load, and no other, by exactly one. */
  lemma SelectIsFirstLeastLoaded(ids: seq<WorkerId>, table: Table)
    requires WellFormed(ids, table) && ids != []
    ensures AvailableIds(ids, table) != [] ==> table[Select(ids, table).0].status
    ensures forall id :: id in ids && Available(ids, table).1[id].status ==>
      table[Select(ids, table).0].assignedJobs <= table[id].assignedJobs
    ensures forall i, j :: 0 <= j < i < |ids| && ids[i] == Select(ids, table).0 && Available(ids, table).1[ids[j]].status ==>
      table[ids[i]].assignedJobs < table[ids[j]].assignedJobs
    ensures Select(ids, table).1 ==
      Available(ids, table).1[Select(ids, table).0 := WorkerDescriptor(true, table[Select(ids, table).0].assignedJobs + 1)]
  {
    AvailableFacts(ids, table);
    SelectIsLeastLoaded(ids, table);
    forall i, j | 0 <= j < i < |ids| && ids[i] == Select(ids, table).0 && Available(ids, table).1[ids[j]].status
      ensures table[ids[i]].assignedJobs < table[ids[j]].assignedJobs
    {
      SelectIsFirst(ids, table, i, j);
    }
  }

  /** When someone is available the statuses stay as they were and only the chosen worker's load changes. */
  lemma SelectRaisesChosen(ids: seq<WorkerId>, table: Table)
    requires WellFormed(ids, table) && ids != [] && AvailableIds(ids, table) != []
    ensures Select(ids, table).1 == Raise(table, Select(ids, table).0)
  {
  }

  /** A worker marked unavailable is not chosen again while some other worker is available. */
  lemma SelectAvoidsUnavailable(ids: seq<WorkerId>, table: Table, failed: WorkerId)
    requires WellFormed(ids, table) && ids != []
    requires failed in table && !table[failed].status
    requires exists id :: id in table && id != failed && table[id].status
    ensures Select(ids, table).0 != failed
  {
    var other :| other in table && other != failed && table[other].status;
    AvailableIdsMembers(ids, table);
    AvailableFacts(ids, table);
    assert other in AvailableIds(ids, table);
    assert Select(ids, table).0 in AvailableIds(ids, table);
  }

  // ---------------------------------------------------------------------------
  // Load counters
  // ---------------------------------------------------------------------------

  /** Replacing one worker's descriptor changes the total load by the change of its counter. */
  lemma {:induction false} SumLoadsUpdate(ids: seq<WorkerId>, table: Table, w: WorkerId, d: WorkerDescriptor)
    requires Distinct(ids) && w in ids
    requires forall id :: id in ids ==> id in table
    ensures SumLoads(ids, table[w := d]) == SumLoads(ids, table) - table[w].assignedJobs + d.assignedJobs
  {
    var prefix := ids[..|ids| - 1];
    var last := ids[|ids| - 1];
    assert ids == prefix + [last];
    if last == w {
      assert w !in prefix;
      SumLoadsSameLoads(prefix, table, table[w := d]);
    } else {
      SumLoadsUpdate(prefix, table, w, d);
    }
  }

  /** The total load depends only on the load counters, not on the statuses. */
  lemma {:induction false} SumLoadsSameLoads(ids: seq<WorkerId>, t1: Table, t2: Table)
    requires forall id :: id in ids ==> id in t1 && id in t2 && t1[id].assignedJobs == t2[id].assignedJobs
    ensures SumLoads(ids, t1) == SumLoads(ids, t2)
  {
    if ids != [] {
      SumLoadsSameLoads(ids[..|ids| - 1], t1, t2);
    }
  }

  /** A fresh or reset table carries no load. */
  lemma {:induction false} SumLoadsIdle(ids: seq<WorkerId>, table: Table)
    requires forall id :: id in ids ==> id in table
    requires Idle(table)
    ensures SumLoads(ids, table) == 0
  {
    if ids != [] {
      SumLoadsIdle(ids[..|ids| - 1], table);
    }
  }

  /** Every selection adds exactly one to the total load. */
  lemma SelectAddsOneLoad(ids: seq<WorkerId>, table: Table)
    requires WellFormed(ids, table) && ids != []
    ensures SumLoads(ids, Select(ids, table).1) == SumLoads(ids, table) + 1
  {
    var e := Available(ids, table).1;
    var w := Select(ids, table).0;
    SumLoadsSameLoads(ids, table, e);
    SumLoadsUpdate(ids, e, w, e[w].(assignedJobs := e[w].assignedJobs + 1));
  }

  /** The table after `job_done` reports worker `w`: available, with one job less. */
  function Done(table: Table, w: WorkerId): (t: Table)
    requires w in table
    ensures t.Keys == table.Keys && t[w].status && t[w].assignedJobs == table[w].assignedJobs - 1
  {
    table[w := WorkerDescriptor(true, table[w].assignedJobs - 1)]
  }

  /** A reported job takes one job off the total load. */
  lemma DoneLowersLoad(ids: seq<WorkerId>, table: Table, w: WorkerId)
    requires WellFormed(ids, table) && w in table
    ensures WellFormed(ids, Done(table, w))
    ensures SumLoads(ids, Done(table, w)) == SumLoads(ids, table) - 1
  {
    SumLoadsUpdate(ids, table, w, Done(table, w)[w]);
  }

  /** The table after `job_failed` marks worker `w`: unavailable, with one job less. */
  function Fail(table: Table, w: WorkerId): (t: Table)
    requires w in table
    ensures t.Keys == table.Keys && !t[w].status && t[w].assignedJobs == table[w].assignedJobs - 1
  {
    table[w := WorkerDescriptor(false, table[w].assignedJobs - 1)]
  }

  /** Some worker other than `w` is available. */
  ghost predicate OtherAvailable(table: Table, w: WorkerId) {
    exists id :: id in table && id != w && table[id].status
  }

  /** Reassigning a failed job keeps the total load (one job less for the failed worker,
      one more for the new one), and moves the job away from the failed worker whenever
      another worker was available. */
  lemma Reassign(ids: seq<WorkerId>, table: Table, w: WorkerId)
    requires WellFormed(ids, table) && w in table
    ensures ids != [] && WellFormed(ids, Fail(table, w))
    ensures SumLoads(ids, Select(ids, Fail(table, w)).1) == SumLoads(ids, table)
    ensures OtherAvailable(table, w) ==> Select(ids, Fail(table, w)).0 != w
  {
    var failed := Fail(table, w);
    SumLoadsUpdate(ids, table, w, failed[w]);
    SelectAddsOneLoad(ids, failed);
    if OtherAvailable(table, w) {
      var other :| other in table && other != w && table[other].status;
      assert other in failed && failed[other].status;
      SelectAvoidsUnavailable(ids, failed, w);
    }
  }

  /** `k` selections add exactly `k` to the total load. */
  lemma {:induction false} AssignWorkersAddsLoad(ids: seq<WorkerId>, table: Table, k: nat)
    requires WellFormed(ids, table) && (ids != [] || k == 0)
    ensures SumLoads(ids, AssignWorkers(ids, table, k).1) == SumLoads(ids, table) + k
  {
    if k > 0 {
      AssignWorkersAddsLoad(ids, table, k - 1);
      SelectAddsOneLoad(ids, AssignWorkers(ids, table, k - 1).1);
    }
  }

  // ---------------------------------------------------------------------------
  // Round-robin from an idle table
  // ---------------------------------------------------------------------------

  /** A positive multiple of a positive number is at least that number. */
  lemma {:induction false} MulAtLeast(d: int, n: int)
    requires d >= 1 && n > 0
    ensures d * n >= n
  {
    if d > 1 {
      MulAtLeast(d - 1, n);
      assert d * n == (d - 1) * n + n;
    }
  }

  /** Euclidean quotient and remainder are unique. */
  lemma DivModUnique(a: int, n: int, q: int, r: int)
    requires n > 0 && a == q * n + r && 0 <= r < n
    ensures a / n == q && a % n == r
  {
    var q', r' := a / n, a % n;
    assert a == q' * n + r';
    assert (q' - q) * n == r - r' by {
      assert (q' - q) * n == q' * n - q * n;
    }
    if q' > q {
      MulAtLeast(q' - q, n);
    } else if q' < q {
      assert (q - q') * n == r' - r by {
        assert (q - q') * n == q * n - q' * n;
      }
      MulAtLeast(q - q', n);
    }
  }

  /** The quotient and remainder of `k` from those of `k - 1`. */
  lemma DivModNext(k: nat, n: int)
    requires n > 0 && k >= 1
    ensures (k - 1) % n + 1 < n ==> k / n == (k - 1) / n && k % n == (k - 1) % n + 1
    ensures (k - 1) % n + 1 == n ==> k / n == (k - 1) / n + 1 && k % n == 0
  {
    var q, r := (k - 1) / n, (k - 1) % n;
    assert k - 1 == q * n + r;
    if r + 1 < n {
      DivModUnique(k, n, q, r + 1);
    } else {
      assert k == (q + 1) * n;
      DivModUnique(k, n, q + 1, 0);
    }
  }

  /** Loads after whole rounds plus a partial one over an idle table: every worker
      available, `q` jobs each, and one job more for the first `r` workers. */
  ghost predicate RoundRobinLoads(ids: seq<WorkerId>, table: Table, q: int, r: int)
    requires forall id :: id in ids ==> id in table
  {
    forall j :: 0 <= j < |ids| ==> table[ids[j]] == WorkerDescriptor(true, q + if j < r then 1 else 0)
  }

  /** Giving one more job to the worker at position `r` extends the partial round by one. */
  lemma RoundRobinRaise(ids: seq<WorkerId>, t: Table, q: int, r: nat)
    requires Distinct(ids) && r < |ids| && forall id :: id in ids ==> id in t
    requires RoundRobinLoads(ids, t, q, r)
    ensures RoundRobinLoads(ids, Raise(t, ids[r]), q, r + 1)
  {
    var t' := Raise(t, ids[r]);
    assert t'[ids[r]] == WorkerDescriptor(true, q + 1);
    forall j | 0 <= j < |ids|
      ensures t'[ids[j]] == WorkerDescriptor(true, q + if j < r + 1 then 1 else 0)
    {
      if j != r { assert ids[j] != ids[r]; }
    }
  }

  /** When every worker is available, the first least-loaded worker of the whole list is chosen. */
  lemma SelectAllAvailable(ids: seq<WorkerId>, t: Table)
    requires WellFormed(ids, t) && ids != []
    requires forall j :: 0 <= j < |ids| ==> t[ids[j]].status
    ensures Select(ids, t).0 == ids[FirstLeastLoadedIndex(ids, t)]
  {
    assert AvailableIds(ids, t) == ids by {
      forall id | id in ids ensures t[id].status {
        var j :| 0 <= j < |ids| && ids[j] == id;
      }
      AvailableIdsAll(ids, t);
    }
    assert Available(ids, t).0 == ids && Available(ids, t).1 == t;
  }

  /** With round-robin loads the first least-loaded worker is the one at position `r`. */
  lemma RoundRobinLeast(ids: seq<WorkerId>, t: Table, q: int, r: nat)
    requires WellFormed(ids, t) && r < |ids| && RoundRobinLoads(ids, t, q, r)
    ensures FirstLeastLoadedIndex(ids, t) == r
  {
    var best := FirstLeastLoadedIndex(ids, t);
    FirstLeastLoadedIndexIsFirstLeast(ids, t);
    assert t[ids[r]].assignedJobs == q;
    assert t[ids[best]].assignedJobs == q + if best < r then 1 else 0;
  }

  /** With round-robin loads every worker is available, and the worker at position `r` is chosen. */
  lemma RoundRobinChoice(ids: seq<WorkerId>, t: Table, q: int, r: nat)
    requires WellFormed(ids, t) && r < |ids| && RoundRobinLoads(ids, t, q, r)
    ensures Select(ids, t).0 == ids[r]
    ensures Select(ids, t).1 == Raise(t, ids[r])
  {
    assert Select(ids, t).0 == ids[r] by {
      SelectAllAvailable(ids, t);
      RoundRobinLeast(ids, t, q, r);
    }
    assert AvailableIds(ids, t) != [] by {
      assert ids[r] in ids;
    }
    SelectRaisesChosen(ids, t);
  }

  /** One selection from round-robin loads picks the worker at position `r` and
      leaves round-robin loads for one job more: `(q', r')` is `(q, r + 1)`, or
      `(q + 1, 0)` when the round is complete. */
  lemma RoundRobinStep(ids: seq<WorkerId>, t: Table, q: int, r: nat, q': int, r': nat)
    requires WellFormed(ids, t) && r < |ids| && RoundRobinLoads(ids, t, q, r)
    requires r + 1 < |ids| ==> q' == q && r' == r + 1
    requires r + 1 == |ids| ==> q' == q + 1 && r' == 0
    ensures Select(ids, t).0 == ids[r]
    ensures RoundRobinLoads(ids, Select(ids, t).1, q', r')
  {
    RoundRobinChoice(ids, t, q, r);
    RoundRobinRaise(ids, t, q, r);
    var t' := Select(ids, t).1;
    if r + 1 == |ids| {
      forall j | 0 <= j < |ids| ensures t'[ids[j]] == WorkerDescriptor(true, q + 1) {
        assert j < r + 1;
      }
    }
  }

  /** Position of the next worker in turn after `k` round-robin jobs over `n` workers. */
  function Turn(k: nat, n: nat): (r: nat)
    requires n > 0
    ensures r < n
  {
    if k == 0 then 0 else if Turn(k - 1, n) + 1 < n then Turn(k - 1, n) + 1 else 0
  }

  /** Number of completed rounds after `k` round-robin jobs over `n` workers. */
  function Rounds(k: nat, n: nat): nat
    requires n > 0
  {
    if k == 0 then 0 else if Turn(k - 1, n) + 1 < n then Rounds(k - 1, n) else Rounds(k - 1, n) + 1
  }

  /** The turn and the rounds are the remainder and the quotient of `k` by `n`. */
  lemma {:induction false} TurnIsMod(k: nat, n: nat)
    requires n > 0
    ensures Turn(k, n) == k % n && Rounds(k, n) == k / n
  {
    if k == 0 {
      DivModUnique(0, n, 0, 0);
    } else {
      TurnIsMod(k - 1, n);
      DivModNext(k, n);
    }
  }

  /** An idle table has round-robin loads with no job given yet. */
  lemma RoundRobinStart(ids: seq<WorkerId>, table: Table)
    requires WellFormed(ids, table) && ids != [] && Idle(table)
    ensures RoundRobinLoads(ids, table, 0, 0)
  {
    forall j | 0 <= j < |ids| ensures table[ids[j]] == WorkerDescriptor(true, 0) {
      assert ids[j] in ids;
    }
  }

  /** The `k`-th selection takes the worker in turn. */
  lemma RoundRobinNextChoice(ids: seq<WorkerId>, table: Table, k: nat)
    requires WellFormed(ids, table) && ids != [] && k >= 1
    requires RoundRobinLoads(ids, AssignWorkers(ids, table, k - 1).1, Rounds(k - 1, |ids|), Turn(k - 1, |ids|))
    ensures AssignWorkers(ids, table, k).0 == AssignWorkers(ids, table, k - 1).0 + [ids[Turn(k - 1, |ids|)]]
  {
    var previous := AssignWorkers(ids, table, k - 1);
    RoundRobinStep(ids, previous.1, Rounds(k - 1, |ids|), Turn(k - 1, |ids|), Rounds(k, |ids|), Turn(k, |ids|));
  }

  /** A selection after `k - 1` round-robin jobs leaves the loads of `k` round-robin jobs. */
  lemma RoundRobinAdvance(ids: seq<WorkerId>, t: Table, k: nat)
    requires WellFormed(ids, t) && ids != [] && k >= 1
    requires RoundRobinLoads(ids, t, Rounds(k - 1, |ids|), Turn(k - 1, |ids|))
    ensures RoundRobinLoads(ids, Select(ids, t).1, Rounds(k, |ids|), Turn(k, |ids|))
  {
    RoundRobinStep(ids, t, Rounds(k - 1, |ids|), Turn(k - 1, |ids|), Rounds(k, |ids|), Turn(k, |ids|));
  }

  /** The `k`-th selection keeps the loads round-robin. */
  lemma RoundRobinNext(ids: seq<WorkerId>, table: Table, k: nat)
    requires WellFormed(ids, table) && ids != [] && k >= 1
    requires RoundRobinLoads(ids, AssignWorkers(ids, table, k - 1).1, Rounds(k - 1, |ids|), Turn(k - 1, |ids|))
    ensures RoundRobinLoads(ids, AssignWorkers(ids, table, k).1, Rounds(k, |ids|), Turn(k, |ids|))
  {
    var previous := AssignWorkers(ids, table, k - 1).1;
    RoundRobinAdvance(ids, previous, k);
    assert AssignWorkers(ids, table, k).1 == Select(ids, previous).1;
  }

  /** After `k` selections from an idle table every worker holds the completed rounds,
      and the workers before the one in turn one job more. */
  lemma {:induction false} AssignWorkersRoundRobinLoads(ids: seq<WorkerId>, table: Table, k: nat)
    requires WellFormed(ids, table) && ids != [] && Idle(table)
    ensures RoundRobinLoads(ids, AssignWorkers(ids, table, k).1, Rounds(k, |ids|), Turn(k, |ids|))
  {
    if k == 0 {
      RoundRobinStart(ids, table);
    } else {
      AssignWorkersRoundRobinLoads(ids, table, k - 1);
      RoundRobinNext(ids, table, k);
    }
  }

  /** Appending the worker in turn to a list of `k - 1` workers taken in turn. */
  lemma InTurnAppend(ids: seq<WorkerId>, previous: seq<WorkerId>, k: nat)
    requires ids != [] && k >= 1 && |previous| == k - 1
    requires forall i :: 0 <= i < k - 1 ==> previous[i] == ids[Turn(i, |ids|)]
    ensures forall i :: 0 <= i < k ==> (previous + [ids[Turn(k - 1, |ids|)]])[i] == ids[Turn(i, |ids|)]
  {
  }

  /** Successive selections from an idle table take the workers in turn. */
  lemma {:induction false} AssignWorkersInTurn(ids: seq<WorkerId>, table: Table, k: nat)
    requires WellFormed(ids, table) && ids != [] && Idle(table)
    ensures forall i :: 0 <= i < k ==> AssignWorkers(ids, table, k).0[i] == ids[Turn(i, |ids|)]
  {
    if k > 0 {
      AssignWorkersRoundRobinLoads(ids, table, k - 1);
      RoundRobinNextChoice(ids, table, k);
      AssignWorkersInTurn(ids, table, k - 1);
      InTurnAppend(ids, AssignWorkers(ids, table, k - 1).0, k);
    }
  }

  /** Starting from an idle table, successive selections go round the workers in table
      order: the i-th job goes to the worker at position `i mod n`, and after `k` jobs
      every worker holds `k / n` of them, the first `k mod n` workers one more. */
  lemma AssignWorkersRoundRobin(ids: seq<WorkerId>, table: Table, k: nat)
    requires WellFormed(ids, table) && ids != [] && Idle(table)
    ensures forall i :: 0 <= i < k ==> AssignWorkers(ids, table, k).0[i] == ids[i % |ids|]
    ensures RoundRobinLoads(ids, AssignWorkers(ids, table, k).1, k / |ids|, k % |ids|)
  {
    AssignWorkersInTurn(ids, table, k);
    AssignWorkersRoundRobinLoads(ids, table, k);
    TurnIsMod(k, |ids|);
    forall i | 0 <= i < k ensures AssignWorkers(ids, table, k).0[i] == ids[i % |ids|] {
      TurnIsMod(i, |ids|);
    }
  }

  /** Corollary: when a batch has no more jobs than there are workers, the jobs of a
      fresh or reset manager go to pairwise distinct workers. */
  lemma AssignWorkersDistinct(ids: seq<WorkerId>, table: Table, k: nat)
    requires WellFormed(ids, table) && ids != [] && Idle(table) && k <= |ids|
    ensures var chosen := AssignWorkers(ids, table, k).0;
      forall i, j :: 0 <= i < j < k ==> chosen[i] != chosen[j]
  {
    AssignWorkersRoundRobin(ids, table, k);
    var chosen := AssignWorkers(ids, table, k).0;
    forall i | 0 <= i < k ensures chosen[i] == ids[i] {
      DivModUnique(i, |ids|, 0, i);
    }
  }
}
