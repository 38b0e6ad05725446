/** Which worker the master gives a task to. */
module Placement {
  import opened Bytes
  import opened Accounting

  datatype WorkerInfo = WorkerInfo(address: bytes, cpuLoad: nat, memLoad: nat, activeTasks: nat)

  type Pool = map<bytes, WorkerInfo>

  const THRESHOLD: nat := 80
  const MAX_TASKS: nat := 0xffff_ffff

  predicate Free(w: WorkerInfo)
  {
    w.cpuLoad < THRESHOLD && w.memLoad < THRESHOLD
  }

  /** The workers that can take a task: none of them counts so many tasks that the search would pass it over. */
  function FreeWorkers(workers: Pool): set<bytes>
  {
    set id | id in workers && Free(workers[id]) && workers[id].activeTasks < MAX_TASKS
  }

  /** Those of them on a host that holds the chunk. */
  function LocalWorkers(workers: Pool, host: bytes -> bytes, nodes: seq<bytes>): set<bytes>
  {
    set id | id in FreeWorkers(workers) && exists addr :: addr in nodes && host(addr) == host(workers[id].address)
  }

  predicate LeastBusy(workers: Pool, among: set<bytes>, id: bytes)
  {
    && id in among && id in workers
    && forall other :: other in among && other in workers ==> workers[id].activeTasks <= workers[other].activeTasks
  }

  /** The worker is on a host that holds the chunk. */
  ghost predicate OnHost(workers: Pool, host: bytes -> bytes, nodes: Option<seq<bytes>>, id: bytes)
  {
    id in workers && nodes.Some? && exists addr :: addr in nodes.value && host(addr) == host(workers[id].address)
  }

  ghost predicate IsChoice(workers: Pool, host: bytes -> bytes, nodes: Option<seq<bytes>>, delay: bool, best: bytes)
  {
    var local := LocalWorkers(workers, host, if nodes.Some? then nodes.value else []);
    if local != {} then LeastBusy(workers, local, best)
    else if (delay && nodes.Some?) || FreeWorkers(workers) == {} then best == []
    else LeastBusy(workers, FreeWorkers(workers), best)
  }

  /**
   * The least busy free worker on a host that holds the chunk; failing that, none while there is a reason
   * to wait, and otherwise the least busy free worker anywhere.
   */
  method SelectWorker(workers: Pool, host: bytes -> bytes, nodes: Option<seq<bytes>>, delay: bool) returns (best: bytes)
    requires [] !in workers
    ensures IsChoice(workers, host, nodes, delay, best)
  {
    hide LeastBusy, OnHost;
    best := [];
    if nodes.Some? {
      best := SelectLocal(workers, host, nodes.value);
    }
    if best != [] {
      return;
    }
    if delay && nodes.Some? {
      return;
    }
    var minTasks;
    best, minTasks := Search(workers, host, None, {}, [], MAX_TASKS);
    assert {} + Wanted(workers, host, None) == FreeWorkers(workers);
    BestIsLeast(workers, FreeWorkers(workers), best, minTasks);
  }

  /** Which worker that is, in terms of loads, task counts and hosts alone. */
  lemma ChoiceMeans(workers: Pool, host: bytes -> bytes, nodes: Option<seq<bytes>>, delay: bool, best: bytes)
    requires [] !in workers && IsChoice(workers, host, nodes, delay, best)
    ensures best != [] ==>
              && best in workers && workers[best].cpuLoad < 80 && workers[best].memLoad < 80
              && workers[best].activeTasks < 0xffff_ffff
    ensures best != [] && OnHost(workers, host, nodes, best) ==>
              forall id :: id in workers && workers[id].cpuLoad < 80 && workers[id].memLoad < 80
                           && OnHost(workers, host, nodes, id) ==>
                workers[best].activeTasks <= workers[id].activeTasks
    ensures best == [] || !OnHost(workers, host, nodes, best) ==>
              forall id :: id in workers && workers[id].cpuLoad < 80 && workers[id].memLoad < 80
                           && workers[id].activeTasks < 0xffff_ffff ==>
                && !OnHost(workers, host, nodes, id)
                && if best == [] then delay && nodes.Some? else workers[best].activeTasks <= workers[id].activeTasks
    ensures delay && nodes.Some? && best != [] ==> OnHost(workers, host, nodes, best)
  {
    var local := LocalWorkers(workers, host, if nodes.Some? then nodes.value else []);
    forall id | id in workers && Free(workers[id]) && workers[id].activeTasks < MAX_TASKS
      ensures id in FreeWorkers(workers) && (id in local <==> OnHost(workers, host, nodes, id))
    {
    }
  }

  method SelectLocal(workers: Pool, host: bytes -> bytes, nodes: seq<bytes>) returns (best: bytes)
    requires [] !in workers
    ensures var local := LocalWorkers(workers, host, nodes);
            if local == {} then best == [] else best != [] && LeastBusy(workers, local, best)
  {
    hide LeastBusy, BestSeen;
    best := [];
    var minTasks := MAX_TASKS;
    NoneSeen(workers);
    assert LocalWorkers(workers, host, nodes[..0]) == {};
    for k := 0 to |nodes|
      invariant BestSeen(workers, LocalWorkers(workers, host, nodes[..k]), best, minTasks)
    {
      best, minTasks := Search(workers, host, Some(host(nodes[k])), LocalWorkers(workers, host, nodes[..k]), best,
                               minTasks);
      OneMoreNode(workers, host, nodes, k);
    }
    assert nodes[..|nodes|] == nodes;
    BestIsLeast(workers, LocalWorkers(workers, host, nodes), best, minTasks);
  }

  /** The free workers at a host, or anywhere. */
  function Wanted(workers: Pool, host: bytes -> bytes, h: Option<bytes>): set<bytes>
  {
    set id | id in FreeWorkers(workers) && (h.None? || h.value == host(workers[id].address))
  }

  /** The worker taken so far is the least busy of those seen. */
  predicate BestSeen(workers: Pool, seen: set<bytes>, best: bytes, minTasks: nat)
  {
    && seen <= FreeWorkers(workers) && minTasks <= MAX_TASKS
    && if seen == {} then best == [] && minTasks == MAX_TASKS
       else LeastBusy(workers, seen, best) && minTasks == workers[best].activeTasks
  }

  /** Goes on looking for a less busy worker, among those at a host or all of them. */
  method Search(workers: Pool, host: bytes -> bytes, h: Option<bytes>, ghost seen: set<bytes>, best0: bytes,
                minTasks0: nat)
    returns (best: bytes, minTasks: nat)
    requires BestSeen(workers, seen, best0, minTasks0)
    ensures BestSeen(workers, seen + Wanted(workers, host, h), best, minTasks)
  {
    hide LeastBusy, BestSeen;
    best, minTasks := best0, minTasks0;
    var todo := workers.Keys;
    ghost var now := seen;
    while todo != {}
      invariant todo <= workers.Keys
      invariant now == seen + (Wanted(workers, host, h) - todo)
      invariant BestSeen(workers, now, best, minTasks)
      decreases todo
    {
      var id :| id in todo;
      todo := todo - {id};
      SeeOne(workers, now, best, minTasks, id);
      if h.None? || h.value == host(workers[id].address) {
        if Free(workers[id]) {
          if workers[id].activeTasks < MAX_TASKS {
            now := now + {id};
          }
          if workers[id].activeTasks < minTasks {
            minTasks, best := workers[id].activeTasks, id;
          }
        }
      }
    }
    assert now == seen + Wanted(workers, host, h);
  }

  lemma SeeOne(workers: Pool, seen: set<bytes>, best: bytes, minTasks: nat, id: bytes)
    requires BestSeen(workers, seen, best, minTasks) && id in workers
    ensures minTasks <= MAX_TASKS
    ensures Free(workers[id]) && workers[id].activeTasks < MAX_TASKS ==>
              if workers[id].activeTasks < minTasks then BestSeen(workers, seen + {id}, id, workers[id].activeTasks)
              else BestSeen(workers, seen + {id}, best, minTasks)
  {
  }

  lemma NoneSeen(workers: Pool)
    ensures BestSeen(workers, {}, [], MAX_TASKS)
  {
  }

  lemma BestIsLeast(workers: Pool, seen: set<bytes>, best: bytes, minTasks: nat)
    requires BestSeen(workers, seen, best, minTasks) && [] !in workers
    ensures if seen == {} then best == [] else best != [] && LeastBusy(workers, seen, best)
  {
  }

  lemma OneMoreNode(workers: Pool, host: bytes -> bytes, nodes: seq<bytes>, k: nat)
    requires k < |nodes|
    ensures LocalWorkers(workers, host, nodes[..k + 1])
         == LocalWorkers(workers, host, nodes[..k]) + Wanted(workers, host, Some(host(nodes[k])))
  {
    assert nodes[..k + 1] == nodes[..k] + [nodes[k]];
  }

  // ---------- Reduce tasks ----------

  /** The workers whose load allows a reduce task, however many tasks they have. */
  function Lightly(workers: Pool): set<bytes>
  {
    set id | id in workers && Free(workers[id])
  }

  /** The bytes of the partition that a worker would have to fetch from other hosts. */
  ghost function RemoteBytes(workers: Pool, host: bytes -> bytes, data: Counts, id: bytes): nat
    requires id in workers
  {
    Total(Elsewhere(data, host, host(workers[id].address)))
  }

  method LocalBytes(data: Counts, host: bytes -> bytes, h: bytes) returns (bytesOnWorker: nat)
    ensures bytesOnWorker == Total(At(data, host, h))
  {
    hide Total;
    bytesOnWorker := 0;
    NoBytes();
    var todo := data.Keys;
    ghost var seen: Counts := map[];
    while todo != {}
      invariant todo <= data.Keys
      invariant seen == At(data - todo, host, h) && bytesOnWorker == Total(seen)
      decreases todo
    {
      var addr :| addr in todo;
      todo := todo - {addr};
      if host(addr) == h {
        TotalAdd(seen, addr, data[addr]);
        bytesOnWorker := bytesOnWorker + data[addr];
        seen := Add(seen, addr, data[addr]);
      }
    }
    assert data - todo == data;
  }

  /**
   * A lightly loaded worker that has the fewest bytes to fetch from elsewhere. There is none only when no
   * worker is lightly loaded, and then waiting makes no difference: the search by tasks finds none either.
   */
  method SelectReduceWorker(workers: Pool, host: bytes -> bytes, data: Counts, delay: bool) returns (best: bytes)
    requires [] !in workers
    ensures best == [] <==> forall id :: id in workers ==> workers[id].cpuLoad >= 80 || workers[id].memLoad >= 80
    ensures best != [] ==> best in workers && workers[best].cpuLoad < 80 && workers[best].memLoad < 80
    ensures best != [] ==> forall id :: id in workers && workers[id].cpuLoad < 80 && workers[id].memLoad < 80 ==>
              Total(At(data, host, host(workers[id].address))) <= Total(At(data, host, host(workers[best].address)))
    ensures best == [] <==> Lightly(workers) == {}
    ensures best != [] ==> best in Lightly(workers)
    ensures best != [] ==> forall other :: other in Lightly(workers) ==>
              RemoteBytes(workers, host, data, best) <= RemoteBytes(workers, host, data, other)
  {
    hide Total, At, Elsewhere;
    best := [];
    var maxBytes, found, todo := 0, false, workers.Keys;
    while todo != {}
      invariant todo <= workers.Keys
      invariant found == (Lightly(workers) - todo != {}) && (!found ==> best == [] && maxBytes == 0)
      invariant found ==> best in Lightly(workers) && maxBytes == Total(At(data, host, host(workers[best].address)))
      invariant forall other :: other in Lightly(workers) - todo ==>
                  Total(At(data, host, host(workers[other].address))) <= maxBytes
      decreases todo
    {
      var id :| id in todo;
      todo := todo - {id};
      if Free(workers[id]) {
        var bytesOnWorker := LocalBytes(data, host, host(workers[id].address));
        if !found || bytesOnWorker > maxBytes {
          maxBytes, best, found := bytesOnWorker, id, true;
        }
        assert id in Lightly(workers) - todo;
      }
    }
    assert Lightly(workers) - todo == Lightly(workers);
    if found {
      forall other | other in Lightly(workers)
        ensures RemoteBytes(workers, host, data, best) <= RemoteBytes(workers, host, data, other)
      {
        LocalAndRemote(data, host, host(workers[best].address));
        LocalAndRemote(data, host, host(workers[other].address));
      }
      return;
    }
    if delay {
      return;
    }
    var minTasks;
    NoneSeen(workers);
    best, minTasks := Search(workers, host, None, {}, [], MAX_TASKS);
    BestIsLeast(workers, FreeWorkers(workers), best, minTasks);
  }
}
