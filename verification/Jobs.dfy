/** A whole job: map every task, account for its bytes, reduce every partition. */
module Jobs {
  import opened Bytes
  import opened RecordCodec
  import opened Merging
  import opened Partitioning
  import opened IndexFiles
  import opened Disks
  import opened Names
  import opened Lines
  import opened Chunking
  import opened MapSide
  import opened ReduceSide
  import opened Grouping
  import opened GroupCodec
  import opened Workers
  import opened JobSide
  import opened Inputs
  import opened Accounting
  import opened Schedules

  type Cluster = map<bytes, Worker>

  ghost function DisksOf(cluster: Cluster): set<Disk>
  {
    set a | a in cluster :: cluster[a].disk
  }

  /** An address that starts with a worker's host name is that of a worker on the same disk. */
  ghost predicate AddressesSound(cluster: Cluster)
  {
    forall a, b :: a in cluster && b in cluster && cluster[a].hostName <= b ==> cluster[b].disk == cluster[a].disk
  }

  /** The map tasks whose parts are known have their files where they ran. */
  ghost predicate FilesInPlace(tasks: seq<Task>, addrs: seq<bytes>, cluster: Cluster, parts: seq<seq<seq<KeyValue>>>)
    reads DisksOf(cluster)
  {
    && |tasks| == |addrs| == |parts|
    && forall i :: 0 <= i < |tasks| && parts[i] != [] ==>
         addrs[i] in cluster && FilesHold(cluster[addrs[i]].disk.files, tasks[i].id, parts[i])
  }

  /** Every map task has its files where it ran. */
  ghost predicate MapDone(tasks: seq<Task>, addrs: seq<bytes>, cluster: Cluster, parts: seq<seq<seq<KeyValue>>>)
    reads DisksOf(cluster)
  {
    FilesInPlace(tasks, addrs, cluster, parts) && forall i :: 0 <= i < |parts| ==> parts[i] != []
  }

  /** The bytes of partition r over all the tasks. */
  function PartitionBytes(parts: seq<seq<seq<KeyValue>>>, r: nat): nat
  {
    if parts == [] then 0
    else
      var last := parts[|parts| - 1];
      PartitionBytes(parts[..|parts| - 1], r) + if r < |last| then |EncodeAll(last[r])| else 0
  }

  lemma {:induction false} PartitionBytesSet(parts: seq<seq<seq<KeyValue>>>, i: nat, part: seq<seq<KeyValue>>, r: nat)
    requires i < |parts| && parts[i] == [] && r < |part|
    ensures PartitionBytes(parts[i := part], r) == PartitionBytes(parts, r) + |EncodeAll(part[r])|
  {
    hide EncodeAll;
    var n := |parts| - 1;
    if i < n {
      PartitionBytesSet(parts[..n], i, part, r);
      assert parts[i := part][..n] == parts[..n][i := part];
    } else {
      assert parts[i := part][..n] == parts[..n];
    }
  }

  lemma {:induction false} NoPartitionBytes(parts: seq<seq<seq<KeyValue>>>, r: nat)
    requires forall i :: 0 <= i < |parts| ==> parts[i] == []
    ensures PartitionBytes(parts, r) == 0
  {
    if parts != [] {
      NoPartitionBytes(parts[..|parts| - 1], r);
    }
  }

  // ---------- The bytes of a partition by worker ----------

  /** The bytes of partition r over the tasks placed at an address. */
  function BytesFrom(parts: seq<seq<seq<KeyValue>>>, addrs: seq<bytes>, r: nat, addr: bytes): nat
    requires |parts| == |addrs|
  {
    if parts == [] then 0
    else
      var n := |parts| - 1;
      BytesFrom(parts[..n], addrs[..n], r, addr)
      + if addrs[n] == addr && r < |parts[n]| then |EncodeAll(parts[n][r])| else 0
  }

  lemma {:induction false} BytesFromSet(parts: seq<seq<seq<KeyValue>>>, addrs: seq<bytes>, i: nat,
                                        part: seq<seq<KeyValue>>, place: bytes, r: nat, addr: bytes)
    requires i < |parts| == |addrs| && parts[i] == [] && r < |part|
    ensures BytesFrom(parts[i := part], addrs[i := place], r, addr)
         == BytesFrom(parts, addrs, r, addr) + if place == addr then |EncodeAll(part[r])| else 0
  {
    hide EncodeAll;
    var n := |parts| - 1;
    if i < n {
      BytesFromSet(parts[..n], addrs[..n], i, part, place, r, addr);
      assert parts[i := part][..n] == parts[..n][i := part];
      assert addrs[i := place][..n] == addrs[..n][i := place];
    } else {
      assert parts[i := part][..n] == parts[..n] && addrs[i := place][..n] == addrs[..n];
    }
  }

  /** Every entry is what the tasks placed at its address reported. */
  ghost predicate Located(parts: seq<seq<seq<KeyValue>>>, addrs: seq<bytes>, reduceData: seq<Counts>)
  {
    && |parts| == |addrs|
    && forall r, addr :: 0 <= r < |reduceData| ==> BytesAt(reduceData[r], addr) == BytesFrom(parts, addrs, r, addr)
  }

  lemma {:induction false} NoBytesFrom(parts: seq<seq<seq<KeyValue>>>, addrs: seq<bytes>, r: nat, addr: bytes)
    requires |parts| == |addrs| && forall i :: 0 <= i < |parts| ==> parts[i] == []
    ensures BytesFrom(parts, addrs, r, addr) == 0
  {
    if parts != [] {
      NoBytesFrom(parts[..|parts| - 1], addrs[..|parts| - 1], r, addr);
    }
  }

  lemma LocatedAtFirst(parts: seq<seq<seq<KeyValue>>>, addrs: seq<bytes>, numReducers: nat)
    requires |parts| == |addrs| && forall i :: 0 <= i < |parts| ==> parts[i] == []
    ensures Located(parts, addrs, seq(numReducers, _ => map[]))
  {
    hide BytesFrom;
    forall r, addr | 0 <= r < numReducers
      ensures BytesFrom(parts, addrs, r, addr) == 0
    {
      NoBytesFrom(parts, addrs, r, addr);
    }
  }

  lemma LocatedNext(parts: seq<seq<seq<KeyValue>>>, addrs: seq<bytes>, reduceData: seq<Counts>, t: nat, place: bytes,
                    merged: seq<seq<KeyValue>>, reduceData': seq<Counts>)
    requires Located(parts, addrs, reduceData) && t < |parts| && parts[t] == []
    requires |merged| == |reduceData'| == |reduceData|
    requires forall r, addr :: 0 <= r < |merged| ==>
               BytesAt(reduceData'[r], addr)
               == BytesAt(reduceData[r], addr) + if addr == place then |EncodeAll(merged[r])| else 0
    ensures Located(parts[t := merged], addrs[t := place], reduceData')
  {
    hide BytesFrom, BytesAt, EncodeAll;
    forall r, addr | 0 <= r < |merged|
      ensures BytesAt(reduceData'[r], addr) == BytesFrom(parts[t := merged], addrs[t := place], r, addr)
    {
      BytesFromSet(parts, addrs, t, merged, place, r, addr);
    }
  }

  /** For each task, the bytes of partition r it emitted, if it was placed at the address. */
  function EmittedAt(emitted: seq<seq<KeyValue>>, addrs: seq<bytes>, numReducers: nat, r: nat, addr: bytes)
    : (sizes: seq<nat>)
    requires |emitted| == |addrs| && r < numReducers
    ensures |sizes| == |emitted|
    ensures forall t :: 0 <= t < |emitted| ==>
              sizes[t] == if addrs[t] == addr then |EncodeAll(Select(emitted[t], numReducers, r))| else 0
  {
    seq(|emitted|, t requires 0 <= t < |emitted| =>
      if addrs[t] == addr then |EncodeAll(Select(emitted[t], numReducers, r))| else 0)
  }

  lemma {:induction false} BytesFromOf(emitted: seq<seq<KeyValue>>, addrs: seq<bytes>, numReducers: nat,
                                       parts: seq<seq<seq<KeyValue>>>, r: nat, addr: bytes)
    requires r < numReducers && AllSpilled(emitted, numReducers, parts) && |parts| == |addrs|
    ensures BytesFrom(parts, addrs, r, addr) == Sum(EmittedAt(emitted, addrs, numReducers, r, addr))
  {
    hide Hash, Sorted, Select, EncodeAll, Sum;
    if emitted == [] {
      assert Sum([]) == 0 by {
        NothingToAdd();
      }
    } else {
      var n := |emitted| - 1;
      BytesFromOf(emitted[..n], addrs[..n], numReducers, parts[..n], r, addr);
      SizeOfPermutation(parts[n][r], Select(emitted[n], numReducers, r));
      var sizes := EmittedAt(emitted, addrs, numReducers, r, addr);
      assert sizes == EmittedAt(emitted[..n], addrs[..n], numReducers, r, addr) + [sizes[n]];
      SumAppend(sizes[..n], sizes[n]);
      assert sizes[..n] == EmittedAt(emitted[..n], addrs[..n], numReducers, r, addr);
    }
  }

  lemma NothingToAdd()
    ensures Sum([]) == 0
  {
  }

  // ---------- Map phase ----------

  /** A map task that is not done yet succeeds; those done before keep their files. */
  method RunMapTask(t: nat, addr: bytes, tasks: seq<Task>, addrs: seq<bytes>, cluster: Cluster, mapper: Mapper,
                    numReducers: nat, ghost parts: seq<seq<seq<KeyValue>>>)
    returns (report: seq<nat>, ghost merged: seq<seq<KeyValue>>)
    requires numReducers > 0 && TasksApart(tasks) && addr in cluster
    requires FilesInPlace(tasks, addrs, cluster, parts) && t < |tasks| && parts[t] == []
    requires AllWellFormed(Emitted(tasks[t].text, mapper))
    modifies DisksOf(cluster)
    ensures FilesInPlace(tasks, addrs[t := addr], cluster, parts[t := merged])
    ensures IsPartition(Emitted(tasks[t].text, mapper), numReducers, merged)
    ensures |report| == |merged| == numReducers
    ensures forall r :: 0 <= r < numReducers ==> report[r] == |EncodeAll(merged[r])|
  {
    hide Emitted, AllWellFormed, IsPartition, FilesHold, EncodeAll, SpillNames;
    hide Layout, IndexText, InterPath, IndexPath, Numbered, Sum;
    var w := cluster[addr];
    ghost var files := w.disk.files;
    ghost var spills;
    report, merged, spills := w.RunMap(tasks[t].text, mapper, tasks[t].id, numReducers);
    MapMakes(files, tasks[t].id, spills, merged);
    forall i | 0 <= i < |tasks| && i != t && parts[i] != []
      ensures FilesHold(cluster[addrs[i]].disk.files, tasks[i].id, parts[i])
    {
      OthersApart(tasks, t, i);
      if cluster[addrs[i]].disk == w.disk {
        MapKeeps(files, tasks[t].id, spills, Layout(merged), IndexText(merged), tasks[i].id, parts[i]);
      }
    }
  }

  lemma OthersApart(tasks: seq<Task>, t: nat, i: nat)
    requires TasksApart(tasks) && t < |tasks| && i < |tasks| && i != t
    ensures tasks[i].id != tasks[t].id && forall n: nat :: tasks[i].id != Numbered(tasks[t].id, n)
  {
    hide Numbered;
  }

  /** A map task that is not done yet fails and leaves what it may; those done before keep their files. */
  method FailMapTask(t: nat, addr: bytes, outcome: Outcome, tasks: seq<Task>, ghost addrs: seq<bytes>, cluster: Cluster,
                     ghost parts: seq<seq<seq<KeyValue>>>)
    requires TasksApart(tasks) && addr in cluster && outcome.Fails?
    requires FilesInPlace(tasks, addrs, cluster, parts) && t < |tasks| && parts[t] == []
    requires forall p :: p in outcome.lost || p in outcome.left ==> OwnMapPath(tasks[t].id, p)
    modifies DisksOf(cluster)
    ensures FilesInPlace(tasks, addrs, cluster, parts)
  {
    hide FilesHold, OwnMapPath, AfterFailure, Numbered, TasksApart;
    var w := cluster[addr];
    ghost var files := w.disk.files;
    w.disk.files := AfterFailure(w.disk.files, outcome);
    forall i | 0 <= i < |tasks| && parts[i] != []
      ensures FilesHold(cluster[addrs[i]].disk.files, tasks[i].id, parts[i])
    {
      OthersApart(tasks, t, i);
      if cluster[addrs[i]].disk == w.disk {
        FailedMapKeeps(files, outcome, tasks[t].id, tasks[i].id, parts[i]);
      }
    }
  }

  /** The map tasks done are those whose parts are known, partitioned right and counted once. */
  ghost predicate MapProgress(attempts: seq<Attempt>, k: nat, tasks: seq<Task>, mapper: Mapper, numReducers: nat,
                              parts: seq<seq<seq<KeyValue>>>, reduceData: seq<Counts>)
    requires numReducers > 0
  {
    && |parts| == |tasks| && |reduceData| == numReducers
    && (forall t: nat :: t < |tasks| ==> (parts[t] != [] <==> Achieved(attempts, k, t)))
    && (forall t :: 0 <= t < |tasks| && parts[t] != [] ==>
         IsPartition(EmittedBy(tasks, mapper)[t], numReducers, parts[t]))
    && (forall r :: 0 <= r < numReducers ==> Total(reduceData[r]) == PartitionBytes(parts, r))
  }

  lemma MapStarts(attempts: seq<Attempt>, tasks: seq<Task>, mapper: Mapper, numReducers: nat)
    requires numReducers > 0
    ensures MapProgress(attempts, 0, tasks, mapper, numReducers, seq(|tasks|, _ => []), seq(numReducers, _ => map[]))
  {
    hide Achieved, Total, PartitionBytes, IsPartition, EmittedBy;
    NothingDone(attempts);
    NoBytes();
    var none: seq<seq<seq<KeyValue>>> := seq(|tasks|, _ => []);
    forall r | 0 <= r < numReducers
      ensures PartitionBytes(none, r) == 0
    {
      NoPartitionBytes(none, r);
    }
  }

  lemma MapAttempted(attempts: seq<Attempt>, k: nat, tasks: seq<Task>, mapper: Mapper, numReducers: nat,
                     parts: seq<seq<seq<KeyValue>>>, reduceData: seq<Counts>)
    requires numReducers > 0 && k < |attempts| && attempts[k].outcome.Fails?
    requires MapProgress(attempts, k, tasks, mapper, numReducers, parts, reduceData)
    ensures MapProgress(attempts, k + 1, tasks, mapper, numReducers, parts, reduceData)
  {
    hide Achieved, Total, PartitionBytes, IsPartition, EmittedBy;
    forall t: nat
      ensures Achieved(attempts, k + 1, t) <==> Achieved(attempts, k, t)
    {
      OneMoreAttempt(attempts, k, t);
    }
  }

  lemma MapCounted(attempts: seq<Attempt>, k: nat, tasks: seq<Task>, mapper: Mapper, numReducers: nat,
                   parts: seq<seq<seq<KeyValue>>>, reduceData: seq<Counts>,
                   merged: seq<seq<KeyValue>>, reduceData': seq<Counts>)
    requires numReducers > 0 && k < |attempts| && attempts[k].outcome.Succeeds? && attempts[k].index < |tasks|
    requires MapProgress(attempts, k, tasks, mapper, numReducers, parts, reduceData)
    requires parts[attempts[k].index] == [] && |merged| == |reduceData'| == numReducers
    requires IsPartition(Emitted(tasks[attempts[k].index].text, mapper), numReducers, merged)
    requires forall r :: 0 <= r < numReducers ==> Total(reduceData'[r]) == Total(reduceData[r]) + |EncodeAll(merged[r])|
    ensures MapProgress(attempts, k + 1, tasks, mapper, numReducers, parts[attempts[k].index := merged], reduceData')
  {
    hide Achieved, Total, PartitionBytes, IsPartition, EncodeAll, Emitted;
    forall t: nat
      ensures Achieved(attempts, k + 1, t) <==> Achieved(attempts, k, t) || attempts[k].index == t
    {
      OneMoreAttempt(attempts, k, t);
    }
    forall r | 0 <= r < numReducers
      ensures PartitionBytes(parts[attempts[k].index := merged], r) == PartitionBytes(parts, r) + |EncodeAll(merged[r])|
    {
      PartitionBytesSet(parts, attempts[k].index, merged, r);
    }
  }

  /**
   * Tries the map tasks, in whatever turns, until each has succeeded: every one's files are in place where it
   * succeeded, and the bytes it reported are counted once.
   */
  method MapPhase(tasks: seq<Task>, attempts: seq<Attempt>, cluster: Cluster, mapper: Mapper, numReducers: nat)
    returns (addrs: seq<bytes>, reduceData: seq<Counts>, ghost parts: seq<seq<seq<KeyValue>>>)
    requires numReducers > 0 && TasksApart(tasks)
    requires Schedule(attempts, |tasks|, cluster.Keys) && MapScratch(attempts, tasks)
    requires AllWellFormed(Flatten(EmittedBy(tasks, mapper)))
    modifies DisksOf(cluster)
    ensures MapDone(tasks, addrs, cluster, parts) && Placed(attempts, |attempts|, addrs)
    ensures AllSpilled(EmittedBy(tasks, mapper), numReducers, parts)
    ensures |reduceData| == numReducers
    ensures forall r :: 0 <= r < numReducers ==>
              Total(reduceData[r]) == |EncodeAll(Select(Flatten(EmittedBy(tasks, mapper)), numReducers, r))|
    ensures |addrs| == |tasks| && forall r, addr :: 0 <= r < numReducers ==>
              BytesAt(reduceData[r], addr) == Sum(EmittedAt(EmittedBy(tasks, mapper), addrs, numReducers, r, addr))
  {
    hide FilesInPlace, MapProgress, Placed, Schedule, MapScratch, Located, BytesAt, EmittedAt, BytesFrom, Sum;
    hide MapDone, AllSpilled, TasksApart, Flatten, EmittedBy, Select;
    hide Emitted, AllWellFormed, IsPartition, EncodeAll, OwnMapPath, Total, Add, Achieved;
    addrs := seq(|tasks|, _ => []);
    reduceData := seq(numReducers, _ => map[]);
    parts := seq(|tasks|, _ => []);
    MapStarts(attempts, tasks, mapper, numReducers);
    NothingDone(attempts);
    NothingInPlace(tasks, addrs, cluster, parts);
    LocatedAtFirst(parts, addrs, numReducers);
    for k := 0 to |attempts|
      invariant FilesInPlace(tasks, addrs, cluster, parts) && |addrs| == |tasks|
      invariant MapProgress(attempts, k, tasks, mapper, numReducers, parts, reduceData)
      invariant Placed(attempts, k, addrs) && Located(parts, addrs, reduceData)
    {
      var t, addr := attempts[k].index, attempts[k].addr;
      NextAttempt(attempts, k, tasks, cluster.Keys, mapper, numReducers, parts, reduceData);
      TaskWellFormed(tasks, mapper, t);
      PlaceOne(attempts, k, addrs);
      if attempts[k].outcome.Succeeds? {
        var report;
        ghost var merged, counted := [], reduceData;
        report, merged := RunMapTask(t, addr, tasks, addrs, cluster, mapper, numReducers, parts);
        reduceData := Account(reduceData, addr, report);
        LocatedNext(parts, addrs, counted, t, addr, merged, reduceData);
        addrs := addrs[t := addr];
        MapCounted(attempts, k, tasks, mapper, numReducers, parts, counted, merged, reduceData);
        parts := parts[t := merged];
      } else {
        OwnScratch(attempts, k, tasks);
        FailMapTask(t, addr, attempts[k].outcome, tasks, addrs, cluster, parts);
        MapAttempted(attempts, k, tasks, mapper, numReducers, parts, reduceData);
      }
    }
    MapEnds(attempts, tasks, addrs, cluster, mapper, numReducers, parts, reduceData);
    LocatedAtLast(EmittedBy(tasks, mapper), addrs, numReducers, parts, reduceData);
  }

  lemma LocatedAtLast(emitted: seq<seq<KeyValue>>, addrs: seq<bytes>, numReducers: nat,
                      parts: seq<seq<seq<KeyValue>>>, reduceData: seq<Counts>)
    requires numReducers == |reduceData| > 0 && AllSpilled(emitted, numReducers, parts)
    requires Located(parts, addrs, reduceData)
    ensures |addrs| == |emitted| && forall r, addr :: 0 <= r < numReducers ==>
              BytesAt(reduceData[r], addr) == Sum(EmittedAt(emitted, addrs, numReducers, r, addr))
  {
    hide IsPartition, BytesFrom, BytesAt, EmittedAt, Sum;
    forall r, addr | 0 <= r < numReducers
      ensures BytesFrom(parts, addrs, r, addr) == Sum(EmittedAt(emitted, addrs, numReducers, r, addr))
    {
      BytesFromOf(emitted, addrs, numReducers, parts, r, addr);
    }
  }

  lemma NothingInPlace(tasks: seq<Task>, addrs: seq<bytes>, cluster: Cluster, parts: seq<seq<seq<KeyValue>>>)
    requires |tasks| == |addrs| == |parts| && forall i :: 0 <= i < |parts| ==> parts[i] == []
    ensures FilesInPlace(tasks, addrs, cluster, parts)
  {
    hide FilesHold;
  }

  /** The task tried next is not done. */
  lemma NextAttempt(attempts: seq<Attempt>, k: nat, tasks: seq<Task>, addresses: set<bytes>,
                    mapper: Mapper, numReducers: nat,
                    parts: seq<seq<seq<KeyValue>>>, reduceData: seq<Counts>)
    requires numReducers > 0 && k < |attempts| && Schedule(attempts, |tasks|, addresses)
    requires MapProgress(attempts, k, tasks, mapper, numReducers, parts, reduceData)
    ensures attempts[k].index < |tasks| == |parts| && |reduceData| == numReducers && attempts[k].addr in addresses
    ensures parts[attempts[k].index] == [] && !Achieved(attempts, k, attempts[k].index)
  {
    hide Achieved, Total, PartitionBytes, IsPartition;
  }

  lemma OwnScratch(attempts: seq<Attempt>, k: nat, tasks: seq<Task>)
    requires k < |attempts| && attempts[k].index < |tasks| && MapScratch(attempts, tasks) && attempts[k].outcome.Fails?
    ensures forall p :: p in attempts[k].outcome.lost || p in attempts[k].outcome.left ==>
              OwnMapPath(tasks[attempts[k].index].id, p)
  {
    hide OwnMapPath;
  }

  lemma MapEnds(attempts: seq<Attempt>, tasks: seq<Task>, addrs: seq<bytes>, cluster: Cluster,
                mapper: Mapper, numReducers: nat,
                parts: seq<seq<seq<KeyValue>>>, reduceData: seq<Counts>)
    requires numReducers > 0 && Schedule(attempts, |tasks|, cluster.Keys)
    requires FilesInPlace(tasks, addrs, cluster, parts)
    requires MapProgress(attempts, |attempts|, tasks, mapper, numReducers, parts, reduceData)
    ensures MapDone(tasks, addrs, cluster, parts)
    ensures AllSpilled(EmittedBy(tasks, mapper), numReducers, parts) && |reduceData| == numReducers
    ensures forall r :: 0 <= r < numReducers ==>
              Total(reduceData[r]) == |EncodeAll(Select(Flatten(EmittedBy(tasks, mapper)), numReducers, r))|
  {
    hide Achieved, Total, PartitionBytes, IsPartition, EncodeAll, Flatten, Select, FilesHold;
    assert AllSpilled(EmittedBy(tasks, mapper), numReducers, parts);
    forall r | 0 <= r < numReducers
      ensures PartitionBytes(parts, r) == |EncodeAll(Select(Flatten(EmittedBy(tasks, mapper)), numReducers, r))|
    {
      PartitionBytesOf(EmittedBy(tasks, mapper), numReducers, parts, r);
    }
  }

  /** What the tasks report for a partition is the size of all its pairs, however they were spread over tasks. */
  lemma {:induction false} PartitionBytesOf(buffers: seq<seq<KeyValue>>, numReducers: nat,
                                            parts: seq<seq<seq<KeyValue>>>, r: nat)
    requires r < numReducers && AllSpilled(buffers, numReducers, parts)
    ensures PartitionBytes(parts, r) == |EncodeAll(Select(Flatten(buffers), numReducers, r))|
  {
    hide Hash, Sorted, Select, EncodeAll;
    if buffers == [] {
      SelectNothing(numReducers, r);
      assert EncodeAll([]) == [] by { EncodeNothing(); }
    } else {
      var n := |buffers| - 1;
      PartitionBytesOf(buffers[..n], numReducers, parts[..n], r);
      SizeOfPermutation(parts[n][r], Select(buffers[n], numReducers, r));
      SelectConcat(Flatten(buffers[..n]), buffers[n], numReducers, r);
      EncodeAllConcat(Select(Flatten(buffers[..n]), numReducers, r), Select(buffers[n], numReducers, r));
    }
  }

  lemma IsPartitionSize(pairs: seq<KeyValue>, numReducers: nat, parts: seq<seq<KeyValue>>)
    requires numReducers > 0 && IsPartition(pairs, numReducers, parts)
    ensures |parts| == numReducers
  {
  }

  lemma TaskWellFormed(tasks: seq<Task>, mapper: Mapper, n: nat)
    requires n < |tasks| && AllWellFormed(Flatten(EmittedBy(tasks, mapper)))
    ensures AllWellFormed(Emitted(tasks[n].text, mapper))
  {
    hide Emitted, WellFormed;
    forall kv | kv in Emitted(tasks[n].text, mapper)
      ensures WellFormed(kv)
    {
      FlattenMembers(EmittedBy(tasks, mapper), n, kv);
    }
  }

  /** The map from task to address that goes out with each reduce task. */
  method TaskMap(tasks: seq<Task>, addrs: seq<bytes>) returns (mapTaskInfo: map<bytes, bytes>)
    requires |tasks| == |addrs| && TasksApart(tasks)
    ensures Enumerates(Ids(tasks), mapTaskInfo.Keys)
    ensures forall i :: 0 <= i < |tasks| ==> mapTaskInfo[tasks[i].id] == addrs[i]
  {
    hide Numbered;
    mapTaskInfo := map[];
    for n := 0 to |tasks|
      invariant forall id :: id in mapTaskInfo <==> id in Ids(tasks)[..n]
      invariant forall i :: 0 <= i < n ==> tasks[i].id in mapTaskInfo && mapTaskInfo[tasks[i].id] == addrs[i]
    {
      assert Ids(tasks)[..n + 1] == Ids(tasks)[..n] + [tasks[n].id];
      mapTaskInfo := mapTaskInfo[tasks[n].id := addrs[n]];
    }
    assert Ids(tasks)[..|tasks|] == Ids(tasks);
  }

  /** A result file is in place and right. */
  ghost predicate ResultHolds(files: Files, job: bytes, r: nat, pairs: seq<KeyValue>, numReducers: nat, reduce: Reducer)
    requires numReducers > 0
  {
    ResultPath(job, r) in files && IsResult(files[ResultPath(job, r)], Select(pairs, numReducers, r), reduce)
  }

  ghost predicate ResultIs(files: Files, job: bytes, r: nat, text: bytes)
  {
    ResultPath(job, r) in files && files[ResultPath(job, r)] == text
  }

  lemma HeldResultIsSequential(files: Files, job: bytes, r: nat, pairs: seq<KeyValue>, numReducers: nat,
                               reduce: Reducer)
    requires numReducers > 0 && OrderFree(reduce)
    requires ResultHolds(files, job, r, pairs, numReducers, reduce)
    ensures ResultIs(files, job, r, ResultText(Sequential(Select(pairs, numReducers, r)), reduce))
  {
    hide OrderFree, IsResult, Select, Sequential, ResultText, ResultPath;
    ResultIsSequential(files[ResultPath(job, r)], Select(pairs, numReducers, r), reduce);
  }

  /** Runs one reduce task: what it leaves on its disk. */
  method ReduceOn(job: bytes, r: nat, tasks: seq<Task>, addrs: seq<bytes>, reduceAddr: bytes, cluster: Cluster,
                  mapTaskInfo: map<bytes, bytes>, mapper: Mapper, reduce: Reducer, numReducers: nat,
                  ghost parts: seq<seq<seq<KeyValue>>>)
    returns (ghost merged: bytes, ghost removed: set<Path>, ghost result: bytes)
    requires r < numReducers && AddressesSound(cluster) && reduceAddr in cluster
    requires |tasks| == |addrs| && forall i :: 0 <= i < |addrs| ==> addrs[i] in cluster
    requires Enumerates(Ids(tasks), mapTaskInfo.Keys)
    requires forall i :: 0 <= i < |tasks| ==> mapTaskInfo[tasks[i].id] == addrs[i]
    requires MapDone(tasks, addrs, cluster, parts)
    requires AllSpilled(EmittedBy(tasks, mapper), numReducers, parts)
    requires JobFits(Flatten(EmittedBy(tasks, mapper)))
    modifies cluster[reduceAddr].disk
    ensures cluster[reduceAddr].disk.files
         == AfterReduce(old(cluster[reduceAddr].disk.files), job, r, merged, removed, result)
    ensures forall p :: p in removed ==> p.kind == Fetched || p.kind == SortedRun
    ensures IsResult(result, Select(Flatten(EmittedBy(tasks, mapper)), numReducers, r), reduce)
  {
    hide *;
    var w := cluster[reduceAddr];
    ghost var files := w.disk.files;
    ghost var regions := w.Regions(mapTaskInfo, cluster, r);
    RegionsInPlace(w, tasks, addrs, cluster, mapTaskInfo, mapper, parts, numReducers, r);
    ghost var order, run;
    order, run, removed := w.RunReduce(job, mapTaskInfo, cluster, r, reduce);
    merged, result := GroupText(Runs(Records(EncodeAll(run)))), Reduced(run, reduce);
    AfterReduceIs(files, job, r, run, removed, reduce);
    ReducedRun(regions, tasks, mapper, parts, numReducers, r, order, run, reduce);
  }

  /** Runs one reduce task; finished map tasks and other results stay. */
  method RunReduceTask(job: bytes, r: nat, tasks: seq<Task>, addrs: seq<bytes>, reduceAddr: bytes, cluster: Cluster,
                       mapTaskInfo: map<bytes, bytes>, mapper: Mapper, reduce: Reducer, numReducers: nat,
                       ghost parts: seq<seq<seq<KeyValue>>>)
    requires r < numReducers && AddressesSound(cluster) && reduceAddr in cluster
    requires |tasks| == |addrs| && forall i :: 0 <= i < |addrs| ==> addrs[i] in cluster
    requires Enumerates(Ids(tasks), mapTaskInfo.Keys)
    requires forall i :: 0 <= i < |tasks| ==> mapTaskInfo[tasks[i].id] == addrs[i]
    requires MapDone(tasks, addrs, cluster, parts)
    requires AllSpilled(EmittedBy(tasks, mapper), numReducers, parts)
    requires JobFits(Flatten(EmittedBy(tasks, mapper)))
    modifies cluster[reduceAddr].disk
    ensures MapDone(tasks, addrs, cluster, parts)
    ensures ResultHolds(cluster[reduceAddr].disk.files, job, r, Flatten(EmittedBy(tasks, mapper)), numReducers, reduce)
    ensures OtherResultsKept(job, r, old(cluster[reduceAddr].disk.files), cluster[reduceAddr].disk.files)
  {
    hide FilesHold, AfterReduce, ResultPath, Select, Flatten, EmittedBy, AllSpilled, JobFits, IsResult, Enumerates, Ids;
    ghost var disk := cluster[reduceAddr].disk;
    ghost var files := disk.files;
    ghost var merged, removed, result;
    merged, removed, result :=
      ReduceOn(job, r, tasks, addrs, reduceAddr, cluster, mapTaskInfo, mapper, reduce, numReducers, parts);
    ReduceKeeps(files, job, r, merged, removed, result);
    forall i | 0 <= i < |tasks|
      ensures FilesHold(cluster[addrs[i]].disk.files, tasks[i].id, parts[i])
    {
      assert parts[i] != [];
      assert cluster[addrs[i]].disk != disk || FilesHold(files, tasks[i].id, parts[i]);
    }
    ResultInPlace(files, job, r, merged, removed, result, Flatten(EmittedBy(tasks, mapper)), numReducers, reduce);
  }

  lemma ResultInPlace(files: Files, job: bytes, r: nat, merged: bytes, removed: set<Path>, result: bytes,
                      pairs: seq<KeyValue>, numReducers: nat, reduce: Reducer)
    requires numReducers > 0 && IsResult(result, Select(pairs, numReducers, r), reduce)
    ensures ResultHolds(AfterReduce(files, job, r, merged, removed, result), job, r, pairs, numReducers, reduce)
  {
    hide IsResult, Select;
  }

  lemma AfterReduceIs(files: Files, job: bytes, r: nat, run: seq<KeyValue>, removed: set<Path>, reduce: Reducer)
    ensures var merged := GroupText(Runs(Records(EncodeAll(run))));
            AfterReduce(files, job, r, merged, removed, Reduced(run, reduce))
            == (files[MergedPath(r) := merged] - removed)[ResultPath(job, r) := ResultText(ScanGroups(merged), reduce)]
  {
    hide GroupText, Runs, Records, EncodeAll, ResultText, ScanGroups;
  }

  /** Wherever a reducer fetches from, it finds each task's partition. */
  lemma RegionsInPlace(w: Worker, tasks: seq<Task>, addrs: seq<bytes>, cluster: Cluster, mapTaskInfo: map<bytes, bytes>,
                       mapper: Mapper, parts: seq<seq<seq<KeyValue>>>, numReducers: nat, r: nat)
    requires r < numReducers && AddressesSound(cluster) && w in cluster.Values
    requires |tasks| == |addrs| && forall i :: 0 <= i < |addrs| ==> addrs[i] in cluster
    requires Enumerates(Ids(tasks), mapTaskInfo.Keys)
    requires forall i :: 0 <= i < |tasks| ==> mapTaskInfo[tasks[i].id] == addrs[i]
    requires MapDone(tasks, addrs, cluster, parts)
    requires AllSpilled(EmittedBy(tasks, mapper), numReducers, parts)
    ensures RegionsHold(w.Regions(mapTaskInfo, cluster, r), tasks, parts, numReducers, r)
  {
    hide FilesHold, RegionAt, Emitted, EncodeAll, Sorted, Select, Hash;
    var a :| a in cluster && cluster[a] == w;
    forall i | 0 <= i < |tasks|
      ensures |parts[i]| == numReducers
      ensures w.Regions(mapTaskInfo, cluster, r)[tasks[i].id] == EncodeAll(parts[i][r])
    {
      IsPartitionSize(EmittedBy(tasks, mapper)[i], numReducers, parts[i]);
      assert w.FilesAt(addrs[i], cluster) == cluster[addrs[i]].disk.files;
      RegionHeld(cluster[addrs[i]].disk.files, tasks[i].id, parts[i], r);
    }
  }

  lemma ReducedRun(regions: map<bytes, bytes>, tasks: seq<Task>, mapper: Mapper, parts: seq<seq<seq<KeyValue>>>,
                   numReducers: nat, r: nat, order: seq<bytes>, run: seq<KeyValue>, reduce: Reducer)
    requires r < numReducers && RegionsHold(regions, tasks, parts, numReducers, r)
    requires AllSpilled(EmittedBy(tasks, mapper), numReducers, parts)
    requires JobFits(Flatten(EmittedBy(tasks, mapper)))
    requires Enumerates(order, regions.Keys)
    requires RegionsWellFormed(regions) ==> MergeOf(RegionStreams(regions, order), run)
    ensures IsResult(Reduced(run, reduce), Select(Flatten(EmittedBy(tasks, mapper)), numReducers, r), reduce)
  {
    hide *;
    var pairs := Flatten(EmittedBy(tasks, mapper));
    FitsIsWellFormed(pairs);
    MergedRegions(regions, tasks, mapper, parts, numReducers, r, order, run);
    SelectedFits(pairs, numReducers, r);
    ReducedIsResult(Select(pairs, numReducers, r), run, reduce);
  }

  lemma FitsIsWellFormed(pairs: seq<KeyValue>)
    requires JobFits(pairs)
    ensures AllWellFormed(pairs)
  {
  }

  /** A reduce task fails and leaves what it may; finished map tasks and other results stay. */
  method FailReduceTask(job: bytes, r: nat, outcome: Outcome, tasks: seq<Task>, ghost addrs: seq<bytes>,
                        reduceAddr: bytes,
                        cluster: Cluster, ghost parts: seq<seq<seq<KeyValue>>>)
    requires outcome.Fails? && reduceAddr in cluster && MapDone(tasks, addrs, cluster, parts)
    requires forall p :: p in outcome.lost || p in outcome.left ==> OwnReducePath(job, r, p)
    modifies cluster[reduceAddr].disk
    ensures MapDone(tasks, addrs, cluster, parts)
    ensures OtherResultsKept(job, r, old(cluster[reduceAddr].disk.files), cluster[reduceAddr].disk.files)
  {
    hide FilesHold, OwnReducePath, AfterFailure, ResultPath;
    ghost var disk := cluster[reduceAddr].disk;
    ghost var files := disk.files;
    cluster[reduceAddr].disk.files := AfterFailure(cluster[reduceAddr].disk.files, outcome);
    FailedReduceKeeps(files, outcome, job, r);
    forall i | 0 <= i < |tasks|
      ensures FilesHold(cluster[addrs[i]].disk.files, tasks[i].id, parts[i])
    {
      assert parts[i] != [];
      assert cluster[addrs[i]].disk != disk || FilesHold(files, tasks[i].id, parts[i]);
    }
  }

  ghost predicate OtherResultsKept(job: bytes, r: nat, before: Files, after: Files)
  {
    forall q: nat :: q != r && ResultPath(job, q) in before ==>
      ResultPath(job, q) in after && after[ResultPath(job, q)] == before[ResultPath(job, q)]
  }

  lemma OtherResultHolds(job: bytes, r: nat, before: Files, after: Files, q: nat,
                         pairs: seq<KeyValue>, numReducers: nat,
                         reduce: Reducer)
    requires numReducers > 0 && q != r && OtherResultsKept(job, r, before, after)
    requires ResultHolds(before, job, q, pairs, numReducers, reduce)
    ensures ResultHolds(after, job, q, pairs, numReducers, reduce)
  {
    hide IsResult, Select, ResultPath;
  }

  /** The reduce tasks done have their results where they succeeded. */
  ghost predicate ResultsInPlace(attempts: seq<Attempt>, k: nat, job: bytes, where: seq<bytes>, cluster: Cluster,
                                 pairs: seq<KeyValue>, numReducers: nat, reduce: Reducer)
    requires numReducers > 0
    reads DisksOf(cluster)
  {
    && |where| == numReducers
    && forall r: nat :: r < numReducers && Achieved(attempts, k, r) ==>
         where[r] in cluster && ResultHolds(cluster[where[r]].disk.files, job, r, pairs, numReducers, reduce)
  }

  /** One attempt at a reduce task: the results in place stay, and there is one more if it succeeds. */
  method ReduceAttempt(attempts: seq<Attempt>, k: nat, job: bytes, tasks: seq<Task>,
                       addrs: seq<bytes>, cluster: Cluster,
                       mapper: Mapper, reduce: Reducer, numReducers: nat,
                       ghost parts: seq<seq<seq<KeyValue>>>, ghost where: seq<bytes>)
    returns (ghost where': seq<bytes>)
    requires k < |attempts| && Schedule(attempts, numReducers, cluster.Keys) && ReduceScratch(attempts, job)
    requires numReducers > 0 && TasksApart(tasks) && AddressesSound(cluster) && MapDone(tasks, addrs, cluster, parts)
    requires AllSpilled(EmittedBy(tasks, mapper), numReducers, parts)
    requires JobFits(Flatten(EmittedBy(tasks, mapper)))
    requires ResultsInPlace(attempts, k, job, where, cluster, Flatten(EmittedBy(tasks, mapper)), numReducers, reduce)
    modifies DisksOf(cluster)
    ensures MapDone(tasks, addrs, cluster, parts)
    ensures where' == if attempts[k].outcome.Succeeds? then where[attempts[k].index := attempts[k].addr] else where
    ensures ResultsInPlace(attempts, k + 1, job, where', cluster,
                           Flatten(EmittedBy(tasks, mapper)), numReducers, reduce)
  {
    hide EmittedBy, JobFits, AllSpilled, FilesHold, ResultHolds;
    hide Select, Flatten, TasksApart, Numbered, Achieved, OwnReducePath;
    hide OtherResultsKept, AddressesSound;
    ghost var pairs := Flatten(EmittedBy(tasks, mapper));
    var r, addr := attempts[k].index, attempts[k].addr;
    ghost var disk := cluster[addr].disk;
    ghost var files := disk.files;
    where' := where;
    if attempts[k].outcome.Succeeds? {
      var mapTaskInfo := TaskMap(tasks, addrs);
      RunReduceTask(job, r, tasks, addrs, addr, cluster, mapTaskInfo, mapper, reduce, numReducers, parts);
      where' := where[r := addr];
    } else {
      FailReduceTask(job, r, attempts[k].outcome, tasks, addrs, addr, cluster, parts);
    }
    forall q: nat | q < numReducers && Achieved(attempts, k + 1, q)
      ensures where'[q] in cluster && ResultHolds(cluster[where'[q]].disk.files, job, q, pairs, numReducers, reduce)
    {
      OneMoreAttempt(attempts, k, q);
      if q != r && cluster[where[q]].disk == disk {
        OtherResultHolds(job, r, files, disk.files, q, pairs, numReducers, reduce);
      }
    }
  }

  /** Tries the reduce tasks, in whatever turns, until each has succeeded. */
  method ReducePhase(job: bytes, tasks: seq<Task>, addrs: seq<bytes>, attempts: seq<Attempt>, cluster: Cluster,
                     mapper: Mapper, reduce: Reducer, numReducers: nat, ghost parts: seq<seq<seq<KeyValue>>>)
    returns (ghost where: seq<bytes>)
    requires numReducers > 0 && TasksApart(tasks) && AddressesSound(cluster)
    requires Schedule(attempts, numReducers, cluster.Keys) && ReduceScratch(attempts, job)
    requires MapDone(tasks, addrs, cluster, parts)
    requires AllSpilled(EmittedBy(tasks, mapper), numReducers, parts)
    requires JobFits(Flatten(EmittedBy(tasks, mapper)))
    modifies DisksOf(cluster)
    ensures |where| == numReducers && Placed(attempts, |attempts|, where)
    ensures forall r :: 0 <= r < numReducers ==>
              && where[r] in cluster
              && ResultHolds(cluster[where[r]].disk.files, job, r,
                             Flatten(EmittedBy(tasks, mapper)), numReducers, reduce)
  {
    hide *;
    where := seq(numReducers, _ => []);
    NothingDone(attempts);
    NoResults(attempts, job, where, cluster, Flatten(EmittedBy(tasks, mapper)), numReducers, reduce);
    for k := 0 to |attempts|
      invariant MapDone(tasks, addrs, cluster, parts) && |where| == numReducers && Placed(attempts, k, where)
      invariant ResultsInPlace(attempts, k, job, where, cluster, Flatten(EmittedBy(tasks, mapper)), numReducers, reduce)
    {
      NextReducer(attempts, k, numReducers, cluster.Keys);
      PlaceOne(attempts, k, where);
      where := ReduceAttempt(attempts, k, job, tasks, addrs, cluster, mapper, reduce, numReducers, parts, where);
    }
    ReduceEnds(attempts, job, where, cluster, Flatten(EmittedBy(tasks, mapper)), numReducers, reduce);
  }

  lemma NoResults(attempts: seq<Attempt>, job: bytes, where: seq<bytes>, cluster: Cluster, pairs: seq<KeyValue>,
                  numReducers: nat, reduce: Reducer)
    requires numReducers > 0 && |where| == numReducers
    ensures ResultsInPlace(attempts, 0, job, where, cluster, pairs, numReducers, reduce)
  {
    hide ResultHolds;
  }

  lemma NextReducer(attempts: seq<Attempt>, k: nat, numReducers: nat, addresses: set<bytes>)
    requires k < |attempts| && Schedule(attempts, numReducers, addresses)
    ensures attempts[k].index < numReducers && attempts[k].addr in addresses
            && !Achieved(attempts, k, attempts[k].index)
  {
    hide Achieved;
  }

  lemma ReduceEnds(attempts: seq<Attempt>, job: bytes, where: seq<bytes>, cluster: Cluster, pairs: seq<KeyValue>,
                   numReducers: nat, reduce: Reducer)
    requires numReducers > 0 && Schedule(attempts, numReducers, cluster.Keys)
    requires ResultsInPlace(attempts, |attempts|, job, where, cluster, pairs, numReducers, reduce)
    ensures |where| == numReducers
    ensures forall r :: 0 <= r < numReducers ==>
              where[r] in cluster && ResultHolds(cluster[where[r]].disk.files, job, r, pairs, numReducers, reduce)
  {
    hide Achieved, ResultHolds;
  }

  // ---------- From input files to result files ----------

  /** The chunks of a file as they are stored, numbered from 0. */
  ghost predicate HoldsChunks(stored: map<nat, bytes>, chunks: seq<bytes>)
  {
    && (forall i: nat :: i in stored <==> i < |chunks|)
    && forall i :: 0 <= i < |chunks| ==> stored[i] == chunks[i]
  }

  ghost predicate InputsStored(inputs: seq<Input>, max: nat, stored: seq<map<nat, bytes>>)
    requires max > 0
  {
    |stored| == |inputs| && forall n :: 0 <= n < |inputs| ==> HoldsChunks(stored[n], TextChunks(inputs[n].text, 0, max))
  }

  /** Cuts an input file as the client does and stores the chunks in the order of their ids. */
  method StoreInput(text: bytes, max: nat) returns (stored: map<nat, bytes>)
    requires 0 < max < UINT32 && ChunksFit(text, 0, max)
    ensures HoldsChunks(stored, TextChunks(text, 0, max))
  {
    hide *;
    var sizes := CalculateChunks(text, true, max);
    var ids := seq(|sizes|, i => i);
    stored := Put(text, sizes, ids);
    StoredInOrder(text, max, sizes, ids, stored);
  }

  lemma StoredInOrder(text: bytes, max: nat, sizes: seq<nat>, ids: seq<nat>, stored: map<nat, bytes>)
    requires max > 0 && sizes == TextSizes(text, 0, max) && ids == seq(|sizes|, i => i)
    requires forall id :: id in stored <==> id in ids
    requires forall i: nat :: LastFor(ids, i) ==> stored[ids[i]] == Segments(text, SizesFor(sizes, ids))[i]
    ensures HoldsChunks(stored, TextChunks(text, 0, max))
  {
    hide Segments, TextSizes, LastFor, SizesFor;
    InOrder(sizes, ids);
    assert text[0..] == text;
    forall i: nat | i < |ids|
      ensures i in ids
    {
      assert ids[i] == i;
    }
  }

  method StoreInputs(inputs: seq<Input>, max: nat) returns (stored: seq<map<nat, bytes>>)
    requires 0 < max < UINT32 && forall n :: 0 <= n < |inputs| ==> ChunksFit(inputs[n].text, 0, max)
    ensures InputsStored(inputs, max, stored)
  {
    hide HoldsChunks, TextChunks, ChunksFit;
    stored := [];
    for n := 0 to |inputs|
      invariant |stored| == n
      invariant forall m :: 0 <= m < n ==> HoldsChunks(stored[m], TextChunks(inputs[m].text, 0, max))
    {
      var chunks := StoreInput(inputs[n].text, max);
      stored := stored + [chunks];
    }
  }

  /** handleJobSubmission's list: one map task for each stored chunk of each input, in order. */
  method ListTasks(inputs: seq<Input>, ghost max: nat, stored: seq<map<nat, bytes>>) returns (tasks: seq<Task>)
    requires max > 0 && InputsStored(inputs, max, stored)
    ensures tasks == TaskList(inputs, max)
  {
    hide TextChunks, TaskId, HoldsChunks;
    tasks := [];
    for n := 0 to |inputs|
      invariant tasks == TaskList(inputs[..n], max)
    {
      var added := ListChunks(inputs[n].name, stored[n], TextChunks(inputs[n].text, 0, max));
      tasks := tasks + added;
      assert inputs[..n + 1][..n] == inputs[..n];
    }
    assert inputs[..|inputs|] == inputs;
  }

  method ListChunks(name: bytes, stored: map<nat, bytes>, ghost chunks: seq<bytes>) returns (tasks: seq<Task>)
    requires HoldsChunks(stored, chunks)
    ensures tasks == ChunkTasks(name, chunks)
  {
    hide TaskId;
    StoredCount(stored, chunks);
    tasks := [];
    for i := 0 to |stored|
      invariant tasks == ChunkTasks(name, chunks)[..i]
    {
      tasks := tasks + [Task(TaskId(name, i), stored[i])];
    }
  }

  lemma StoredCount(stored: map<nat, bytes>, chunks: seq<bytes>)
    requires HoldsChunks(stored, chunks)
    ensures |stored| == |chunks|
  {
    CountUpTo(|chunks|, stored.Keys);
    assert |stored| == |stored.Keys|;
  }

  lemma {:induction false} CountUpTo(n: nat, ids: set<nat>)
    requires forall i: nat :: i in ids <==> i < n
    ensures |ids| == n
  {
    if n > 0 {
      CountUpTo(n - 1, ids - {n - 1});
    } else {
      assert ids == {};
    }
  }

  /**
   * End to end: whatever the inputs, chunk size, placement, failed attempts and number of reducers, every reducer's
   * file holds its keys with all the values the inputs emit for them, reduced; with an order-free reducer it is,
   * byte for byte, what grouping all the emitted pairs one at a time gives.
   */
  method RunJob(job: bytes, inputs: seq<Input>, ghost max: nat, stored: seq<map<nat, bytes>>,
                mapper: Mapper, reduce: Reducer,
                numReducers: nat, cluster: Cluster, mapAttempts: seq<Attempt>, reduceAttempts: seq<Attempt>)
    returns (ghost where: seq<bytes>)
    requires max > 0 && numReducers > 0 && NamesApart(inputs) && AddressesSound(cluster)
    requires InputsStored(inputs, max, stored)
    requires Schedule(mapAttempts, |TaskList(inputs, max)|, cluster.Keys)
             && MapScratch(mapAttempts, TaskList(inputs, max))
    requires Schedule(reduceAttempts, numReducers, cluster.Keys) && ReduceScratch(reduceAttempts, job)
    requires forall i :: 0 <= i < |inputs| ==> LinesFit(inputs[i].text, MAX_TOKEN)
    requires JobFits(EmittedFrom(inputs, mapper))
    modifies DisksOf(cluster)
    ensures |where| == numReducers && Placed(reduceAttempts, |reduceAttempts|, where)
    ensures forall r :: 0 <= r < numReducers ==>
              && where[r] in cluster
              && ResultHolds(cluster[where[r]].disk.files, job, r, EmittedFrom(inputs, mapper), numReducers, reduce)
    ensures OrderFree(reduce) ==> forall r :: 0 <= r < numReducers ==>
              ResultIs(cluster[where[r]].disk.files, job, r,
                       ResultText(Sequential(Select(EmittedFrom(inputs, mapper), numReducers, r)), reduce))
  {
    hide *;
    var tasks := ListTasks(inputs, max, stored);
    TaskListApart(inputs, max);
    TaskListEmits(inputs, max, mapper);
    FitsIsWellFormed(EmittedFrom(inputs, mapper));
    var addrs, reduceData;
    ghost var parts;
    addrs, reduceData, parts := MapPhase(tasks, mapAttempts, cluster, mapper, numReducers);
    where := ReducePhase(job, tasks, addrs, reduceAttempts, cluster, mapper, reduce, numReducers, parts);
    if OrderFree(reduce) {
      forall r | 0 <= r < numReducers
        ensures ResultIs(cluster[where[r]].disk.files, job, r,
                         ResultText(Sequential(Select(EmittedFrom(inputs, mapper), numReducers, r)), reduce))
      {
        HeldResultIsSequential(cluster[where[r]].disk.files, job, r, EmittedFrom(inputs, mapper), numReducers, reduce);
      }
    }
  }

  /** From the files themselves: the client cuts and stores the inputs, then the job runs on what was stored. */
  method StoreAndRun(job: bytes, inputs: seq<Input>, max: nat, mapper: Mapper, reduce: Reducer, numReducers: nat,
                     cluster: Cluster, mapAttempts: seq<Attempt>, reduceAttempts: seq<Attempt>)
    returns (ghost where: seq<bytes>)
    requires 0 < max <= UINT32 - MAX_TOKEN && numReducers > 0 && NamesApart(inputs) && AddressesSound(cluster)
    requires Schedule(mapAttempts, |TaskList(inputs, max)|, cluster.Keys)
             && MapScratch(mapAttempts, TaskList(inputs, max))
    requires Schedule(reduceAttempts, numReducers, cluster.Keys) && ReduceScratch(reduceAttempts, job)
    requires forall i :: 0 <= i < |inputs| ==> LinesFit(inputs[i].text, MAX_TOKEN)
    requires JobFits(EmittedFrom(inputs, mapper))
    modifies DisksOf(cluster)
    ensures |where| == numReducers && Placed(reduceAttempts, |reduceAttempts|, where)
    ensures forall r :: 0 <= r < numReducers ==>
              && where[r] in cluster
              && ResultHolds(cluster[where[r]].disk.files, job, r, EmittedFrom(inputs, mapper), numReducers, reduce)
    ensures OrderFree(reduce) ==> forall r :: 0 <= r < numReducers ==>
              ResultIs(cluster[where[r]].disk.files, job, r,
                       ResultText(Sequential(Select(EmittedFrom(inputs, mapper), numReducers, r)), reduce))
  {
    hide TaskList, TextSizes, LinesFit, RawLines, EmittedFrom, ChunksFit, JobFits, Schedule, MapScratch, ReduceScratch;
    hide InputsStored, ResultHolds, ResultIs, Placed, Select;
    hide Sequential, ResultText, OrderFree, NamesApart, AddressesSound;
    forall n | 0 <= n < |inputs|
      ensures ChunksFit(inputs[n].text, 0, max)
    {
      FitsSmaller(inputs[n].text, MAX_TOKEN, UINT32 - max);
      ShortLinesFit(inputs[n].text, 0, max);
    }
    var stored := StoreInputs(inputs, max);
    where := RunJob(job, inputs, max, stored, mapper, reduce, numReducers, cluster, mapAttempts, reduceAttempts);
  }

  lemma FitsSmaller(text: bytes, a: nat, b: nat)
    requires LinesFit(text, a) && a <= b
    ensures LinesFit(text, b)
  {
  }
}
