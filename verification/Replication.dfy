/** The copies a scan orders for chunks that have too few. */
module Replication {
  import opened Bytes
  import opened Metadata

  /** Asks a node that holds a chunk to copy it to as many others as are needed. */
  datatype ReplicaTask = ReplicaTask(source: bytes, fileName: bytes, chunkId: nat, needed: nat)

  /** A chunk with some copies, but not enough, is copied from the first node listed. */
  function TaskOf(name: bytes, chunk: ChunkInfo): seq<ReplicaTask>
  {
    if 0 < |chunk.nodes| < REPLICATION_FACTOR
    then [ReplicaTask(chunk.nodes[0], name, chunk.chunkId, REPLICATION_FACTOR - |chunk.nodes|)]
    else []
  }

  function TasksOf(name: bytes, chunks: seq<ChunkInfo>): seq<ReplicaTask>
  {
    if chunks == [] then [] else TasksOf(name, chunks[..|chunks| - 1]) + TaskOf(name, chunks[|chunks| - 1])
  }

  /** The tasks of the files gone through, file by file. */
  function TasksFor(files: FileMap, order: seq<bytes>): seq<ReplicaTask>
  {
    if order == [] then []
    else
      var last := order[|order| - 1];
      TasksFor(files, order[..|order| - 1]) + if last in files then TasksOf(last, files[last].chunks) else []
  }

  method FileTasks(name: bytes, chunks: seq<ChunkInfo>) returns (tasks: seq<ReplicaTask>)
    ensures tasks == TasksOf(name, chunks)
  {
    tasks := [];
    for i := 0 to |chunks|
      invariant tasks == TasksOf(name, chunks[..i])
    {
      assert chunks[..i + 1][..i] == chunks[..i];
      var aliveCount := |chunks[i].nodes|;
      if aliveCount > 0 && aliveCount < REPLICATION_FACTOR {
        tasks := tasks + [ReplicaTask(chunks[i].nodes[0], name, chunks[i].chunkId, REPLICATION_FACTOR - aliveCount)];
      }
    }
    assert chunks[..|chunks|] == chunks;
  }

  /** A change to one file leaves the tasks of the others as they are. */
  lemma {:induction false} TasksElsewhere(before: FileMap, after: FileMap, order: seq<bytes>)
    requires forall name :: name in order ==>
               (name in before <==> name in after) && (name in before ==> before[name] == after[name])
    ensures TasksFor(before, order) == TasksFor(after, order)
  {
    hide TasksOf;
    if order != [] {
      var n := |order| - 1;
      assert order[n] in order;
      TasksElsewhere(before, after, order[..n]);
    }
  }

  lemma TasksForAppend(files: FileMap, order: seq<bytes>, name: bytes)
    requires name in files
    ensures TasksFor(files, order + [name]) == TasksFor(files, order) + TasksOf(name, files[name].chunks)
  {
    assert (order + [name])[..|order|] == order;
  }

  // ---------- What the tasks are ----------

  /** The task asks for what this chunk of the file lacks: one or two nodes are listed, it needs what makes three. */
  ghost predicate AsksFor(task: ReplicaTask, name: bytes, chunk: ChunkInfo)
  {
    && 1 <= |chunk.nodes| <= 2
    && task.fileName == name && task.chunkId == chunk.chunkId
    && task.source == chunk.nodes[0] && task.needed + |chunk.nodes| == 3
  }

  /** The chunks that have a copy, but fewer than three. */
  function Short(chunks: seq<ChunkInfo>): set<nat>
  {
    set i: nat | i < |chunks| && 1 <= |chunks[i].nodes| <= 2
  }

  /** A file's tasks are those its short chunks ask for, one for each. */
  lemma {:induction false} TasksExactly(name: bytes, chunks: seq<ChunkInfo>, task: ReplicaTask)
    ensures task in TasksOf(name, chunks) <==> exists i :: 0 <= i < |chunks| && AsksFor(task, name, chunks[i])
    ensures |TasksOf(name, chunks)| == |Short(chunks)|
  {
    hide TaskOf, AsksFor, Short;
    if chunks == [] {
      NoneShort();
    } else {
      var n := |chunks| - 1;
      TasksExactly(name, chunks[..n], task);
      LastTask(name, chunks, task);
    }
  }

  lemma NoneShort()
    ensures |Short([])| == 0
  {
    assert Short([]) == {};
  }

  lemma LastTask(name: bytes, chunks: seq<ChunkInfo>, task: ReplicaTask)
    requires chunks != []
    ensures var n := |chunks| - 1;
            && (task in TaskOf(name, chunks[n]) <==> AsksFor(task, name, chunks[n]))
            && |Short(chunks)| == |Short(chunks[..n])| + |TaskOf(name, chunks[n])|
  {
    var n := |chunks| - 1;
    assert Short(chunks) == Short(chunks[..n]) + if 1 <= |chunks[n].nodes| <= 2 then {n} else {};
  }

  /** The tasks of a scan are those the short chunks of the files gone through ask for, one for each. */
  lemma {:induction false} ScanTasksExactly(files: FileMap, order: seq<bytes>, task: ReplicaTask, short: seq<nat>)
    requires forall name :: name in order ==> name in files
    requires |short| == |order| && forall k :: 0 <= k < |order| ==> short[k] == |Short(files[order[k]].chunks)|
    ensures task in TasksFor(files, order) <==>
              exists name, i ::
                name in order && 0 <= i < |files[name].chunks| && AsksFor(task, name, files[name].chunks[i])
    ensures |TasksFor(files, order)| == Sum(short)
  {
    hide TasksOf, AsksFor, Short;
    if order != [] {
      var n := |order| - 1;
      var last := order[n];
      assert last in order && forall name :: name in order[..n] ==> name in order;
      ScanTasksExactly(files, order[..n], task, short[..n]);
      TasksExactly(last, files[last].chunks, task);
      SumAppend(short[..n], short[n]);
      assert short == short[..n] + [short[n]] && order == order[..n] + [last];
    }
  }

  /** Some chunk of the files gone through asks for the task. */
  ghost predicate Due(files: FileMap, order: seq<bytes>, task: ReplicaTask)
  {
    exists name, i ::
      name in order && name in files && 0 <= i < |files[name].chunks| && AsksFor(task, name, files[name].chunks[i])
  }

  lemma TasksAreDue(files: FileMap, order: seq<bytes>)
    requires forall name :: name in order ==> name in files
    ensures forall task :: task in TasksFor(files, order) <==> Due(files, order, task)
  {
    hide TasksFor, AsksFor, Short;
    forall task
      ensures task in TasksFor(files, order) <==> Due(files, order, task)
    {
      var short := seq(|order|, k requires 0 <= k < |order| =>
        assert order[k] in order; |Short(files[order[k]].chunks)|);
      ScanTasksExactly(files, order, task, short);
    }
  }

  // ---------- What carrying them out does ----------

  /** The chunks after success reports from these addresses. */
  function StoreAll(chunks: seq<ChunkInfo>, id: nat, addrs: seq<bytes>): seq<ChunkInfo>
  {
    if addrs == [] then chunks else StoreChunk(StoreAll(chunks, id, addrs[..|addrs| - 1]), id, addrs[|addrs| - 1])
  }

  /** Success reports from further addresses list each of them, behind those listed. */
  lemma {:induction false} StoresAll(chunks: seq<ChunkInfo>, id: nat, addrs: seq<bytes>)
    requires id < |chunks| && chunks[id].chunkId == id && FindChunk(chunks, id) == id
    requires Distinct(addrs) && forall a :: a in addrs ==> a !in chunks[id].nodes
    ensures StoreAll(chunks, id, addrs) == WithNodes(chunks, id, chunks[id].nodes + addrs)
  {
    if addrs == [] {
      assert chunks[id].nodes + [] == chunks[id].nodes;
    } else {
      var n := |addrs| - 1;
      StoresAll(chunks, id, addrs[..n]);
      var before := StoreAll(chunks, id, addrs[..n]);
      assert addrs[n] !in addrs[..n];
      SameChunk(chunks, before, id);
      assert chunks[id].nodes + addrs[..n] + [addrs[n]] == chunks[id].nodes + addrs;
    }
  }

  lemma SameChunk(a: seq<ChunkInfo>, b: seq<ChunkInfo>, id: nat)
    requires |a| == |b| && forall i :: 0 <= i < |a| ==> a[i].chunkId == b[i].chunkId
    ensures FindChunk(a, id) == FindChunk(b, id)
  {
    var i, j := FindChunk(a, id), FindChunk(b, id);
  }

  /** Carried out at addresses that do not hold the chunk, a task brings it to three copies, and none is due then. */
  lemma TaskCompletes(name: bytes, chunks: seq<ChunkInfo>, id: nat, task: ReplicaTask, addrs: seq<bytes>)
    requires ChunksOk(chunks) && id < |chunks| && AsksFor(task, name, chunks[id])
    requires |addrs| == task.needed && Distinct(addrs) && forall a :: a in addrs ==> a !in chunks[id].nodes
    ensures var after := StoreAll(chunks, id, addrs);
            && |after| == |chunks| && |after[id].nodes| == 3 && Distinct(after[id].nodes)
            && (forall i :: 0 <= i < |chunks| && i != id ==> after[i] == chunks[i])
            && TaskOf(name, after[id]) == []
  {
    FindById(chunks, id);
    StoresAll(chunks, id, addrs);
    BothDistinct(chunks[id].nodes, addrs);
  }

  lemma BothDistinct(a: seq<bytes>, b: seq<bytes>)
    requires Distinct(a) && Distinct(b) && forall x :: x in b ==> x !in a
    ensures Distinct(a + b)
  {
    forall i, j | 0 <= i < j < |a + b|
      ensures (a + b)[i] != (a + b)[j]
    {
      if i < |a| <= j {
        assert b[j - |a|] in b;
      }
    }
  }
}
