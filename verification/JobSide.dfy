/** From the map tasks' files to the result files, on plain values. */
module JobSide {
  import opened Bytes
  import opened RecordCodec
  import opened Merging
  import opened Partitioning
  import opened IndexFiles
  import opened Disks
  import opened Names
  import opened MapSide
  import opened ReduceSide
  import opened Grouping
  import opened GroupCodec

  datatype Task = Task(id: bytes, text: bytes)

  function EmittedBy(tasks: seq<Task>, mapper: Mapper): (emitted: seq<seq<KeyValue>>)
    ensures |emitted| == |tasks|
    ensures forall i :: 0 <= i < |tasks| ==> emitted[i] == Emitted(tasks[i].text, mapper)
  {
    seq(|tasks|, i requires 0 <= i < |tasks| => Emitted(tasks[i].text, mapper))
  }

  /** The tasks' ids are distinct, and no final index has the name of another task's spill index. */
  ghost predicate TasksApart(tasks: seq<Task>)
  {
    && (forall i, j :: 0 <= i < j < |tasks| ==> tasks[i].id != tasks[j].id)
    && (forall i, j, n: nat :: 0 <= i < |tasks| && 0 <= j < |tasks| ==> tasks[i].id != Numbered(tasks[j].id, n))
  }

  /** A finished map task's files. */
  predicate FilesHold(files: Files, id: bytes, parts: seq<seq<KeyValue>>)
  {
    && InterPath(id) in files && files[InterPath(id)] == Layout(parts)
    && IndexPath(id) in files && files[IndexPath(id)] == IndexText(parts)
  }

  lemma MapMakes(files: Files, id: bytes, n: nat, parts: seq<seq<KeyValue>>)
    ensures FilesHold(files[InterPath(id) := Layout(parts)][IndexPath(id) := IndexText(parts)] - SpillNames(id, n),
                      id, parts)
  {
    hide Layout, IndexText;
    SpillNamesAre(id, n, InterPath(id));
    SpillNamesAre(id, n, IndexPath(id));
    assert forall i: nat :: |Numbered(id, i)| > |id|;
  }

  /** One map task leaves another's files alone. */
  lemma MapKeeps(files: Files, task: bytes, n: nat, out: bytes, index: bytes, id: bytes, parts: seq<seq<KeyValue>>)
    requires FilesHold(files, id, parts)
    requires id != task && forall i: nat :: id != Numbered(task, i)
    ensures FilesHold(files[InterPath(task) := out][IndexPath(task) := index] - SpillNames(task, n), id, parts)
  {
    hide Layout, IndexText, Numbered;
    SpillNamesAre(task, n, InterPath(id));
    SpillNamesAre(task, n, IndexPath(id));
  }

  function AfterReduce(files: Files, job: bytes, r: nat, merged: bytes, removed: set<Path>, result: bytes): Files
  {
    (files[MergedPath(r) := merged] - removed)[ResultPath(job, r) := result]
  }

  /** A reduce task leaves the map tasks' files and the other results alone. */
  lemma ReduceKeeps(files: Files, job: bytes, r: nat, merged: bytes, removed: set<Path>, result: bytes)
    requires forall p :: p in removed ==> p.kind == Fetched || p.kind == SortedRun
    ensures var after := AfterReduce(files, job, r, merged, removed, result);
            && (forall id, parts :: FilesHold(files, id, parts) ==> FilesHold(after, id, parts))
            && (forall q: nat :: q != r && ResultPath(job, q) in files ==>
                  ResultPath(job, q) in after && after[ResultPath(job, q)] == files[ResultPath(job, q)])
  {
    hide Layout, IndexText, Numbered;
    forall q: nat | q != r
      ensures ResultPath(job, q) != ResultPath(job, r)
    {
      NumberedInjective(job, q, job, r);
    }
  }

  /** What a reducer fetches of a finished task is its partition. */
  lemma RegionHeld(files: Files, id: bytes, parts: seq<seq<KeyValue>>, r: nat)
    requires FilesHold(files, id, parts) && r < |parts|
    ensures RegionAt(files, id, r) == EncodeAll(parts[r])
  {
    hide Region, Layout, IndexText;
    RegionOfLayout(parts, r);
  }

  // ---------- One reducer ----------

  lemma {:induction false} StreamsWithout(regions: map<bytes, bytes>, order: seq<bytes>, k: nat)
    requires k < |order| && forall id :: id in order ==> id in regions
    ensures Union(RegionStreams(regions, order))
         == Union(RegionStreams(regions, order[..k] + order[k + 1..])) + multiset(Records(regions[order[k]]))
  {
    hide Records;
    var streams := RegionStreams(regions, order);
    var before, after := streams[..k], streams[k + 1..];
    assert streams == before + [streams[k]] + after;
    assert RegionStreams(regions, order[..k] + order[k + 1..]) == before + after;
    UnionConcat(before + [streams[k]], after);
    UnionAppend(before, streams[k]);
    UnionConcat(before, after);
  }

  /** The order in which the map tasks are visited does not matter. */
  lemma {:induction false} OrderDoesNotMatter(regions: map<bytes, bytes>, a: seq<bytes>, b: seq<bytes>,
                                              keys: set<bytes>)
    requires Enumerates(a, keys) && Enumerates(b, keys) && keys <= regions.Keys
    ensures Union(RegionStreams(regions, a)) == Union(RegionStreams(regions, b))
  {
    hide RegionStreams, Union;
    if a == [] {
      NothingEnumerated(a, keys);
      NothingEnumerated(b, keys);
    } else {
      var id := a[0];
      assert id in b;
      var k :| 0 <= k < |b| && b[k] == id;
      StreamsWithout(regions, a, 0);
      StreamsWithout(regions, b, k);
      EnumeratesWithout(a, 0, keys);
      EnumeratesWithout(b, k, keys);
      OrderDoesNotMatter(regions, a[..0] + a[1..], b[..k] + b[k + 1..], keys - {id});
    }
  }

  function Ids(tasks: seq<Task>): (ids: seq<bytes>)
    ensures |ids| == |tasks|
    ensures forall i :: 0 <= i < |tasks| ==> ids[i] == tasks[i].id
  {
    seq(|tasks|, i requires 0 <= i < |tasks| => tasks[i].id)
  }

  /** Each task's region holds its partition r. */
  ghost predicate RegionsHold(regions: map<bytes, bytes>, tasks: seq<Task>, parts: seq<seq<seq<KeyValue>>>,
                              numReducers: nat, r: nat)
  {
    && |parts| == |tasks| && r < numReducers
    && Enumerates(Ids(tasks), regions.Keys)
    && forall i :: 0 <= i < |tasks| ==>
         |parts[i]| == numReducers && tasks[i].id in regions && regions[tasks[i].id] == EncodeAll(parts[i][r])
  }

  /** Merging the regions of all the tasks gives the partition of all their pairs, in key order. */
  lemma MergedRegions(regions: map<bytes, bytes>, tasks: seq<Task>, mapper: Mapper, parts: seq<seq<seq<KeyValue>>>,
                      numReducers: nat, r: nat, order: seq<bytes>, run: seq<KeyValue>)
    requires RegionsHold(regions, tasks, parts, numReducers, r)
    requires AllSpilled(EmittedBy(tasks, mapper), numReducers, parts)
    requires AllWellFormed(Flatten(EmittedBy(tasks, mapper)))
    requires Enumerates(order, regions.Keys)
    requires RegionsWellFormed(regions) ==> MergeOf(RegionStreams(regions, order), run)
    ensures Sorted(run)
    ensures multiset(run) == multiset(Select(Flatten(EmittedBy(tasks, mapper)), numReducers, r))
  {
    hide *;
    TaskRecords(regions, tasks, mapper, parts, numReducers, r);
    SortedInOrder(regions, tasks, mapper, parts, numReducers, r, order);
    RegionsHoldIds(regions, tasks, parts, numReducers, r);
    OrderDoesNotMatter(regions, order, Ids(tasks), regions.Keys);
    ColumnUnion(EmittedBy(tasks, mapper), numReducers, parts, r);
    MergeOfSorted(RegionStreams(regions, order), run);
  }

  lemma MergeOfSorted(streams: seq<seq<KeyValue>>, run: seq<KeyValue>)
    requires MergeOf(streams, run) && AllSorted(streams)
    ensures Sorted(run) && multiset(run) == Union(streams)
  {
  }

  lemma RegionsHoldIds(regions: map<bytes, bytes>, tasks: seq<Task>, parts: seq<seq<seq<KeyValue>>>,
                       numReducers: nat, r: nat)
    requires RegionsHold(regions, tasks, parts, numReducers, r)
    ensures Enumerates(Ids(tasks), regions.Keys) && r < numReducers
  {
  }

  lemma TaskRecords(regions: map<bytes, bytes>, tasks: seq<Task>, mapper: Mapper, parts: seq<seq<seq<KeyValue>>>,
                    numReducers: nat, r: nat)
    requires RegionsHold(regions, tasks, parts, numReducers, r)
    requires AllSpilled(EmittedBy(tasks, mapper), numReducers, parts)
    requires AllWellFormed(Flatten(EmittedBy(tasks, mapper)))
    ensures forall i :: 0 <= i < |tasks| ==> Records(regions[tasks[i].id]) == parts[i][r]
    ensures RegionStreams(regions, Ids(tasks)) == Column(parts, r)
    ensures RegionsWellFormed(regions)
  {
    hide Records, EncodeAll, Emitted, WellFormed, Sorted, Select, Hash;
    var buffers := EmittedBy(tasks, mapper);
    forall i | 0 <= i < |tasks|
      ensures Records(regions[tasks[i].id]) == parts[i][r] && AllWellFormed(parts[i][r])
    {
      forall kv | kv in parts[i][r]
        ensures WellFormed(kv)
      {
        PartitionMembers(buffers[i], numReducers, parts[i], r, kv);
        FlattenMembers(buffers, i, kv);
      }
      RoundTripExactly(parts[i][r]);
    }
    forall id | id in regions
      ensures AllWellFormed(Records(regions[id]))
    {
      assert id in Ids(tasks);
      var i :| 0 <= i < |tasks| && Ids(tasks)[i] == id;
    }
  }

  lemma SortedInOrder(regions: map<bytes, bytes>, tasks: seq<Task>, mapper: Mapper, parts: seq<seq<seq<KeyValue>>>,
                      numReducers: nat, r: nat, order: seq<bytes>)
    requires RegionsHold(regions, tasks, parts, numReducers, r)
    requires AllSpilled(EmittedBy(tasks, mapper), numReducers, parts)
    requires forall i :: 0 <= i < |tasks| ==> Records(regions[tasks[i].id]) == parts[i][r]
    requires Enumerates(order, regions.Keys)
    ensures forall id :: id in order ==> id in regions
    ensures AllSorted(RegionStreams(regions, order))
  {
    hide Records, EncodeAll, Emitted, Sorted, Select, Hash;
    forall k | 0 <= k < |order|
      ensures Sorted(Records(regions[order[k]]))
    {
      assert order[k] in Ids(tasks);
      var i :| 0 <= i < |tasks| && Ids(tasks)[i] == order[k];
    }
  }

  // ---------- Results ----------

  /** A reducer's file holds one line per key of its partition, by key, its values reduced in some order. */
  ghost predicate IsResult(text: bytes, pairs: seq<KeyValue>, reduce: Reducer)
  {
    exists groups :: IsUnorderedGrouping(groups, pairs) && text == ResultText(groups, reduce)
  }

  function Reduced(run: seq<KeyValue>, reduce: Reducer): bytes
  {
    ResultText(ScanGroups(GroupText(Runs(Records(EncodeAll(run))))), reduce)
  }

  lemma {:induction false} SelectedFits(pairs: seq<KeyValue>, numReducers: nat, r: nat)
    requires numReducers > 0 && JobFits(pairs)
    ensures JobFits(Select(pairs, numReducers, r))
  {
    hide Hash, WellFormed, Weight;
    var selected := Select(pairs, numReducers, r);
    forall kv | kv in selected
      ensures kv in pairs
    {
      assert kv in multiset(selected);
      SelectCounts(pairs, numReducers, r, kv);
      assert kv in multiset(pairs);
    }
    forall key | ValuesOf(selected, key) != []
      ensures ValuesOf(selected, key) == ValuesOf(pairs, key)
    {
      ValuesOfSelected(pairs, numReducers, r, key);
    }
  }

  /** A key's values are all in its own partition. */
  lemma {:induction false} ValuesOfSelected(pairs: seq<KeyValue>, numReducers: nat, r: nat, key: bytes)
    requires numReducers > 0
    ensures ValuesOf(Select(pairs, numReducers, r), key) ==
               if PartOf(key, numReducers) == r then ValuesOf(pairs, key) else []
  {
    hide Hash;
    if pairs != [] {
      var init, last := pairs[..|pairs| - 1], pairs[|pairs| - 1];
      assert pairs == init + [last];
      ValuesOfSelected(init, numReducers, r, key);
      SelectConcat(init, [last], numReducers, r);
      var one := Select([last], numReducers, r);
      assert one == (if PartOf(last.key, numReducers) == r then [last] else []) + Select([], numReducers, r);
      ValuesOfConcat(Select(init, numReducers, r), one, key);
      OneValue(last, key);
    }
  }

  lemma OneValue(kv: KeyValue, key: bytes)
    ensures ValuesOf([kv], key) == if kv.key == key then [kv.value] else []
  {
    assert [kv] == [] + [kv];
    ValuesOfAppend([], kv, key);
  }

  /** Grouping, joining, splitting and reducing a sorted run of a partition gives its result. */
  lemma ReducedIsResult(pairs: seq<KeyValue>, run: seq<KeyValue>, reduce: Reducer)
    requires JobFits(pairs)
    requires Sorted(run) && multiset(run) == multiset(pairs)
    ensures IsResult(Reduced(run, reduce), pairs, reduce)
  {
    hide Records, EncodeAll, Runs, ScanGroups, GroupText, ResultText;
    hide Lookup, Increasing, ValuesOf, AllClean, WellFormed, Sorted;
    forall kv | kv in run
      ensures WellFormed(kv)
    {
      assert kv in multiset(run);
      assert kv in multiset(pairs);
    }
    RoundTripExactly(run);
    var groups := Runs(run);
    RunsOfSorted(run);
    forall key
      ensures multiset(Lookup(groups, key)) == multiset(ValuesOf(pairs, key))
    {
      ValuesOfPermutation(run, pairs, key);
      assert Lookup(groups, key) == ValuesOf(run, key);
    }
    GroupsFit(groups, pairs);
    GroupRoundTripExactly(groups);
  }

  /** With an order-free reducer the result is byte for byte that of grouping the pairs one at a time. */
  lemma ResultIsSequential(text: bytes, pairs: seq<KeyValue>, reduce: Reducer)
    requires OrderFree(reduce) && IsResult(text, pairs, reduce)
    ensures text == ResultText(Sequential(pairs), reduce)
  {
    hide ResultText, Lookup, Increasing, ValuesOf, Sequential;
    var groups :| IsUnorderedGrouping(groups, pairs) && text == ResultText(groups, reduce);
    SequentialGroups(pairs);
    forall key
      ensures multiset(Lookup(groups, key)) == multiset(Lookup(Sequential(pairs), key))
    {
      assert Lookup(Sequential(pairs), key) == ValuesOf(pairs, key);
    }
    GroupingsAgree(groups, Sequential(pairs));
    SameResult(groups, Sequential(pairs), reduce);
  }

  /** Each key has its group, with all its values, at one reducer and at no other. */
  lemma OneReducerPerKey(pairs: seq<KeyValue>, numReducers: nat, r: nat, key: bytes)
    requires numReducers > 0
    ensures Lookup(Sequential(Select(pairs, numReducers, r)), key)
         == if Poly(key) % 0x8000_0000 % numReducers == r then ValuesOf(pairs, key) else []
  {
    hide Poly, Lookup, Sequential, ValuesOf, Select;
    SequentialGroups(Select(pairs, numReducers, r));
    ValuesOfSelected(pairs, numReducers, r, key);
  }
}
