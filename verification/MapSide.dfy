/** What the files of a map task hold, on plain values. */
module MapSide {
  import opened Bytes
  import opened Lines
  import opened RecordCodec
  import opened Merging
  import opened Partitioning
  import opened IndexFiles
  import opened Disks
  import opened Names
  import opened ExternalSorting

  type Mapper = bytes -> seq<KeyValue>

  function MapLines(lines: seq<bytes>, mapper: Mapper): seq<KeyValue>
  {
    if lines == [] then [] else MapLines(lines[..|lines| - 1], mapper) + mapper(lines[|lines| - 1])
  }

  /** All the pairs mapped from a text, line by line. */
  function Emitted(text: bytes, mapper: Mapper): seq<KeyValue>
  {
    MapLines(Scanned(text, MAX_TOKEN), mapper)
  }

  lemma MapLinesAppend(lines: seq<bytes>, line: bytes, mapper: Mapper)
    ensures MapLines(lines + [line], mapper) == MapLines(lines, mapper) + mapper(line) && MapLines([], mapper) == []
  {
    assert (lines + [line])[..|lines|] == lines;
  }

  function Flatten(buffers: seq<seq<KeyValue>>): seq<KeyValue>
  {
    if buffers == [] then [] else Flatten(buffers[..|buffers| - 1]) + buffers[|buffers| - 1]
  }

  // ---------- Spill files ----------

  function AddSpill(files: Files, task: bytes, i: nat, parts: seq<seq<KeyValue>>): Files
  {
    files[SpillPath(task, i) := Layout(parts)][SpillIndexPath(task, i) := IndexText(parts)]
  }

  /** The disk after the first |spilled| spills of a task. */
  function WithSpills(files: Files, task: bytes, spilled: seq<seq<seq<KeyValue>>>): Files
  {
    if spilled == [] then files
    else AddSpill(WithSpills(files, task, spilled[..|spilled| - 1]), task, |spilled| - 1, spilled[|spilled| - 1])
  }

  function SpillNames(task: bytes, n: nat): set<Path>
  {
    if n == 0 then {} else SpillNames(task, n - 1) + {SpillPath(task, n - 1), SpillIndexPath(task, n - 1)}
  }

  lemma {:induction false} SpillNamesAre(task: bytes, n: nat, path: Path)
    ensures path in SpillNames(task, n)
       <==> exists i :: 0 <= i < n && (path == SpillPath(task, i) || path == SpillIndexPath(task, i))
  {
    if n > 0 {
      SpillNamesAre(task, n - 1, path);
      if path in SpillNames(task, n) && path !in SpillNames(task, n - 1) {
        assert path == SpillPath(task, n - 1) || path == SpillIndexPath(task, n - 1);
      }
    }
  }

  /** Spilling touches no other file. */
  lemma {:induction false} WithSpillsElsewhere(files: Files, task: bytes, spilled: seq<seq<seq<KeyValue>>>, path: Path)
    requires path !in SpillNames(task, |spilled|)
    ensures path in WithSpills(files, task, spilled) <==> path in files
    ensures path in files ==> WithSpills(files, task, spilled)[path] == files[path]
  {
    if spilled != [] {
      WithSpillsElsewhere(files, task, spilled[..|spilled| - 1], path);
    }
  }

  /** Each spill's files still hold what was spilled. */
  lemma {:induction false} WithSpillsHolds(files: Files, task: bytes, spilled: seq<seq<seq<KeyValue>>>, i: nat)
    requires i < |spilled|
    ensures SpillPath(task, i) in WithSpills(files, task, spilled)
    ensures SpillIndexPath(task, i) in WithSpills(files, task, spilled)
    ensures WithSpills(files, task, spilled)[SpillPath(task, i)] == Layout(spilled[i])
    ensures WithSpills(files, task, spilled)[SpillIndexPath(task, i)] == IndexText(spilled[i])
  {
    hide Layout, IndexText, Numbered;
    var n := |spilled| - 1;
    NumberedInjective(task, i, task, n);
    if i < n {
      WithSpillsHolds(files, task, spilled[..n], i);
    }
  }

  /** The section of a spill file mergeSpills reads for partition r, if it opens the file at all. */
  function SpillSection(files: Files, task: bytes, i: nat, r: nat): Option<bytes>
  {
    if SpillIndexPath(task, i) !in files then None
    else
      var range := FindOrLast(Split(files[SpillIndexPath(task, i)], NEWLINE), r, Range(0, 0));
      if range.end > range.start && SpillPath(task, i) in files
      then Some(Section(files[SpillPath(task, i)], range.start, range.end))
      else None
  }

  function SpillStreams(files: Files, task: bytes, n: nat, r: nat): (streams: seq<seq<KeyValue>>)
    ensures |streams| == n
    ensures forall i :: 0 <= i < n ==> streams[i] == RecordsIn(SpillSection(files, task, i, r))
  {
    seq(n, i requires 0 <= i < n => RecordsIn(SpillSection(files, task, i, r)))
  }

  lemma SpillSectionOfParts(files: Files, task: bytes, i: nat, r: nat, parts: seq<seq<KeyValue>>)
    requires r < |parts|
    requires SpillPath(task, i) in files && files[SpillPath(task, i)] == Layout(parts)
    requires SpillIndexPath(task, i) in files && files[SpillIndexPath(task, i)] == IndexText(parts)
    ensures RecordsIn(SpillSection(files, task, i, r)) == Records(EncodeAll(parts[r]))
  {
    hide Records, EncodeAll, Layout, IndexText, Find, FindOrLast, Section;
    FindInIndexText(parts, r);
    FindOrLastFinds(Split(IndexText(parts), NEWLINE), r, Range(0, 0));
    SectionOfLayout(parts, r);
    if Start(parts, r) == Start(parts, r + 1) {
      EmptySection(Layout(parts), Start(parts, r));
    }
  }

  lemma EmptySection(data: bytes, at: nat)
    ensures Section(data, at, at) == []
    ensures Records([]) == []
  {
  }

  // ---------- Spill and merge are one partition-and-sort ----------

  /** Buffer i was partitioned into spilled[i]. */
  predicate AllSpilled(buffers: seq<seq<KeyValue>>, numReducers: nat, spilled: seq<seq<seq<KeyValue>>>)
    requires numReducers > 0
  {
    |spilled| == |buffers| && forall i :: 0 <= i < |buffers| ==> IsPartition(buffers[i], numReducers, spilled[i])
  }

  function Column(spilled: seq<seq<seq<KeyValue>>>, r: nat): (column: seq<seq<KeyValue>>)
    requires forall i :: 0 <= i < |spilled| ==> r < |spilled[i]|
    ensures |column| == |spilled|
    ensures forall i :: 0 <= i < |spilled| ==> column[i] == spilled[i][r]
  {
    seq(|spilled|, i requires 0 <= i < |spilled| => spilled[i][r])
  }

  /** However the pairs were cut into buffers, partition r of the spills holds partition r of the pairs. */
  lemma {:induction false} ColumnUnion(buffers: seq<seq<KeyValue>>, numReducers: nat,
                                       spilled: seq<seq<seq<KeyValue>>>, r: nat)
    requires r < numReducers && AllSpilled(buffers, numReducers, spilled)
    ensures Union(Column(spilled, r)) == multiset(Select(Flatten(buffers), numReducers, r))
    ensures AllSorted(Column(spilled, r))
  {
    hide Sorted, Select, Hash, Union;
    if buffers == [] {
      SelectNothing(numReducers, r);
      NothingUnited();
    } else {
      var n := |buffers| - 1;
      ColumnUnion(buffers[..n], numReducers, spilled[..n], r);
      assert Column(spilled, r) == Column(spilled[..n], r) + [spilled[n][r]];
      UnionAppend(Column(spilled[..n], r), spilled[n][r]);
      SelectConcat(Flatten(buffers[..n]), buffers[n], numReducers, r);
    }
  }

  lemma NothingUnited()
    ensures Union([]) == multiset{}
  {
  }

  lemma {:induction false} FlattenMembers(buffers: seq<seq<KeyValue>>, i: nat, kv: KeyValue)
    requires i < |buffers| && kv in buffers[i]
    ensures kv in Flatten(buffers)
  {
    if i < |buffers| - 1 {
      FlattenMembers(buffers[..|buffers| - 1], i, kv);
    }
  }

  /** The parts of a partition hold no pair that was not there. */
  lemma PartitionMembers(pairs: seq<KeyValue>, numReducers: nat, parts: seq<seq<KeyValue>>, r: nat, kv: KeyValue)
    requires r < numReducers && IsPartition(pairs, numReducers, parts) && kv in parts[r]
    ensures kv in pairs && PartOf(kv.key, numReducers) == r
  {
    hide Sorted, Hash;
    assert kv in multiset(parts[r]);
    SelectCounts(pairs, numReducers, r, kv);
    assert kv in multiset(pairs);
  }

  /** Merging the spills partition by partition partitions the pairs of all the buffers. */
  lemma MergedSpillsPartition(files: Files, task: bytes, buffers: seq<seq<KeyValue>>, numReducers: nat,
                              spilled: seq<seq<seq<KeyValue>>>, merged: seq<seq<KeyValue>>)
    requires numReducers > 0 && AllSpilled(buffers, numReducers, spilled) && AllWellFormed(Flatten(buffers))
    requires |merged| == numReducers
    requires forall r :: 0 <= r < numReducers ==>
               MergeOf(SpillStreams(WithSpills(files, task, spilled), task, |spilled|, r), merged[r])
    ensures IsPartition(Flatten(buffers), numReducers, merged)
  {
    hide *;
    assert |merged| == numReducers;
    forall r | 0 <= r < numReducers
      ensures Sorted(merged[r]) && multiset(merged[r]) == multiset(Select(Flatten(buffers), numReducers, r))
    {
      SpillStreamsAreColumn(files, task, buffers, numReducers, spilled, r);
      MergedColumn(buffers, numReducers, spilled, merged[r], r);
    }
    PartitionByParts(Flatten(buffers), numReducers, merged);
  }

  lemma PartitionByParts(pairs: seq<KeyValue>, numReducers: nat, parts: seq<seq<KeyValue>>)
    requires |parts| == numReducers > 0
    requires forall r :: 0 <= r < numReducers ==>
               Sorted(parts[r]) && multiset(parts[r]) == multiset(Select(pairs, numReducers, r))
    ensures IsPartition(pairs, numReducers, parts)
  {
  }

  lemma MergedColumn(buffers: seq<seq<KeyValue>>, numReducers: nat, spilled: seq<seq<seq<KeyValue>>>,
                     merged: seq<KeyValue>, r: nat)
    requires r < numReducers && AllSpilled(buffers, numReducers, spilled)
    requires MergeOf(Column(spilled, r), merged)
    ensures Sorted(merged) && multiset(merged) == multiset(Select(Flatten(buffers), numReducers, r))
  {
    ColumnUnion(buffers, numReducers, spilled, r);
  }

  lemma SpillStreamsAreColumn(files: Files, task: bytes, buffers: seq<seq<KeyValue>>, numReducers: nat,
                              spilled: seq<seq<seq<KeyValue>>>, r: nat)
    requires r < numReducers && AllSpilled(buffers, numReducers, spilled) && AllWellFormed(Flatten(buffers))
    ensures SpillStreams(WithSpills(files, task, spilled), task, |spilled|, r) == Column(spilled, r)
  {
    hide WithSpills, SpillSection, Records, EncodeAll, Layout, IndexText, RecordsIn, Sorted, Hash, WellFormed, Select;
    forall i | 0 <= i < |spilled|
      ensures RecordsIn(SpillSection(WithSpills(files, task, spilled), task, i, r)) == spilled[i][r]
    {
      WithSpillsHolds(files, task, spilled, i);
      SpillSectionOfParts(WithSpills(files, task, spilled), task, i, r, spilled[i]);
      forall kv | kv in spilled[i][r]
        ensures WellFormed(kv)
      {
        PartitionMembers(buffers[i], numReducers, spilled[i], r, kv);
        FlattenMembers(buffers, i, kv);
      }
      RoundTripExactly(spilled[i][r]);
    }
  }

  // ---------- The buffer of a running map task ----------

  /** The pairs mapped so far are in the spills or in the buffer, in order. */
  ghost predicate MapState(start: Files, files: Files, task: bytes, numReducers: nat, pairs: seq<KeyValue>,
                           buffer: seq<KeyValue>, buffers: seq<seq<KeyValue>>, spilled: seq<seq<seq<KeyValue>>>)
    requires numReducers > 0
  {
    && pairs == Flatten(buffers) + buffer
    && AllSpilled(buffers, numReducers, spilled)
    && files == WithSpills(start, task, spilled)
  }

  lemma Buffered(start: Files, files: Files, task: bytes, numReducers: nat, pairs: seq<KeyValue>,
                 buffer: seq<KeyValue>, buffers: seq<seq<KeyValue>>, spilled: seq<seq<seq<KeyValue>>>, kv: KeyValue)
    requires numReducers > 0 && MapState(start, files, task, numReducers, pairs, buffer, buffers, spilled)
    ensures MapState(start, files, task, numReducers, pairs + [kv], buffer + [kv], buffers, spilled)
  {
    assert Flatten(buffers) + (buffer + [kv]) == Flatten(buffers) + buffer + [kv];
  }

  lemma BufferSpilled(start: Files, files: Files, task: bytes, numReducers: nat, pairs: seq<KeyValue>,
                      buffer: seq<KeyValue>, buffers: seq<seq<KeyValue>>, spilled: seq<seq<seq<KeyValue>>>,
                      parts: seq<seq<KeyValue>>)
    requires numReducers > 0 && MapState(start, files, task, numReducers, pairs, buffer, buffers, spilled)
    requires IsPartition(buffer, numReducers, parts)
    ensures MapState(start, AddSpill(files, task, |spilled|, parts), task, numReducers, pairs,
                     [], buffers + [buffer], spilled + [parts])
  {
    hide IsPartition, AddSpill;
    assert (buffers + [buffer])[..|buffers|] == buffers;
    assert (spilled + [parts])[..|spilled|] == spilled;
  }

  lemma {:induction false} SpillsRemoved(files: Files, task: bytes, spilled: seq<seq<seq<KeyValue>>>,
                                         out: bytes, index: bytes)
    ensures WithSpills(files, task, spilled)[InterPath(task) := out][IndexPath(task) := index]
            - SpillNames(task, |spilled|)
         == files[InterPath(task) := out][IndexPath(task) := index] - SpillNames(task, |spilled|)
  {
    hide WithSpills, SpillNames;
    var a := WithSpills(files, task, spilled)[InterPath(task) := out][IndexPath(task) := index]
             - SpillNames(task, |spilled|);
    var b := files[InterPath(task) := out][IndexPath(task) := index] - SpillNames(task, |spilled|);
    forall path
      ensures path in a <==> path in b
      ensures path in a ==> a[path] == b[path]
    {
      if path !in SpillNames(task, |spilled|) {
        WithSpillsElsewhere(files, task, spilled, path);
      }
    }
  }
}
