/** The worker: spilling, merging spills, serving intermediate data, shuffling and reducing. */
module Workers {
  import opened Bytes
  import opened Lines
  import opened RecordCodec
  import opened KVScanners
  import opened Merging
  import opened Partitioning
  import opened IndexFiles
  import opened Disks
  import opened Names
  import opened ExternalSorting
  import opened MapSide
  import opened MapBytes
  import opened ReduceSide
  import opened Grouping
  import opened GroupCodec

  const BUFFER_LIMIT: nat := 10000

  class Worker {
    const disk: Disk
    const hostName: bytes  // the local host's name, up to its first dot

    constructor (disk: Disk, hostName: bytes)
      ensures this.disk == disk && this.hostName == hostName
    {
      this.disk := disk;
      this.hostName := hostName;
    }

    // ---------- Map ----------

    /** Buckets the buffer by the hash of the key. */
    method Partition(buffer: seq<KeyValue>, numReducers: nat) returns (partitions: seq<seq<KeyValue>>)
      requires numReducers > 0
      ensures |partitions| == numReducers
      ensures forall r :: 0 <= r < numReducers ==> partitions[r] == Select(buffer, numReducers, r)
      ensures forall r, kv :: 0 <= r < numReducers ==>
                (kv in partitions[r] <==> kv in buffer && Poly(kv.key) % 0x8000_0000 % numReducers == r)
    {
      hide Poly;
      partitions := seq(numReducers, _ => []);
      assert buffer[..0] == [];
      for n := 0 to |buffer|
        invariant |partitions| == numReducers
        invariant forall r :: 0 <= r < numReducers ==> partitions[r] == Select(buffer[..n], numReducers, r)
      {
        var kv := buffer[n];
        var hash := IHash(kv.key);
        var r := hash % numReducers;
        assert r == PartOf(kv.key, numReducers);
        forall q | 0 <= q < numReducers
          ensures Select(buffer[..n + 1], numReducers, q)
               == Select(buffer[..n], numReducers, q) + if q == r then [kv] else []
        {
          assert buffer[..n + 1] == buffer[..n] + [kv];
          SelectConcat(buffer[..n], [kv], numReducers, q);
        }
        partitions := partitions[r := partitions[r] + [kv]];
      }
      assert buffer[..|buffer|] == buffer;
      forall r, kv | 0 <= r < numReducers
        ensures kv in partitions[r] <==> kv in buffer && Poly(kv.key) % 0x8000_0000 % numReducers == r
      {
        SelectedExactly(buffer, numReducers, r, kv);
      }
    }

    /** The spill file holds the buffer's partitions, each in key order, and the index where each begins. */
    method Spill(buffer: seq<KeyValue>, task: bytes, spillIdx: nat, numReducers: nat)
      returns (ghost parts: seq<seq<KeyValue>>)
      requires numReducers > 0
      modifies disk
      ensures IsPartition(buffer, numReducers, parts)
      ensures disk.files == AddSpill(old(disk.files), task, spillIdx, parts)
    {
      hide *;
      var partitions := Partition(buffer, numReducers);
      var out, index: bytes := [], [];
      var offset: nat := 0;
      parts := [];
      NoParts();
      for r := 0 to numReducers
        invariant disk.files == old(disk.files)
        invariant |parts| == r
        invariant forall q :: 0 <= q < r ==>
                    Sorted(parts[q]) && multiset(parts[q]) == multiset(Select(buffer, numReducers, q))
        invariant out == Layout(parts) && offset == |out| && index == IndexText(parts)
      {
        var part := SortByKey(partitions[r]);
        var startOffset := offset;
        ghost var before := out;
        assert part[..0] == [] && EncodeAll([]) == [] by { EncodeNothing(); }
        for i := 0 to |part|
          invariant disk.files == old(disk.files)
          invariant out == before + EncodeAll(part[..i]) && offset == |out|
        {
          assert part[..i + 1] == part[..i] + [part[i]];
          EncodeAllAppend(part[..i], part[i]);
          out, offset := WriteRecord(out, offset, part[i]);
        }
        assert part[..|part|] == part;
        LayoutAppend(parts, part);
        IndexTextAppend(parts, part);
        index := index + IndexLine(Entry(r, Range(startOffset, offset))) + [NEWLINE];
        parts := parts + [part];
      }
      PartitionByParts(buffer, numReducers, parts);
      disk.files := disk.files[SpillPath(task, spillIdx) := out][SpillIndexPath(task, spillIdx) := index];
      SpillAdded(old(disk.files), task, spillIdx, parts);
    }

    /** Starts on partition r of every spill. */
    method OpenSpills(task: bytes, numSpills: nat, r: nat) returns (h: ScannerHeap, ghost all: seq<KVScanner>)
      ensures fresh(h) && fresh(all)
      ensures Holds(h, all)
      ensures StandsFor(Streams(all), SpillStreams(disk.files, task, numSpills, r))
    {
      hide *;
      h := EmptyHeap();
      all := [];
      for i := 0 to numSpills
        invariant fresh(h) && forall j :: 0 <= j < |all| ==> fresh(all[j])
        invariant Holds(h, all)
        invariant StandsFor(Streams(all), SpillStreams(disk.files, task, i, r))
      {
        assert SpillStreams(disk.files, task, i + 1, r)
            == SpillStreams(disk.files, task, i, r) + [RecordsIn(SpillSection(disk.files, task, i, r))];
        var section := OpenSection(task, i, r);
        all := OpenNext(h, section, all, SpillStreams(disk.files, task, i, r));
      }
    }

    method OpenSection(task: bytes, i: nat, r: nat) returns (section: Option<bytes>)
      ensures section == SpillSection(disk.files, task, i, r)
    {
      hide Section, FindOrLast, Split;
      section := None;
      if SpillIndexPath(task, i) in disk.files {
        var start, end := FindEntryOrLast(disk.files[SpillIndexPath(task, i)], r);
        if end > start && SpillPath(task, i) in disk.files {
          section := Some(Section(disk.files[SpillPath(task, i)], start, end));
        }
      }
    }

    /** Merges the spills partition by partition into the intermediate file, then removes them. */
    method MergeSpills(task: bytes, numSpills: nat, numReducers: nat)
      returns (reduceData: seq<nat>, ghost merged: seq<seq<KeyValue>>)
      modifies disk
      ensures |merged| == |reduceData| == numReducers
      ensures forall r :: 0 <= r < numReducers ==>
                && MergeOf(SpillStreams(old(disk.files), task, numSpills, r), merged[r])
                && reduceData[r] == |EncodeAll(merged[r])|
      ensures disk.files == old(disk.files)[InterPath(task) := Layout(merged)][IndexPath(task) := IndexText(merged)]
                          - SpillNames(task, numSpills)
    {
      hide *;
      disk.files := disk.files[InterPath(task) := []][IndexPath(task) := []];
      var out, index: bytes := [], [];
      var currentOffset: nat := 0;
      reduceData, merged := [], [];
      NoParts();
      for r := 0 to numReducers
        invariant |merged| == |reduceData| == r
        invariant forall q :: 0 <= q < r ==>
                    && MergeOf(SpillStreams(old(disk.files), task, numSpills, q), merged[q])
                    && reduceData[q] == |EncodeAll(merged[q])|
        invariant out == Layout(merged) && currentOffset == |out| && index == IndexText(merged)
        invariant disk.files == old(disk.files)[InterPath(task) := out][IndexPath(task) := index]
      {
        var startOffset := currentOffset;
        SpillStreamsApart(old(disk.files), task, numSpills, r, out, index);
        var h;
        ghost var all, run;
        h, all := OpenSpills(task, numSpills, r);
        ghost var streams := Streams(all);
        var region, written;
        region, written, run := Drain(h, all);
        MergeStandsFor(streams, SpillStreams(old(disk.files), task, numSpills, r), run);
        out, currentOffset := out + region, currentOffset + written;
        LayoutAppend(merged, run);
        IndexTextAppend(merged, run);
        index := index + IndexLine(Entry(r, Range(startOffset, currentOffset))) + [NEWLINE];
        merged, reduceData := merged + [run], reduceData + [currentOffset - startOffset];
        disk.files := disk.files[InterPath(task) := out][IndexPath(task) := index];
      }
      RemoveSpills(task, numSpills);
    }

    method RemoveSpills(task: bytes, numSpills: nat)
      modifies disk
      ensures disk.files == old(disk.files) - SpillNames(task, numSpills)
    {
      for i := 0 to numSpills
        invariant disk.files == old(disk.files) - SpillNames(task, i)
      {
        disk.files := disk.files - {SpillPath(task, i)};
        disk.files := disk.files - {SpillIndexPath(task, i)};
      }
    }

    /** Buffers the pairs of one line, spilling whenever the buffer is full. */
    method BufferPairs(kvs: seq<KeyValue>, buffer: seq<KeyValue>, task: bytes, spillIdx: nat, numReducers: nat,
                       ghost start: Files, ghost pairs: seq<KeyValue>, ghost buffers: seq<seq<KeyValue>>,
                       ghost spilled: seq<seq<seq<KeyValue>>>)
      returns (buffer': seq<KeyValue>, spillIdx': nat, ghost buffers': seq<seq<KeyValue>>,
               ghost spilled': seq<seq<seq<KeyValue>>>)
      requires numReducers > 0 && |spilled| == spillIdx && |buffer| < BUFFER_LIMIT
      requires |pairs| == 10000 * spillIdx + |buffer|
      requires MapState(start, disk.files, task, numReducers, pairs, buffer, buffers, spilled)
      modifies disk
      ensures |spilled'| == spillIdx' && |buffer'| < BUFFER_LIMIT
      ensures |pairs| + |kvs| == 10000 * spillIdx' + |buffer'|
      ensures MapState(start, disk.files, task, numReducers, pairs + kvs, buffer', buffers', spilled')
    {
      hide *;
      LimitIs();
      buffer', spillIdx', buffers', spilled' := buffer, spillIdx, buffers, spilled;
      assert pairs + kvs[..0] == pairs;
      for i := 0 to |kvs|
        invariant |spilled'| == spillIdx' && |buffer'| < BUFFER_LIMIT
        invariant |pairs| + i == 10000 * spillIdx' + |buffer'|
        invariant MapState(start, disk.files, task, numReducers, pairs + kvs[..i], buffer', buffers', spilled')
      {
        assert pairs + kvs[..i + 1] == pairs + kvs[..i] + [kvs[i]];
        Buffered(start, disk.files, task, numReducers, pairs + kvs[..i], buffer', buffers', spilled', kvs[i]);
        buffer' := buffer' + [kvs[i]];
        if |buffer'| >= BUFFER_LIMIT {
          buffers', spilled' := SpillBuffer(buffer', task, spillIdx', numReducers,
                                               start, pairs + kvs[..i + 1], buffers', spilled');
          buffer' := [];
          spillIdx' := spillIdx' + 1;
        }
      }
      assert kvs[..|kvs|] == kvs;
    }

    method SpillBuffer(buffer: seq<KeyValue>, task: bytes, spillIdx: nat, numReducers: nat, ghost start: Files,
                       ghost pairs: seq<KeyValue>, ghost buffers: seq<seq<KeyValue>>,
                       ghost spilled: seq<seq<seq<KeyValue>>>)
      returns (ghost buffers': seq<seq<KeyValue>>, ghost spilled': seq<seq<seq<KeyValue>>>)
      requires numReducers > 0 && |spilled| == spillIdx
      requires MapState(start, disk.files, task, numReducers, pairs, buffer, buffers, spilled)
      modifies disk
      ensures |spilled'| == spillIdx + 1
      ensures MapState(start, disk.files, task, numReducers, pairs, [], buffers', spilled')
    {
      hide *;
      ghost var parts := Spill(buffer, task, spillIdx, numReducers);
      BufferSpilled(start, old(disk.files), task, numReducers, pairs, buffer, buffers, spilled, parts);
      buffers', spilled' := buffers + [buffer], spilled + [parts];
    }

    /** Maps a chunk line by line and merges the spills. */
    method RunMap(chunk: bytes, mapper: Mapper, task: bytes, numReducers: nat)
      returns (reduceData: seq<nat>, ghost merged: seq<seq<KeyValue>>, ghost spills: nat)
      requires numReducers > 0
      modifies disk
      ensures AllWellFormed(Emitted(chunk, mapper)) ==> IsPartition(Emitted(chunk, mapper), numReducers, merged)
      ensures |merged| == |reduceData| == numReducers
      ensures spills == (|Emitted(chunk, mapper)| + 9999) / 10000
      ensures reduceData == Sizes(merged) && Sum(reduceData) == |Layout(merged)|
      ensures AllWellFormed(Emitted(chunk, mapper)) ==> Sum(reduceData) == |EncodeAll(Emitted(chunk, mapper))|
      ensures disk.files == old(disk.files)[InterPath(task) := Layout(merged)][IndexPath(task) := IndexText(merged)]
                          - SpillNames(task, spills)
    {
      hide *;
      LimitIs();
      var buffer: seq<KeyValue> := [];
      var spillIdx := 0;
      var input := chunk;
      ghost var lines: seq<bytes>, buffers: seq<seq<KeyValue>>, spilled: seq<seq<seq<KeyValue>>> := [], [], [];
      MapStarts(disk.files, task, numReducers, mapper);
      NothingMapped(mapper);
      while true
        invariant Scanned(chunk, MAX_TOKEN) == lines + Scanned(input, MAX_TOKEN)
        invariant |spilled| == spillIdx && |buffer| < BUFFER_LIMIT
        invariant |MapLines(lines, mapper)| == 10000 * spillIdx + |buffer|
        invariant MapState(old(disk.files), disk.files, task, numReducers,
                           MapLines(lines, mapper), buffer, buffers, spilled)
        decreases |input|
      {
        var scan := NextLine(input, MAX_TOKEN);
        ScannedStep(input, MAX_TOKEN);
        if scan == Done {
          break;
        }
        MapLinesAppend(lines, scan.line, mapper);
        buffer, spillIdx, buffers, spilled := BufferPairs(mapper(scan.line), buffer, task, spillIdx, numReducers,
                                                          old(disk.files), MapLines(lines, mapper), buffers, spilled);
        lines := lines + [scan.line];
        input := scan.rest;
      }
      SpillCount(|MapLines(lines, mapper)|, spillIdx, |buffer|);
      if |buffer| > 0 {
        buffers, spilled := SpillBuffer(buffer, task, spillIdx, numReducers,
                                        old(disk.files), MapLines(lines, mapper), buffers, spilled);
        buffer := [];
        spillIdx := spillIdx + 1;
      }
      spills := spillIdx;
      MapEnds(old(disk.files), disk.files, task, numReducers, chunk, mapper, lines, buffers, spilled);
      reduceData, merged := MergeSpills(task, spillIdx, numReducers);
      assert reduceData == Sizes(merged);
      SizesTileLayout(merged);
      if AllWellFormed(Emitted(chunk, mapper)) {
        MergedSpillsPartition(old(disk.files), task, buffers, numReducers, spilled, merged);
        PartitionSize(Emitted(chunk, mapper), numReducers, merged);
      }
      SpillsRemoved(old(disk.files), task, spilled, Layout(merged), IndexText(merged));
    }

    // ---------- Intermediate data ----------

    /** Answers a request for partition r of a map task with exactly its bytes. */
    method HandleFetchIntermediate(task: bytes, r: nat) returns (ok: bool, content: bytes)
      ensures ok == (IndexPath(task) in disk.files)
      ensures content == RegionAt(disk.files, task, r)
    {
      hide Section, Find, Split;
      content := [];
      if IndexPath(task) !in disk.files {
        return false, [];
      }
      var found, start, end := FindEntry(disk.files[IndexPath(task)], r);
      if found && end > start && InterPath(task) in disk.files {
        content := Section(disk.files[InterPath(task)], start, end);
      }
      ok := true;
    }

    /** Copies partition r of a local map task into a file of its own, unless it is empty. */
    method CopyLocal(task: bytes, r: nat) returns (fetched: Option<Path>)
      modifies disk
      ensures fetched.None? ==> disk.files == old(disk.files) && RegionAt(disk.files, task, r) == []
      ensures fetched.Some? ==> fetched.value == FetchedPath(task, r)
      ensures fetched.Some? ==> disk.files == old(disk.files)[fetched.value := RegionAt(old(disk.files), task, r)]
    {
      hide Section, Find, Split;
      fetched := None;
      if IndexPath(task) in disk.files {
        var found, start, end := FindEntry(disk.files[IndexPath(task)], r);
        if found && end > start && InterPath(task) in disk.files {
          fetched := Some(FetchedPath(task, r));
          disk.files := disk.files[fetched.value := Section(disk.files[InterPath(task)], start, end)];
        }
      }
    }

    /** The disk a fetch from an address reads: the local one, a peer's, or none that answers. */
    ghost function FilesAt(addr: bytes, cluster: map<bytes, Worker>): Files
      reads disk, set a | a in cluster :: cluster[a].disk
    {
      if hostName <= addr then disk.files
      else if addr in cluster then cluster[addr].disk.files
      else map[]
    }

    /** What each map task has for partition r. */
    ghost function Regions(mapTaskInfo: map<bytes, bytes>, cluster: map<bytes, Worker>, r: nat):
      (regions: map<bytes, bytes>)
      reads disk, set a | a in cluster :: cluster[a].disk
      ensures regions.Keys == mapTaskInfo.Keys
      ensures forall id :: id in mapTaskInfo ==>
                regions[id] == RegionAt(FilesAt(mapTaskInfo[id], cluster), id, r)
    {
      map id | id in mapTaskInfo :: RegionAt(FilesAt(mapTaskInfo[id], cluster), id, r)
    }

    /** Fetches one task's partition, by a local copy or from the worker that ran it. */
    method Fetch(id: bytes, addr: bytes, cluster: map<bytes, Worker>, r: nat) returns (fetched: Option<Path>)
      modifies disk
      ensures fetched.None? ==> disk.files == old(disk.files) && old(RegionAt(FilesAt(addr, cluster), id, r)) == []
      ensures fetched.Some? ==> fetched.value == FetchedPath(id, r)
      ensures fetched.Some? ==>
                disk.files == old(disk.files)[fetched.value := old(RegionAt(FilesAt(addr, cluster), id, r))]
      ensures forall x, a :: RegionAt(FilesAt(a, cluster), x, r) == old(RegionAt(FilesAt(a, cluster), x, r))
    {
      hide RegionAt;
      NothingThere(id, r);
      if hostName <= addr {
        fetched := CopyLocal(id, r);
      } else {
        fetched := None;
        if addr in cluster {
          var ok, content := cluster[addr].HandleFetchIntermediate(id, r);
          if ok {
            fetched := Some(FetchedPath(id, r));
            disk.files := disk.files[fetched.value := content];
          } else {
            NoIndexNoRegion(cluster[addr].disk.files, id, r);
          }
        }
      }
      forall x, a
        ensures RegionAt(FilesAt(a, cluster), x, r) == old(RegionAt(FilesAt(a, cluster), x, r))
      {
        RegionElsewhere(old(disk.files), disk.files, x, r);
      }
    }

    /** Fetches from every map task, in whatever order the map gives them. */
    method FetchAll(mapTaskInfo: map<bytes, bytes>, cluster: map<bytes, Worker>, r: nat)
      returns (fetchedFiles: seq<Path>, ghost order: seq<bytes>)
      modifies disk
      ensures Enumerates(order, mapTaskInfo.Keys)
      ensures FetchedSoFar(old(disk.files), disk.files, old(Regions(mapTaskInfo, cluster, r)), r, order, fetchedFiles)
    {
      hide StandsFor, StreamsAt, RegionStreams, InputsWellFormed;
      hide RegionsWellFormed, RegionAt, FetchedSoFar, FetchedPath;
      ghost var regions := Regions(mapTaskInfo, cluster, r);
      fetchedFiles, order := [], [];
      NothingFetched(disk.files, regions, r);
      var todo := mapTaskInfo.Keys;
      while todo != {}
        invariant todo <= mapTaskInfo.Keys && Enumerates(order, mapTaskInfo.Keys - todo)
        invariant FetchedSoFar(old(disk.files), disk.files, regions, r, order, fetchedFiles)
        invariant Regions(mapTaskInfo, cluster, r) == regions
        decreases todo
      {
        var id :| id in todo;
        todo := todo - {id};
        ghost var files := disk.files;
        var fetched := Fetch(id, mapTaskInfo[id], cluster, r);
        if fetched.Some? {
          FetchedOne(old(disk.files), files, regions, r, order, fetchedFiles, id);
          fetchedFiles := fetchedFiles + [fetched.value];
        } else {
          FetchedNone(old(disk.files), files, regions, r, order, fetchedFiles, id);
        }
        order := order + [id];
      }
    }

    // ---------- Shuffle and reduce ----------

    /** Writes one line for each run of equal keys in a sorted file. */
    method GroupRuns(sorted: bytes) returns (out: bytes)
      ensures out == GroupText(Runs(Records(sorted)))
    {
      hide *;
      var scanner := new KVScanner(sorted);
      out := [];
      var currentKey: Option<bytes> := None;
      var values: seq<bytes> := [];
      ghost var done: seq<KeyValue> := [];
      NothingGrouped();
      ScannerStarts(scanner, sorted);
      while true
        invariant fresh(scanner) && scanner.Valid() && Records(sorted) == done + scanner.rest
        invariant Grouped(done, out, currentKey, values)
        decreases |scanner.rest|
      {
        ghost var rest := scanner.rest;
        var ok := scanner.Next();
        ScannerShows(scanner);
        if !ok {
          break;
        }
        var kv := scanner.current;
        GroupedFurther(done, out, currentKey, values, kv);
        if currentKey.Some? && kv.key != currentKey.value {
          out := WriteGroup(out, Group(currentKey.value, values));
          values := [];
        }
        currentKey := Some(kv.key);
        values := values + [kv.value];
        assert rest == [kv] + scanner.rest;
        done := done + [kv];
      }
      GroupedLast(done, out, currentKey, values);
      assert done + [] == done;
      if currentKey.Some? {
        out := WriteGroup(out, Group(currentKey.value, values));
      }
    }

    /** Fetches, sorts and groups partition r of all the map tasks. */
    method Shuffle(mapTaskInfo: map<bytes, bytes>, cluster: map<bytes, Worker>, r: nat)
      returns (ghost order: seq<bytes>, ghost run: seq<KeyValue>, ghost removed: set<Path>)
      modifies disk
      ensures Enumerates(order, mapTaskInfo.Keys)
      ensures RegionsWellFormed(old(Regions(mapTaskInfo, cluster, r))) ==>
                MergeOf(RegionStreams(old(Regions(mapTaskInfo, cluster, r)), order), run)
      ensures disk.files == old(disk.files)[MergedPath(r) := GroupText(Runs(Records(EncodeAll(run))))] - removed
      ensures forall p :: p in removed ==> p.kind == Fetched || p.kind == SortedRun
    {
      hide *;
      var fetchedFiles;
      fetchedFiles, order := FetchAll(mapTaskInfo, cluster, r);
      ghost var fetched := disk.files;
      FetchedApart(old(disk.files), fetched, old(Regions(mapTaskInfo, cluster, r)), r, order, fetchedFiles);
      run := ExternalSort(disk, fetchedFiles, SortedPath(r));
      if RegionsWellFormed(old(Regions(mapTaskInfo, cluster, r))) {
        MergeStandsFor(StreamsAt(fetched, fetchedFiles),
                       RegionStreams(old(Regions(mapTaskInfo, cluster, r)), order), run);
      }
      RemoveAll(disk, fetchedFiles);
      var merged := GroupRuns(disk.files[SortedPath(r)]);
      disk.files := disk.files[MergedPath(r) := merged];
      disk.files := disk.files - {SortedPath(r)};
      removed := (set p | p in fetchedFiles) + {SortedPath(r)};
      LeftoversRemoved(old(disk.files), fetched, fetchedFiles, r, EncodeAll(run), merged);
    }

    /** Shuffles, then reduces each group of the merged file into a line of the result file. */
    method RunReduce(job: bytes, mapTaskInfo: map<bytes, bytes>, cluster: map<bytes, Worker>, r: nat, reduce: Reducer)
      returns (ghost order: seq<bytes>, ghost run: seq<KeyValue>, ghost removed: set<Path>)
      modifies disk
      ensures Enumerates(order, mapTaskInfo.Keys)
      ensures RegionsWellFormed(old(Regions(mapTaskInfo, cluster, r))) ==>
                MergeOf(RegionStreams(old(Regions(mapTaskInfo, cluster, r)), order), run)
      ensures var merged := GroupText(Runs(Records(EncodeAll(run))));
              disk.files == (old(disk.files)[MergedPath(r) := merged] - removed)
                              [ResultPath(job, r) := ResultText(ScanGroups(merged), reduce)]
      ensures forall p :: p in removed ==> p.kind == Fetched || p.kind == SortedRun
    {
      hide *;
      order, run, removed := Shuffle(mapTaskInfo, cluster, r);
      assert MergedPath(r) in disk.files by { MergedStays(r, removed); }
      var result := ReduceLines(disk.files[MergedPath(r)], reduce);
      disk.files := disk.files[ResultPath(job, r) := result];
    }

    /** The loop of runReduce over the lines of the merged file. */
    method ReduceLines(merged: bytes, reduce: Reducer) returns (result: bytes)
      ensures result == ResultText(ScanGroups(merged), reduce)
    {
      hide *;
      result := [];
      var input := merged;
      ghost var done: seq<Group> := [];
      assert result == ResultText(done, reduce) by { NoResult(reduce); }
      ScanStarts(merged);
      while true
        invariant result == ResultText(done, reduce)
        invariant ScanGroups(merged) == done + ScanGroups(input)
        decreases |input|
      {
        ScanGroupsStep(input);
        var scan := NextLine(input, MAX_TOKEN);
        if scan == Done {
          break;
        }
        input := scan.rest;
        var group := ParseGroup(scan.line);
        if group.Some? {
          ResultTextAppend(done, group.value, reduce);
          ghost var rest := ScanGroups(input);
          assert done + ([group.value] + rest) == done + [group.value] + rest;
          done := done + [group.value];
          result := result + group.value.key;
          result := result + [COLON, SPACE];
          result := result + reduce(group.value.key, group.value.values);
          result := result + [NEWLINE];
        }
      }
      assert done + [] == done;
    }
  }

  lemma LimitIs()
    ensures BUFFER_LIMIT == 10000
  {
  }

  lemma NoParts()
    ensures Layout([]) == [] && IndexText([]) == []
  {
  }

  lemma SpillAdded(files: Files, task: bytes, i: nat, parts: seq<seq<KeyValue>>)
    ensures AddSpill(files, task, i, parts)
         == files[SpillPath(task, i) := Layout(parts)][SpillIndexPath(task, i) := IndexText(parts)]
  {
  }

  /** What mergeSpills writes is no spill it reads. */
  lemma SpillStreamsApart(files: Files, task: bytes, n: nat, r: nat, out: bytes, index: bytes)
    ensures SpillStreams(files[InterPath(task) := out][IndexPath(task) := index], task, n, r)
         == SpillStreams(files, task, n, r)
  {
    hide RecordsIn, FindOrLast, Section, Split;
    forall i | 0 <= i < n
      ensures SpillSection(files[InterPath(task) := out][IndexPath(task) := index], task, i, r)
           == SpillSection(files, task, i, r)
    {
      assert |SpillIndexPath(task, i).rest| > |IndexPath(task).rest|;
    }
  }

  lemma ScannedStep(input: bytes, max: nat)
    ensures Scanned(input, max) == match NextLine(input, max)
                                   case Done => []
                                   case Token(line, rest) => [line] + Scanned(rest, max)
  {
  }

  lemma MapStarts(files: Files, task: bytes, numReducers: nat, mapper: Mapper)
    requires numReducers > 0
    ensures MapState(files, files, task, numReducers, MapLines([], mapper), [], [], [])
  {
  }

  lemma MapEnds(start: Files, files: Files, task: bytes, numReducers: nat, chunk: bytes, mapper: Mapper,
                lines: seq<bytes>, buffers: seq<seq<KeyValue>>, spilled: seq<seq<seq<KeyValue>>>)
    requires numReducers > 0 && lines == Scanned(chunk, MAX_TOKEN)
    requires MapState(start, files, task, numReducers, MapLines(lines, mapper), [], buffers, spilled)
    ensures files == WithSpills(start, task, spilled)
    ensures Flatten(buffers) == Emitted(chunk, mapper) && AllSpilled(buffers, numReducers, spilled)
    ensures Emitted(chunk, mapper) == MapLines(lines, mapper)
  {
    assert Flatten(buffers) + [] == Flatten(buffers);
  }

  lemma NothingMapped(mapper: Mapper)
    ensures MapLines([], mapper) == []
  {
  }

  lemma SpillCount(pairs: nat, full: nat, left: nat)
    requires pairs == 10000 * full + left && left < 10000
    ensures (pairs + 9999) / 10000 == full + if left > 0 then 1 else 0
  {
  }

  lemma NothingThere(task: bytes, r: nat)
    ensures RegionAt(map[], task, r) == []
  {
  }

  lemma NoIndexNoRegion(files: Files, task: bytes, r: nat)
    requires IndexPath(task) !in files
    ensures RegionAt(files, task, r) == []
  {
  }

  // ---------- Grouping a sorted file ----------

  /** What the grouping loop has written, and the group it is still collecting. */
  ghost predicate Grouped(done: seq<KeyValue>, out: bytes, currentKey: Option<bytes>, values: seq<bytes>)
  {
    var groups := Runs(done);
    match currentKey
    case None => done == [] && out == [] && values == []
    case Some(key) =>
      && groups != [] && groups[|groups| - 1] == Group(key, values)
      && out == GroupText(groups[..|groups| - 1])
  }

  lemma NothingGrouped()
    ensures Grouped([], [], None, [])
  {
  }

  lemma GroupedFurther(done: seq<KeyValue>, out: bytes, currentKey: Option<bytes>, values: seq<bytes>, kv: KeyValue)
    requires Grouped(done, out, currentKey, values)
    ensures if currentKey.Some? && kv.key != currentKey.value
            then Grouped(done + [kv], out + GroupLine(Group(currentKey.value, values)) + [NEWLINE],
                         Some(kv.key), [kv.value])
            else Grouped(done + [kv], out, Some(kv.key), values + [kv.value])
    ensures [] + [kv.value] == [kv.value]
  {
    hide GroupLine;
    assert (done + [kv])[..|done|] == done;
    var groups := Runs(done);
    var added := AddLast(groups, kv);
    assert Runs(done + [kv]) == added;
    if currentKey.Some? {
      if kv.key == currentKey.value {
        assert added[..|added| - 1] == groups[..|groups| - 1];
      } else {
        assert added[..|added| - 1] == groups;
      }
    }
  }

  lemma GroupedLast(done: seq<KeyValue>, out: bytes, currentKey: Option<bytes>, values: seq<bytes>)
    requires Grouped(done, out, currentKey, values)
    ensures GroupText(Runs(done))
         == if currentKey.Some? then out + GroupLine(Group(currentKey.value, values)) + [NEWLINE] else out
  {
  }

  lemma ScannerStarts(scanner: KVScanner, input: bytes)
    requires scanner.Valid() && scanner.input == input
    ensures Records(input) == [] + scanner.rest
  {
  }

  lemma ScannerShows(scanner: KVScanner)
    ensures scanner.Pending() == if scanner.valid then [scanner.current] + scanner.rest else []
  {
  }

  lemma FetchedApart(before: Files, files: Files, regions: map<bytes, bytes>, r: nat,
                     order: seq<bytes>, fetchedFiles: seq<Path>)
    requires FetchedSoFar(before, files, regions, r, order, fetchedFiles)
    ensures InputsApart(files, fetchedFiles, SortedPath(r))
    ensures forall id :: id in order ==> id in regions
    ensures StandsFor(StreamsAt(files, fetchedFiles), RegionStreams(regions, order))
    ensures RegionsWellFormed(regions) ==> InputsWellFormed(files, fetchedFiles)
    ensures forall p :: p !in fetchedFiles ==> (p in before <==> p in files) && (p in before ==> before[p] == files[p])
    ensures forall p :: p in fetchedFiles ==> p.kind == Fetched
    ensures forall p :: p in fetchedFiles ==> p != SortedPath(r)
    ensures SortedPath(r).kind == SortedRun
  {
    hide StandsFor, StreamsAt, RegionStreams, InputsWellFormed, RegionsWellFormed, Dec, Numbered;
  }

  lemma LeftoversRemoved(before: Files, fetched: Files, fetchedFiles: seq<Path>, r: nat, sorted: bytes, merged: bytes)
    requires forall p :: p !in fetchedFiles ==>
               (p in before <==> p in fetched) && (p in before ==> before[p] == fetched[p])
    requires forall p :: p in fetchedFiles ==> p.kind == Fetched
    ensures (fetched[SortedPath(r) := sorted] - (set p | p in fetchedFiles))[MergedPath(r) := merged] - {SortedPath(r)}
         == before[MergedPath(r) := merged] - ((set p | p in fetchedFiles) + {SortedPath(r)})
  {
    hide Dec;
  }

  lemma MergedStays(r: nat, removed: set<Path>)
    requires forall p :: p in removed ==> p.kind == Fetched || p.kind == SortedRun
    ensures MergedPath(r) !in removed
  {
  }

  // ---------- Reducing the merged file ----------

  lemma NoResult(reduce: Reducer)
    ensures ResultText([], reduce) == []
  {
  }

  lemma ScanStarts(merged: bytes)
    ensures ScanGroups(merged) == [] + ScanGroups(merged)
  {
  }

  lemma ScanGroupsStep(input: bytes)
    ensures ScanGroups(input) == match NextLine(input, MAX_TOKEN)
                                 case Done => []
                                 case Token(line, rest) =>
                                   (match ParseGroup(line)
                                    case None => ScanGroups(rest)
                                    case Some(g) => [g] + ScanGroups(rest))
  {
    hide ParseGroup;
  }

  lemma {:induction false} ResultTextAppend(groups: seq<Group>, g: Group, reduce: Reducer)
    ensures ResultText(groups + [g], reduce)
         == ResultText(groups, reduce) + g.key + [COLON, SPACE] + reduce(g.key, g.values) + [NEWLINE]
  {
    if groups == [] {
      assert ResultText([g], reduce) == ResultLine(g, reduce) + ResultText([], reduce);
    } else {
      assert (groups + [g])[1..] == groups[1..] + [g];
      ResultTextAppend(groups[1..], g, reduce);
    }
  }
}
