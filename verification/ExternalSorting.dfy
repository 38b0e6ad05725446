/** The k-way merge of sorted files, in batches when there are many. */
module ExternalSorting {
  import opened Bytes
  import opened RecordCodec
  import opened HeapOrder
  import opened KVScanners
  import opened Merging
  import opened Disks

  const BATCH_SIZE: nat := 100

  /** The heap holds just those scanners of `all` that still show a record. */
  ghost predicate Holds(h: ScannerHeap, all: seq<KVScanner>)
    reads h, h.h, all
  {
    && h.Valid() && Distinct(all)
    && h.Members() == (set s | s in all && s.valid)
    && forall s :: s in all ==> s.Valid()
  }

  ghost function Streams(all: seq<KVScanner>): (streams: seq<seq<KeyValue>>)
    reads all
    ensures |streams| == |all|
    ensures forall i :: 0 <= i < |all| ==> streams[i] == all[i].Pending()
  {
    seq(|all|, i requires 0 <= i < |all| reads all => all[i].Pending())
  }

  /** Advances a scanner that is outside the heap, and pushes it if it shows a record. */
  method PushNext(h: ScannerHeap, s: KVScanner, ghost all: seq<KVScanner>, ghost k: nat)
    requires k < |all| && all[k] == s && Distinct(all)
    requires h.Valid() && h.Members() == (set t | t in all && t.valid) - {s}
    requires forall t :: t in all ==> t.Valid()
    modifies h, s
    ensures Holds(h, all)
    ensures Streams(all) == old(Streams(all)[k := s.rest])
  {
    hide Records, Heap, Streams;
    OutsideHeap(h, s, all);
    ghost var streams := Streams(all);
    var ok := s.Next();
    OneAdvanced(all, streams, k);
    if ok {
      ghost var now := Streams(all);
      h.Push(s);
      NoneAdvanced(all, now);
    }
  }

  lemma OutsideHeap(h: ScannerHeap, s: KVScanner, all: seq<KVScanner>)
    requires h.Members() == (set t | t in all && t.valid) - {s}
    ensures s !in h.h && forall t :: t in h.h ==> t in all
  {
    forall t | t in h.h
      ensures t in all && t != s
    {
      assert t in h.Members();
    }
  }

  lemma OneAdvanced(all: seq<KVScanner>, streams: seq<seq<KeyValue>>, k: nat)
    requires k < |all| == |streams| && forall i :: 0 <= i < |all| && i != k ==> all[i].Pending() == streams[i]
    ensures Streams(all) == streams[k := all[k].Pending()]
  {
  }

  lemma NoneAdvanced(all: seq<KVScanner>, streams: seq<seq<KeyValue>>)
    requires |all| == |streams| && forall i :: 0 <= i < |all| ==> all[i].Pending() == streams[i]
    ensures Streams(all) == streams
  {
  }

  /** Takes a scanner with a least key out of the heap. */
  method PopLeast(h: ScannerHeap, ghost all: seq<KVScanner>) returns (s: KVScanner, ghost k: nat)
    requires Holds(h, all) && h.h != []
    modifies h
    ensures k < |all| && all[k] == s && s.valid
    ensures h.Valid() && h.Members() == (set t | t in all && t.valid) - {s}
    ensures Distinct(all) && forall t :: t in all ==> t.Valid()
    ensures Streams(all) == old(Streams(all)) && Least(Streams(all), k)
    ensures s.current == Streams(all)[k][0] && s.rest == Streams(all)[k][1..]
  {
    ghost var before := h.h;
    s := h.Pop();
    assert s in old(h.Members());
    k :| 0 <= k < |all| && all[k] == s;
    forall i | 0 <= i < |all| && all[i].valid
      ensures Leq(s.current.key, all[i].current.key)
    {
      assert all[i] in old(h.Members());
    }
  }

  /** Opens a scanner on an input and pushes it when there is a record in it. */
  method OpenInto(h: ScannerHeap, input: bytes, ghost all: seq<KVScanner>) returns (s: KVScanner)
    requires Holds(h, all)
    modifies h
    ensures fresh(s) && Holds(h, all + [s])
    ensures Streams(all + [s]) == old(Streams(all)) + [Records(input)]
  {
    s := new KVScanner(input);
    PushNext(h, s, all + [s], |all|);
  }

  /** The four writes that put a record in a file, with the count of bytes kept beside them. */
  method WriteRecord(out: bytes, offset: nat, kv: KeyValue) returns (out': bytes, offset': nat)
    ensures out' == out + Encode(kv) == out + kv.key + [9] + kv.value + [10]
    ensures offset' == offset + |Encode(kv)| == offset + |kv.key| + |kv.value| + 2
  {
    out', offset' := out + kv.key, offset + |kv.key|;
    out', offset' := out' + [TAB], offset' + 1;
    out', offset' := out' + kv.value, offset' + |kv.value|;
    out', offset' := out' + [NEWLINE], offset' + 1;
  }

  /** One round of the merge: pop, write, advance. */
  method MergeOne(h: ScannerHeap, out: bytes, written: nat, ghost all: seq<KVScanner>,
                  ghost start: seq<seq<KeyValue>>, ghost merged: seq<KeyValue>)
    returns (out': bytes, written': nat, ghost kv: KeyValue)
    requires Holds(h, all) && h.h != []
    requires PartlyMerged(start, Streams(all), merged)
    modifies h, all
    ensures Holds(h, all)
    ensures out' == out + Encode(kv) && written' == written + |Encode(kv)|
    ensures PartlyMerged(start, Streams(all), merged + [kv])
    ensures |Union(Streams(all))| < old(|Union(Streams(all))|)
  {
    hide *;
    var s, k := PopLeast(h, all);
    kv := s.current;
    MergedFurther(start, Streams(all), k, merged);
    out', written' := WriteRecord(out, written, s.current);
    PushNext(h, s, all, k);
  }

  /** The loop of a k-way merge, and the bytes it wrote. */
  method Drain(h: ScannerHeap, ghost all: seq<KVScanner>)
    returns (out: bytes, written: nat, ghost merged: seq<KeyValue>)
    requires Holds(h, all)
    modifies h, all
    ensures out == EncodeAll(merged) && written == |out|
    ensures MergeOf(old(Streams(all)), merged)
  {
    out, written, merged := [], 0, [];
    ghost var start := Streams(all);
    while |h.h| > 0
      invariant Holds(h, all)
      invariant out == EncodeAll(merged) && written == |out|
      invariant PartlyMerged(start, Streams(all), merged)
      decreases |Union(Streams(all))|
    {
      ghost var kv;
      out, written, kv := MergeOne(h, out, written, all, start, merged);
      EncodeAllAppend(merged, kv);
      merged := merged + [kv];
    }
    NothingLeft(h, all);
    AllDrained(Streams(all));
  }

  lemma NothingLeft(h: ScannerHeap, all: seq<KVScanner>)
    requires Holds(h, all) && h.h == []
    ensures forall i :: 0 <= i < |all| ==> Streams(all)[i] == []
  {
    forall i | 0 <= i < |all|
      ensures !all[i].valid
    {
      assert all[i] !in h.Members();
    }
  }

  lemma {:induction false} AllDrained(streams: seq<seq<KeyValue>>)
    requires forall i :: 0 <= i < |streams| ==> streams[i] == []
    ensures Union(streams) == multiset{}
  {
    if streams != [] {
      AllDrained(streams[1..]);
    }
  }

  function RecordsAt(files: Files, path: Path): seq<KeyValue>
  {
    RecordsIn(Opened(files, path))
  }

  lemma RecordsAtOpened(files: Files, path: Path)
    ensures RecordsAt(files, path) == RecordsIn(Opened(files, path))
  {
  }

  function StreamsAt(files: Files, paths: seq<Path>): (streams: seq<seq<KeyValue>>)
    ensures |streams| == |paths|
    ensures forall i :: 0 <= i < |paths| ==> streams[i] == RecordsAt(files, paths[i])
  {
    seq(|paths|, i requires 0 <= i < |paths| => RecordsAt(files, paths[i]))
  }

  lemma StreamsAtConcat(files: Files, a: seq<Path>, b: seq<Path>)
    ensures StreamsAt(files, a + b) == StreamsAt(files, a) + StreamsAt(files, b)
  {
  }

  function Opened(files: Files, path: Path): Option<bytes>
  {
    if path in files then Some(files[path]) else None
  }

  function RecordsIn(content: Option<bytes>): seq<KeyValue>
  {
    if content.Some? then Records(content.value) else []
  }

  /** Starts on one input; one that was not opened is passed over. */
  method OpenNext(h: ScannerHeap, content: Option<bytes>,
                  ghost all: seq<KVScanner>, ghost streams: seq<seq<KeyValue>>)
    returns (ghost all': seq<KVScanner>)
    requires Holds(h, all) && StandsFor(Streams(all), streams)
    modifies h
    ensures forall i :: 0 <= i < |all'| ==> all'[i] in all || fresh(all'[i])
    ensures Holds(h, all') && StandsFor(Streams(all'), streams + [RecordsIn(content)])
  {
    StandsForAppend(Streams(all), streams, RecordsIn(content));
    all' := all;
    if content.Some? {
      var s := OpenInto(h, content.value, all);
      all' := all + [s];
    }
  }

  method EmptyHeap() returns (h: ScannerHeap)
    ensures fresh(h) && Holds(h, []) && StandsFor(Streams([]), [])
  {
    h := new ScannerHeap();
  }

  method OpenAll(files: Files, inputs: seq<Path>) returns (h: ScannerHeap, ghost all: seq<KVScanner>)
    ensures fresh(h) && fresh(all)
    ensures Holds(h, all)
    ensures StandsFor(Streams(all), StreamsAt(files, inputs))
  {
    hide *;
    h := EmptyHeap();
    all := [];
    assert StreamsAt(files, inputs[..0]) == [];
    for i := 0 to |inputs|
      invariant fresh(h) && forall j :: 0 <= j < |all| ==> fresh(all[j])
      invariant Holds(h, all)
      invariant StandsFor(Streams(all), StreamsAt(files, inputs[..i]))
    {
      assert StreamsAt(files, inputs[..i + 1]) == StreamsAt(files, inputs[..i]) + [RecordsAt(files, inputs[i])];
      assert RecordsAt(files, inputs[i]) == RecordsIn(Opened(files, inputs[i])) by
        { RecordsAtOpened(files, inputs[i]); }
      all := OpenNext(h, Opened(files, inputs[i]), all, StreamsAt(files, inputs[..i]));
    }
    assert inputs[..|inputs|] == inputs;
  }

  method ExternalSortBatch(disk: Disk, inputs: seq<Path>, output: Path) returns (ghost merged: seq<KeyValue>)
    requires output !in inputs
    modifies disk
    ensures disk.files == old(disk.files)[output := EncodeAll(merged)]
    ensures MergeOf(StreamsAt(old(disk.files), inputs), merged)
  {
    var h; ghost var all;
    h, all := OpenAll(disk.files, inputs);
    ghost var streams := Streams(all);
    var out, written;
    out, written, merged := Drain(h, all);
    MergeStandsFor(streams, StreamsAt(disk.files, inputs), merged);
    disk.files := disk.files[output := out];
  }

  /** Every input's records survive being written and scanned again. */
  predicate InputsWellFormed(files: Files, inputs: seq<Path>)
  {
    forall i :: 0 <= i < |inputs| ==> AllWellFormed(RecordsAt(files, inputs[i]))
  }

  /** No input is the output, nor a name one of its temporary files could get. */
  predicate InputsApart(files: Files, inputs: seq<Path>, output: Path)
  {
    output !in inputs && forall p :: p in inputs ==> p in files || !NamedAfter(p, output)
  }

  /** Merges in batches into temporary files while there are more inputs than one batch takes. */
  method ExternalSort(disk: Disk, inputs: seq<Path>, output: Path) returns (ghost merged: seq<KeyValue>)
    requires InputsApart(disk.files, inputs, output)
    modifies disk
    ensures disk.files == old(disk.files)[output := EncodeAll(merged)]
    ensures |inputs| <= BATCH_SIZE || InputsWellFormed(old(disk.files), inputs) ==>
              MergeOf(StreamsAt(old(disk.files), inputs), merged)
    decreases |inputs|
  {
    hide RecordsAt, StreamsAt, MergeOf, StandsFor, EncodeAll, AllWellFormed, InputsWellFormed;
    if |inputs| <= BATCH_SIZE {
      merged := ExternalSortBatch(disk, inputs, output);
      return;
    }
    var tempFiles: seq<Path>;
    ghost var temps: Files, runs: seq<seq<KeyValue>>;
    tempFiles, temps, runs := MergeBatches(disk, inputs, output);
    ghost var files := disk.files;
    merged := ExternalSort(disk, tempFiles, output);
    if InputsWellFormed(old(disk.files), inputs) {
      TempsHoldRuns(files, temps, tempFiles, runs);
      MergeStandsFor(runs, StreamsAt(old(disk.files), inputs), merged);
    }
    RemoveAll(disk, tempFiles);
    AddedThenRemoved(old(disk.files), temps, output, EncodeAll(merged));
  }

  /** The temporary files hold the merged batches, on a disk otherwise as before. */
  ghost predicate TempFiles(before: Files, output: Path, temps: Files, tempFiles: seq<Path>, runs: seq<seq<KeyValue>>)
  {
    && temps.Keys == (set p | p in tempFiles)
    && temps.Keys !! before.Keys && output !in temps
    && |tempFiles| == |runs|
    && (forall p :: p in temps ==> NamedAfter(p, output))
    && (forall i :: 0 <= i < |runs| ==> temps[tempFiles[i]] == EncodeAll(runs[i]))
  }

  method MergeBatches(disk: Disk, inputs: seq<Path>, output: Path)
    returns (tempFiles: seq<Path>, ghost temps: Files, ghost runs: seq<seq<KeyValue>>)
    requires |inputs| > BATCH_SIZE && InputsApart(disk.files, inputs, output)
    modifies disk
    ensures disk.files == old(disk.files) + temps
    ensures TempFiles(old(disk.files), output, temps, tempFiles, runs)
    ensures |tempFiles| < |inputs|
    ensures StandsFor(runs, StreamsAt(old(disk.files), inputs))
    ensures InputsWellFormed(old(disk.files), inputs) ==> forall i :: 0 <= i < |runs| ==> AllWellFormed(runs[i])
  {
    hide *;
    ghost var before := disk.files;
    tempFiles, temps, runs := [], map[], [];
    NoBatches(before, inputs, output);
    assert before + temps == before;
    var i := 0;
    while i < |inputs|
      invariant 0 <= i <= |inputs|
      invariant disk.files == before + temps
      invariant TempFiles(before, output, temps, tempFiles, runs)
      invariant BatchesTaken(|tempFiles|, i, |inputs|)
      invariant StandsFor(runs, StreamsAt(before, inputs[..i]))
      invariant InputsWellFormed(before, inputs) ==> forall j :: 0 <= j < |runs| ==> AllWellFormed(runs[j])
    {
      var end := if i + BATCH_SIZE <= |inputs| then i + BATCH_SIZE else |inputs|;
      var temp;
      ghost var run;
      NextBatch(|tempFiles|, i, |inputs|, end);
      BatchApart(before, inputs, output, i, end);
      temp, run := MergeBatch(disk, inputs[i..end], output, before, temps, tempFiles, runs);
      BatchMerged(before, inputs, i, end, runs, run);
      tempFiles := tempFiles + [temp];
      temps := temps[temp := EncodeAll(run)];
      runs := runs + [run];
      i := end;
    }
    FewerBatches(|tempFiles|, |inputs|);
    assert inputs[..|inputs|] == inputs;
  }

  /** Every batch was full, except perhaps the last. */
  predicate BatchesTaken(n: nat, i: nat, total: nat)
  {
    n * BATCH_SIZE == i || (i == total && n * BATCH_SIZE < i + BATCH_SIZE)
  }

  lemma NoBatches(files: Files, inputs: seq<Path>, output: Path)
    ensures StandsFor([], StreamsAt(files, inputs[..0]))
    ensures TempFiles(files, output, map[], [], [])
    ensures BatchesTaken(0, 0, |inputs|)
  {
  }

  lemma NextBatch(n: nat, i: nat, total: nat, end: nat)
    requires BatchesTaken(n, i, total) && i < total
    requires end == if i + BATCH_SIZE <= total then i + BATCH_SIZE else total
    ensures i < end <= total && BatchesTaken(n + 1, end, total)
  {
  }

  lemma FewerBatches(n: nat, total: nat)
    requires BatchesTaken(n, total, total) && total > BATCH_SIZE
    ensures n < total
  {
  }

  lemma BatchApart(files: Files, inputs: seq<Path>, output: Path, i: nat, end: nat)
    requires i <= end <= |inputs| && InputsApart(files, inputs, output)
    ensures InputsApart(files, inputs[i..end], output)
  {
  }

  method MergeBatch(disk: Disk, batch: seq<Path>, output: Path, ghost before: Files, ghost temps: Files,
                    ghost tempFiles: seq<Path>, ghost runs: seq<seq<KeyValue>>)
    returns (temp: Path, ghost run: seq<KeyValue>)
    requires disk.files == before + temps && TempFiles(before, output, temps, tempFiles, runs)
    requires InputsApart(before, batch, output)
    modifies disk
    ensures disk.files == before + temps[temp := EncodeAll(run)]
    ensures TempFiles(before, output, temps[temp := EncodeAll(run)], tempFiles + [temp], runs + [run])
    ensures MergeOf(StreamsAt(before, batch), run)
  {
    hide *;
    temp := disk.CreateTemp(output);
    TempKeepsStreams(before, output, temps, tempFiles, runs, temp, batch);
    run := ExternalSortBatch(disk, batch, temp);
    assert (before + temps)[temp := []][temp := EncodeAll(run)] == before + temps[temp := EncodeAll(run)];
    TempFilesGrow(before, output, temps, tempFiles, runs, temp, run);
  }

  lemma TempKeepsStreams(before: Files, output: Path, temps: Files, tempFiles: seq<Path>, runs: seq<seq<KeyValue>>,
                         temp: Path, batch: seq<Path>)
    requires TempFiles(before, output, temps, tempFiles, runs) && InputsApart(before, batch, output)
    requires temp !in before + temps && NamedAfter(temp, output)
    ensures temp !in batch
    ensures StreamsAt((before + temps)[temp := []], batch) == StreamsAt(before, batch)
  {
    hide RecordsAt;
    SameStreams(before, (before + temps)[temp := []], batch);
  }

  lemma TempFilesGrow(before: Files, output: Path, temps: Files, tempFiles: seq<Path>, runs: seq<seq<KeyValue>>,
                      temp: Path, run: seq<KeyValue>)
    requires TempFiles(before, output, temps, tempFiles, runs)
    requires temp !in before + temps && temp != output && NamedAfter(temp, output)
    ensures TempFiles(before, output, temps[temp := EncodeAll(run)], tempFiles + [temp], runs + [run])
  {
  }

  lemma BatchMerged(files: Files, inputs: seq<Path>, i: nat, end: nat, runs: seq<seq<KeyValue>>, run: seq<KeyValue>)
    requires i <= end <= |inputs|
    requires StandsFor(runs, StreamsAt(files, inputs[..i]))
    requires MergeOf(StreamsAt(files, inputs[i..end]), run)
    ensures StandsFor(runs + [run], StreamsAt(files, inputs[..end]))
    ensures InputsWellFormed(files, inputs) ==> AllWellFormed(run)
  {
    hide RecordsAt, AllWellFormed;
    StandsForBatch(runs, StreamsAt(files, inputs[..i]), StreamsAt(files, inputs[i..end]), run);
    assert inputs[..end] == inputs[..i] + inputs[i..end];
    StreamsAtConcat(files, inputs[..i], inputs[i..end]);
    if InputsWellFormed(files, inputs) {
      BatchWellFormed(files, inputs, i, end, run);
    }
  }

  lemma BatchWellFormed(files: Files, inputs: seq<Path>, i: nat, end: nat, run: seq<KeyValue>)
    requires i <= end <= |inputs| && InputsWellFormed(files, inputs)
    requires MergeOf(StreamsAt(files, inputs[i..end]), run)
    ensures AllWellFormed(run)
  {
    var streams := StreamsAt(files, inputs[i..end]);
    forall k | 0 <= k < |streams|
      ensures AllWellFormed(streams[k])
    {
      assert inputs[i..end][k] == inputs[i + k];
    }
    MergedWellFormed(streams, run);
  }

  lemma SameStreams(before: Files, files: Files, paths: seq<Path>)
    requires forall p :: p in paths ==> (p in before <==> p in files) && (p in before ==> before[p] == files[p])
    ensures StreamsAt(before, paths) == StreamsAt(files, paths)
  {
  }

  lemma TempsHoldRuns(files: Files, temps: Files, tempFiles: seq<Path>, runs: seq<seq<KeyValue>>)
    requires |tempFiles| == |runs|
    requires forall i :: 0 <= i < |runs| ==> AllWellFormed(runs[i])
    requires forall i :: 0 <= i < |runs| ==> tempFiles[i] in files && files[tempFiles[i]] == EncodeAll(runs[i])
    ensures StreamsAt(files, tempFiles) == runs && InputsWellFormed(files, tempFiles)
  {
    forall i | 0 <= i < |runs|
      ensures RecordsAt(files, tempFiles[i]) == runs[i]
    {
      RoundTripExactly(runs[i]);
    }
  }
}
