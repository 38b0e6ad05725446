# Verified model of a distributed file store and its MapReduce

Two models in Dafny 4.11, with proofs.

**The MapReduce data path** (`Bytes` to `Jobs`). Files are byte sequences on the disk of a `Disk` object; scanners, the
scanner heap, the worker and its loops are modelled as the program has them. A text is cut at newlines, mapped line by
line into a buffer, spilled by hash partition with an index, merged, fetched by range, merged again in batches, grouped
and reduced. `Jobs.StoreAndRun` is the end-to-end result: for every set of input texts, chunk size, number of reducers,
placement, interleaving of attempts and anything failed attempts leave behind, each reducer's file holds one line for
each key of its partition, with all the values the mapper emits for it; with a reducer that does not depend on the order
of the values, the file equals, byte for byte, what grouping the emitted pairs one at a time gives.

**The controller and its write-ahead log** (`Metadata` to `Controllers`). `ControllerState` is a state machine whose
events are the program's critical sections; `Controllers.Controller` is the program's object, whose handlers update their
maps, node lists and log in place and are proved to take exactly those events. `ControllerState.RunInvariant` is the main
result: in every state of every run, replaying the log, byte for byte as recovery reads it, rebuilds exactly the
published files. Publication, upload counters, replica lists, crashes and the length of the log are proved over runs, too.

| files | what they model |
|---|---|
| `Bytes`, `Lines` | order, splitting, decimal text, 32-bit wrap-around; lines as a bounded scanner yields them |
| `RecordCodec`, `Partitioning`, `IndexFiles`, `Names`, `GroupCodec` | what is in the files and what they are called |
| `HeapOrder`, `KVScanners`, `Merging`, `Disks`, `ExternalSorting` | scanners, their heap, the k-way and the batched merge |
| `MapSide`, `MapBytes`, `ReduceSide`, `Grouping`, `JobSide` | what the stages promise, on values |
| `Workers` | the worker's methods |
| `Chunking`, `Inputs`, `Accounting`, `Placement`, `Schedules`, `Jobs` | cutting and reassembling files, the master's sums and choices, attempts at map and reduce tasks, the job from inputs to results |
| `Metadata`, `WalLog`, `ControllerState`, `ControllerRuns`, `Replicas`, `Uploads`, `Replication`, `Anomalies` | the controller as a state machine, and the tasks of its replication scan |
| `NodeSelection`, `Controllers` | the controller's methods |

`dafny verify dfyconfig.toml` checks everything.

## What the results assume

- End to end: keys hold no tab and no newline, values no newline and no comma and no trailing carriage return, every input
  line, every record and every joined group line fits the 16 MiB scanner buffer (`GroupCodec.JobFits`), there is a reducer,
  and no input is named like another with `-<digits>` behind it (`Inputs.NamesApart`). The text formats impose each of
  these; `RecordCodec.RoundTripExactly`, `GroupCodec.GroupRoundTripExactly`, `Lines.ScannedAllExactly` and
  `Names.IndexNamesCollideExactly` show that each is exactly what the format needs.
- A worker's address begins with a host name only if it is on that host (`Jobs.AddressesSound`): the program decides by
  that prefix whether to copy locally.
- The log's codec (JSON in the program) is a pair of given functions that read back what they wrote, on one line
  (`WalLog.RoundTrips`); the lemmas on torn lines also use that no proper part of a record, alone or in front of a record,
  parses (`WalLog.SelfDelimiting`). Each record logged in a run fits the 10 MiB line limit of recovery (`WalLog.Fits`);
  `ControllerState.AppendAgreesExactly` shows that this is exactly what agreement needs.
- Each map and reduce task is tried until an attempt at it succeeds (`Schedules.Schedule`); attempts at different ones may
  take turns in any way, and a failed one may lose or leave any of the files it could write (`Schedules.MapScratch`,
  `Schedules.ReduceScratch`).

## What the model shows about the program

- A record longer than 10 MiB ends recovery: it and everything behind it are lost (`WalLog.LongRecordEndsRecovery`). A file
  with enough chunks gets such a record: it is uploaded, published, and gone after a restart (`Anomalies.LargeFileIsLost`).
- After a crash inside an append, the next record written is lost together with the torn line, unless nothing of the torn
  line reached the file (`WalLog.AppendAfterCrashExactly`).
- A failure report can take the only copy off a chunk of an upload without raising its counter; the file is then published
  while a chunk has no copy (`Anomalies.EmptiedUploadIsPublished`). In every run a file is published with a copy of every
  chunk exactly when no such report came between its PUT and its publication (`ControllerRuns.PublishedInRun`).
- Two PUTs of one name that both pass the check can leave it published and pending (`Anomalies.RacingPuts`).
- A text that is one line of 4 GiB wraps the 32-bit chunk size, whatever chunk size was asked for; the loop then records an
  empty chunk and does not get on (`Chunking.NoProgress`).
- The last loop of `selectReduceWorker` never finds anything: it looks among the workers the first loop had to choose from
  (`Placement.SelectReduceWorker`).
- The comment on `selectNodes` says that nodes are chosen at random; the code takes whatever order the map gives, and the
  model does the same.

## Model

| member | source | states |
|---|---|---|
| `Bytes.LessExactly` | mapreduce/util/sort.go:52 | the order of keys is that of dictionaries: a proper prefix comes first, and otherwise the first byte that differs decides |
| `Bytes.SplitJoinExactly` | mapreduce/worker/worker.go:557-562 | joining values with commas and splitting again gives them back exactly when there is at least one and none holds a comma |
| `Bytes.DashDecInjective` | mapreduce/worker/worker.go:240-241 | `<name>-<number>` determines both the name and the number |
| `Lines.ScannedAllExactly` | mapreduce/worker/worker.go:186-188 | a bounded line scanner reads all the lines of a text exactly when each of them fits its buffer |
| `Lines.ScannedConcat` | mapreduce/worker/worker.go:195-196 | past complete lines that fit, scanning goes on as if it began there |
| `RecordCodec.RoundTripExactly` | mapreduce/util/sort.go:27-43 | scanning the serialisation of a list of records gives the list back exactly when no key holds a tab or newline, no value a newline or a trailing carriage return, and each line fits |
| `RecordCodec.SizeOfPermutation` | mapreduce/worker/worker.go:260-274 | an unstable sort does not change the bytes written |
| `RecordCodec.SortByKey` | mapreduce/worker/worker.go:260-262 | a key-sorted permutation, whatever the order among equal keys |
| `RecordCodec.SortedExactly` | mapreduce/util/sort.go:52 | in key order means exactly that no record has a smaller key than its neighbour before it |
| `RecordCodec.NoTabPassedOver` | mapreduce/util/sort.go:29-41 | a line without a tab is passed over |
| `KVScanners.KVScanner.Next` | mapreduce/util/sort.go:27-43 | shows the next line that holds a tab and passes over the others; what is shown and what follows are the records that were left |
| `KVScanners.ScannerHeap.Push` | mapreduce/util/sort.go:54-56 | adds one scanner and keeps the heap order |
| `KVScanners.ScannerHeap.Pop` | mapreduce/util/sort.go:57-63 | takes out a scanner whose key is least among all, and keeps the heap order |
| `HeapOrder.RootIsLeast` | mapreduce/util/sort.go:52 | in heap order the root's key is at most every other |
| `Merging.MergeStep` | mapreduce/util/sort.go:96-105 | taking a least head conserves the multiset of records and keeps the merge sorted |
| `Merging.MergedInOrder` | mapreduce/util/sort.go:96-105 | of two neighbours in a merge the first key is the second, a proper prefix of it, or smaller at the first byte that differs |
| `Merging.UnionPop` | mapreduce/util/sort.go:96-105 | taking a record off one stream takes exactly it off the union |
| `ExternalSorting.PushNext` | mapreduce/util/sort.go:102-104 | a scanner advances only while it is outside the heap, and goes back exactly if it shows a record |
| `ExternalSorting.PopLeast` | mapreduce/util/sort.go:97 | the scanner taken out shows the least head of all streams, none of which changed |
| `ExternalSorting.Drain` | mapreduce/util/sort.go:96-105 | draining the heap writes the union of the streams, sorted if they are, and counts its bytes |
| `ExternalSorting.ExternalSortBatch` | mapreduce/util/sort.go:65-108 | the output file is the serialised merge of the inputs that could be opened; no other file changes |
| `ExternalSorting.MergeBatches` | mapreduce/util/sort.go:116-133 | more than 100 inputs become fewer temporary files that stand for the same records |
| `ExternalSorting.ExternalSort` | mapreduce/util/sort.go:110-140 | for any number of inputs the recursion ends, the output is their sorted union, and the disk otherwise stays as it was |
| `Disks.Disk.CreateTemp` | mapreduce/util/sort.go:121 | an empty file under a name that was free and is derived from the output's |
| `Partitioning.IHash` | mapreduce/worker/worker.go:659-665 | the wrapping 32-bit loop computes the base-31 polynomial of the key modulo 2^31 |
| `Partitioning.SelectCounts` | mapreduce/worker/worker.go:234-238 | a pair is in the partition its key hashes to as often as it was in the buffer, and in no other |
| `Partitioning.SelectedExactly` | mapreduce/worker/worker.go:234-238 | a pair is in partition r exactly when it was in the buffer and the polynomial of its key, modulo 2^31 and then modulo the reducers, is r |
| `Partitioning.PartitionExactly` | mapreduce/worker/worker.go:234-262 | parts are the sorted partitions exactly when each is in key order and holds each pair whose key hashes to it as often as the buffer, and no other |
| `Partitioning.SectionOfLayout` | mapreduce/worker/worker.go:256-277 | the byte range between two recorded offsets is exactly one partition's serialisation, the empty ones included |
| `IndexFiles.ParseOfIndexLine` | mapreduce/worker/worker.go:400 | a printed index line is partition, start and end in decimal with spaces between, and scanning it gives them back |
| `IndexFiles.FindInIndexText` | mapreduce/worker/worker.go:391-407 | the index of a partitioned file gives, for each partition, where it starts and ends |
| `IndexFiles.FindEntry` | mapreduce/worker/worker.go:391-407 | the first line for the reducer, if there is one |
| `IndexFiles.FindEntryOrLast` | mapreduce/worker/worker.go:318-329 | the same search without a flag: with no line for the partition the last range read stays |
| `IndexFiles.RegionOfLayout` | mapreduce/worker/worker.go:391-420 | cutting the intermediate file by its index gives each partition's bytes |
| `Names.TaskIdInjective` | mapreduce/worker/worker.go:240-241 | map tasks have the same id exactly if file and chunk are the same |
| `Names.IndexNamesCollideExactly` | mapreduce/worker/worker.go:241-285 | a spill's index and a map task's final index are the same file exactly when one input's name is another's task id with the numbers to match |
| `Workers.Worker.Partition` | mapreduce/worker/worker.go:234-238 | bucket r holds the pairs of partition r in the order of the buffer: those whose key's polynomial, modulo 2^31 and the reducers, is r |
| `Workers.Worker.Spill` | mapreduce/worker/worker.go:233-280 | the spill file tiles the buffer's partitions, each in key order, and its index records where each begins and ends |
| `Workers.Worker.OpenSpills` | mapreduce/worker/worker.go:305-343 | the heap starts with the records of partition r in every spill |
| `Workers.Worker.MergeSpills` | mapreduce/worker/worker.go:283-376 | region r of the intermediate file is the merge of region r of every spill, its size is reported, and the spills are removed |
| `Workers.Worker.RunMap` | mapreduce/worker/worker.go:192-229 | wherever the buffer filled up, the intermediate file is one partition-and-sort of all the pairs emitted, the reported sizes add up to the file and to the bytes of those pairs, and there was a spill for every 10000 pairs or part of them |
| `MapSide.ColumnUnion` | mapreduce/worker/worker.go:195-215 | however the pairs were cut into buffers, the spills' partitions r hold together exactly partition r of all pairs |
| `MapSide.MergedSpillsPartition` | mapreduce/worker/worker.go:303-366 | merging the spills partition by partition is one partition-and-sort of all the buffers |
| `MapSide.SpillSectionOfParts` | mapreduce/worker/worker.go:318-341 | the range read of a spill holds the records of that partition |
| `MapBytes.SelectedSizesSum` | mapreduce/worker/worker.go:234-238 | the partitions' bytes add up to the bytes of all the pairs |
| `MapBytes.SizesTileLayout` | mapreduce/worker/worker.go:347-361 | the reported sizes add up to the size of the intermediate file |
| `MapBytes.MergingKeepsBytes` | mapreduce/worker/worker.go:347-361 | the intermediate file takes as many bytes as all the spill files together |
| `Workers.Worker.HandleFetchIntermediate` | mapreduce/worker/worker.go:379-421 | answers with exactly the bytes of the partition, nothing for an empty range, and a refusal exactly when there is no index |
| `Workers.Worker.CopyLocal` | mapreduce/worker/worker.go:434-480 | the local copy holds the same bytes a fetch would bring, and is left out only if there are none |
| `Workers.Worker.Fetch` | mapreduce/worker/worker.go:433-523 | local or remote, the file fetched holds the partition's bytes; fetching changes no region |
| `Workers.Worker.FetchAll` | mapreduce/worker/worker.go:429-523 | in whatever order the map is gone through, the fetched files stand for the regions of all the map tasks |
| `Workers.Worker.GroupRuns` | mapreduce/worker/worker.go:548-582 | writes one line for each run of equal keys, the empty key included |
| `Workers.Worker.Shuffle` | mapreduce/worker/worker.go:424-589 | the merged file holds the groups of a merge of all regions, and only fetched and sorted files are gone |
| `Workers.Worker.RunReduce` | mapreduce/worker/worker.go:591-657 | the result file is the reduction of the groups scanned from the merged file, for a merge of all regions |
| `Workers.Worker.ReduceLines` | mapreduce/worker/worker.go:625-644 | each line with a tab becomes `key: result`, the others are passed over |
| `Grouping.RunsOfSorted` | mapreduce/worker/worker.go:548-582 | on sorted pairs the runs are the groups: keys strictly increase, and each key has all its values in order |
| `Grouping.IncreasingExactly` | mapreduce/worker/worker.go:548-582 | groups are in key order exactly when none is empty and each key comes before the next one |
| `Grouping.SequentialGroups` | mapreduce/worker/worker.go:548-582 | grouping pairs one at a time, in any order, gives each key all its values in order |
| `Grouping.GroupingsAgree` | mapreduce/worker/worker.go:548-582 | groups in key order are determined by the multiset of each key's values |
| `Grouping.ValuesOfPermutation` | mapreduce/worker/worker.go:548-582 | reordering pairs permutes each key's values |
| `GroupCodec.WriteGroup` | mapreduce/worker/worker.go:555-563 | appends key, tab, the values joined by commas, and a newline |
| `GroupCodec.GroupRoundTripExactly` | mapreduce/worker/worker.go:555-634 | reading the grouped lines gives the groups back exactly when keys hold no tab or newline, values no comma or newline, the last one no trailing carriage return, no group is empty and each line fits |
| `GroupCodec.GroupsFit` | mapreduce/worker/worker.go:625-634 | the groups of pairs that meet the job's hypotheses survive the merged file, in any order of their values |
| `GroupCodec.ResultLines` | mapreduce/worker/worker.go:634-640 | the result has one line for each group, in order: key, colon, space and what the reducer gives |
| `GroupCodec.CountReducerCounts` | mapreduce/plugin/wordcount.go:26-28 | what the counting reducer prints is the number of values, in decimal without leading zeros |
| `GroupCodec.CountReducerOrderFree` | mapreduce/plugin/wordcount.go:26-28 | a reducer that counts its values does not depend on their order |
| `JobSide.OrderDoesNotMatter` | mapreduce/worker/worker.go:433 | the union of the regions is the same in whatever order the map tasks are visited |
| `JobSide.MergedRegions` | mapreduce/worker/worker.go:424-529 | merging what was fetched gives partition r of the pairs of all map tasks, sorted |
| `JobSide.MapKeeps` | mapreduce/worker/worker.go:240-285 | a map task leaves the files of the others alone while no id is another's with a number behind it |
| `JobSide.ReduceKeeps` | mapreduce/worker/worker.go:525-617 | a reduce task leaves the map tasks' files and the other results alone |
| `JobSide.ReducedIsResult` | mapreduce/worker/worker.go:548-640 | grouping, joining, splitting and reducing a sorted run of a partition gives one line per key with all its values |
| `JobSide.ResultIsSequential` | mapreduce/plugin/wordcount.go:26-28 | with an order-free reducer that result is byte for byte the sequential one |
| `JobSide.OneReducerPerKey` | mapreduce/worker/worker.go:235-238 | a key has its group, with all its values, at the reducer that is its polynomial modulo 2^31 and the reducers, and at no other |
| `Chunking.BytesToNewline` | dfs/client/client.go:74-96 | over blocks of 4096 bytes, the distance to just past the first newline or to the end, in 32 bits |
| `Chunking.RecordedIsWrapped` | dfs/client/client.go:68-100 | the loop records a chunk's size modulo 2^32 |
| `Chunking.RecordedExactly` | dfs/client/client.go:98-100 | the size recorded for a chunk of a text is right exactly when the chunk is smaller than 4 GiB |
| `Chunking.NoProgress` | dfs/client/client.go:60-101 | for every chunk size, on a file that is one line of 4 GiB the loop records a chunk of no bytes and looks at the same offset again |
| `Chunking.ShortLinesFit` | dfs/client/client.go:60-101 | lines shorter than 4 GiB less the chunk size keep every chunk below 4 GiB |
| `Chunking.CalculateChunks` | dfs/client/client.go:33-104 | the sizes between the cuts of the text, or full chunks and a rest |
| `Chunking.TextSizesSum` | dfs/client/client.go:60-101 | the sizes of a text's chunks add up to the file |
| `Chunking.FixedSizesSum` | dfs/client/client.go:48-57 | so do those of a file that is not text |
| `Chunking.TextChunksAligned` | dfs/client/client.go:60-101 | every chunk of a text holds something and ends at a line boundary |
| `Chunking.TextChunkLines` | dfs/client/client.go:60-101 | the chunks' lists of lines, one after another, are the list of lines of the file |
| `Chunking.Put` | dfs/client/client.go:176-183 | in whatever order chunks are allocated, each holds the segment read at its (last) allocation, and no other chunk is stored |
| `Chunking.MergeChunks` | dfs/client/client.go:485-493 | the parts in the order of the metadata, or a failure exactly when one is missing |
| `Chunking.PutThenGet` | dfs/client/client.go:107-183 | storing a file and merging its chunks in order gives the file back, text or not |
| `Inputs.TaskListApart` | mapreduce/master/master.go:139-150 | input names apart keep all the map tasks' ids, and so their files, apart |
| `Inputs.TaskListEmits` | mapreduce/master/master.go:139-150 | mapping chunk by chunk emits, in order, what mapping the whole files emits |
| `Accounting.Account` | mapreduce/master/master.go:213-220 | each reported size is added to the entry of the worker that reported it, no other entry changes, and the total over all workers grows by it |
| `Accounting.CompletionOrder` | mapreduce/master/master.go:197-225 | whatever order the map tasks complete in, the same bytes are counted for the same workers |
| `Accounting.EachCountedOnce` | mapreduce/master/master.go:213-220 | over all workers, a partition's bytes are those of the completions, each counted once |
| `Accounting.ReportsAddUp` | mapreduce/master/master.go:213-220 | over all workers, a partition's bytes are the sum of what was reported for it |
| `Accounting.EntryAddsUp` | mapreduce/master/master.go:213-220 | under each address, the bytes are the sum of what was reported from it, and there is an entry exactly when something was |
| `Accounting.HostExactly` | mapreduce/master/master.go:406-416 | the entries at a host are those of the addresses on it, as they are |
| `Accounting.LocalAndRemote` | mapreduce/master/master.go:406-416 | the bytes at a host and those elsewhere are all the bytes |
| `Placement.SelectWorker` | mapreduce/master/master.go:263-315 | the least busy free worker on a host that holds the chunk; failing that none while waiting makes sense, and otherwise the least busy free worker anywhere |
| `Placement.ChoiceMeans` | mapreduce/master/master.go:263-315 | the worker chosen has under 80% of processor and memory in use; if it is on a host of the chunk none such has fewer tasks there; otherwise there is none such, no wait was asked for, and none anywhere has fewer tasks |
| `Placement.SelectReduceWorker` | mapreduce/master/master.go:387-445 | a worker under 80% of processor and memory none of which such holds more of the partition's bytes on its own host, so that it has the fewest to fetch; none exactly when there is no such worker |
| `Schedules.FailedMapKeeps` | mapreduce/master/master.go:373-382 | whatever a failed map task loses or leaves, the finished files of the others stay |
| `Schedules.FailedReduceKeeps` | mapreduce/master/master.go:510-519 | whatever a failed reduce task loses or leaves, the map tasks' files and the other results stay |
| `Jobs.RunMapTask` | mapreduce/worker/worker.go:192-229 | a map task leaves the files of those done before in place and adds its own |
| `Jobs.FailMapTask` | mapreduce/master/master.go:373-382 | a failed attempt at a map task leaves the files of those done before in place |
| `Jobs.MapPhase` | mapreduce/master/master.go:197-226 | whatever turns the attempts take and whatever failed ones leave, every map task's files end up where it succeeded, and the bytes counted for partition r over all workers are those of partition r of everything emitted, each once, and under each address those of the tasks placed there |
| `Jobs.TaskMap` | mapreduce/master/master.go:453-456 | every map task's id is mapped to where it ran |
| `Jobs.RunReduceTask` | mapreduce/master/master.go:448-521 | the result of reducer r is in place and right, and map files and other results stay |
| `Jobs.ReduceAttempt` | mapreduce/master/master.go:462-520 | an attempt keeps the results in place and adds the reducer's when it succeeds |
| `Jobs.ReducePhase` | mapreduce/master/master.go:235-252 | whatever turns the attempts take, every reducer's result ends up where it succeeded |
| `Jobs.StoreInputs` | dfs/client/client.go:107-183 | cutting and storing each input as the client does stores its line-aligned chunks, numbered from 0 |
| `Jobs.ListTasks` | mapreduce/master/master.go:139-150 | one map task for each stored chunk of each input, in order |
| `Jobs.RunJob` | mapreduce/master/master.go:179-260 | end to end from the stored chunks: each reducer's file holds its keys with all their values, reduced; with an order-free reducer it is the sequential result byte for byte |
| `Jobs.StoreAndRun` | mapreduce/master/master.go:132-260 | the same from the files: cut and stored by the client's loops, then mapped, shuffled and reduced, through any interleaving of attempts and failures |
| `Metadata.CopylessUpdate` | dfs/controller/controller.go:399-402 | changing one chunk's node list changes the number of chunks without a copy by that chunk alone |
| `Metadata.ReportsKeepOk` | dfs/controller/controller.go:356-402 | reports and evictions keep chunk ids in place and list no address twice |
| `Metadata.ReportsExactly` | dfs/controller/controller.go:338-402 | a report changes only the nodes of the first chunk with the id: a failure takes the address off, a success puts it behind the others unless it is there |
| `Metadata.WithoutConcat` | dfs/controller/controller.go:338-352 | taking an address off goes address by address and keeps the order |
| `Metadata.AliveConcat` | dfs/controller/controller.go:607-612 | so does keeping the active ones |
| `WalLog.SnapshotRebuilds` | dfs/controller/wal.go:174-185 | replaying a snapshot rebuilds the files, whatever order the map gave them in |
| `WalLog.RecordsOfLogText` | dfs/controller/wal.go:106-124 | recovery reads back the records written, line by line |
| `WalLog.AppendRecord` | dfs/controller/wal.go:151-152 | appending a record that fits appends it to what recovery reads |
| `WalLog.LongRecordEndsRecovery` | dfs/controller/wal.go:102-128 | a record too long for recovery hides itself and everything logged after it |
| `WalLog.CrashInAppend` | dfs/controller/wal.go:106-112 | however many bytes of a record reached the log, recovery reads the log as before the append or as after it |
| `WalLog.AppendAfterCrashExactly` | dfs/controller/wal.go:151-152 | the record appended after such a crash is read back exactly when nothing of the torn line is there |
| `WalLog.CrashInCompaction` | dfs/controller/wal.go:165-209 | at every point of a compaction, whatever the temporary file holds, the log replays to the same files |
| `ControllerState.LogStep` | dfs/controller/wal.go:134-162 | every event whose record recovery can read keeps the log in agreement with the files, and the files readable, through appends, compactions that may fail, and restarts |
| `ControllerState.AppendAgreesExactly` | dfs/controller/wal.go:151-158 | an append keeps that agreement exactly when recovery can read the record; otherwise recovery gives the files as before |
| `ControllerState.CounterAfterReport` | dfs/controller/controller.go:413-415 | a first copy finds a positive counter, so the unsigned decrement does not wrap, and the counter stays at most the number of chunks without a copy |
| `ControllerState.UploadStep` | dfs/controller/controller.go:256-426 | every event keeps pending files and counters on the same names and each counter within the chunks without a copy |
| `ControllerState.RunInvariant` | dfs/controller/wal.go:90-209 | in every reachable state replaying the log rebuilds exactly the published files, a snapshot of them could be read back, and uploads are counted right |
| `ControllerState.RunGoesOn` | dfs/controller/controller.go:652-702 | any event taken in the state a run has reached, whose record can be read, extends the run |
| `ControllerRuns.RestartKeepsFiles` | dfs/controller/controller.go:713-714 | a restart anywhere in a run keeps the published files and the record count and forgets the uploads |
| `ControllerRuns.LogLengthBound` | dfs/controller/wal.go:158-208 | with compactions that succeed, the log never holds more than max(999, number of files) records |
| `ControllerRuns.NeverBothExactly` | dfs/controller/controller.go:224-285 | an event makes a name both pending and published exactly when it inserts an upload whose check no longer holds |
| `ControllerRuns.NeverBothInRun` | dfs/controller/controller.go:224-285 | with PUTs taken whole, no name is ever both pending and published |
| `ControllerRuns.CountersExactExactly` | dfs/controller/controller.go:356-373 | in one event, counters equal to the numbers of chunks without a copy stay so exactly when it is no failure report that empties a chunk of an upload |
| `ControllerRuns.CountersAreHistory` | dfs/controller/controller.go:256-426 | in every run, the chunks of an upload without a copy are as many as its counter plus the failure reports that emptied one of its chunks since its PUT |
| `ControllerRuns.CountersExactInRun` | dfs/controller/controller.go:256-426 | along every run, the counters are right exactly where no pending upload has had a chunk emptied since its PUT |
| `ControllerRuns.PublishedCompleteExactly` | dfs/controller/controller.go:413-425 | a file is published with a copy of every chunk exactly when its counter was right |
| `ControllerRuns.PublishedWhenComplete` | dfs/controller/controller.go:413-425 | with right counters, a report publishes exactly when it leaves no chunk without a copy |
| `ControllerRuns.PublishedInRun` | dfs/controller/controller.go:377-426 | in every run, whatever is published is no longer pending, and has a copy of every chunk exactly when no failure report since its PUT emptied one of its chunks |
| `Replicas.UploadListsAreHistory` | dfs/controller/controller.go:356-411 | in every run, a chunk of an upload lists an address exactly when the latest event about the two since the PUT was a success report, and lists it once |
| `Replicas.FileListsAreHistory` | dfs/controller/controller.go:336-411 | in every run, a chunk of a published file lists an address exactly when the latest event about the two, in its upload or since, was a success report, and lists it once |
| `Uploads.UploadsAreHistory` | dfs/controller/controller.go:112-129 | in every run a name is uploading exactly when there was a PUT and since then no publication, no restart and no look at the leases past the lease it had; its lease is the one set last, and name, size, chunks and creation time are those of the PUT |
| `Uploads.FilesAreHistory` | dfs/controller/controller.go:413-486 | in every run a name is published exactly when an upload of it was and has not been deleted since; name, size, chunks and creation time are those of that upload's PUT |
| `Uploads.ExpiryExactly` | dfs/controller/controller.go:112-129 | in every run a look at the leases drops exactly the uploads whose last lease, from the PUT or a renewal, is over, and leaves the others as they are |
| `Uploads.LeaseOutlives` | dfs/controller/controller.go:112-129 | an upload outlives every look at the leases up to the time its lease runs, through any events but its publication, a restart or a shorter lease |
| `Replication.TasksExactly` | dfs/controller/controller.go:620-625 | a file's tasks are those of its chunks that list one or two nodes, one for each: from the first node listed, for as many copies as make three |
| `Replication.ScanTasksExactly` | dfs/controller/controller.go:602-633 | the tasks of a scan are those of such chunks of the files gone through, one for each |
| `Replication.TaskCompletes` | dfs/controller/controller.go:394-411 | success reports from as many further addresses as a task asks for leave its chunk with three distinct nodes, change no other, and no task is due for it |
| `Anomalies.EmptiedUploadIsPublished` | dfs/controller/controller.go:356-373 | a run of four events that publishes a file one of whose chunks has no copy |
| `Anomalies.RacingPuts` | dfs/controller/controller.go:224-285 | a run of three events after which a name is published and pending |
| `Anomalies.LargeFileIsLost` | dfs/controller/wal.go:102-152 | if each chunk takes a byte of the record, a file of as many chunks as the longest readable line has bytes is uploaded and published, and recovery finds no file |
| `NodeSelection.SelectNodes` | dfs/controller/controller.go:169-218 | for every order of the map: min(n, eligible) addresses of distinct nodes with room, none excluded, each no worse than any sampled node left out, the sample being min(2n, eligible) nodes, or one if n is 0 |
| `NodeSelection.ChosenMeans` | dfs/controller/controller.go:169-218 | the nodes picked are distinct, have room and are not excluded; as many as asked for unless every such node is picked; and no node sampled but left out has less space used, or as much and fewer requests |
| `NodeSelection.SampleNodes` | dfs/controller/controller.go:179-193 | a score for each node sampled, once; as many nodes as the pool takes, or all eligible ones |
| `NodeSelection.ChosenAddress` | dfs/controller/controller.go:182-187 | an address picked is not excluded and is that of a node with room |
| `Controllers.FileMetadata.RemoveNode` | dfs/controller/controller.go:338-352 | takes every occurrence of the address off the chunk, keeps the rest in order, and says whether there is such a chunk |
| `Controllers.FileMetadata.AddNode` | dfs/controller/controller.go:394-411 | adds the address once, and says whether it was the chunk's first copy |
| `Controllers.FileMetadata.RemoveDead` | dfs/controller/controller.go:603-629 | keeps exactly the active addresses of each chunk, in order, and says whether that changed anything |
| `Controllers.Controller.SnapshotRecords` | dfs/controller/wal.go:174-185 | one PUT for each file, in whatever order the map gives them |
| `Controllers.Controller.WriteAside` | dfs/controller/wal.go:187-195 | writes the snapshot to the temporary file, or fails; the log stays |
| `Controllers.Controller.RenameOver` | dfs/controller/wal.go:197-208 | the log becomes the snapshot in one step and the count starts from the number of files |
| `Controllers.Controller.CompactWal` | dfs/controller/wal.go:165-209 | the log becomes a snapshot of the files, or stays as it was |
| `Controllers.Controller.AppendWalRecord` | dfs/controller/wal.go:134-162 | the log gets one more record and a newline; from 1000 records on it becomes a snapshot instead, unless writing fails |
| `Controllers.Controller.constructor` | dfs/controller/controller.go:711-714 | a controller started on what a crash left takes the restart event, whatever the temporary file holds, and is ready for any handler |
| `Controllers.Controller.RecoverWal` | dfs/controller/wal.go:90-131 | rebuilds the files by replaying the records of the log, and counts them |
| `Controllers.Controller.HandleChunkStatusReport` | dfs/controller/controller.go:330-427 | a failure report takes two events, one for each table; a success report takes the pending event if the file is pending and the published one if not |
| `Controllers.Controller.CountFirstCopy` | dfs/controller/controller.go:413-426 | counts the counter down, and at zero moves the upload to the files, logs it and drops its counter |
| `Controllers.Controller.HandleDeleteFile` | dfs/controller/controller.go:462-486 | takes the delete event, which removes exactly that file, and tells each address that held one of its chunks, once; refuses exactly when there is no such file |
| `Controllers.Controller.HandleLeaseRenew` | dfs/controller/controller.go:317-328 | sets the lease of an upload to a minute from now and nothing else, and refuses exactly when there is none |
| `Controllers.Controller.CheckLeases` | dfs/controller/controller.go:112-129 | an upload and its counter stay, as they are, exactly when now is not past its lease; the names dropped are exactly the others |
| `Controllers.Controller.HandlePutFile` | dfs/controller/controller.go:221-289 | accepted exactly when the name is free, the chunk size positive and, if it has chunks, three nodes have room; one allocation for each chunk asked for, or for each chunk size the file takes if none is; each with three targets of distinct nodes with room; a rejected PUT changes nothing |
| `Controllers.AskedMeans` | dfs/controller/controller.go:248-251 | as many chunks as the request says, and otherwise the size divided by the chunk size, rounded up, while the sum stays below 2^64 |
| `Controllers.Controller.HandleGetFile` | dfs/controller/controller.go:292-315 | the chunks of a published file, in the order of the metadata, and its size; nothing for a name that is not published |
| `Controllers.Controller.HandleReplicaNodes` | dfs/controller/controller.go:429-459 | picks nodes none of which is known to hold the chunk, and fails exactly when there is none |
| `Controllers.Controller.ProcessReplication` | dfs/controller/controller.go:585-635 | each file takes one eviction event, in whatever order; a task is dispatched exactly when a chunk of a file gone through then lists one or two nodes, from its first node and for as many copies as make three; nothing happens while no node is registered |
| `Controllers.ScanEvictsDead` | dfs/controller/controller.go:602-633 | after a scan exactly the dead addresses are gone from every file gone through, and nothing else changed |

## Left out

- Sockets, protobuf messages, retries, deadlines, sleeps and heartbeat timing: received messages and clock readings are parameters.
- JSON, MD5, plugins and the `exec` of the client: the codec, the mapper and the reducer are given functions.
- File-system errors, other than a failing write or rename during compaction and those that make an attempt at a map or reduce task fail: the program passes over what it cannot open, and the results are for runs in which nothing was passed over.
- Concurrency within a critical section of the controller and within an attempt at a map or reduce task: attempts take turns in any order, on disks that may hold anything else before, but each is one step.
- Skipped map and reduce tasks: the end-to-end result is for jobs in which every one of them succeeds in the end.
- `container/heap`, `sort.Slice`, `slices.SortFunc`, `bufio.Scanner` and `fmt.Sscanf` are modelled by what they do, in Dafny; index lines are those the program writes.
- Jobs.MapPhase: the limit of five attempts is not modelled, and two attempts at one map task do not overlap in time.
- Jobs.StoreAndRun: takes chunk sizes up to 4 GiB less 16 MiB; the client's range ends at 256 MiB.
- Chunking.CalculateChunks: asks that every chunk of a text is smaller than 4 GiB, because the loop need not end otherwise.
- ExternalSorting.ExternalSort: asks that inputs are not named like its temporary files unless they exist, as the names it makes are free ones.
- Placement.SelectWorker: worker ids are not empty; the program uses the empty id for "none".
- Accounting.Account: sums are not bounded by 64 bits.
- Node registration, heartbeats, listings and statistics: they change or read one map entry at a time.
- The storage server, its scrubber and repair: they appear only as sources of reports.
- The master's heuristic for the number of reducers, progress messages, command lines, and the tools for top-N and unique counts.
