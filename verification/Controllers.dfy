/** The controller: its maps, its log file, and the handlers that update them in place. */
module Controllers {
  import opened Bytes
  import opened Lines
  import opened Metadata
  import opened WalLog
  import opened ControllerState
  import opened NodeSelection
  import opened Replication

  class FileMetadata {
    var fileName: bytes
    var size: nat
    var chunks: seq<ChunkInfo>
    var createdAt: int
    var leaseExpiry: int

    constructor (meta: Meta)
      ensures Value() == meta
    {
      fileName, size, chunks, createdAt, leaseExpiry :=
        meta.fileName, meta.size, meta.chunks, meta.createdAt, meta.leaseExpiry;
    }

    /** toWalFileMeta */
    function Value(): Meta
      reads this
    {
      Meta(fileName, size, chunks, createdAt, leaseExpiry)
    }

    /** Position of a chunk, or how many there are. */
    method Find(id: nat) returns (i: nat)
      ensures i == FindChunk(chunks, id)
    {
      i := 0;
      assert chunks[0..] == chunks;
      while i < |chunks| && chunks[i].chunkId != id
        invariant i <= |chunks| && FindChunk(chunks, id) == i + FindChunk(chunks[i..], id)
      {
        assert chunks[i..][1..] == chunks[i + 1..];
        i := i + 1;
      }
    }

    /** Takes an address off a chunk; says whether there is such a chunk. */
    method RemoveNode(id: nat, addr: bytes) returns (found: bool)
      modifies this
      ensures found == (FindChunk(old(chunks), id) < |old(chunks)|)
      ensures Value() == old(Value()).(chunks := FailChunk(old(chunks), id, addr))
    {
      var i := Find(id);
      found := i < |chunks|;
      if found {
        var aliveNodes: seq<bytes> := [];
        var nodes := chunks[i].nodes;
        for k := 0 to |nodes|
          invariant chunks == old(chunks) && Value() == old(Value())
          invariant aliveNodes == Without(nodes[..k], addr)
        {
          assert nodes[..k + 1][..k] == nodes[..k];
          if nodes[k] != addr {
            aliveNodes := aliveNodes + [nodes[k]];
          }
        }
        assert nodes[..|nodes|] == nodes;
        chunks := chunks[i := chunks[i].(nodes := aliveNodes)];
      }
    }

    /** Adds an address to a chunk that does not list it. */
    method AddNode(id: nat, addr: bytes) returns (added: bool, isFirstCopy: bool)
      modifies this
      ensures Value() == old(Value()).(chunks := StoreChunk(old(chunks), id, addr))
      ensures added == (StoreChunk(old(chunks), id, addr) != old(chunks))
      ensures isFirstCopy == FirstCopy(old(chunks), id)
    {
      added, isFirstCopy := false, false;
      var i := Find(id);
      if i < |chunks| && addr !in chunks[i].nodes {
        isFirstCopy := |chunks[i].nodes| == 0;
        added := true;
        assert |chunks[i].nodes + [addr]| > |chunks[i].nodes|;
        chunks := chunks[i := chunks[i].(nodes := chunks[i].nodes + [addr])];
      }
    }

    /** Takes off every address that is not active. */
    method RemoveDead(active: set<bytes>) returns (modified: bool)
      modifies this
      ensures Value() == old(Value()).(chunks := EvictChunks(old(chunks), active))
      ensures modified == (EvictChunks(old(chunks), active) != old(chunks))
    {
      modified := false;
      ghost var evicted := EvictChunks(chunks, active);
      for i := 0 to |chunks|
        invariant |chunks| == |old(chunks)| && Value() == old(Value()).(chunks := chunks)
        invariant forall k :: 0 <= k < i ==> chunks[k] == evicted[k]
        invariant forall k :: i <= k < |chunks| ==> chunks[k] == old(chunks)[k]
        invariant modified == exists k :: 0 <= k < i && evicted[k] != old(chunks)[k]
      {
        var aliveNodes := FilterAlive(chunks[i].nodes, active);
        if |aliveNodes| != |chunks[i].nodes| {
          assert evicted[i] != old(chunks)[i];
          chunks := chunks[i := chunks[i].(nodes := aliveNodes)];
          modified := true;
        }
      }
      assert chunks == evicted;
    }
  }

  method FilterAlive(nodes: seq<bytes>, active: set<bytes>) returns (aliveNodes: seq<bytes>)
    ensures aliveNodes == Alive(nodes, active)
  {
    aliveNodes := [];
    for k := 0 to |nodes|
      invariant aliveNodes == Alive(nodes[..k], active)
    {
      assert nodes[..k + 1][..k] == nodes[..k];
      if nodes[k] in active {
        aliveNodes := aliveNodes + [nodes[k]];
      }
    }
    assert nodes[..|nodes|] == nodes;
  }

  type Table = map<bytes, FileMetadata>

  /** The values a table of files holds. */
  ghost function Values(table: Table): (values: FileMap)
    reads table.Values
    ensures values.Keys == table.Keys
    ensures forall name :: name in table ==> values[name] == table[name].Value()
  {
    map name | name in table :: table[name].Value()
  }

  /** No object is in two places. */
  ghost predicate Unshared(files: Table, pending: Table)
  {
    && (forall a, b :: a in files && b in files && a != b ==> files[a] != files[b])
    && (forall a, b :: a in pending && b in pending && a != b ==> pending[a] != pending[b])
    && (forall a, b :: a in files && b in pending ==> files[a] != pending[b])
  }

  class Controller {
    const codec: Codec
    var nodes: Nodes
    var files: Table
    var pendingFiles: Table
    var pendingChunks: Counters
    var wal: bytes  // the file at the log's path
    var tmp: Option<bytes>  // the temporary file beside it
    var walCount: nat
    var diskFails: bool  // whether a compaction started now meets an error

    /** No object is in two tables, or twice in one. */
    ghost predicate Separate()
      reads this
    {
      Unshared(files, pendingFiles)
    }

    /** And every file is listed under its own name. */
    ghost predicate Valid()
      reads this, files.Values, pendingFiles.Values
    {
      Separate() && KeysMatch(Values(files)) && KeysMatch(Values(pendingFiles))
    }

    ghost function Repr(): set<object>
      reads this
    {
      {this} + files.Values + pendingFiles.Values
    }

    /** The state the controller is in. */
    ghost function View(): State
      reads this, files.Values, pendingFiles.Values
    {
      State(Values(files), Values(pendingFiles), pendingChunks, WalDisk(wal, tmp), walCount)
    }

    // ---------- The log ----------

    /** A PUT record for each file, in whatever order the map gives them. */
    method SnapshotRecords() returns (records: seq<WalRecord>)
      requires KeysMatch(Values(files))
      ensures IsSnapshot(Values(files), records)
    {
      ghost var order: seq<bytes> := [];
      records := [];
      var todo := files.Keys;
      while todo != {}
        invariant todo <= files.Keys && Enumerates(order, files.Keys - todo)
        invariant records == Snapshot(Values(files), order)
        decreases todo
      {
        var name :| name in todo;
        todo := todo - {name};
        records := records + [WalRecord(PUT, files[name].fileName, Some(files[name].Value()))];
        order := order + [name];
      }
    }

    /** Writes the records to the temporary file, line by line; the log itself stays. */
    method WriteAside(records: seq<WalRecord>) returns (ok: bool)
      modifies this`tmp
      ensures ok ==> tmp == Some(LogText(codec, records))
      ensures !diskFails ==> ok
    {
      hide *;
      NoRecordsNoText(codec);
      assert records[..0] == [];
      tmp := Some([]);
      for i := 0 to |records|
        invariant tmp == Some(LogText(codec, records[..i]))
      {
        if diskFails {
          if * {
            return false;
          }
        }
        LogTextAppend(codec, records[..i], records[i]);
        assert records[..i + 1] == records[..i] + [records[i]];
        tmp := Some(tmp.value + LogLine(codec, records[i]));
      }
      assert records[..|records|] == records;
      ok := true;
    }

    /** Renames the temporary file over the log and starts counting anew. */
    method RenameOver(ghost values: FileMap, ghost records: seq<WalRecord>)
      requires IsSnapshot(values, records) && tmp == Some(LogText(codec, records))
      requires |values| == |files|
      modifies this`wal, this`tmp, this`walCount
      ensures Compacted(codec, values, WalDisk(wal, tmp), walCount)
      ensures CompactionPoint(old(wal), LogText(codec, records), WalDisk(wal, tmp))
    {
      hide LogText, Snapshot;
      wal, tmp := tmp.value, None;
      walCount := |files|;
    }

    /** Writes a snapshot aside and renames it over the log; when the disk fails, the write or the rename may fail. */
    method CompactWal()
      requires Separate() && KeysMatch(Values(files))
      modifies this`wal, this`tmp, this`walCount
      ensures (wal == old(wal) && walCount == old(walCount))
           || Compacted(codec, old(Values(files)), WalDisk(wal, tmp), walCount)
      ensures !diskFails ==> Compacted(codec, old(Values(files)), WalDisk(wal, tmp), walCount)
    {
      hide *;
      ghost var values := Values(files);
      SameSize(files.Keys, files, values);
      var records := SnapshotRecords();
      var ok := WriteAside(records);
      assert CompactionPoint(old(wal), LogText(codec, records), WalDisk(wal, tmp)) by {
        BeforeRename(wal, LogText(codec, records), tmp);
      }
      if diskFails {
        if * {
          ok := false;
        }
      }
      if ok {
        RenameOver(values, records);
      }
    }

    /** Logs a change already made to the files, and compacts the log when it has grown long. */
    method AppendWalRecord(record: WalRecord)
      requires Separate() && KeysMatch(Values(files))
      modifies this`wal, this`tmp, this`walCount
      ensures Logs(codec, old(wal), old(walCount), old(Values(files)), record, WalDisk(wal, tmp), walCount)
      ensures old(walCount) < 999 ==>
                wal == old(wal) + codec.enc(record) + [10] && tmp == old(tmp) && walCount == old(walCount) + 1
      ensures old(walCount) >= 999 && !diskFails ==> Compacted(codec, old(Values(files)), WalDisk(wal, tmp), walCount)
      ensures Values(files) == old(Values(files)) && Values(pendingFiles) == old(Values(pendingFiles))
    {
      hide Values, KeysMatch, Unshared, Compacted;
      ghost var published, uploads := Values(files), Values(pendingFiles);
      wal := wal + codec.enc(record) + [NEWLINE];
      assert old(wal) + LogLine(codec, record) == wal;
      walCount := walCount + 1;
      if walCount >= COMPACT_AT {
        NoneChanged(files, published);
        CompactWal();
      }
      NoneChanged(files, published);
      NoneChanged(pendingFiles, uploads);
    }

    // ---------- Changes in place, seen from the tables ----------

    /** One published file takes a new value; nothing else changes in either table. */
    ghost predicate OnlyFile(before: FileMap, pending: FileMap, name: bytes, meta: Meta)
      reads this, files.Values, pendingFiles.Values
    {
      Values(files) == before[name := meta] && Values(pendingFiles) == pending
    }

    ghost predicate OnlyPending(before: FileMap, pending: FileMap, name: bytes, meta: Meta)
      reads this, files.Values, pendingFiles.Values
    {
      Values(files) == before && Values(pendingFiles) == pending[name := meta]
    }

    method RemovePublished(name: bytes, id: nat, addr: bytes) returns (found: bool)
      requires Separate() && name in files
      modifies files[name]
      ensures found == (FindChunk(old(files[name].chunks), id) < |old(files[name].chunks)|)
      ensures OnlyFile(old(Values(files)), old(Values(pendingFiles)), name,
                       old(files[name].Value()).(chunks := FailChunk(old(files[name].chunks), id, addr)))
    {
      hide FindChunk, FailChunk, Unshared, Values;
      SolePublished(files, pendingFiles, name);
      ghost var before, others := Values(files), Values(pendingFiles);
      ghost var meta := files[name].Value().(chunks := FailChunk(files[name].chunks, id, addr));
      found := files[name].RemoveNode(id, addr);
      OneChanged(files, name, before, meta);
      NoneChanged(pendingFiles, others);
    }

    method RemovePending(name: bytes, id: nat, addr: bytes) returns (found: bool)
      requires Separate() && name in pendingFiles
      modifies pendingFiles[name]
      ensures OnlyPending(old(Values(files)), old(Values(pendingFiles)), name,
                          old(pendingFiles[name].Value())
                            .(chunks := FailChunk(old(pendingFiles[name].chunks), id, addr)))
    {
      hide FindChunk, FailChunk, Unshared, Values;
      SolePending(files, pendingFiles, name);
      ghost var before, others := Values(pendingFiles), Values(files);
      ghost var meta := pendingFiles[name].Value().(chunks := FailChunk(pendingFiles[name].chunks, id, addr));
      found := pendingFiles[name].RemoveNode(id, addr);
      OneChanged(pendingFiles, name, before, meta);
      NoneChanged(files, others);
    }

    method AddPublished(name: bytes, id: nat, addr: bytes) returns (added: bool)
      requires Separate() && name in files
      modifies files[name]
      ensures added == (StoreChunk(old(files[name].chunks), id, addr) != old(files[name].chunks))
      ensures OnlyFile(old(Values(files)), old(Values(pendingFiles)), name,
                       old(files[name].Value()).(chunks := StoreChunk(old(files[name].chunks), id, addr)))
    {
      hide StoreChunk, FirstCopy, Unshared, Values;
      SolePublished(files, pendingFiles, name);
      ghost var before, others := Values(files), Values(pendingFiles);
      ghost var meta := files[name].Value().(chunks := StoreChunk(files[name].chunks, id, addr));
      var isFirstCopy;
      added, isFirstCopy := files[name].AddNode(id, addr);
      OneChanged(files, name, before, meta);
      NoneChanged(pendingFiles, others);
    }

    method AddPending(name: bytes, id: nat, addr: bytes) returns (isFirstCopy: bool)
      requires Separate() && name in pendingFiles
      modifies pendingFiles[name]
      ensures isFirstCopy == FirstCopy(old(pendingFiles[name].chunks), id)
      ensures OnlyPending(old(Values(files)), old(Values(pendingFiles)), name,
                          old(pendingFiles[name].Value())
                            .(chunks := StoreChunk(old(pendingFiles[name].chunks), id, addr)))
    {
      hide StoreChunk, FirstCopy, Unshared, Values;
      SolePending(files, pendingFiles, name);
      ghost var before, others := Values(pendingFiles), Values(files);
      ghost var meta := pendingFiles[name].Value().(chunks := StoreChunk(pendingFiles[name].chunks, id, addr));
      var added;
      added, isFirstCopy := pendingFiles[name].AddNode(id, addr);
      OneChanged(pendingFiles, name, before, meta);
      NoneChanged(files, others);
    }

    method EvictPublished(name: bytes, active: set<bytes>) returns (modified: bool)
      requires Separate() && name in files
      modifies files[name]
      ensures modified == (EvictChunks(old(files[name].chunks), active) != old(files[name].chunks))
      ensures OnlyFile(old(Values(files)), old(Values(pendingFiles)), name,
                       old(files[name].Value()).(chunks := EvictChunks(old(files[name].chunks), active)))
    {
      hide EvictChunks, Unshared, Values;
      SolePublished(files, pendingFiles, name);
      ghost var before, others := Values(files), Values(pendingFiles);
      ghost var meta := files[name].Value().(chunks := EvictChunks(files[name].chunks, active));
      modified := files[name].RemoveDead(active);
      OneChanged(files, name, before, meta);
      NoneChanged(pendingFiles, others);
    }

    /** Logs the metadata of a published file after a change to its chunks. */
    method LogPut(name: bytes)
      requires Separate() && name in files && KeysMatch(Values(files))
      modifies this`wal, this`tmp, this`walCount
      ensures Logs(codec, old(wal), old(walCount), old(Values(files)),
                   WalRecord(PUT, name, Some(old(Values(files))[name])),
                   WalDisk(wal, tmp), walCount)
      ensures Values(files) == old(Values(files)) && Values(pendingFiles) == old(Values(pendingFiles))
    {
      hide Values, Logs, KeysMatch, Unshared;
      AppendWalRecord(WalRecord(PUT, name, Some(files[name].Value())));
    }

    // ---------- Reports ----------

    /** The part of a failure report that concerns published files. */
    method FailPublished(name: bytes, id: nat, addr: bytes)
      requires Separate() && KeysMatch(Values(files))
      modifies Repr()
      ensures Separate() && files == old(files) && pendingFiles == old(pendingFiles)
      ensures Takes(codec, old(View()), FailFiles(name, id, addr), View())
    {
      hide Values, Logs, KeysMatch, Unshared, Takes, EffectOf, FindChunk, FailChunk;
      ghost var s := View();
      if name in files {
        var found := RemovePublished(name, id, addr);
        FailKeepsKeys(s.files, name, id, addr);
        if found {
          LogPut(name);
        }
        FailPublishedTakes(codec, s, name, id, addr, View());
      } else {
        NothingPublished(codec, s, name, id, addr);
      }
    }

    /** The part of a failure report that concerns uploads. */
    method FailUpload(name: bytes, id: nat, addr: bytes)
      requires Separate()
      modifies Repr()
      ensures Separate() && files == old(files) && pendingFiles == old(pendingFiles)
      ensures Takes(codec, old(View()), FailPending(name, id, addr), View())
      ensures Values(files) == old(Values(files))
    {
      hide Values, Unshared, Takes, EffectOf, FindChunk, FailChunk;
      ghost var s := View();
      if name in pendingFiles {
        var found := RemovePending(name, id, addr);
      }
      FailUploadTakes(codec, s, name, id, addr, View());
    }

    /** A success report for a file that is not being uploaded. */
    method StorePublished(name: bytes, id: nat, addr: bytes)
      requires Separate() && KeysMatch(Values(files))
      modifies Repr()
      ensures Separate() && files == old(files) && pendingFiles == old(pendingFiles)
      ensures Takes(codec, old(View()), StoreFiles(name, id, addr), View())
    {
      hide Values, Logs, KeysMatch, Unshared, Takes, EffectOf, StoreChunk;
      ghost var s := View();
      if name in files {
        var added := AddPublished(name, id, addr);
        StoreKeepsKeys(s.files, name, id, addr);
        if added {
          LogPut(name);
        }
        StorePublishedTakes(codec, s, name, id, addr, View());
      } else {
        NothingPublished(codec, s, name, id, addr);
      }
    }

    /** Moves a complete upload to the published files and logs it. */
    method PublishUpload(name: bytes)
      requires Separate() && name in pendingFiles && KeysMatch(Values(files)) && pendingFiles[name].fileName == name
      modifies this
      ensures Separate()
      ensures var meta := old(Values(pendingFiles))[name];
              && Values(files) == old(Values(files))[name := meta]
              && Values(pendingFiles) == old(Values(pendingFiles)) - {name}
              && pendingChunks == old(pendingChunks) - {name}
              && Logs(codec, old(wal), old(walCount), old(Values(files))[name := meta],
                      WalRecord(PUT, name, Some(meta)),
                      WalDisk(wal, tmp), walCount)
    {
      hide Values, Logs, KeysMatch;
      MoveToFiles(name);
      PublishKeepsKeys(old(Values(files)), name, old(Values(pendingFiles))[name]);
      LogPut(name);
    }

    method MoveToFiles(name: bytes)
      requires Separate() && name in pendingFiles
      modifies this`files, this`pendingFiles, this`pendingChunks
      ensures Separate() && name in files
      ensures Values(files) == old(Values(files))[name := old(Values(pendingFiles))[name]]
      ensures Values(pendingFiles) == old(Values(pendingFiles)) - {name}
      ensures pendingChunks == old(pendingChunks) - {name}
    {
      hide Values, Unshared;
      UnsharedMoved(files, pendingFiles, name);
      ValuesPut(files, name, pendingFiles[name]);
      ValuesDropped(pendingFiles, {name});
      ghost var published, uploads := Values(files[name := pendingFiles[name]]), Values(pendingFiles - {name});
      files := files[name := pendingFiles[name]];
      pendingFiles := pendingFiles - {name};
      pendingChunks := pendingChunks - {name};
      NoneChanged(files, published);
      NoneChanged(pendingFiles, uploads);
    }

    /** Counts a first copy; the last one missing publishes the upload. */
    method CountFirstCopy(name: bytes)
      requires Separate() && name in pendingFiles && KeysMatch(Values(files)) && pendingFiles[name].fileName == name
      modifies this
      ensures Separate()
      ensures var left := Dec64(if name in old(pendingChunks) then old(pendingChunks)[name] else 0);
              var meta := old(Values(pendingFiles))[name];
              if left == 0 then
                && Values(files) == old(Values(files))[name := meta]
                && Values(pendingFiles) == old(Values(pendingFiles)) - {name}
                && pendingChunks == old(pendingChunks)[name := left] - {name}
                && Logs(codec, old(wal), old(walCount), old(Values(files))[name := meta],
                        WalRecord(PUT, name, Some(meta)),
                        WalDisk(wal, tmp), walCount)
              else
                && Values(files) == old(Values(files)) && Values(pendingFiles) == old(Values(pendingFiles))
                && pendingChunks == old(pendingChunks)[name := left]
                && wal == old(wal) && tmp == old(tmp) && walCount == old(walCount)
    {
      hide Values, Logs, KeysMatch, Unshared, Dec64;
      pendingChunks := pendingChunks[name := Dec64(if name in pendingChunks then pendingChunks[name] else 0)];
      if pendingChunks[name] == 0 {
        PublishUpload(name);
      }
    }

    /** A success report for an upload. */
    method StoreUpload(name: bytes, id: nat, addr: bytes)
      requires Separate() && name in pendingFiles && KeysMatch(Values(files)) && pendingFiles[name].fileName == name
      modifies Repr()
      ensures Separate()
      ensures Takes(codec, old(View()), StorePending(name, id, addr), View())
    {
      hide Values, Logs, KeysMatch, Unshared, Takes, EffectOf, StoreChunk, FirstCopy, Dec64;
      ghost var s := View();
      var isFirstCopy := AddPending(name, id, addr);
      if isFirstCopy {
        CountFirstCopy(name);
      }
      StoreUploadTakes(codec, s, name, id, addr, View());
    }

    /** A chunk status report from a node. */
    method HandleChunkStatusReport(success: bool, name: bytes, id: nat, addr: bytes)
      requires Valid()
      modifies Repr()
      ensures Valid()
      ensures success && name in old(pendingFiles) ==> Takes(codec, old(View()), StorePending(name, id, addr), View())
      ensures success && name !in old(pendingFiles) ==> Takes(codec, old(View()), StoreFiles(name, id, addr), View())
      ensures !success ==> exists mid ::
                Takes(codec, old(View()), FailFiles(name, id, addr), mid)
                && Takes(codec, mid, FailPending(name, id, addr), View())
    {
      hide Values, Logs, KeysMatch, Unshared, Takes, EffectOf;
      ghost var s := View();
      PendingNamed(name);
      if !success {
        FailPublished(name, id, addr);
        ghost var mid := View();
        KeepsKeys(codec, s, FailFiles(name, id, addr), mid);
        FailUpload(name, id, addr);
        KeepsKeys(codec, mid, FailPending(name, id, addr), View());
      } else if name in pendingFiles {
        StoreUpload(name, id, addr);
        KeepsKeys(codec, s, StorePending(name, id, addr), View());
      } else {
        StorePublished(name, id, addr);
        KeepsKeys(codec, s, StoreFiles(name, id, addr), View());
      }
    }

    lemma PendingNamed(name: bytes)
      requires KeysMatch(Values(pendingFiles))
      ensures name in pendingFiles ==> pendingFiles[name].fileName == name
    {
    }

    // ---------- Deletion, leases and lookup ----------

    /** Removes a published file; tells which nodes hold a chunk of it, each once. */
    method HandleDeleteFile(name: bytes) returns (ok: bool, targetNodes: seq<bytes>)
      requires Valid()
      modifies this
      ensures Valid() && ok == (name in old(files))
      ensures Takes(codec, old(View()), Delete(name), View())
      ensures Values(files) == old(Values(files)) - {name} && Values(pendingFiles) == old(Values(pendingFiles))
      ensures forall i, j :: 0 <= i < j < |targetNodes| ==> targetNodes[i] != targetNodes[j]
      ensures ok ==> forall addr :: addr in targetNodes <==>
                exists i :: 0 <= i < |old(Values(files))[name].chunks|
                            && addr in old(Values(files))[name].chunks[i].nodes
    {
      hide Values, Logs, KeysMatch, Unshared, Takes, EffectOf;
      ghost var s := View();
      ok, targetNodes := name in files, [];
      if ok {
        targetNodes := CollectNodes(files[name].chunks);
        DropAndLog(name);
      } else {
        NothingDeleted(codec, s, name);
        assert s.files - {name} == s.files;
      }
      KeepsKeys(codec, s, Delete(name), View());
    }

    method DropAndLog(name: bytes)
      requires Separate() && name in files && KeysMatch(Values(files))
      modifies this`files, this`wal, this`tmp, this`walCount
      ensures Separate() && Takes(codec, old(View()), Delete(name), View())
      ensures Values(files) == old(Values(files)) - {name} && Values(pendingFiles) == old(Values(pendingFiles))
    {
      hide Values, Logs, KeysMatch, Unshared, Takes, EffectOf;
      ghost var s := View();
      DropKeepsKeys(Values(files), name);
      DropFile(name);
      AppendWalRecord(DeleteRecord(name));
      DeleteTakes(codec, s, name, View());
    }

    method DropFile(name: bytes)
      requires Separate()
      modifies this`files
      ensures Separate() && Values(files) == old(Values(files)) - {name}
      ensures Values(pendingFiles) == old(Values(pendingFiles))
    {
      hide Values, Unshared;
      UnsharedDropped(files, pendingFiles, {name});
      ValuesDropped(files, {name});
      ghost var published, uploads := Values(files - {name}), Values(pendingFiles);
      files := files - {name};
      NoneChanged(files, published);
      NoneChanged(pendingFiles, uploads);
    }

    /** Extends the lease of an upload. */
    method HandleLeaseRenew(name: bytes, now: int) returns (ok: bool)
      requires Valid()
      modifies Repr()
      ensures Valid() && ok == (name in old(pendingFiles))
      ensures Takes(codec, old(View()), Renew(name, now + 60), View())
      ensures Values(files) == old(Values(files)) && pendingChunks == old(pendingChunks)
      ensures !ok ==> Values(pendingFiles) == old(Values(pendingFiles))
      ensures ok ==>
                Values(pendingFiles)
                == old(Values(pendingFiles))[name := old(Values(pendingFiles))[name].(leaseExpiry := now + 60)]
    {
      hide Values, KeysMatch, Unshared, Takes, EffectOf;
      ghost var s := View();
      ok := name in pendingFiles;
      if ok {
        SetLease(name, now + 60);
      }
      RenewTakes(codec, s, name, now + 60, View());
      KeepsKeys(codec, s, Renew(name, now + 60), View());
    }

    method SetLease(name: bytes, leaseExpiry: int)
      requires Separate() && name in pendingFiles
      modifies pendingFiles[name]
      ensures OnlyPending(old(Values(files)), old(Values(pendingFiles)), name,
                          old(pendingFiles[name].Value()).(leaseExpiry := leaseExpiry))
    {
      hide Unshared, Values;
      SolePending(files, pendingFiles, name);
      ghost var before, others := Values(pendingFiles), Values(files);
      ghost var meta := pendingFiles[name].Value().(leaseExpiry := leaseExpiry);
      pendingFiles[name].leaseExpiry := leaseExpiry;
      OneChanged(pendingFiles, name, before, meta);
      NoneChanged(files, others);
    }

    /** One pass over the leases: drops every expired upload. */
    method CheckLeases(now: int) returns (expired: set<bytes>)
      requires Valid()
      modifies this
      ensures Valid()
      ensures Takes(codec, old(View()), Expire(now), View())
      ensures forall name :: name in expired <==>
                name in old(Values(pendingFiles)) && now > old(Values(pendingFiles))[name].leaseExpiry
      ensures forall name :: name in pendingFiles <==>
                name in old(Values(pendingFiles)) && now <= old(Values(pendingFiles))[name].leaseExpiry
      ensures Values(pendingFiles) == old(Values(pendingFiles)) - expired && Values(files) == old(Values(files))
      ensures pendingChunks == old(pendingChunks) - expired
    {
      hide Values, KeysMatch, Unshared, Takes, EffectOf, Expired;
      ghost var s := View();
      expired := ExpiredUploads(now);
      ExpiredMeans(Values(pendingFiles), now);
      DropUploads(expired);
      ExpireTakes(codec, s, now, View());
      KeepsKeys(codec, s, Expire(now), View());
    }

    method ExpiredUploads(now: int) returns (expired: set<bytes>)
      ensures expired == Expired(Values(pendingFiles), now)
    {
      expired := {};
      var todo := pendingFiles.Keys;
      while todo != {}
        invariant todo <= pendingFiles.Keys
        invariant forall name :: name in expired <==>
                    name in pendingFiles.Keys - todo && now > pendingFiles[name].leaseExpiry
        decreases todo
      {
        var name :| name in todo;
        todo := todo - {name};
        if now > pendingFiles[name].leaseExpiry {
          expired := expired + {name};
        }
      }
    }

    method DropUploads(names: set<bytes>)
      requires Separate()
      modifies this`pendingFiles, this`pendingChunks
      ensures Separate() && Values(files) == old(Values(files))
      ensures Values(pendingFiles) == old(Values(pendingFiles)) - names
      ensures pendingChunks == old(pendingChunks) - names
    {
      hide Values, Unshared;
      UnsharedDropped(files, pendingFiles, names);
      ValuesDropped(pendingFiles, names);
      ghost var published, uploads := Values(files), Values(pendingFiles - names);
      pendingFiles := pendingFiles - names;
      pendingChunks := pendingChunks - names;
      NoneChanged(files, published);
      NoneChanged(pendingFiles, uploads);
    }

    /** The chunks of a published file in the order of the metadata, and its size. */
    method HandleGetFile(name: bytes) returns (ok: bool, locations: seq<ChunkInfo>, size: nat)
      ensures ok == (name in files)
      ensures if ok then locations == files[name].chunks && size == files[name].size else locations == [] && size == 0
    {
      ok, locations, size := name in files, [], 0;
      if ok {
        var chunks := files[name].chunks;
        for i := 0 to |chunks|
          invariant locations == chunks[..i]
        {
          locations := locations + [ChunkInfo(chunks[i].chunkId, chunks[i].nodes, chunks[i].size, chunks[i].checksum)];
        }
        size := files[name].size;
      }
    }

    // ---------- Node selection ----------

    /** A PUT, taken whole: checks, allocation and insertion. */
    method HandlePutFile(name: bytes, size: nat, chunkSize: nat, numChunks: nat, createdAt: int, now: int)
      returns (ok: bool, allocations: seq<seq<bytes>>)
      requires Valid()
      modifies this
      ensures Valid()
      ensures ok <==>
                && name !in old(files) && name !in old(pendingFiles) && chunkSize > 0
                && ((numChunks == 0 && (size + chunkSize - 1) % UINT64 < chunkSize)
                    || |set id | id in old(nodes) && old(nodes)[id].freeSpace >= chunkSize| >= 3)
      ensures !ok ==> View() == old(View())
      ensures ok && numChunks > 0 ==> |allocations| == numChunks
      ensures ok && numChunks == 0 && size + chunkSize - 1 < UINT64 ==>
                size <= |allocations| * chunkSize < size + chunkSize
      ensures ok && numChunks == 0 ==>
                |allocations| * chunkSize <= (size + chunkSize - 1) % UINT64 < |allocations| * chunkSize + chunkSize
      ensures ok ==> forall i :: 0 <= i < |allocations| ==>
                |allocations[i]| == 3 && Chosen(old(nodes), 3, chunkSize, [], allocations[i])
      ensures ok ==>
                Values(pendingFiles)
                == old(Values(pendingFiles))[name := Meta(name, size, EmptyChunks(|allocations|), createdAt, now + 30)]
      ensures ok ==> pendingChunks == old(pendingChunks)[name := |allocations|] && Values(files) == old(Values(files))
      ensures ok ==> Takes(codec, old(View()), PutCommit(name, size, |allocations|, createdAt, now + 30), View())
    {
      hide Valid, Values, View, Takes, Chosen, ChunksAsked, EmptyChunks;
      ok, allocations := false, [];
      if name in files || name in pendingFiles || chunkSize == 0 {
        return;
      }
      AskedMeans(size, chunkSize, numChunks);
      var asked := ChunksAsked(size, chunkSize, numChunks);
      ok, allocations := PutChunks(name, size, chunkSize, asked, createdAt, now);
    }

    /** The allocation and insertion of a PUT of so many chunks. */
    method PutChunks(name: bytes, size: nat, chunkSize: nat, asked: nat, createdAt: int, now: int)
      returns (ok: bool, allocations: seq<seq<bytes>>)
      requires Valid()
      modifies this
      ensures Valid()
      ensures ok <==> asked == 0 || |set id | id in old(nodes) && old(nodes)[id].freeSpace >= chunkSize| >= 3
      ensures !ok ==> View() == old(View())
      ensures ok ==> |allocations| == asked && forall i :: 0 <= i < |allocations| ==>
                |allocations[i]| == 3 && Chosen(old(nodes), 3, chunkSize, [], allocations[i])
      ensures ok ==>
                Values(pendingFiles)
                == old(Values(pendingFiles))[name := Meta(name, size, EmptyChunks(asked), createdAt, now + 30)]
      ensures ok ==> pendingChunks == old(pendingChunks)[name := asked] && Values(files) == old(Values(files))
      ensures ok ==> Takes(codec, old(View()), PutCommit(name, size, asked, createdAt, now + 30), View())
    {
      hide Values, KeysMatch, Unshared, Takes, EffectOf, Eligible, Chosen, EmptyChunks;
      ghost var s := View();
      RoomAnywhere(nodes, chunkSize);
      ok, allocations := Allocate(asked, chunkSize);
      if ok {
        InsertUpload(Meta(name, size, EmptyChunks(asked), createdAt, now + 30), asked);
        PutTakes(codec, s, name, size, asked, createdAt, now + 30, View());
        KeepsKeys(codec, s, PutCommit(name, size, asked, createdAt, now + 30), View());
      }
    }

    /** Picks targets for one chunk after another; gives up when there are not enough nodes. */
    method Allocate(asked: nat, chunkSize: nat) returns (ok: bool, allocations: seq<seq<bytes>>)
      ensures ok <==> asked == 0 || |Eligible(nodes, chunkSize, [])| >= REPLICATION_FACTOR
      ensures ok ==> |allocations| == asked && Allocated(nodes, chunkSize, allocations)
    {
      hide Eligible, Chosen;
      allocations := [];
      for i := 0 to asked
        invariant |allocations| == i && Allocated(nodes, chunkSize, allocations)
        invariant i > 0 ==> |Eligible(nodes, chunkSize, [])| >= REPLICATION_FACTOR
      {
        var targets := SelectNodes(nodes, REPLICATION_FACTOR, chunkSize, []);
        ChosenCount(nodes, REPLICATION_FACTOR, chunkSize, [], targets);
        if |targets| < REPLICATION_FACTOR {
          return false, allocations;
        }
        allocations := allocations + [targets];
      }
      ok := true;
    }

    method InsertUpload(meta: Meta, counter: nat)
      requires Separate()
      modifies this`pendingFiles, this`pendingChunks
      ensures Separate() && Values(files) == old(Values(files))
      ensures Values(pendingFiles) == old(Values(pendingFiles))[meta.fileName := meta]
      ensures pendingChunks == old(pendingChunks)[meta.fileName := counter]
    {
      hide Values, Unshared;
      ghost var published, uploads := Values(files), Values(pendingFiles);
      var fileMeta := new FileMetadata(meta);
      NoneChanged(files, published);
      NoneChanged(pendingFiles, uploads);
      UnsharedAdded(files, pendingFiles, meta.fileName, fileMeta);
      ValuesPut(pendingFiles, meta.fileName, fileMeta);
      uploads := Values(pendingFiles[meta.fileName := fileMeta]);
      pendingFiles := pendingFiles[meta.fileName := fileMeta];
      pendingChunks := pendingChunks[meta.fileName := counter];
      NoneChanged(files, published);
      NoneChanged(pendingFiles, uploads);
    }

    /** Picks nodes for further copies of a chunk; none of them holds it already. */
    method HandleReplicaNodes(name: bytes, id: nat, count: nat, chunkSize: nat) returns (ok: bool, targets: seq<bytes>)
      ensures var chunks := if name in files then files[name].chunks
                            else if name in pendingFiles then pendingFiles[name].chunks else [];
              var i := FindChunk(chunks, id);
              && Chosen(nodes, count, chunkSize, if i < |chunks| then chunks[i].nodes else [], targets)
              && (i < |chunks| ==> forall addr :: addr in targets ==> addr !in chunks[i].nodes)
      ensures ok == (targets != [])
    {
      hide FindChunk, Chosen, Eligible;
      var excluded: seq<bytes> := [];
      if name in files {
        excluded := NodesOfChunk(files[name], id);
      } else if name in pendingFiles {
        excluded := NodesOfChunk(pendingFiles[name], id);
      } else {
        NoChunks(id);
      }
      targets := SelectNodes(nodes, count, chunkSize, excluded);
      forall addr | addr in targets
        ensures addr !in excluded
      {
        ChosenAddress(nodes, count, chunkSize, excluded, targets, addr);
      }
      ok := |targets| > 0;
    }

    // ---------- Maintenance ----------

    /** Addresses of the registered nodes. */
    method ActiveAddresses() returns (active: set<bytes>)
      ensures active == set id | id in nodes :: nodes[id].address
    {
      active := {};
      var todo := nodes.Keys;
      while todo != {}
        invariant todo <= nodes.Keys
        invariant active == set id | id in nodes.Keys - todo :: nodes[id].address
        decreases todo
      {
        var id :| id in todo;
        todo := todo - {id};
        active := active + {nodes[id].address};
      }
    }

    /** One published file: takes dead nodes off its chunks and logs it when that changed something. */
    method EvictOne(name: bytes, active: set<bytes>)
      requires Valid() && name in files
      modifies Repr()
      ensures Valid() && files == old(files) && pendingFiles == old(pendingFiles)
      ensures Takes(codec, old(View()), EvictFile(name, active), View())
    {
      hide Values, Logs, KeysMatch, Unshared, Takes, EffectOf, EvictChunks;
      ghost var s := View();
      var modified := EvictPublished(name, active);
      EvictKeepsKeys(s.files, name, active);
      if modified {
        LogPut(name);
      }
      EvictTakes(codec, s, name, active, View());
      KeepsKeys(codec, s, EvictFile(name, active), View());
    }

    /** The part of a scan that concerns one file. */
    method ScanOne(name: bytes, active: set<bytes>, tasks: seq<ReplicaTask>,
                   ghost start: State, ghost order: seq<bytes>, ghost states: seq<State>)
      returns (moreTasks: seq<ReplicaTask>)
      requires Valid() && name in files && name !in order
      requires EvictionScan(codec, start, order, active, states, View()) && tasks == TasksFor(Values(files), order)
      modifies Repr()
      ensures Valid() && files == old(files) && pendingFiles == old(pendingFiles)
      ensures EvictionScan(codec, start, order + [name], active, states + [View()], View())
      ensures moreTasks == TasksFor(Values(files), order + [name])
    {
      hide Valid, Values, KeysMatch, Unshared, Takes, EffectOf, EvictionScan, TasksFor, TasksOf, EvictChunks;
      ghost var before := View();
      EvictOne(name, active);
      OneMoreScanned(codec, start, order, active, states, before, name, View());
      EvictsOne(codec, before, name, active, View());
      var fileTasks := FileTasks(name, files[name].chunks);
      TasksElsewhere(before.files, Values(files), order);
      TasksForAppend(Values(files), order, name);
      moreTasks := tasks + fileTasks;
    }

    /**
     * A scan for dead nodes: each published file takes its eviction step, in whatever order the map gives,
     * and chunks with too few copies left are given a task. Nothing happens while no node is registered.
     */
    method ProcessReplication()
      returns (tasks: seq<ReplicaTask>, ghost order: seq<bytes>, ghost active: set<bytes>, ghost states: seq<State>)
      requires Valid()
      modifies Repr()
      ensures Valid()
      ensures active == set id | id in old(nodes) :: old(nodes)[id].address
      ensures active == {} ==> order == []
      ensures active != {} ==> Enumerates(order, old(files).Keys)
      ensures EvictionScan(codec, old(View()), order, active, states, View())
      ensures tasks == TasksFor(Values(files), order)
      ensures forall task :: task in tasks <==> Due(Values(files), order, task)
    {
      hide Valid, Values, KeysMatch, Unshared, Takes, EffectOf, Due;
      hide Enumerates, EvictionScan, TasksFor, TasksOf, EvictChunks;
      var activeAddresses := ActiveAddresses();
      tasks, order, active, states := [], [], activeAddresses, [View()];
      NoTasks(Values(files));
      NothingScannedYet(codec, View(), active);
      if activeAddresses == {} {
        TasksAreDue(Values(files), order);
        return;
      }
      var todo := files.Keys;
      NoneEnumerated(todo);
      while todo != {}
        invariant Valid() && files == old(files) && pendingFiles == old(pendingFiles)
        invariant todo <= files.Keys && Enumerates(order, files.Keys - todo)
        invariant EvictionScan(codec, old(View()), order, active, states, View())
        invariant tasks == TasksFor(Values(files), order)
        decreases todo
      {
        var name :| name in todo;
        OneMoreName(order, files.Keys, todo, name);
        NotYetNamed(order, files.Keys, todo, name);
        todo := todo - {name};
        tasks := ScanOne(name, activeAddresses, tasks, old(View()), order, states);
        order, states := order + [name], states + [View()];
      }
      assert files.Keys - todo == files.Keys;
      EnumeratedNames(order, files.Keys);
      TasksAreDue(Values(files), order);
    }

    // ---------- Recovery ----------

    /** A controller started on what a crash left on the disk; the temporary file is not looked at. */
    constructor (codec: Codec, ghost crashed: State, wal: bytes, tmp: Option<bytes>)
      requires crashed.disk.wal == wal
      ensures Valid() && fresh(Repr())
      ensures Takes(codec, crashed, Restart, View())
    {
      hide RecordsOf, Replay;
      this.codec := codec;
      this.wal, this.tmp, walCount := wal, tmp, 0;
      nodes, files, pendingFiles, pendingChunks, diskFails := map[], map[], map[], map[], *;
      new;
      RecoverWal();
      ReplayKeysMatch(RecordsOf(codec, wal));
    }

    /** Reads the log line by line and redoes each record; lines that are no record are passed over. */
    method RecoverWal()
      requires files == map[] && pendingFiles == map[] && walCount == 0
      modifies this`files, this`walCount
      ensures Unshared(files, pendingFiles) && fresh(files.Values)
      ensures Values(files) == Replay(RecordsOf(codec, wal)) && walCount == |RecordsOf(codec, wal)|
    {
      hide *;
      NoneShared();
      NoValues();
      ToRedoAll(codec, wal);
      var unread, more := wal, true;
      ghost var redone: seq<WalRecord> := [];
      NothingReplayed();
      while more
        invariant Unshared(files, pendingFiles) && fresh(files.Values)
        invariant Values(files) == Replay(redone) && walCount == |redone|
        invariant if more then ToRedo(codec, wal, redone, unread) else RecordsOf(codec, wal) == redone
        decreases |unread|, more
      {
        RedoNext(codec, wal, redone, unread);
        match NextLine(unread, WAL_MAX_LINE)
        case Done =>
          more := false;
        case Token(line, rest) =>
          unread := rest;
          match codec.dec(line)
          case None =>
          case Some(record) =>
            Redo(record);
            ReplayAppend(redone, record);
            redone := redone + [record];
      }
    }

    /** Counts a record and applies it. */
    method Redo(record: WalRecord)
      requires Unshared(files, pendingFiles) && pendingFiles == map[]
      modifies this`files, this`walCount
      ensures Unshared(files, pendingFiles) && fresh(files.Values - old(files.Values))
      ensures walCount == old(walCount) + 1 && Values(files) == Apply(old(Values(files)), record)
    {
      hide *;
      ghost var before := Values(files);
      walCount := walCount + 1;
      NoneChanged(files, before);
      ApplyRecord(before, record);
      match record.op
      case PUT =>
        if record.fileMeta.Some? {
          var fileMeta := new FileMetadata(record.fileMeta.value);
          NoneChanged(files, before);
          NewFile(fileMeta, record.fileMeta.value);
          UnsharedAdded(files, pendingFiles, fileMeta.fileName, fileMeta);
          ValuesPut(files, fileMeta.fileName, fileMeta);
          files := files[fileMeta.fileName := fileMeta];
        }
      case DELETE =>
        UnsharedDropped(files, pendingFiles, {record.fileName});
        ValuesDropped(files, {record.fileName});
        files := files - {record.fileName};
      case Unknown =>
    }
  }

  lemma OneChanged(table: Table, name: bytes, before: FileMap, meta: Meta)
    requires name in table && table.Keys == before.Keys && table[name].Value() == meta
    requires forall other :: other in table && other != name ==> table[other].Value() == before[other]
    ensures Values(table) == before[name := meta]
  {
  }

  lemma NoneChanged(table: Table, before: FileMap)
    requires table.Keys == before.Keys && forall name :: name in table ==> table[name].Value() == before[name]
    ensures Values(table) == before
  {
  }

  lemma SolePublished(files: Table, pending: Table, name: bytes)
    requires Unshared(files, pending) && name in files
    ensures forall other :: other in files && other != name ==> files[other] != files[name]
    ensures forall other :: other in pending ==> pending[other] != files[name]
  {
  }

  lemma SolePending(files: Table, pending: Table, name: bytes)
    requires Unshared(files, pending) && name in pending
    ensures forall other :: other in pending && other != name ==> pending[other] != pending[name]
    ensures forall other :: other in files ==> files[other] != pending[name]
  {
  }

  lemma NoneShared()
    ensures Unshared(map[], map[])
  {
  }

  lemma UnsharedMoved(files: Table, pending: Table, name: bytes)
    requires Unshared(files, pending) && name in pending
    ensures Unshared(files[name := pending[name]], pending - {name})
  {
  }

  /** A new object joins the uploads, or the published files while there are no uploads. */
  lemma UnsharedAdded(files: Table, pending: Table, name: bytes, file: FileMetadata)
    requires Unshared(files, pending) && file !in files.Values && file !in pending.Values
    ensures Unshared(files, pending[name := file])
    ensures pending == map[] ==> Unshared(files[name := file], pending)
  {
  }

  lemma UnsharedDropped(files: Table, pending: Table, names: set<bytes>)
    requires Unshared(files, pending)
    ensures Unshared(files - names, pending) && Unshared(files, pending - names)
  {
  }

  lemma ValuesPut(table: Table, name: bytes, file: FileMetadata)
    ensures Values(table[name := file]) == Values(table)[name := file.Value()]
  {
  }

  lemma ValuesDropped(table: Table, names: set<bytes>)
    ensures Values(table - names) == Values(table) - names
  {
  }

  lemma NoValues()
    ensures Values(map[]) == map[]
  {
  }

  lemma NoRecordsNoText(codec: Codec)
    ensures LogText(codec, []) == []
  {
  }

  lemma LogTextAppend(codec: Codec, records: seq<WalRecord>, record: WalRecord)
    ensures LogText(codec, records + [record]) == LogText(codec, records) + LogLine(codec, record)
  {
    assert (records + [record])[..|records|] == records;
  }

  lemma BeforeRename(wal: bytes, snapshot: bytes, tmp: Option<bytes>)
    ensures CompactionPoint(wal, snapshot, WalDisk(wal, tmp))
  {
  }

  lemma SameSize<A, B>(keys: set<bytes>, a: map<bytes, A>, b: map<bytes, B>)
    requires a.Keys == keys && b.Keys == keys
    ensures |a| == |b|
  {
    assert |a| == |a.Keys| && |b| == |b.Keys|;
  }

  // ---------- Events from their parts ----------

  /** Whatever event is taken, every file stays under its own name. */
  lemma KeepsKeys(codec: Codec, s: State, e: Event, t: State)
    requires !e.Restart? && KeysMatch(s.files) && KeysMatch(s.pending) && Takes(codec, s, e, t)
    ensures KeysMatch(t.files) && KeysMatch(t.pending)
  {
    hide EffectOf, Logs;
    EffectKeepsKeys(s, e);
  }

  lemma FailKeepsKeys(files: FileMap, name: bytes, id: nat, addr: bytes)
    requires KeysMatch(files) && name in files
    ensures KeysMatch(files[name := files[name].(chunks := FailChunk(files[name].chunks, id, addr))])
  {
    hide FailChunk;
  }

  lemma FailPublishedTakes(codec: Codec, s: State, name: bytes, id: nat, addr: bytes, t: State)
    requires t.pending == s.pending && t.counters == s.counters
    requires name in s.files
    requires var chunks := s.files[name].chunks;
             var meta := s.files[name].(chunks := FailChunk(chunks, id, addr));
             && t.files == s.files[name := meta]
             && if FindChunk(chunks, id) < |chunks|
                then Logs(codec, s.disk.wal, s.walCount, t.files, WalRecord(PUT, name, Some(meta)), t.disk, t.walCount)
                else t.disk == s.disk && t.walCount == s.walCount
    ensures Takes(codec, s, FailFiles(name, id, addr), t)
  {
    hide Logs, FindChunk, FailChunk;
    FailsNothing(s.files[name].chunks, id, addr);
    assert s.files[name := s.files[name]] == s.files;
  }

  lemma FailUploadTakes(codec: Codec, s: State, name: bytes, id: nat, addr: bytes, t: State)
    requires t.files == s.files && t.counters == s.counters && t.disk == s.disk && t.walCount == s.walCount
    requires t.pending == if name in s.pending
                          then s.pending[name := s.pending[name]
                                                 .(chunks := FailChunk(s.pending[name].chunks, id, addr))]
                          else s.pending
    ensures Takes(codec, s, FailPending(name, id, addr), t)
  {
    hide FailChunk;
  }

  /** Reports change nothing for a file that is not published. */
  lemma NothingPublished(codec: Codec, s: State, name: bytes, id: nat, addr: bytes)
    requires name !in s.files
    ensures Takes(codec, s, FailFiles(name, id, addr), s) && Takes(codec, s, StoreFiles(name, id, addr), s)
  {
    hide Logs, FindChunk, FailChunk, StoreChunk;
  }

  lemma StoreKeepsKeys(files: FileMap, name: bytes, id: nat, addr: bytes)
    requires KeysMatch(files) && name in files
    ensures KeysMatch(files[name := files[name].(chunks := StoreChunk(files[name].chunks, id, addr))])
  {
    hide StoreChunk;
  }

  lemma PublishKeepsKeys(files: FileMap, name: bytes, meta: Meta)
    requires KeysMatch(files) && meta.fileName == name
    ensures KeysMatch(files[name := meta])
  {
  }

  lemma StorePublishedTakes(codec: Codec, s: State, name: bytes, id: nat, addr: bytes, t: State)
    requires t.pending == s.pending && t.counters == s.counters
    requires name in s.files
    requires var chunks := s.files[name].chunks;
             var meta := s.files[name].(chunks := StoreChunk(chunks, id, addr));
             && t.files == s.files[name := meta]
             && if StoreChunk(chunks, id, addr) != chunks
                then Logs(codec, s.disk.wal, s.walCount, t.files, WalRecord(PUT, name, Some(meta)), t.disk, t.walCount)
                else t.disk == s.disk && t.walCount == s.walCount
    ensures Takes(codec, s, StoreFiles(name, id, addr), t)
  {
    hide Logs, StoreChunk;
    assert s.files[name := s.files[name]] == s.files;
  }

  lemma StoreUploadTakes(codec: Codec, s: State, name: bytes, id: nat, addr: bytes, t: State)
    requires name in s.pending
    requires var left := Dec64(if name in s.counters then s.counters[name] else 0);
             var meta := s.pending[name].(chunks := StoreChunk(s.pending[name].chunks, id, addr));
             if FirstCopy(s.pending[name].chunks, id) && left == 0 then
               && t.files == s.files[name := meta] && t.pending == s.pending[name := meta] - {name}
               && t.counters == s.counters[name := left] - {name}
               && Logs(codec, s.disk.wal, s.walCount, t.files, WalRecord(PUT, name, Some(meta)), t.disk, t.walCount)
             else
               && t.files == s.files && t.pending == s.pending[name := meta]
               && t.counters == (if FirstCopy(s.pending[name].chunks, id) then s.counters[name := left] else s.counters)
               && t.disk == s.disk && t.walCount == s.walCount
    ensures Takes(codec, s, StorePending(name, id, addr), t)
  {
    hide Logs, StoreChunk, FirstCopy, Dec64;
    var left := Dec64(if name in s.counters then s.counters[name] else 0);
    assert s.counters[name := left] - {name} == s.counters - {name};
    var meta := s.pending[name].(chunks := StoreChunk(s.pending[name].chunks, id, addr));
    assert s.pending[name := meta] - {name} == s.pending - {name};
  }

  // ---------- Nodes that hold a file ----------

  method CollectNodes(chunks: seq<ChunkInfo>) returns (targets: seq<bytes>)
    ensures forall i, j :: 0 <= i < j < |targets| ==> targets[i] != targets[j]
    ensures forall a :: a in targets <==> exists i :: 0 <= i < |chunks| && a in chunks[i].nodes
  {
    targets := [];
    for i := 0 to |chunks|
      invariant Metadata.Distinct(targets)
      invariant forall a :: a in targets <==> exists j :: 0 <= j < i && a in chunks[j].nodes
    {
      var nodes := chunks[i].nodes;
      ghost var before := targets;
      for k := 0 to |nodes|
        invariant Metadata.Distinct(targets)
        invariant forall a :: a in targets <==> a in before || a in nodes[..k]
      {
        if nodes[k] !in targets {
          targets := targets + [nodes[k]];
        }
      }
    }
  }

  lemma DropKeepsKeys(files: FileMap, name: bytes)
    requires KeysMatch(files)
    ensures KeysMatch(files - {name})
  {
  }

  lemma DeleteTakes(codec: Codec, s: State, name: bytes, t: State)
    requires t.pending == s.pending && t.counters == s.counters
    requires name in s.files && t.files == s.files - {name}
    requires Logs(codec, s.disk.wal, s.walCount, t.files, DeleteRecord(name), t.disk, t.walCount)
    ensures Takes(codec, s, Delete(name), t)
  {
    hide Logs;
  }

  lemma NothingDeleted(codec: Codec, s: State, name: bytes)
    requires name !in s.files
    ensures Takes(codec, s, Delete(name), s)
  {
    hide Logs;
  }

  lemma RenewTakes(codec: Codec, s: State, name: bytes, leaseExpiry: int, t: State)
    requires t.files == s.files && t.counters == s.counters && t.disk == s.disk && t.walCount == s.walCount
    requires t.pending == if name in s.pending
                          then s.pending[name := s.pending[name].(leaseExpiry := leaseExpiry)] else s.pending
    ensures Takes(codec, s, Renew(name, leaseExpiry), t)
  {
  }

  lemma ExpiredMeans(pending: FileMap, now: int)
    ensures forall name :: name in Expired(pending, now) <==> name in pending && now > pending[name].leaseExpiry
  {
  }

  lemma ExpireTakes(codec: Codec, s: State, now: int, t: State)
    requires t == s.(pending := s.pending - Expired(s.pending, now), counters := s.counters - Expired(s.pending, now))
    ensures Takes(codec, s, Expire(now), t)
  {
  }

  // ---------- Allocation ----------

  /** How many chunks a PUT asks for: as many as it says, or enough of this size. */
  function ChunksAsked(size: nat, chunkSize: nat, numChunks: nat): nat
    requires chunkSize > 0
  {
    if numChunks == 0 then ((size + chunkSize - 1) % UINT64) / chunkSize else numChunks
  }

  lemma AskedMeans(size: nat, chunkSize: nat, numChunks: nat)
    requires chunkSize > 0
    ensures numChunks > 0 ==> ChunksAsked(size, chunkSize, numChunks) == numChunks
    ensures numChunks == 0 ==>
              var asked := ChunksAsked(size, chunkSize, numChunks);
              && asked * chunkSize <= (size + chunkSize - 1) % UINT64 < asked * chunkSize + chunkSize
              && (asked == 0 <==> (size + chunkSize - 1) % UINT64 < chunkSize)
  {
  }

  lemma RoomAnywhere(nodes: Nodes, chunkSize: nat)
    ensures Eligible(nodes, chunkSize, []) == set id | id in nodes && nodes[id].freeSpace >= chunkSize
  {
  }

  /** Each chunk goes to as many nodes as it needs copies, all different and with room for it. */
  ghost predicate Allocated(nodes: Nodes, chunkSize: nat, allocations: seq<seq<bytes>>)
  {
    forall i :: 0 <= i < |allocations| ==>
      |allocations[i]| == REPLICATION_FACTOR && Chosen(nodes, REPLICATION_FACTOR, chunkSize, [], allocations[i])
  }

  lemma PutTakes(codec: Codec, s: State, name: bytes, size: nat, numChunks: nat,
                 createdAt: int, leaseExpiry: int, t: State)
    requires t.files == s.files && t.disk == s.disk && t.walCount == s.walCount
    requires t.pending == s.pending[name := Meta(name, size, EmptyChunks(numChunks), createdAt, leaseExpiry)]
    requires t.counters == s.counters[name := numChunks]
    ensures Takes(codec, s, PutCommit(name, size, numChunks, createdAt, leaseExpiry), t)
  {
    hide EmptyChunks;
  }

  method NodesOfChunk(fileMeta: FileMetadata, id: nat) returns (nodes: seq<bytes>)
    ensures var i := FindChunk(fileMeta.chunks, id);
            nodes == if i < |fileMeta.chunks| then fileMeta.chunks[i].nodes else []
  {
    hide FindChunk;
    var i := fileMeta.Find(id);
    nodes := if i < |fileMeta.chunks| then fileMeta.chunks[i].nodes else [];
  }

  lemma NoChunks(id: nat)
    ensures FindChunk([], id) == 0
  {
  }

  lemma EvictKeepsKeys(files: FileMap, name: bytes, active: set<bytes>)
    requires KeysMatch(files) && name in files
    ensures KeysMatch(files[name := files[name].(chunks := EvictChunks(files[name].chunks, active))])
  {
    hide EvictChunks;
  }

  lemma EvictTakes(codec: Codec, s: State, name: bytes, active: set<bytes>, t: State)
    requires t.pending == s.pending && t.counters == s.counters && name in s.files
    requires var chunks := s.files[name].chunks;
             var meta := s.files[name].(chunks := EvictChunks(chunks, active));
             && t.files == s.files[name := meta]
             && if EvictChunks(chunks, active) != chunks
                then Logs(codec, s.disk.wal, s.walCount, t.files, WalRecord(PUT, name, Some(meta)), t.disk, t.walCount)
                else t.disk == s.disk && t.walCount == s.walCount
    ensures Takes(codec, s, EvictFile(name, active), t)
  {
    hide Logs, EvictChunks;
    assert s.files[name := s.files[name]] == s.files;
  }

  // ---------- Scans ----------

  /** A chain of eviction steps, one for each name. */
  ghost predicate EvictionScan(codec: Codec, s: State, order: seq<bytes>, active: set<bytes>,
                               states: seq<State>, t: State)
  {
    && |states| == |order| + 1 && states[0] == s && states[|order|] == t
    && forall i :: 0 <= i < |order| ==> Takes(codec, states[i], EvictFile(order[i], active), states[i + 1])
  }

  lemma OneMoreScannedSplit(codec: Codec, s: State, order: seq<bytes>, active: set<bytes>, states: seq<State>, t: State)
    requires EvictionScan(codec, s, order, active, states, t) && order != []
    ensures EvictionScan(codec, s, order[..|order| - 1], active, states[..|order|], states[|order| - 1])
    ensures Takes(codec, states[|order| - 1], EvictFile(order[|order| - 1], active), t)
  {
    hide Takes;
    var n := |order| - 1;
    forall i | 0 <= i < n
      ensures Takes(codec, states[..n + 1][i], EvictFile(order[..n][i], active), states[..n + 1][i + 1])
    {
      assert Takes(codec, states[i], EvictFile(order[i], active), states[i + 1]);
    }
    assert Takes(codec, states[n], EvictFile(order[n], active), states[n + 1]);
  }

  /** A file as a scan leaves it. */
  function AfterScan(files: FileMap, order: seq<bytes>, active: set<bytes>, name: bytes): Meta
    requires name in files
  {
    if name in order then files[name].(chunks := EvictChunks(files[name].chunks, active)) else files[name]
  }

  /** A scan as a whole: exactly the dead addresses are gone from every file gone through, and nothing else changed. */
  lemma {:induction false} ScanEvictsDead(codec: Codec, s: State, order: seq<bytes>, active: set<bytes>,
                                          states: seq<State>, t: State)
    requires EvictionScan(codec, s, order, active, states, t)
    requires forall i, j :: 0 <= i < j < |order| ==> order[i] != order[j]
    ensures t.files.Keys == s.files.Keys && t.pending == s.pending && t.counters == s.counters
    ensures forall name :: name in s.files ==> t.files[name] == AfterScan(s.files, order, active, name)
  {
    hide EvictChunks, Takes;
    if order == [] {
      assert EvictionScan(codec, s, order, active, states, t);
    } else {
      var n := |order| - 1;
      OneMoreScannedSplit(codec, s, order, active, states, t);
      ScanEvictsDead(codec, s, order[..n], active, states[..|order|], states[n]);
      EvictsOne(codec, states[n], order[n], active, t);
      assert order == order[..n] + [order[n]];
    }
  }

  /** The step of one file changes no other. */
  lemma EvictsOne(codec: Codec, s: State, name: bytes, active: set<bytes>, t: State)
    requires Takes(codec, s, EvictFile(name, active), t)
    ensures t.pending == s.pending && t.counters == s.counters && t.files.Keys == s.files.Keys
    ensures forall other :: other in s.files && other != name ==> t.files[other] == s.files[other]
    ensures name in s.files ==> t.files[name] == s.files[name].(chunks := EvictChunks(s.files[name].chunks, active))
  {
    hide EvictChunks, Logs;
  }

  lemma NothingScannedYet(codec: Codec, s: State, active: set<bytes>)
    ensures EvictionScan(codec, s, [], active, [s], s)
  {
  }

  lemma OneMoreScanned(codec: Codec, s: State, order: seq<bytes>, active: set<bytes>, states: seq<State>, t: State,
                       name: bytes, u: State)
    requires EvictionScan(codec, s, order, active, states, t) && Takes(codec, t, EvictFile(name, active), u)
    ensures EvictionScan(codec, s, order + [name], active, states + [u], u)
  {
    hide Takes;
  }

  lemma NoTasks(files: FileMap)
    ensures TasksFor(files, []) == []
  {
  }

  lemma NoneEnumerated(keys: set<bytes>)
    ensures Enumerates([], keys - keys)
  {
  }

  lemma OneMoreName(order: seq<bytes>, keys: set<bytes>, todo: set<bytes>, name: bytes)
    requires Enumerates(order, keys - todo) && name in todo && todo <= keys
    ensures Enumerates(order + [name], keys - (todo - {name}))
  {
  }

  lemma NotYetNamed(order: seq<bytes>, keys: set<bytes>, todo: set<bytes>, name: bytes)
    requires Enumerates(order, keys - todo) && name in todo
    ensures name !in order
  {
  }

  // ---------- Recovery ----------

  /** What a record does to the files. */
  lemma ApplyRecord(files: FileMap, record: WalRecord)
    ensures Apply(files, record) ==
              if record.op == PUT && record.fileMeta.Some?
              then files[record.fileMeta.value.fileName := record.fileMeta.value]
              else if record.op == DELETE then files - {record.fileName}
              else files
  {
  }

  lemma NewFile(file: FileMetadata, meta: Meta)
    requires file.Value() == meta
    ensures file.fileName == meta.fileName
  {
  }

  lemma NothingReplayed()
    ensures Replay([]) == map[]
  {
  }

  /** The records of what is still unread begin with the next line, if that is one. */
  lemma NextRecord(codec: Codec, unread: bytes)
    ensures RecordsOf(codec, unread) ==
            match NextLine(unread, WAL_MAX_LINE)
            case Done => []
            case Token(line, rest) =>
              (match codec.dec(line) case None => [] case Some(record) => [record]) + RecordsOf(codec, rest)
  {
    hide NextLine, DecodeLines;
    match NextLine(unread, WAL_MAX_LINE)
    case Done =>
      OneOrNone(codec);
    case Token(line, rest) =>
      DecodeLinesConcat(codec, [line], Scanned(rest, WAL_MAX_LINE));
      OneDecoded(codec, line);
  }

  /** What has been redone and what is still unread make up the log. */
  ghost predicate ToRedo(codec: Codec, wal: bytes, redone: seq<WalRecord>, unread: bytes)
  {
    RecordsOf(codec, wal) == redone + RecordsOf(codec, unread)
  }

  lemma ToRedoAll(codec: Codec, wal: bytes)
    ensures ToRedo(codec, wal, [], wal)
  {
  }

  lemma RedoNext(codec: Codec, wal: bytes, redone: seq<WalRecord>, unread: bytes)
    requires ToRedo(codec, wal, redone, unread)
    ensures match NextLine(unread, WAL_MAX_LINE)
            case Done => RecordsOf(codec, wal) == redone
            case Token(line, rest) =>
              match codec.dec(line)
              case None => ToRedo(codec, wal, redone, rest)
              case Some(record) => ToRedo(codec, wal, redone + [record], rest)
  {
    hide RecordsOf, NextLine;
    NextRecord(codec, unread);
  }

  lemma OneOrNone(codec: Codec)
    ensures DecodeLines(codec, []) == []
  {
  }
}
