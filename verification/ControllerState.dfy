/**
 * The controller as a state machine. Each event is one critical section of the program: a failure report
 * is two of them, a scan for dead nodes one for each file, and a PUT only its second, which inserts.
 */
module ControllerState {
  import opened Bytes
  import opened Metadata
  import opened WalLog

  type Counters = map<bytes, nat>

  datatype State = State(files: FileMap, pending: FileMap, counters: Counters, disk: WalDisk, walCount: nat)

  datatype Event =
    | PutCommit(name: bytes, size: nat, numChunks: nat, createdAt: int, leaseExpiry: int)
    | Renew(name: bytes, leaseExpiry: int)
    | Expire(now: int)
    | FailFiles(name: bytes, id: nat, addr: bytes)
    | FailPending(name: bytes, id: nat, addr: bytes)
    | StorePending(name: bytes, id: nat, addr: bytes)
    | StoreFiles(name: bytes, id: nat, addr: bytes)
    | EvictFile(name: bytes, active: set<bytes>)
    | Delete(name: bytes)
    | Restart  // a crash between two records, at rest or within a compaction, and the recovery after it

  const UINT64: nat := 0x1_0000_0000_0000_0000

  /** The unsigned decrement. */
  function Dec64(n: nat): nat
  {
    if n == 0 then UINT64 - 1 else n - 1
  }

  // ---------- The effect on the maps ----------

  function EmptyChunks(n: nat): (chunks: seq<ChunkInfo>)
    ensures |chunks| == n
    ensures forall i :: 0 <= i < n ==> chunks[i] == ChunkInfo(i, [], 0, [])
  {
    seq(n, i requires 0 <= i < n => ChunkInfo(i, [], 0, []))
  }

  /** The maps after an event, and the record it logs if it logs one. */
  datatype Effect = Effect(files: FileMap, pending: FileMap, counters: Counters, logged: Option<WalRecord>)

  /** The uploads whose lease is over. */
  function Expired(pending: FileMap, now: int): set<bytes>
  {
    set name | name in pending && now > pending[name].leaseExpiry
  }

  function Publish(s: State, name: bytes, meta: Meta): Effect
  {
    Effect(s.files[name := meta], s.pending - {name}, s.counters - {name}, Some(WalRecord(PUT, name, Some(meta))))
  }

  function EffectOf(s: State, e: Event): Effect
    requires !e.Restart?
  {
    var same := Effect(s.files, s.pending, s.counters, None);
    match e
    case PutCommit(name, size, numChunks, createdAt, leaseExpiry) =>
      same.(pending := s.pending[name := Meta(name, size, EmptyChunks(numChunks), createdAt, leaseExpiry)],
            counters := s.counters[name := numChunks])
    case Renew(name, leaseExpiry) =>
      if name in s.pending
      then same.(pending := s.pending[name := s.pending[name].(leaseExpiry := leaseExpiry)]) else same
    case Expire(now) =>
      same.(pending := s.pending - Expired(s.pending, now), counters := s.counters - Expired(s.pending, now))
    case FailFiles(name, id, addr) =>
      if name in s.files && FindChunk(s.files[name].chunks, id) < |s.files[name].chunks| then
        var meta := s.files[name].(chunks := FailChunk(s.files[name].chunks, id, addr));
        same.(files := s.files[name := meta], logged := Some(WalRecord(PUT, name, Some(meta))))
      else same
    case FailPending(name, id, addr) =>
      if name in s.pending then
        same.(pending := s.pending[name := s.pending[name].(chunks := FailChunk(s.pending[name].chunks, id, addr))])
      else same
    case StorePending(name, id, addr) =>
      if name !in s.pending then same
      else
        var chunks := s.pending[name].chunks;
        var meta := s.pending[name].(chunks := StoreChunk(chunks, id, addr));
        if !FirstCopy(chunks, id) then same.(pending := s.pending[name := meta])
        else
          var left := Dec64(if name in s.counters then s.counters[name] else 0);
          if left == 0 then Publish(s, name, meta)
          else same.(pending := s.pending[name := meta], counters := s.counters[name := left])
    case StoreFiles(name, id, addr) =>
      if name in s.files && StoreChunk(s.files[name].chunks, id, addr) != s.files[name].chunks then
        var meta := s.files[name].(chunks := StoreChunk(s.files[name].chunks, id, addr));
        same.(files := s.files[name := meta], logged := Some(WalRecord(PUT, name, Some(meta))))
      else same
    case EvictFile(name, active) =>
      if name in s.files && EvictChunks(s.files[name].chunks, active) != s.files[name].chunks then
        var meta := s.files[name].(chunks := EvictChunks(s.files[name].chunks, active));
        same.(files := s.files[name := meta], logged := Some(WalRecord(PUT, name, Some(meta))))
      else same
    case Delete(name) =>
      if name in s.files then same.(files := s.files - {name}, logged := Some(DeleteRecord(name))) else same
  }

  // ---------- The effect on the log ----------

  /** The log and its count after a record, with the compaction that may follow and may fail. */
  ghost predicate Logs(codec: Codec, wal: bytes, count: nat, files: FileMap, record: WalRecord,
                       disk: WalDisk, walCount: nat)
  {
    || (disk.wal == wal + LogLine(codec, record) && walCount == count + 1)
    || (count + 1 >= COMPACT_AT && Compacted(codec, files, disk, walCount))
  }

  ghost predicate Compacted(codec: Codec, files: FileMap, disk: WalDisk, walCount: nat)
  {
    && disk.tmp == None && walCount == |files|
    && exists order :: Enumerates(order, files.Keys) && disk.wal == LogText(codec, Snapshot(files, order))
  }

  /** Recovery can read a PUT of every file. */
  ghost predicate FilesFit(codec: Codec, files: FileMap)
  {
    forall name :: name in files ==> Fits(codec, PutRecord(files[name]))
  }

  /** What the program does at one event. */
  ghost predicate Takes(codec: Codec, s: State, e: Event, t: State)
  {
    if e.Restart? then
      && t.files == Replay(RecordsOf(codec, s.disk.wal))
      && t.pending == map[] && t.counters == map[]
      && t.disk.wal == s.disk.wal  // a temporary file may be left over
      && t.walCount == |RecordsOf(codec, s.disk.wal)|
    else
      var effect := EffectOf(s, e);
      && t.files == effect.files && t.pending == effect.pending && t.counters == effect.counters
      && match effect.logged
         case None => t.disk == s.disk && t.walCount == s.walCount
         case Some(record) => Logs(codec, s.disk.wal, s.walCount, t.files, record, t.disk, t.walCount)
  }

  /** One step of the controller, whose record recovery will be able to read. */
  ghost predicate Step(codec: Codec, s: State, e: Event, t: State)
  {
    && Takes(codec, s, e, t)
    && (!e.Restart? && EffectOf(s, e).logged.Some? ==> Fits(codec, EffectOf(s, e).logged.value))
  }

  ghost predicate Init(s: State)
  {
    s.files == map[] && s.pending == map[] && s.counters == map[] && s.disk.wal == [] && s.walCount == 0
  }

  /** A run from a fresh start. */
  ghost predicate Run(codec: Codec, states: seq<State>, events: seq<Event>)
  {
    && |states| == |events| + 1 && Init(states[0])
    && forall i :: 0 <= i < |events| ==> Step(codec, states[i], events[i], states[i + 1])
  }

  /** A run goes on with any event the controller takes whose record recovery will be able to read. */
  lemma RunGoesOn(codec: Codec, states: seq<State>, events: seq<Event>, e: Event, t: State)
    requires Run(codec, states, events) && Takes(codec, states[|events|], e, t)
    requires !e.Restart? && EffectOf(states[|events|], e).logged.Some? ==>
               Fits(codec, EffectOf(states[|events|], e).logged.value)
    ensures Run(codec, states + [t], events + [e])
  {
    hide Takes, EffectOf, Fits, Init;
  }

  // ---------- Invariants ----------

  /** Replaying the log rebuilds exactly the published files. */
  ghost predicate LogAgrees(codec: Codec, s: State)
  {
    && KeysMatch(s.files)
    && Intact(s.disk.wal)
    && Replay(RecordsOf(codec, s.disk.wal)) == s.files
    && s.walCount == |RecordsOf(codec, s.disk.wal)|
  }

  /** The upload counter of a pending file. */
  predicate CounterOk(chunks: seq<ChunkInfo>, counter: nat)
  {
    counter <= Copyless(chunks) && (counter == 0 ==> chunks == [])
  }

  ghost predicate PendingOk(pending: FileMap, counters: Counters)
  {
    && pending.Keys == counters.Keys
    && KeysMatch(pending)
    && (forall name :: name in pending ==> ChunksOk(pending[name].chunks))
    && (forall name :: name in pending ==> CounterOk(pending[name].chunks, counters[name]))
  }

  ghost predicate FilesOk(files: FileMap)
  {
    forall name :: name in files ==> files[name].chunks != [] && ChunksOk(files[name].chunks)
  }

  ghost predicate UploadsOk(s: State)
  {
    PendingOk(s.pending, s.counters) && FilesOk(s.files)
  }

  lemma {:induction false} LogStep(codec: Codec, s: State, e: Event, t: State)
    requires RoundTrips(codec) && Step(codec, s, e, t)
    requires LogAgrees(codec, s) && UploadsOk(s) && FilesFit(codec, s.files)
    ensures LogAgrees(codec, t) && FilesFit(codec, t.files)
  {
    hide RecordsOf, Replay, LogLine, LogText, Fits, Intact, UploadsOk, EffectOf, Apply, FilesFit, Logs;
    if !e.Restart? {
      EffectApplies(s, e);
      var effect := EffectOf(s, e);
      if effect.logged.Some? {
        ApplyFits(codec, s.files, effect.logged.value);
        LoggedAgrees(codec, s, t, effect.logged.value);
      }
    }
  }

  /** What is logged is a deletion, or the whole metadata of a file under its own name. */
  predicate FormOk(record: WalRecord)
  {
    record.op == DELETE || (record.fileMeta.Some? && record == PutRecord(record.fileMeta.value))
  }

  lemma ApplyFits(codec: Codec, files: FileMap, record: WalRecord)
    requires FilesFit(codec, files) && FormOk(record) && Fits(codec, record)
    ensures FilesFit(codec, Apply(files, record))
  {
    hide Fits;
  }

  /** Every file stays under its own name. */
  lemma EffectKeepsKeys(s: State, e: Event)
    requires !e.Restart? && KeysMatch(s.files) && KeysMatch(s.pending)
    ensures KeysMatch(EffectOf(s, e).files) && KeysMatch(EffectOf(s, e).pending)
  {
    hide FindChunk, FailChunk, StoreChunk, EvictChunks, FirstCopy, Dec64, EmptyChunks, Expired;
  }

  /** The record logged says what happened to the files. */
  lemma EffectApplies(s: State, e: Event)
    requires !e.Restart? && KeysMatch(s.files) && UploadsOk(s)
    ensures KeysMatch(EffectOf(s, e).files)
    ensures match EffectOf(s, e).logged
            case None => EffectOf(s, e).files == s.files
            case Some(record) => EffectOf(s, e).files == Apply(s.files, record) && FormOk(record)
  {
    hide EffectOf, Apply, FormOk, KeysMatch;
    PendingNamed(s);
    EffectKeepsKeys(s, e);
    EffectIsLogged(s, e);
  }

  lemma PendingNamed(s: State)
    requires UploadsOk(s)
    ensures KeysMatch(s.pending)
  {
  }

  lemma EffectIsLogged(s: State, e: Event)
    requires !e.Restart? && KeysMatch(s.files) && KeysMatch(s.pending)
    ensures match EffectOf(s, e).logged
            case None => EffectOf(s, e).files == s.files
            case Some(record) => EffectOf(s, e).files == Apply(s.files, record) && FormOk(record)
  {
    hide FindChunk, FailChunk, StoreChunk, EvictChunks, FirstCopy, Dec64, EmptyChunks, Expired;
  }

  lemma LoggedAgrees(codec: Codec, s: State, t: State, record: WalRecord)
    requires RoundTrips(codec) && LogAgrees(codec, s)
    requires KeysMatch(t.files) && t.files == Apply(s.files, record)
    requires Fits(codec, record) && FilesFit(codec, t.files)
             && Logs(codec, s.disk.wal, s.walCount, t.files, record, t.disk, t.walCount)
    ensures LogAgrees(codec, t)
  {
    hide RecordsOf, Replay, LogText, Intact, Fits, Apply;
    if t.disk.wal == s.disk.wal + LogLine(codec, record) && t.walCount == s.walCount + 1 {
      AppendRecord(codec, s.disk.wal, record);
      ReplayAppend(RecordsOf(codec, s.disk.wal), record);
    } else {
      var order :| Enumerates(order, t.files.Keys) && t.disk.wal == LogText(codec, Snapshot(t.files, order));
      SnapshotFits(codec, t.files, order);
      RecordsOfLogText(codec, Snapshot(t.files, order));
      SnapshotRebuilds(t.files, order);
      EnumeratesCount(order, t.files.Keys);
      assert |t.files.Keys| == |t.files|;
    }
  }

  /** An append keeps the log and the files in agreement exactly when recovery can read the record. */
  lemma AppendAgreesExactly(codec: Codec, s: State, t: State, record: WalRecord)
    requires RoundTrips(codec) && LogAgrees(codec, s)
    requires KeysMatch(t.files) && t.files == Apply(s.files, record)
    requires t.disk.wal == s.disk.wal + LogLine(codec, record) && t.walCount == s.walCount + 1
    ensures LogAgrees(codec, t) <==> Fits(codec, record)
    ensures !Fits(codec, record) ==> Replay(RecordsOf(codec, t.disk.wal)) == s.files
  {
    hide RecordsOf, Replay, LogLine, Intact, Fits, Apply;
    if Fits(codec, record) {
      AppendRecord(codec, s.disk.wal, record);
      ReplayAppend(RecordsOf(codec, s.disk.wal), record);
    } else {
      LongRecordEndsRecovery(codec, s.disk.wal, record, []);
      assert s.disk.wal + LogLine(codec, record) + [] == t.disk.wal;
    }
  }

  lemma SnapshotFits(codec: Codec, files: FileMap, order: seq<bytes>)
    requires Enumerates(order, files.Keys)
    requires FilesFit(codec, files)
    ensures forall r :: r in Snapshot(files, order) ==> Fits(codec, r)
  {
  }

  /** The counter after one more first copy, or after a failure. */
  lemma CounterAfterReport(chunks: seq<ChunkInfo>, id: nat, addr: bytes, counter: nat)
    requires ChunksOk(chunks) && CounterOk(chunks, counter)
    ensures CounterOk(FailChunk(chunks, id, addr), counter)
    ensures !FirstCopy(chunks, id) ==> CounterOk(StoreChunk(chunks, id, addr), counter)
    ensures FirstCopy(chunks, id) ==>
              && 0 < counter && Dec64(counter) == counter - 1
              && StoreChunk(chunks, id, addr) != []
              && Copyless(StoreChunk(chunks, id, addr)) + 1 == Copyless(chunks)
              && (counter > 1 ==> CounterOk(StoreChunk(chunks, id, addr), counter - 1))
  {
    hide Copyless, Without;
    FindById(chunks, id);
    if id < |chunks| {
      CopylessUpdate(chunks, id, Without(chunks[id].nodes, addr));
      CopylessUpdate(chunks, id, chunks[id].nodes + [addr]);
      if chunks[id].nodes == [] {
        assert Without(chunks[id].nodes, addr) == [] by { NothingWithout(addr); }
      }
    }
  }

  lemma FailsNothing(chunks: seq<ChunkInfo>, id: nat, addr: bytes)
    ensures FindChunk(chunks, id) == |chunks| ==> FailChunk(chunks, id, addr) == chunks
  {
  }

  lemma NothingWithout(addr: bytes)
    ensures Without([], addr) == []
  {
  }

  lemma FreshUpload(n: nat)
    ensures ChunksOk(EmptyChunks(n)) && Copyless(EmptyChunks(n)) == n && CounterOk(EmptyChunks(n), n)
  {
    CopylessAll(EmptyChunks(n));
  }

  lemma PendingPut(pending: FileMap, counters: Counters, meta: Meta, counter: nat)
    requires PendingOk(pending, counters) && ChunksOk(meta.chunks) && CounterOk(meta.chunks, counter)
    ensures PendingOk(pending[meta.fileName := meta], counters[meta.fileName := counter])
    ensures meta.fileName in counters && counters[meta.fileName] == counter ==>
              PendingOk(pending[meta.fileName := meta], counters)
  {
    hide ChunksOk, CounterOk;
    if meta.fileName in counters && counters[meta.fileName] == counter {
      assert counters[meta.fileName := counter] == counters;
    }
  }

  lemma PendingDropped(pending: FileMap, counters: Counters, names: set<bytes>)
    requires PendingOk(pending, counters)
    ensures PendingOk(pending - names, counters - names)
  {
    hide ChunksOk, CounterOk;
  }

  lemma FilePut(files: FileMap, name: bytes, meta: Meta)
    requires FilesOk(files) && ChunksOk(meta.chunks) && meta.chunks != []
    ensures FilesOk(files[name := meta])
  {
    hide ChunksOk;
  }

  lemma StoreReport(s: State, name: bytes, id: nat, addr: bytes)
    requires UploadsOk(s) && name in s.pending
    ensures var effect := EffectOf(s, StorePending(name, id, addr));
            PendingOk(effect.pending, effect.counters) && FilesOk(effect.files)
  {
    hide ChunksOk, CounterOk, StoreChunk, FindChunk, PendingOk, FilesOk, FirstCopy, Dec64;
    PendingEntry(s, name);
    var chunks := s.pending[name].chunks;
    var meta := s.pending[name].(chunks := StoreChunk(chunks, id, addr));
    ReportsKeepOk(chunks, id, addr, {});
    CounterAfterReport(chunks, id, addr, s.counters[name]);
    if !FirstCopy(chunks, id) {
      PendingPut(s.pending, s.counters, meta, s.counters[name]);
    } else if Dec64(s.counters[name]) == 0 {
      PendingDropped(s.pending, s.counters, {name});
      FilePut(s.files, name, meta);
    } else {
      PendingPut(s.pending, s.counters, meta, Dec64(s.counters[name]));
    }
  }

  lemma PendingEntry(s: State, name: bytes)
    requires UploadsOk(s) && name in s.pending
    ensures PendingOk(s.pending, s.counters) && FilesOk(s.files)
    ensures name in s.counters && s.pending[name].fileName == name
    ensures ChunksOk(s.pending[name].chunks) && CounterOk(s.pending[name].chunks, s.counters[name])
  {
    hide ChunksOk, CounterOk;
  }

  lemma UploadsAfter(s: State, e: Event)
    requires UploadsOk(s) && !e.Restart?
    ensures var effect := EffectOf(s, e);
            PendingOk(effect.pending, effect.counters) && FilesOk(effect.files)
  {
    hide ChunksOk, CounterOk, FailChunk, StoreChunk, EvictChunks, FindChunk, FilesOk, PendingOk;
    assert PendingOk(s.pending, s.counters) && FilesOk(s.files);
    match e
    case PutCommit(name, size, numChunks, createdAt, leaseExpiry) =>
      FreshUpload(numChunks);
      PendingPut(s.pending, s.counters, Meta(name, size, EmptyChunks(numChunks), createdAt, leaseExpiry), numChunks);
    case Renew(name, leaseExpiry) =>
      if name in s.pending {
        PendingEntry(s, name);
        PendingPut(s.pending, s.counters, s.pending[name].(leaseExpiry := leaseExpiry), s.counters[name]);
      }
    case Expire(now) =>
      PendingDropped(s.pending, s.counters, Expired(s.pending, now));
    case FailPending(name, id, addr) =>
      if name in s.pending {
        PendingEntry(s, name);
        ReportsKeepOk(s.pending[name].chunks, id, addr, {});
        CounterAfterReport(s.pending[name].chunks, id, addr, s.counters[name]);
        PendingPut(s.pending, s.counters,
                   s.pending[name].(chunks := FailChunk(s.pending[name].chunks, id, addr)), s.counters[name]);
      }
    case StorePending(name, id, addr) =>
      if name in s.pending {
        StoreReport(s, name, id, addr);
      }
    case FailFiles(name, id, addr) =>
      if name in s.files {
        PublishedReports(s.files, name, id, addr, {});
      }
    case StoreFiles(name, id, addr) =>
      if name in s.files {
        PublishedReports(s.files, name, id, addr, {});
      }
    case EvictFile(name, active) =>
      if name in s.files {
        PublishedReports(s.files, name, 0, [], active);
      }
    case Delete(name) =>
      FileDropped(s.files, name);
  }

  lemma FileDropped(files: FileMap, name: bytes)
    requires FilesOk(files)
    ensures FilesOk(files - {name})
  {
    hide ChunksOk;
  }

  lemma PublishedReports(files: FileMap, name: bytes, id: nat, addr: bytes, active: set<bytes>)
    requires FilesOk(files) && name in files
    ensures FilesOk(files[name := files[name].(chunks := FailChunk(files[name].chunks, id, addr))])
    ensures FilesOk(files[name := files[name].(chunks := StoreChunk(files[name].chunks, id, addr))])
    ensures FilesOk(files[name := files[name].(chunks := EvictChunks(files[name].chunks, active))])
  {
    hide ChunksOk, FailChunk, StoreChunk, EvictChunks;
    var chunks := files[name].chunks;
    ReportsKeepOk(chunks, id, addr, active);
    ReportsKeepLength(chunks, id, addr, active);
    FilePut(files, name, files[name].(chunks := FailChunk(chunks, id, addr)));
    FilePut(files, name, files[name].(chunks := StoreChunk(chunks, id, addr)));
    FilePut(files, name, files[name].(chunks := EvictChunks(chunks, active)));
  }

  lemma UploadStep(codec: Codec, s: State, e: Event, t: State)
    requires Step(codec, s, e, t) && UploadsOk(s) && LogAgrees(codec, s)
    ensures UploadsOk(t)
  {
    hide RecordsOf, Replay, Logs, Fits, Intact, EffectOf, PendingOk, FilesOk;
    if e.Restart? {
      NothingPending();
    } else {
      UploadsAfter(s, e);
    }
  }

  lemma NothingPending()
    ensures PendingOk(map[], map[])
  {
  }

  lemma ReportsKeepLength(chunks: seq<ChunkInfo>, id: nat, addr: bytes, active: set<bytes>)
    ensures |FailChunk(chunks, id, addr)| == |StoreChunk(chunks, id, addr)| == |EvictChunks(chunks, active)| == |chunks|
  {
  }

  /** In every reachable state the log agrees with the files, which recovery can read, and uploads are counted right. */
  lemma {:induction false} RunInvariant(codec: Codec, states: seq<State>, events: seq<Event>, i: nat)
    requires RoundTrips(codec) && Run(codec, states, events) && i < |states|
    ensures LogAgrees(codec, states[i]) && UploadsOk(states[i]) && FilesFit(codec, states[i].files)
  {
    hide Step, LogAgrees, UploadsOk, FilesFit;
    if i == 0 {
      StartsRight(codec, states[0]);
    } else {
      RunInvariant(codec, states, events, i - 1);
      assert Step(codec, states[i - 1], events[i - 1], states[i - 1 + 1]);
      LogStep(codec, states[i - 1], events[i - 1], states[i]);
      UploadStep(codec, states[i - 1], events[i - 1], states[i]);
    }
  }

  lemma StartsRight(codec: Codec, s: State)
    requires Init(s)
    ensures LogAgrees(codec, s) && UploadsOk(s) && FilesFit(codec, s.files)
  {
    EmptyLog(codec);
  }
}
