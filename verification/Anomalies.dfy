/** Runs of the controller, step by step, that end in states a reader might not expect. */
module Anomalies {
  import opened Bytes
  import opened Metadata
  import opened WalLog
  import opened ControllerState
  import opened ControllerRuns

  /** A file of two chunks, the second of which one node holds. */
  function HalfStored(name: bytes, addr: bytes): Meta
  {
    Meta(name, 2, [ChunkInfo(0, [], 0, []), ChunkInfo(1, [addr], 0, [])], 0, 30)
  }

  lemma TwoChunks(addr: bytes)
    ensures var blank := [ChunkInfo(0, [], 0, []), ChunkInfo(1, [], 0, [])];
            var one := [ChunkInfo(0, [addr], 0, []), ChunkInfo(1, [], 0, [])];
            && EmptyChunks(2) == blank
            && StoreChunk(blank, 0, addr) == one && FirstCopy(blank, 0)
            && FailChunk(one, 0, addr) == blank
            && StoreChunk(blank, 1, addr) == HalfStored([], addr).chunks && FirstCopy(blank, 1)
  {
    var blank := [ChunkInfo(0, [], 0, []), ChunkInfo(1, [], 0, [])];
    var one := [ChunkInfo(0, [addr], 0, []), ChunkInfo(1, [], 0, [])];
    FindById(blank, 0);
    FindById(blank, 1);
    FindById(one, 0);
    var none: seq<bytes> := [];
    assert none + [addr] == [addr];
    assert StoreChunk(blank, 0, addr) == WithNodes(blank, 0, [addr]) == one;
    assert StoreChunk(blank, 1, addr) == WithNodes(blank, 1, [addr]) == HalfStored([], addr).chunks;
    assert Without([addr], addr) == [] by {
      assert [addr][..0] == [];
      NothingWithout(addr);
    }
  }

  /**
   * A failure report between the first copies empties an upload's chunk without raising its counter:
   * the file is then published while a chunk of it has no copy.
   */
  lemma EmptiedUploadIsPublished(codec: Codec, name: bytes, addr: bytes)
    returns (states: seq<State>, events: seq<Event>)
    requires Fits(codec, PutRecord(HalfStored(name, addr)))
    ensures Run(codec, states, events) && AtomicPuts(states, events) && |events| == 4
    ensures Publishes(states[3], events[3])
    ensures name in states[4].files && !Complete(states[4].files[name].chunks)
  {
    hide FindChunk, StoreChunk, FailChunk, FirstCopy, EmptyChunks, LogLine, Fits, Compacted;
    TwoChunks(addr);
    var blank := Meta(name, 2, EmptyChunks(2), 0, 30);
    var one := blank.(chunks := StoreChunk(blank.chunks, 0, addr));
    var meta := HalfStored(name, addr);
    var empty := WalDisk([], None);
    var record := PutRecord(meta);
    events := [PutCommit(name, 2, 2, 0, 30), StorePending(name, 0, addr),
               FailPending(name, 0, addr), StorePending(name, 1, addr)];
    states := [State(map[], map[], map[], empty, 0),
               State(map[], map[name := blank], map[name := 2], empty, 0),
               State(map[], map[name := one], map[name := 1], empty, 0),
               State(map[], map[name := blank], map[name := 1], empty, 0),
               State(map[name := meta], map[], map[], WalDisk([] + LogLine(codec, record), None), 1)];
    assert Step(codec, states[0], events[0], states[1]);
    assert Step(codec, states[1], events[1], states[2]);
    assert Step(codec, states[2], events[2], states[3]);
    assert EffectOf(states[3], events[3]) == Publish(states[3], name, meta);
    assert Step(codec, states[3], events[3], states[4]);
    assert meta.chunks[0].nodes == [];
  }

  /** A file of one chunk that one node holds. */
  function Stored(name: bytes, addr: bytes): Meta
  {
    Meta(name, 1, [ChunkInfo(0, [addr], 0, [])], 0, 30)
  }

  lemma OneChunk(addr: bytes)
    ensures var blank := [ChunkInfo(0, [], 0, [])];
            EmptyChunks(1) == blank && StoreChunk(blank, 0, addr) == Stored([], addr).chunks && FirstCopy(blank, 0)
  {
    var blank := [ChunkInfo(0, [], 0, [])];
    FindById(blank, 0);
    var none: seq<bytes> := [];
    assert none + [addr] == [addr];
    assert StoreChunk(blank, 0, addr) == WithNodes(blank, 0, [addr]);
  }

  /**
   * Two PUTs of one name that both pass the check at the start: once the first is published, committing
   * the second leaves the name published and pending at once.
   */
  lemma RacingPuts(codec: Codec, name: bytes, addr: bytes) returns (states: seq<State>, events: seq<Event>)
    requires Fits(codec, PutRecord(Stored(name, addr)))
    ensures Run(codec, states, events) && |events| == 3
    ensures name !in states[0].files && name !in states[0].pending
    ensures events[0].PutCommit? && events[0].name == name && events[2].PutCommit? && events[2].name == name
    ensures NeverBoth(states[2]) && !NeverBoth(states[3])
  {
    hide FindChunk, StoreChunk, FirstCopy, EmptyChunks, LogLine, Fits, Compacted;
    OneChunk(addr);
    var blank := Meta(name, 1, EmptyChunks(1), 0, 30);
    var meta := Stored(name, addr);
    var empty := WalDisk([], None);
    var logged := WalDisk([] + LogLine(codec, PutRecord(meta)), None);
    events := [PutCommit(name, 1, 1, 0, 30), StorePending(name, 0, addr), PutCommit(name, 1, 1, 0, 30)];
    states := [State(map[], map[], map[], empty, 0),
               State(map[], map[name := blank], map[name := 1], empty, 0),
               State(map[name := meta], map[], map[], logged, 1),
               State(map[name := meta], map[name := blank], map[name := 1], logged, 1)];
    assert Step(codec, states[0], events[0], states[1]);
    assert EffectOf(states[1], events[1]) == Publish(states[1], name, meta);
    assert Step(codec, states[1], events[1], states[2]);
    assert Step(codec, states[2], events[2], states[3]);
    assert name in states[3].files.Keys * states[3].pending.Keys;
  }

  // ---------- A file too large for the log ----------

  /** Every chunk takes at least a byte of the record. */
  ghost predicate ChunksTakeRoom(codec: Codec)
  {
    forall r: WalRecord :: r.fileMeta.Some? ==> |codec.enc(r)| >= |r.fileMeta.value.chunks|
  }

  /** n chunks, the first j of which one node holds. */
  function PartChunks(n: nat, j: nat, addr: bytes): (chunks: seq<ChunkInfo>)
    ensures |chunks| == n
    ensures forall i :: 0 <= i < n ==> chunks[i] == ChunkInfo(i, if i < j then [addr] else [], 0, [])
  {
    seq(n, i requires 0 <= i < n => ChunkInfo(i, if i < j then [addr] else [], 0, []))
  }

  function PartMeta(name: bytes, n: nat, j: nat, addr: bytes): Meta
  {
    Meta(name, n, PartChunks(n, j, addr), 0, 30)
  }

  lemma PartStored(n: nat, j: nat, addr: bytes)
    requires j < n
    ensures FirstCopy(PartChunks(n, j, addr), j)
    ensures StoreChunk(PartChunks(n, j, addr), j, addr) == PartChunks(n, j + 1, addr)
    ensures PartChunks(n, 0, addr) == EmptyChunks(n)
  {
    var chunks := PartChunks(n, j, addr);
    FindById(chunks, j);
    var none: seq<bytes> := [];
    assert none + [addr] == [addr];
    assert StoreChunk(chunks, j, addr) == WithNodes(chunks, j, [addr]);
  }

  /** The upload with j of its n chunks reported. */
  function Uploading(name: bytes, n: nat, j: nat, addr: bytes): State
    requires j <= n
  {
    State(map[], map[name := PartMeta(name, n, j, addr)], map[name := n - j], WalDisk([], None), 0)
  }

  lemma UploadsOne(codec: Codec, name: bytes, n: nat, j: nat, addr: bytes)
    requires j + 1 < n
    ensures Step(codec, Uploading(name, n, j, addr), StorePending(name, j, addr), Uploading(name, n, j + 1, addr))
  {
    hide FindChunk, StoreChunk, FirstCopy, PartChunks, Logs, Fits;
    PartStored(n, j, addr);
  }

  lemma UploadStarts(codec: Codec, name: bytes, n: nat, addr: bytes)
    requires n > 0
    ensures Step(codec, State(map[], map[], map[], WalDisk([], None), 0), PutCommit(name, n, n, 0, 30),
                 Uploading(name, n, 0, addr))
  {
    hide StoreChunk, FirstCopy, PartChunks, EmptyChunks, Logs, Fits;
    PartStored(n, 0, addr);
  }

  /** The file published, and logged. */
  function Uploaded(codec: Codec, name: bytes, n: nat, addr: bytes): State
  {
    var meta := PartMeta(name, n, n, addr);
    State(map[name := meta], map[], map[], WalDisk([] + LogLine(codec, PutRecord(meta)), None), 1)
  }

  lemma UploadEnds(codec: Codec, name: bytes, n: nat, addr: bytes)
    requires n > 0
    ensures Takes(codec, Uploading(name, n, n - 1, addr), StorePending(name, n - 1, addr),
                  Uploaded(codec, name, n, addr))
  {
    hide FindChunk, StoreChunk, FirstCopy, PartChunks, LogLine, Compacted;
    PartStored(n, n - 1, addr);
  }

  /**
   * A file of as many chunks as the longest readable line has bytes is uploaded chunk by chunk, each stored, and
   * published; its record is too long for recovery, and a restart finds no file.
   */
  lemma LargeFileIsLost(codec: Codec, name: bytes, addr: bytes) returns (states: seq<State>, events: seq<Event>)
    requires RoundTrips(codec) && ChunksTakeRoom(codec)
    ensures |events| == WAL_MAX_LINE && Run(codec, states, events)
    ensures var last, published := states[|events|], Uploaded(codec, name, WAL_MAX_LINE, addr);
            && Takes(codec, last, StorePending(name, WAL_MAX_LINE - 1, addr), published)
            && name in published.files && !Fits(codec, PutRecord(published.files[name]))
            && Replay(RecordsOf(codec, published.disk.wal)) == map[]
  {
    hide Step, Takes, PartChunks, RecordsOf, LogLine, Uploading;
    var n := WAL_MAX_LINE;
    var start := State(map[], map[], map[], WalDisk([], None), 0);
    events := [PutCommit(name, n, n, 0, 30)] + seq(n - 1, j requires 0 <= j < n - 1 => StorePending(name, j, addr));
    states := [start] + seq(n, j requires 0 <= j < n => Uploading(name, n, j, addr));
    UploadStarts(codec, name, n, addr);
    forall i | 0 <= i < |events|
      ensures Step(codec, states[i], events[i], states[i + 1])
    {
      if i > 0 {
        UploadsOne(codec, name, n, i - 1, addr);
      }
    }
    UploadEnds(codec, name, n, addr);
    var meta := PartMeta(name, n, n, addr);
    assert |codec.enc(PutRecord(meta))| >= n;
    LostRecord(codec, PutRecord(meta));
  }

  lemma LostRecord(codec: Codec, record: WalRecord)
    requires RoundTrips(codec) && !Fits(codec, record)
    ensures Replay(RecordsOf(codec, [] + LogLine(codec, record))) == map[]
  {
    hide RecordsOf, LogLine, Fits;
    EmptyLog(codec);
    LongRecordEndsRecovery(codec, [], record, []);
    assert [] + LogLine(codec, record) + [] == [] + LogLine(codec, record);
  }
}
