/** What holds over whole runs of the controller. */
module ControllerRuns {
  import opened Bytes
  import opened Metadata
  import opened WalLog
  import opened ControllerState

  // ---------- Restarts ----------

  /** A restart keeps the published files exactly and forgets the uploads. */
  lemma RestartKeepsFiles(codec: Codec, states: seq<State>, events: seq<Event>, i: nat)
    requires RoundTrips(codec) && Run(codec, states, events) && i < |events| && events[i].Restart?
    ensures states[i + 1].files == states[i].files
    ensures states[i + 1].walCount == states[i].walCount
    ensures states[i + 1].pending == map[]
  {
    hide RecordsOf, Replay, Intact;
    RunInvariant(codec, states, events, i);
    assert Step(codec, states[i], events[i], states[i + 1]);
  }

  // ---------- Length of the log ----------

  /** Whenever the log gets long enough, it is compacted. */
  ghost predicate AlwaysCompacts(codec: Codec, states: seq<State>, events: seq<Event>)
    requires |states| == |events| + 1
  {
    forall i :: 0 <= i < |events| && !events[i].Restart? && EffectOf(states[i], events[i]).logged.Some?
                && states[i].walCount >= 999 ==>
                  Compacted(codec, states[i + 1].files, states[i + 1].disk, states[i + 1].walCount)
  }

  /** With successful compactions the log never holds more than max(999, files) records. */
  lemma {:induction false} LogLengthBound(codec: Codec, states: seq<State>, events: seq<Event>, i: nat)
    requires RoundTrips(codec) && Run(codec, states, events) && i < |states|
    requires AlwaysCompacts(codec, states, events)
    ensures states[i].walCount <= 999 || states[i].walCount <= |states[i].files|
  {
    hide EffectOf, RecordsOf, Replay, Snapshot, LogText, Fits;
    if i > 0 {
      LogLengthBound(codec, states, events, i - 1);
      assert Step(codec, states[i - 1], events[i - 1], states[i - 1 + 1]);
      if events[i - 1].Restart? {
        RestartKeepsFiles(codec, states, events, i - 1);
      } else {
        RunInvariant(codec, states, events, i - 1);
        EffectApplies(states[i - 1], events[i - 1]);
        assert states[i - 1 + 1] == states[i];
      }
    }
  }

  // ---------- Never both pending and published ----------

  predicate NeverBoth(s: State)
  {
    s.files.Keys !! s.pending.Keys
  }

  /** The check of a PUT still held when the PUT was committed. */
  predicate Atomic(s: State, e: Event)
  {
    e.PutCommit? ==> e.name !in s.files
  }

  /** Only a PUT whose check no longer holds makes a name both pending and published, and it always does. */
  lemma NeverBothExactly(codec: Codec, s: State, e: Event, t: State)
    requires Step(codec, s, e, t) && NeverBoth(s)
    ensures NeverBoth(t) <==> Atomic(s, e)
  {
    hide RecordsOf, Replay, Logs, Fits, FailChunk, StoreChunk, EvictChunks, FindChunk, EmptyChunks, FirstCopy, Dec64;
    match e
    case PutCommit(name, _, _, _, _) =>
      assert name in t.pending;
    case _ =>
  }

  ghost predicate AtomicPuts(states: seq<State>, events: seq<Event>)
    requires |states| == |events| + 1
  {
    forall i :: 0 <= i < |events| ==> Atomic(states[i], events[i])
  }

  lemma {:induction false} NeverBothInRun(codec: Codec, states: seq<State>, events: seq<Event>, i: nat)
    requires Run(codec, states, events) && AtomicPuts(states, events) && i < |states|
    ensures NeverBoth(states[i])
  {
    hide Step, Atomic;
    if i > 0 {
      NeverBothInRun(codec, states, events, i - 1);
      assert Step(codec, states[i - 1], events[i - 1], states[i - 1 + 1]);
      NeverBothExactly(codec, states[i - 1], events[i - 1], states[i]);
    }
  }

  // ---------- Publication ----------

  /** Each counter is the number of chunks without a copy. */
  predicate CountersExact(s: State)
    requires s.pending.Keys == s.counters.Keys
  {
    forall name :: name in s.pending ==> s.counters[name] == Copyless(s.pending[name].chunks)
  }

  /** A failure report takes the only copy off a chunk of an upload. */
  predicate Empties(s: State, e: Event)
  {
    && e.FailPending? && e.name in s.pending
    && var chunks := s.pending[e.name].chunks;
       var i := FindChunk(chunks, e.id);
       i < |chunks| && chunks[i].nodes != [] && Without(chunks[i].nodes, e.addr) == []
  }

  lemma FailCopyless(chunks: seq<ChunkInfo>, id: nat, addr: bytes)
    ensures var i := FindChunk(chunks, id);
            Copyless(FailChunk(chunks, id, addr)) == Copyless(chunks)
              + if i < |chunks| && chunks[i].nodes != [] && Without(chunks[i].nodes, addr) == [] then 1 else 0
  {
    hide Copyless;
    var i := FindChunk(chunks, id);
    if i < |chunks| {
      CopylessUpdate(chunks, i, Without(chunks[i].nodes, addr));
    }
  }

  /** How one event moves a counter against the chunks of its upload that have no copy. */
  lemma EntryStep(s: State, e: Event, name: bytes)
    requires UploadsOk(s) && !e.Restart? && name in EffectOf(s, e).pending
    ensures var t := EffectOf(s, e);
            name in t.counters &&
            if e.PutCommit? && e.name == name then Copyless(t.pending[name].chunks) == t.counters[name]
            else
              && name in s.pending && name in s.counters
              && Copyless(t.pending[name].chunks) - t.counters[name]
                 == Copyless(s.pending[name].chunks) - s.counters[name]
                   + if Empties(s, e) && e.name == name then 1 else 0
  {
    hide FailChunk, StoreChunk, EvictChunks, FindChunk, Copyless, UploadsOk, Without, FirstCopy, Dec64, EmptyChunks;
    match e
    case PutCommit(m, _, numChunks, _, _) =>
      FreshUpload(numChunks);
      if m != name {
        CounterEntry(s, name);
      }
    case FailPending(m, id, addr) =>
      CounterEntry(s, name);
      FailCopyless(s.pending[name].chunks, id, addr);
    case StorePending(m, id, addr) =>
      CounterEntry(s, name);
      if m == name {
        EntryStored(s, name, id, addr);
      } else {
        OthersStored(s, m, id, addr, name);
      }
    case _ =>
      CounterEntry(s, name);
  }

  lemma EntryStored(s: State, name: bytes, id: nat, addr: bytes)
    requires UploadsOk(s) && name in s.pending
    ensures var t := EffectOf(s, StorePending(name, id, addr));
            name in t.pending ==>
              && name in t.counters && name in s.counters
              && Copyless(t.pending[name].chunks) - t.counters[name]
                 == Copyless(s.pending[name].chunks) - s.counters[name]
  {
    hide StoreChunk, FindChunk, Copyless, UploadsOk, FirstCopy, Dec64, ChunksOk, CounterOk;
    CounterEntry(s, name);
    CounterAfterReport(s.pending[name].chunks, id, addr, s.counters[name]);
    StoreNotFirst(s.pending[name].chunks, id, addr);
  }

  lemma OthersStored(s: State, m: bytes, id: nat, addr: bytes, name: bytes)
    requires m != name && name in s.counters
    ensures var t := EffectOf(s, StorePending(m, id, addr));
            && (name in t.pending ==> name in s.pending && t.pending[name] == s.pending[name])
            && name in t.counters && t.counters[name] == s.counters[name]
  {
    hide StoreChunk, FirstCopy, Dec64;
  }

  /** In one step, exact counters stay exact exactly when it is no failure report that empties a chunk of an upload. */
  lemma CountersExactExactly(codec: Codec, s: State, e: Event, t: State)
    requires Step(codec, s, e, t) && UploadsOk(s) && UploadsOk(t) && CountersExact(s)
    ensures CountersExact(t) <==> !Empties(s, e)
  {
    hide EffectOf, RecordsOf, Replay, Logs, Fits, Copyless, Empties, PendingOk, FilesOk;
    StaysPending(s, e);
    if !e.Restart? {
      forall name | name in t.pending
        ensures name in t.counters
        ensures t.counters[name] == Copyless(t.pending[name].chunks) <==> !(Empties(s, e) && e.name == name)
      {
        EntryStep(s, e, name);
        PutEmptiesNothing(s, e);
      }
    }
  }

  lemma PutEmptiesNothing(s: State, e: Event)
    ensures e.PutCommit? || e.Restart? ==> !Empties(s, e)
  {
  }

  /** An upload with an emptied chunk is still one. */
  lemma StaysPending(s: State, e: Event)
    ensures Empties(s, e) ==> !e.Restart? && e.FailPending? && e.name in EffectOf(s, e).pending
  {
    hide FailChunk, FindChunk, Without;
  }

  lemma StoreNotFirst(chunks: seq<ChunkInfo>, id: nat, addr: bytes)
    ensures !FirstCopy(chunks, id) ==> Copyless(StoreChunk(chunks, id, addr)) == Copyless(chunks)
  {
    hide Copyless;
    var i := FindChunk(chunks, id);
    if i < |chunks| {
      CopylessUpdate(chunks, i, chunks[i].nodes + [addr]);
    }
  }

  /** How many failure reports since the name's latest PUT took the only copy off a chunk of its upload. */
  function Emptied(states: seq<State>, events: seq<Event>, n: nat, name: bytes): nat
    requires n <= |events| && |states| == |events| + 1
  {
    if n == 0 then 0
    else
      var s, e := states[n - 1], events[n - 1];
      if e.PutCommit? && e.name == name then 0
      else Emptied(states, events, n - 1, name) + if Empties(s, e) && e.name == name then 1 else 0
  }

  lemma RunShape(codec: Codec, states: seq<State>, events: seq<Event>)
    requires Run(codec, states, events)
    ensures |states| == |events| + 1 && Init(states[0])
    ensures forall i :: 0 <= i < |events| ==> Step(codec, states[i], events[i], states[i + 1])
  {
    hide Step, Init;
  }

  /** In every run, an upload's counter falls short of its chunks without a copy by the reports that emptied one. */
  lemma {:induction false} CountersAreHistory(codec: Codec, states: seq<State>, events: seq<Event>, n: nat, name: bytes)
    requires RoundTrips(codec) && Run(codec, states, events) && n < |states| && name in states[n].pending
    ensures |states| == |events| + 1 && name in states[n].counters
    ensures Copyless(states[n].pending[name].chunks) == states[n].counters[name] + Emptied(states, events, n, name)
  {
    hide *;
    RunShape(codec, states, events);
    if n == 0 {
      NoUploadAtFirst(states[0], name);
    } else {
      var s, e, t := states[n - 1], events[n - 1], states[n];
      assert Step(codec, s, e, states[n - 1 + 1]);
      StepEffect(codec, s, e, t);
      assert !e.Restart?;
      RunInvariant(codec, states, events, n - 1);
      EntryStep(s, e, name);
      EmptiedStep(states, events, n, name);
      if !(e.PutCommit? && e.name == name) {
        CountersAreHistory(codec, states, events, n - 1, name);
      }
    }
  }

  lemma NoUploadAtFirst(s: State, name: bytes)
    requires Init(s)
    ensures name !in s.pending
  {
  }

  lemma StepEffect(codec: Codec, s: State, e: Event, t: State)
    requires Step(codec, s, e, t)
    ensures e.Restart? ==> t.pending == map[]
    ensures !e.Restart? ==> t.pending == EffectOf(s, e).pending && t.counters == EffectOf(s, e).counters
    ensures !e.Restart? ==> t.files == EffectOf(s, e).files
  {
    hide EffectOf, Logs, Fits, RecordsOf, Replay;
  }

  lemma EmptiedStep(states: seq<State>, events: seq<Event>, n: nat, name: bytes)
    requires 0 < n <= |events| && |states| == |events| + 1
    ensures var s, e := states[n - 1], events[n - 1];
            Emptied(states, events, n, name) ==
              if e.PutCommit? && e.name == name then 0
              else Emptied(states, events, n - 1, name) + if Empties(s, e) && e.name == name then 1 else 0
  {
    hide Empties;
  }

  /** Along a run, the counters are exact exactly where no upload has had a chunk emptied since its PUT. */
  lemma CountersExactInRun(codec: Codec, states: seq<State>, events: seq<Event>, n: nat)
    requires RoundTrips(codec) && Run(codec, states, events) && n < |states|
    ensures |states| == |events| + 1 && UploadsOk(states[n])
    ensures CountersExact(states[n]) <==>
        forall name :: name in states[n].pending ==> Emptied(states, events, n, name) == 0
  {
    hide Run, LogAgrees, FilesFit, Copyless, Emptied, FilesOk;
    RunShape(codec, states, events);
    RunInvariant(codec, states, events, n);
    forall name | name in states[n].pending
      ensures Copyless(states[n].pending[name].chunks) == states[n].counters[name] + Emptied(states, events, n, name)
    {
      CountersAreHistory(codec, states, events, n, name);
    }
  }

  predicate Complete(chunks: seq<ChunkInfo>)
  {
    forall i :: 0 <= i < |chunks| ==> chunks[i].nodes != []
  }

  /** The event publishes the file. */
  predicate Publishes(s: State, e: Event)
  {
    e.StorePending? && e.name in s.pending && EffectOf(s, e).logged.Some?
  }

  /** A file is published with a copy of every chunk exactly when its counter was the number of chunks without one. */
  lemma PublishedCompleteExactly(s: State, e: Event)
    requires UploadsOk(s) && Publishes(s, e)
    ensures e.name in EffectOf(s, e).files
    ensures Complete(EffectOf(s, e).files[e.name].chunks)
       <==> s.counters[e.name] == Copyless(s.pending[e.name].chunks)
  {
    hide ChunksOk, CounterOk, Copyless, StoreChunk, FindChunk, FilesOk, FirstCopy;
    var chunks := s.pending[e.name].chunks;
    CounterAfterReport(chunks, e.id, e.addr, s.counters[e.name]);
    CopylessNone(StoreChunk(chunks, e.id, e.addr));
  }

  /** With exact counters an upload is published exactly when its last chunk gains its first copy. */
  lemma PublishedWhenComplete(s: State, e: Event)
    requires UploadsOk(s) && CountersExact(s) && e.StorePending? && e.name in s.pending
    requires s.pending[e.name].chunks != []
    ensures Publishes(s, e) <==> Complete(StoreChunk(s.pending[e.name].chunks, e.id, e.addr))
  {
    hide ChunksOk, CounterOk, Copyless, StoreChunk, FindChunk, FilesOk, FirstCopy, Complete;
    var chunks := s.pending[e.name].chunks;
    CounterEntry(s, e.name);
    CounterAfterReport(chunks, e.id, e.addr, s.counters[e.name]);
    StoreNotFirst(chunks, e.id, e.addr);
    CompleteIsCopyless(StoreChunk(chunks, e.id, e.addr));
  }

  lemma CompleteIsCopyless(chunks: seq<ChunkInfo>)
    ensures Complete(chunks) <==> Copyless(chunks) == 0
  {
    CopylessNone(chunks);
  }

  lemma CounterEntry(s: State, name: bytes)
    requires UploadsOk(s) && name in s.pending
    ensures name in s.counters
    ensures s.counters[name] == 0 ==> s.pending[name].chunks == []
    ensures ChunksOk(s.pending[name].chunks) && CounterOk(s.pending[name].chunks, s.counters[name])
  {
    hide ChunksOk;
  }

  /**
   * In every run, whatever is published leaves the uploads, and is published with a copy of every chunk exactly
   * when no failure report since its PUT took the only copy off one of its chunks.
   */
  lemma PublishedInRun(codec: Codec, states: seq<State>, events: seq<Event>, i: nat)
    requires RoundTrips(codec) && Run(codec, states, events)
    requires i < |events| && i < |states| && Publishes(states[i], events[i])
    ensures |states| == |events| + 1
    ensures events[i].name in states[i + 1].files && events[i].name !in states[i + 1].pending
    ensures Complete(states[i + 1].files[events[i].name].chunks) <==> Emptied(states, events, i, events[i].name) == 0
  {
    hide *;
    PublishMoves(states[i], events[i]);
    var name := events[i].name;
    RunShape(codec, states, events);
    RunInvariant(codec, states, events, i);
    CountersAreHistory(codec, states, events, i, name);
    PublishedCompleteExactly(states[i], events[i]);
    StepEffect(codec, states[i], events[i], states[i + 1]);
  }

  lemma PublishMoves(s: State, e: Event)
    requires Publishes(s, e)
    ensures e.StorePending? && e.name in s.pending
            && e.name in EffectOf(s, e).files && e.name !in EffectOf(s, e).pending
  {
    hide StoreChunk, FirstCopy, Dec64;
  }
}
