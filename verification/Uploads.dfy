/** Which uploads and files there are after a run, how long a lease lasts, and what a file keeps of its PUT. */
module Uploads {
  import opened Bytes
  import opened Metadata
  import opened WalLog
  import opened ControllerState
  import opened ControllerRuns
  import opened Replicas

  // ---------- As folds over the events so far ----------

  /** The time to which the name's lease was last set, by its PUT or by a renewal. */
  function LastLease(events: seq<Event>, n: nat, name: bytes): int
    requires n <= |events|
  {
    if n == 0 then 0
    else
      match events[n - 1]
      case PutCommit(m, _, _, _, until) => if m == name then until else LastLease(events, n - 1, name)
      case Renew(m, until) => if m == name then until else LastLease(events, n - 1, name)
      case _ => LastLease(events, n - 1, name)
  }

  /** The name's latest PUT. */
  function LastPut(events: seq<Event>, n: nat, name: bytes): (put: Option<Event>)
    requires n <= |events|
    ensures put.Some? ==> put.value.PutCommit? && put.value.name == name
  {
    if n == 0 then None
    else if events[n - 1].PutCommit? && events[n - 1].name == name then Some(events[n - 1])
    else LastPut(events, n - 1, name)
  }

  /** There was a PUT, and since then no publication, no restart and no look at the leases past the one it had. */
  function Uploading(states: seq<State>, events: seq<Event>, n: nat, name: bytes): bool
    requires n <= |events| && |states| == |events| + 1
  {
    if n == 0 then false
    else
      var before := Uploading(states, events, n - 1, name);
      match events[n - 1]
      case PutCommit(m, _, _, _, _) => m == name || before
      case StorePending(m, _, _) => before && !(m == name && Publishes(states[n - 1], events[n - 1]))
      case Expire(now) => before && now <= LastLease(events, n - 1, name)
      case Restart => false
      case _ => before
  }

  /** The PUT of the upload last published under the name, unless that was deleted. */
  function FilePut(states: seq<State>, events: seq<Event>, n: nat, name: bytes): (put: Option<Event>)
    requires n <= |events| && |states| == |events| + 1
    ensures put.Some? ==> put.value.PutCommit? && put.value.name == name
  {
    if n == 0 then None
    else
      var before := FilePut(states, events, n - 1, name);
      match events[n - 1]
      case StorePending(m, _, _) =>
        if m == name && Publishes(states[n - 1], events[n - 1]) then LastPut(events, n - 1, name) else before
      case Delete(m) => if m == name then None else before
      case _ => before
  }

  // ---------- One event ----------

  lemma StaysUpload(s: State, e: Event, name: bytes)
    requires !e.Restart?
    ensures name in EffectOf(s, e).pending <==>
              match e
              case PutCommit(m, _, _, _, _) => m == name || name in s.pending
              case StorePending(m, _, _) => name in s.pending && !(m == name && Publishes(s, e))
              case Expire(now) => name in s.pending && now <= s.pending[name].leaseExpiry
              case _ => name in s.pending
  {
    hide FailChunk, StoreChunk, EvictChunks, FindChunk, FirstCopy, Dec64, EmptyChunks;
  }

  lemma StaysFile(s: State, e: Event, name: bytes)
    requires !e.Restart?
    ensures name in EffectOf(s, e).files <==>
              match e
              case StorePending(m, _, _) => (m == name && Publishes(s, e)) || name in s.files
              case Delete(m) => m != name && name in s.files
              case _ => name in s.files
  {
    hide FailChunk, StoreChunk, EvictChunks, FindChunk, FirstCopy, Dec64, EmptyChunks;
  }

  /** The metadata is what the PUT asked for, but for the lease and the nodes. */
  ghost predicate StartedBy(meta: Meta, put: Event)
    requires put.PutCommit?
  {
    && meta.fileName == put.name && meta.size == put.size && meta.createdAt == put.createdAt
    && |meta.chunks| == put.numChunks
    && forall i :: 0 <= i < |meta.chunks| ==>
      meta.chunks[i].chunkId == i && meta.chunks[i].size == 0 && meta.chunks[i].checksum == []
  }

  lemma FreshIsStarted(meta: Meta, put: Event)
    requires put.PutCommit?
    requires meta == Meta(put.name, put.size, EmptyChunks(put.numChunks), put.createdAt, put.leaseExpiry)
    ensures StartedBy(meta, put)
  {
  }

  lemma UploadKeepsStart(meta: Meta, e: Event, name: bytes, put: Event)
    requires put.PutCommit? && StartedBy(meta, put)
    ensures StartedBy(UploadAfter(meta, e, name), put)
  {
  }

  lemma FileKeepsStart(meta: Meta, e: Event, name: bytes, put: Event)
    requires put.PutCommit? && StartedBy(meta, put)
    ensures StartedBy(FileAfter(meta, e, name), put)
  {
  }

  lemma LeaseAfter(meta: Meta, e: Event, name: bytes)
    ensures UploadAfter(meta, e, name).leaseExpiry
         == if e.Renew? && e.name == name then e.leaseExpiry else meta.leaseExpiry
  {
    hide FailChunk, StoreChunk;
  }

  // ---------- Whole runs ----------

  /**
   * In every run a name is uploading exactly when there was a PUT and since then it was not published, nothing
   * restarted, and no look at the leases came past the lease it then had; its lease is the one set last, and all
   * else but its nodes is as the PUT asked.
   */
  lemma {:induction false} UploadsAreHistory(codec: Codec, states: seq<State>, events: seq<Event>, n: nat, name: bytes)
    requires RoundTrips(codec) && Run(codec, states, events) && n < |states|
    ensures |states| == |events| + 1
    ensures name in states[n].pending <==> Uploading(states, events, n, name)
    ensures name in states[n].pending ==>
              && LastPut(events, n, name).Some?
              && StartedBy(states[n].pending[name], LastPut(events, n, name).value)
              && states[n].pending[name].leaseExpiry == LastLease(events, n, name)
  {
    hide Run, Step, Init, EffectOf, Publishes, StartedBy, UploadAfter, EmptyChunks, Takes, RoundTrips;
    RunShape(codec, states, events);
    if n == 0 {
      NoUploadAtFirst(states[0], name);
    } else {
      var s, e, t := states[n - 1], events[n - 1], states[n];
      assert Step(codec, s, e, states[n - 1 + 1]);
      StepEffect(codec, s, e, t);
      UploadsAreHistory(codec, states, events, n - 1, name);
      if !e.Restart? {
        StaysUpload(s, e, name);
        if name in t.pending {
          UploadEffect(s, e, name);
          if e.PutCommit? && e.name == name {
            FreshIsStarted(t.pending[name], e);
          } else {
            UploadKeepsStart(s.pending[name], e, name, LastPut(events, n - 1, name).value);
            LeaseAfter(s.pending[name], e, name);
          }
        }
      }
    }
  }

  /**
   * In every run a name is published exactly when an upload of it was and has not been deleted since, and all but
   * its lease and its nodes is as that upload's PUT asked.
   */
  lemma {:induction false} FilesAreHistory(codec: Codec, states: seq<State>, events: seq<Event>, n: nat, name: bytes)
    requires RoundTrips(codec) && Run(codec, states, events) && n < |states|
    ensures |states| == |events| + 1
    ensures name in states[n].files <==> FilePut(states, events, n, name).Some?
    ensures name in states[n].files ==> StartedBy(states[n].files[name], FilePut(states, events, n, name).value)
  {
    hide Run, Step, Init, EffectOf, Publishes, StartedBy, UploadAfter, FileAfter, EmptyChunks, Takes, RoundTrips;
    hide LastPut, Uploading;
    RunShape(codec, states, events);
    if n == 0 {
      NoFileAtFirst(states[0], name);
    } else {
      var s, e, t := states[n - 1], events[n - 1], states[n];
      assert Step(codec, s, e, states[n - 1 + 1]);
      FilesAreHistory(codec, states, events, n - 1, name);
      if e.Restart? {
        RestartKeepsFiles(codec, states, events, n - 1);
        assert states[n - 1 + 1] == t;
      } else {
        StepEffect(codec, s, e, t);
        StaysFile(s, e, name);
        PublishesStores(s, e);
        if name in t.files {
          FileEffect(s, e, name);
          if Publishes(s, e) && e.name == name {
            UploadsAreHistory(codec, states, events, n - 1, name);
            UploadKeepsStart(s.pending[name], e, name, LastPut(events, n - 1, name).value);
          } else {
            FileKeepsStart(s.files[name], e, name, FilePut(states, events, n - 1, name).value);
          }
        }
      }
    }
  }

  // ---------- Leases ----------

  /** In every run, a look at the leases drops exactly the uploads whose last lease is over; the others stay. */
  lemma ExpiryExactly(codec: Codec, states: seq<State>, events: seq<Event>, i: nat, name: bytes)
    requires RoundTrips(codec) && Run(codec, states, events) && i < |events| && events[i].Expire?
    ensures |states| == |events| + 1
    ensures name in states[i + 1].pending <==> name in states[i].pending && events[i].now <= LastLease(events, i, name)
    ensures name in states[i + 1].pending ==> states[i + 1].pending[name] == states[i].pending[name]
  {
    hide *;
    RunShape(codec, states, events);
    var s, e, t := states[i], events[i], states[i + 1];
    StepEffect(codec, s, e, t);
    StaysUpload(s, e, name);
    UploadsAreHistory(codec, states, events, i, name);
    if name in t.pending {
      UploadEffect(s, e, name);
      OnlyReportsChange(s.pending[name], e, name);
    }
  }

  lemma OnlyReportsChange(meta: Meta, e: Event, name: bytes)
    requires e.Expire?
    ensures UploadAfter(meta, e, name) == meta
  {
  }

  /** An event that cannot end an upload whose lease runs until then, nor shorten the lease below that. */
  predicate Spares(s: State, e: Event, name: bytes, until: int)
  {
    match e
    case PutCommit(m, _, _, _, leaseExpiry) => m == name ==> until <= leaseExpiry
    case Renew(m, leaseExpiry) => m == name ==> until <= leaseExpiry
    case StorePending(m, _, _) => !(m == name && Publishes(s, e))
    case Expire(now) => now <= until
    case Restart => false
    case _ => true
  }

  /** An upload outlives every look at the leases up to the time its lease runs, whatever else happens. */
  lemma {:induction false} LeaseOutlives(codec: Codec, states: seq<State>, events: seq<Event>, from: nat, to: nat,
                                         name: bytes, until: int)
    requires Run(codec, states, events) && from <= to < |states| == |events| + 1
    requires name in states[from].pending && until <= states[from].pending[name].leaseExpiry
    requires forall i :: from <= i < to ==> Spares(states[i], events[i], name, until)
    ensures name in states[to].pending && until <= states[to].pending[name].leaseExpiry
  {
    hide Run, Step, Init, EffectOf, Publishes, UploadAfter, EmptyChunks, Takes;
    if from < to {
      LeaseOutlives(codec, states, events, from, to - 1, name, until);
      RunShape(codec, states, events);
      var s, e, t := states[to - 1], events[to - 1], states[to];
      assert Step(codec, s, e, states[to - 1 + 1]) && Spares(s, e, name, until);
      StepEffect(codec, s, e, t);
      StaysUpload(s, e, name);
      UploadEffect(s, e, name);
      if !(e.PutCommit? && e.name == name) {
        LeaseAfter(s.pending[name], e, name);
      }
    }
  }
}
