/** The node list of every chunk as a fold over the events so far. */
module Replicas {
  import opened Bytes
  import opened Metadata
  import opened WalLog
  import opened ControllerState
  import opened ControllerRuns

  /** Whether the latest event about an address and a chunk of an upload, since the name's PUT, was a success report. */
  function UploadListed(states: seq<State>, events: seq<Event>, n: nat, name: bytes, id: nat, addr: bytes): bool
    requires n <= |events| && |states| == |events| + 1
  {
    if n == 0 then false
    else
      var before := UploadListed(states, events, n - 1, name, id, addr);
      match events[n - 1]
      case PutCommit(m, _, _, _, _) => m != name && before
      case StorePending(m, i, a) => (m == name && i == id && a == addr) || before
      case FailPending(m, i, a) => !(m == name && i == id && a == addr) && before
      case _ => before
  }

  /**
   * The same for a published file, which starts with what its upload lists when it is published: failure reports
   * and being found dead count against an address.
   */
  function FileListed(states: seq<State>, events: seq<Event>, n: nat, name: bytes, id: nat, addr: bytes): bool
    requires n <= |events| && |states| == |events| + 1
  {
    if n == 0 then false
    else
      var before := FileListed(states, events, n - 1, name, id, addr);
      match events[n - 1]
      case StorePending(m, i, a) =>
        if m == name && Publishes(states[n - 1], events[n - 1])
        then (i == id && a == addr) || UploadListed(states, events, n - 1, name, id, addr)
        else before
      case StoreFiles(m, i, a) => (m == name && i == id && a == addr) || before
      case FailFiles(m, i, a) => !(m == name && i == id && a == addr) && before
      case EvictFile(m, active) => !(m == name && addr !in active) && before
      case _ => before
  }

  lemma ReportsByChunk(chunks: seq<ChunkInfo>, id: nat, addr: bytes, active: set<bytes>, k: nat, a: bytes)
    requires ChunksOk(chunks) && k < |chunks|
    ensures |FailChunk(chunks, id, addr)| == |StoreChunk(chunks, id, addr)| == |chunks|
    ensures a in FailChunk(chunks, id, addr)[k].nodes <==> a in chunks[k].nodes && !(k == id && a == addr)
    ensures a in StoreChunk(chunks, id, addr)[k].nodes <==> a in chunks[k].nodes || (k == id && a == addr)
    ensures a in EvictChunks(chunks, active)[k].nodes <==> a in chunks[k].nodes && a in active
  {
    FindById(chunks, id);
  }

  /** The chunk lists the address. */
  predicate Lists(meta: Meta, k: nat, a: bytes)
  {
    k < |meta.chunks| && a in meta.chunks[k].nodes
  }

  lemma ReportsList(meta: Meta, id: nat, addr: bytes, active: set<bytes>, k: nat, a: bytes)
    requires ChunksOk(meta.chunks) && k < |meta.chunks|
    ensures |FailChunk(meta.chunks, id, addr)| == |StoreChunk(meta.chunks, id, addr)| == |meta.chunks|
    ensures Lists(meta.(chunks := FailChunk(meta.chunks, id, addr)), k, a) <==>
            Lists(meta, k, a) && !(k == id && a == addr)
    ensures Lists(meta.(chunks := StoreChunk(meta.chunks, id, addr)), k, a) <==>
            Lists(meta, k, a) || (k == id && a == addr)
    ensures Lists(meta.(chunks := EvictChunks(meta.chunks, active)), k, a) <==> Lists(meta, k, a) && a in active
  {
    hide ChunksOk, FailChunk, StoreChunk, EvictChunks;
    ReportsByChunk(meta.chunks, id, addr, active, k, a);
  }

  // ---------- Uploads ----------

  /** What one event does to an upload that was there before. */
  function UploadAfter(meta: Meta, e: Event, name: bytes): Meta
  {
    match e
    case Renew(m, leaseExpiry) => if m == name then meta.(leaseExpiry := leaseExpiry) else meta
    case FailPending(m, id, addr) => if m == name then meta.(chunks := FailChunk(meta.chunks, id, addr)) else meta
    case StorePending(m, id, addr) => if m == name then meta.(chunks := StoreChunk(meta.chunks, id, addr)) else meta
    case _ => meta
  }

  lemma UploadEffect(s: State, e: Event, name: bytes)
    requires !e.Restart? && name in EffectOf(s, e).pending
    ensures if e.PutCommit? && e.name == name
            then EffectOf(s, e).pending[name]
                   == Meta(name, e.size, EmptyChunks(e.numChunks), e.createdAt, e.leaseExpiry)
            else name in s.pending && EffectOf(s, e).pending[name] == UploadAfter(s.pending[name], e, name)
  {
    hide FailChunk, StoreChunk, EvictChunks, FindChunk, FirstCopy, Dec64, EmptyChunks;
  }

  lemma UploadLists(meta: Meta, e: Event, name: bytes, k: nat, a: bytes)
    requires ChunksOk(meta.chunks) && k < |meta.chunks|
    ensures |UploadAfter(meta, e, name).chunks| == |meta.chunks|
    ensures Lists(UploadAfter(meta, e, name), k, a) <==>
              match e
              case StorePending(m, i, b) => (m == name && i == k && b == a) || Lists(meta, k, a)
              case FailPending(m, i, b) => !(m == name && i == k && b == a) && Lists(meta, k, a)
              case _ => Lists(meta, k, a)
  {
    hide ChunksOk, FailChunk, StoreChunk;
    match e
    case StorePending(_, i, b) => ReportsList(meta, i, b, {}, k, a);
    case FailPending(_, i, b) => ReportsList(meta, i, b, {}, k, a);
    case _ =>
  }

  lemma UploadLength(meta: Meta, e: Event, name: bytes)
    ensures |UploadAfter(meta, e, name).chunks| == |meta.chunks|
  {
    hide FindChunk;
  }

  lemma UploadListedStep(states: seq<State>, events: seq<Event>, n: nat, name: bytes, k: nat, a: bytes)
    requires 0 < n <= |events| && |states| == |events| + 1
    ensures var before := UploadListed(states, events, n - 1, name, k, a);
            UploadListed(states, events, n, name, k, a) <==>
              match events[n - 1]
              case PutCommit(m, _, _, _, _) => m != name && before
              case StorePending(m, i, b) => (m == name && i == k && b == a) || before
              case FailPending(m, i, b) => !(m == name && i == k && b == a) && before
              case _ => before
  {
  }

  lemma FreshUploadLists(n: nat, meta: Meta, k: nat, a: bytes)
    requires meta.chunks == EmptyChunks(n)
    ensures !Lists(meta, k, a)
  {
  }

  lemma UploadsOkEntry(s: State, name: bytes)
    requires UploadsOk(s)
    ensures name in s.pending ==> ChunksOk(s.pending[name].chunks)
    ensures name in s.files ==> ChunksOk(s.files[name].chunks)
  {
    hide ChunksOk, CounterOk;
  }

  lemma ListedOnce(chunks: seq<ChunkInfo>, k: nat)
    requires ChunksOk(chunks) && k < |chunks|
    ensures Metadata.Distinct(chunks[k].nodes)
  {
  }

  /**
   * In every run, a chunk of an upload lists an address exactly when the latest event about the two since the
   * PUT was a success report; and lists it once.
   */
  lemma {:induction false} UploadListsAreHistory(codec: Codec, states: seq<State>, events: seq<Event>, n: nat,
                                                 name: bytes, k: nat, a: bytes)
    requires RoundTrips(codec) && Run(codec, states, events) && |states| == |events| + 1
    requires n < |states| && name in states[n].pending && k < |states[n].pending[name].chunks|
    ensures Lists(states[n].pending[name], k, a) <==> UploadListed(states, events, n, name, k, a)
    ensures Metadata.Distinct(states[n].pending[name].chunks[k].nodes)
  {
    hide *;
    RunShape(codec, states, events);
    RunInvariant(codec, states, events, n);
    UploadsOkEntry(states[n], name);
    ListedOnce(states[n].pending[name].chunks, k);
    if n == 0 {
      NoUploadAtFirst(states[0], name);
    } else {
      var s, e, t := states[n - 1], events[n - 1], states[n];
      assert Step(codec, s, e, states[n - 1 + 1]);
      StepEffect(codec, s, e, t);
      assert !e.Restart?;
      UploadListedStep(states, events, n, name, k, a);
      UploadEffect(s, e, name);
      if e.PutCommit? && e.name == name {
        FreshUploadLists(e.numChunks, t.pending[name], k, a);
      } else {
        RunInvariant(codec, states, events, n - 1);
        UploadsOkEntry(s, name);
        UploadLength(s.pending[name], e, name);
        UploadLists(s.pending[name], e, name, k, a);
        UploadListsAreHistory(codec, states, events, n - 1, name, k, a);
      }
    }
  }

  // ---------- Published files ----------

  /** What one event does to a published file that was there before and is not published anew. */
  function FileAfter(meta: Meta, e: Event, name: bytes): Meta
  {
    match e
    case StoreFiles(m, id, addr) => if m == name then meta.(chunks := StoreChunk(meta.chunks, id, addr)) else meta
    case FailFiles(m, id, addr) => if m == name then meta.(chunks := FailChunk(meta.chunks, id, addr)) else meta
    case EvictFile(m, active) => if m == name then meta.(chunks := EvictChunks(meta.chunks, active)) else meta
    case _ => meta
  }

  lemma FileEffect(s: State, e: Event, name: bytes)
    requires !e.Restart? && name in EffectOf(s, e).files
    ensures if Publishes(s, e) && e.name == name
            then EffectOf(s, e).files[name] == UploadAfter(s.pending[name], e, name)
            else name in s.files && EffectOf(s, e).files[name] == FileAfter(s.files[name], e, name)
  {
    hide FailChunk, StoreChunk, EvictChunks, FindChunk, FirstCopy, Dec64, EmptyChunks;
    if e.FailFiles? && e.name == name && name in s.files {
      FailsNothing(s.files[name].chunks, e.id, e.addr);
    }
  }

  lemma FileLists(meta: Meta, e: Event, name: bytes, k: nat, a: bytes)
    requires ChunksOk(meta.chunks) && k < |meta.chunks|
    ensures Lists(FileAfter(meta, e, name), k, a) <==>
              match e
              case StoreFiles(m, i, b) => (m == name && i == k && b == a) || Lists(meta, k, a)
              case FailFiles(m, i, b) => !(m == name && i == k && b == a) && Lists(meta, k, a)
              case EvictFile(m, active) => !(m == name && a !in active) && Lists(meta, k, a)
              case _ => Lists(meta, k, a)
  {
    hide ChunksOk, FailChunk, StoreChunk, EvictChunks;
    match e
    case StoreFiles(_, i, b) => ReportsList(meta, i, b, {}, k, a);
    case FailFiles(_, i, b) => ReportsList(meta, i, b, {}, k, a);
    case EvictFile(_, active) => ReportsList(meta, 0, [], active, k, a);
    case _ =>
  }

  lemma FileLength(meta: Meta, e: Event, name: bytes)
    ensures |FileAfter(meta, e, name).chunks| == |meta.chunks|
  {
    hide FindChunk;
  }

  lemma FileListedStep(states: seq<State>, events: seq<Event>, n: nat, name: bytes, k: nat, a: bytes)
    requires 0 < n <= |events| && |states| == |events| + 1
    ensures var before := FileListed(states, events, n - 1, name, k, a);
            FileListed(states, events, n, name, k, a) <==>
              match events[n - 1]
              case StorePending(m, i, b) =>
                if m == name && Publishes(states[n - 1], events[n - 1])
                then (i == k && b == a) || UploadListed(states, events, n - 1, name, k, a)
                else before
              case StoreFiles(m, i, b) => (m == name && i == k && b == a) || before
              case FailFiles(m, i, b) => !(m == name && i == k && b == a) && before
              case EvictFile(m, active) => !(m == name && a !in active) && before
              case _ => before
  {
    hide Publishes, UploadListed;
  }

  lemma NoFileAtFirst(s: State, name: bytes)
    requires Init(s)
    ensures name !in s.files
  {
  }

  lemma RestartKeepsFile(codec: Codec, s: State, e: Event, t: State, name: bytes)
    requires RoundTrips(codec) && Step(codec, s, e, t) && LogAgrees(codec, s) && e.Restart?
    ensures t.files == s.files
  {
    hide RecordsOf, Replay, Intact;
  }

  /**
   * In every run, a chunk of a published file lists an address exactly when the latest event about the two, in its
   * upload or since, was a success report; and lists it once.
   */
  lemma {:induction false} FileListsAreHistory(codec: Codec, states: seq<State>, events: seq<Event>, n: nat,
                                               name: bytes, k: nat, a: bytes)
    requires RoundTrips(codec) && Run(codec, states, events) && |states| == |events| + 1
    requires n < |states| && name in states[n].files && k < |states[n].files[name].chunks|
    ensures Lists(states[n].files[name], k, a) <==> FileListed(states, events, n, name, k, a)
    ensures Metadata.Distinct(states[n].files[name].chunks[k].nodes)
  {
    hide *;
    RunShape(codec, states, events);
    RunInvariant(codec, states, events, n);
    UploadsOkEntry(states[n], name);
    ListedOnce(states[n].files[name].chunks, k);
    if n == 0 {
      NoFileAtFirst(states[0], name);
    } else {
      var s, e, t := states[n - 1], events[n - 1], states[n];
      assert Step(codec, s, e, states[n - 1 + 1]);
      RunInvariant(codec, states, events, n - 1);
      UploadsOkEntry(s, name);
      FileListedStep(states, events, n, name, k, a);
      if e.Restart? {
        RestartKeepsFile(codec, s, e, t, name);
        FileListsAreHistory(codec, states, events, n - 1, name, k, a);
      } else {
        StepEffect(codec, s, e, t);
        FileEffect(s, e, name);
        PublishesStores(s, e);
        if Publishes(s, e) && e.name == name {
          UploadLength(s.pending[name], e, name);
          UploadLists(s.pending[name], e, name, k, a);
          UploadListsAreHistory(codec, states, events, n - 1, name, k, a);
        } else {
          FileLength(s.files[name], e, name);
          FileLists(s.files[name], e, name, k, a);
          FileListsAreHistory(codec, states, events, n - 1, name, k, a);
        }
      }
    }
  }

  lemma PublishesStores(s: State, e: Event)
    ensures Publishes(s, e) ==> e.StorePending? && e.name in s.pending
  {
  }
}
