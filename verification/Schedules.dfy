/** Attempts at the map or reduce tasks of a job, in the order in which they end. */
module Schedules {
  import opened Bytes
  import opened RecordCodec
  import opened Partitioning
  import opened Disks
  import opened Names
  import opened JobSide

  /** An attempt that fails loses some of its files and leaves others behind, with anything in them. */
  datatype Outcome = Succeeds | Fails(lost: set<Path>, left: Files)

  datatype Attempt = Attempt(index: nat, addr: bytes, outcome: Outcome)

  /** Some attempt before the k-th succeeded at this index. */
  ghost predicate Achieved(attempts: seq<Attempt>, k: nat, index: nat)
  {
    exists j :: 0 <= j < k && j < |attempts| && attempts[j].index == index && attempts[j].outcome.Succeeds?
  }

  /** Every index is tried until an attempt at it succeeds, and not again; indices may take turns in any way. */
  ghost predicate Schedule(attempts: seq<Attempt>, n: nat, addresses: set<bytes>)
  {
    && (forall k :: 0 <= k < |attempts| ==> attempts[k].index < n && attempts[k].addr in addresses)
    && (forall k :: 0 <= k < |attempts| ==> !Achieved(attempts, k, attempts[k].index))
    && forall index: nat :: index < n ==> Achieved(attempts, |attempts|, index)
  }

  /** Where each index succeeded. */
  ghost predicate Placed(attempts: seq<Attempt>, k: nat, addrs: seq<bytes>)
  {
    forall j :: 0 <= j < k && j < |attempts| && attempts[j].outcome.Succeeds? ==>
      attempts[j].index < |addrs| && addrs[attempts[j].index] == attempts[j].addr
  }

  lemma NothingDone(attempts: seq<Attempt>)
    ensures forall index: nat :: !Achieved(attempts, 0, index)
    ensures forall addrs :: Placed(attempts, 0, addrs)
  {
  }

  lemma OneMoreAttempt(attempts: seq<Attempt>, k: nat, index: nat)
    requires k < |attempts|
    ensures Achieved(attempts, k + 1, index)
       <==> Achieved(attempts, k, index) || (attempts[k].index == index && attempts[k].outcome.Succeeds?)
  {
  }

  lemma PlaceOne(attempts: seq<Attempt>, k: nat, addrs: seq<bytes>)
    requires k < |attempts| && attempts[k].index < |addrs| && Placed(attempts, k, addrs)
    requires !Achieved(attempts, k, attempts[k].index)
    ensures Placed(attempts, k + 1, addrs[attempts[k].index := attempts[k].addr])
    ensures attempts[k].outcome.Fails? ==> Placed(attempts, k + 1, addrs)
  {
  }

  // ---------- What a failed attempt may touch ----------

  /** The files a map task writes: spills, their indices, and the intermediate file with its index. */
  ghost predicate OwnMapPath(id: bytes, p: Path)
  {
    || p.kind == Spill || p == InterPath(id) || p == IndexPath(id)
    || exists i: nat :: p == SpillIndexPath(id, i)
  }

  /** The files a reduce task writes. */
  predicate OwnReducePath(job: bytes, r: nat, p: Path)
  {
    p.kind == Fetched || p.kind == SortedRun || p.kind == MergedRun || p == ResultPath(job, r)
  }

  ghost predicate MapScratch(attempts: seq<Attempt>, tasks: seq<Task>)
  {
    forall k, p :: 0 <= k < |attempts| && attempts[k].outcome.Fails? && attempts[k].index < |tasks|
                   && (p in attempts[k].outcome.lost || p in attempts[k].outcome.left) ==>
      OwnMapPath(tasks[attempts[k].index].id, p)
  }

  ghost predicate ReduceScratch(attempts: seq<Attempt>, job: bytes)
  {
    forall k, p :: 0 <= k < |attempts| && attempts[k].outcome.Fails?
                   && (p in attempts[k].outcome.lost || p in attempts[k].outcome.left) ==>
      OwnReducePath(job, attempts[k].index, p)
  }

  /** What a failed attempt makes of the files. */
  function AfterFailure(files: Files, outcome: Outcome): Files
    requires outcome.Fails?
  {
    files - outcome.lost + outcome.left
  }

  lemma FailureElsewhere(files: Files, outcome: Outcome, p: Path)
    requires outcome.Fails? && p !in outcome.lost && p !in outcome.left
    ensures p in AfterFailure(files, outcome) <==> p in files
    ensures p in files ==> AfterFailure(files, outcome)[p] == files[p]
  {
  }

  /** A failed map task leaves the finished files of the others alone. */
  lemma FailedMapKeeps(files: Files, outcome: Outcome, task: bytes, id: bytes, parts: seq<seq<KeyValue>>)
    requires outcome.Fails? && forall p :: p in outcome.lost || p in outcome.left ==> OwnMapPath(task, p)
    requires id != task && forall i: nat :: id != Numbered(task, i)
    requires FilesHold(files, id, parts)
    ensures FilesHold(AfterFailure(files, outcome), id, parts)
  {
    hide Numbered, AfterFailure;
    FailureElsewhere(files, outcome, InterPath(id));
    FailureElsewhere(files, outcome, IndexPath(id));
  }

  /** A failed reduce task leaves the map tasks' files and the other results alone. */
  lemma FailedReduceKeeps(files: Files, outcome: Outcome, job: bytes, r: nat)
    requires outcome.Fails? && forall p :: p in outcome.lost || p in outcome.left ==> OwnReducePath(job, r, p)
    ensures var after := AfterFailure(files, outcome);
            && (forall id, parts :: FilesHold(files, id, parts) ==> FilesHold(after, id, parts))
            && (forall q: nat :: q != r && ResultPath(job, q) in files ==>
                  ResultPath(job, q) in after && after[ResultPath(job, q)] == files[ResultPath(job, q)])
  {
    hide Numbered, Layout;
    forall q: nat | q != r
      ensures ResultPath(job, q) != ResultPath(job, r)
    {
      NumberedInjective(job, q, job, r);
    }
  }
}
