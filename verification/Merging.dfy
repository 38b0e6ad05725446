/** What a k-way merge must produce, and one step of it, on plain sequences. */
module Merging {
  import opened Bytes
  import opened RecordCodec

  function Union(streams: seq<seq<KeyValue>>): multiset<KeyValue>
  {
    if streams == [] then multiset{} else multiset(streams[0]) + Union(streams[1..])
  }

  predicate AllSorted(streams: seq<seq<KeyValue>>)
  {
    forall i :: 0 <= i < |streams| ==> Sorted(streams[i])
  }

  /** merged holds the records of all the streams, by key when every stream is by key. */
  predicate MergeOf(streams: seq<seq<KeyValue>>, merged: seq<KeyValue>)
  {
    multiset(merged) == Union(streams) && (AllSorted(streams) ==> Sorted(merged))
  }

  lemma {:induction false} UnionConcat(a: seq<seq<KeyValue>>, b: seq<seq<KeyValue>>)
    ensures Union(a + b) == Union(a) + Union(b)
  {
    if a == [] {
      assert a + b == b;
    } else {
      assert (a + b)[1..] == a[1..] + b;
      UnionConcat(a[1..], b);
    }
  }

  lemma UnionOne(s: seq<KeyValue>)
    ensures Union([s]) == multiset(s)
  {
    assert Union([s]) == multiset(s) + Union([]);
  }

  lemma UnionAppend(streams: seq<seq<KeyValue>>, s: seq<KeyValue>)
    ensures Union(streams + [s]) == Union(streams) + multiset(s)
  {
    UnionConcat(streams, [s]);
    UnionOne(s);
  }

  lemma {:induction false} UnionPop(streams: seq<seq<KeyValue>>, k: nat)
    requires k < |streams| && streams[k] != []
    ensures Union(streams) == Union(streams[k := streams[k][1..]]) + multiset{streams[k][0]}
  {
    var popped := streams[k := streams[k][1..]];
    if k == 0 {
      assert popped[1..] == streams[1..];
      assert streams[0] == [streams[0][0]] + streams[0][1..];
    } else {
      assert popped[1..] == streams[1..][k - 1 := streams[1..][k - 1][1..]];
      UnionPop(streams[1..], k - 1);
    }
  }

  lemma {:induction false} UnionMember(streams: seq<seq<KeyValue>>, kv: KeyValue)
    ensures kv in Union(streams) <==> exists i :: 0 <= i < |streams| && kv in streams[i]
  {
    if streams != [] {
      UnionMember(streams[1..], kv);
      if kv in Union(streams[1..]) {
        var i :| 0 <= i < |streams[1..]| && kv in streams[1..][i];
        assert kv in streams[i + 1];
      }
      if i :| 0 <= i < |streams| && kv in streams[i] {
        if i > 0 {
          assert kv in streams[1..][i - 1];
        }
      }
    }
  }

  /** Everything merged so far may come before everything still in the streams. */
  predicate Before(merged: seq<KeyValue>, streams: seq<seq<KeyValue>>)
  {
    forall m, i, x :: m in merged && 0 <= i < |streams| && x in streams[i] ==> Leq(m.key, x.key)
  }

  /** Stream k starts with a least key. */
  predicate Least(streams: seq<seq<KeyValue>>, k: nat)
  {
    && k < |streams| && streams[k] != []
    && forall i :: 0 <= i < |streams| && streams[i] != [] ==> Leq(streams[k][0].key, streams[i][0].key)
  }

  /** Taking a least head keeps the merge sorted and conserves the records. */
  lemma MergeStep(streams: seq<seq<KeyValue>>, k: nat, merged: seq<KeyValue>)
    requires Least(streams, k)
    ensures Union(streams) == Union(streams[k := streams[k][1..]]) + multiset{streams[k][0]}
    ensures AllSorted(streams) && Sorted(merged) && Before(merged, streams) ==>
              && AllSorted(streams[k := streams[k][1..]])
              && Sorted(merged + [streams[k][0]])
              && Before(merged + [streams[k][0]], streams[k := streams[k][1..]])
  {
    var head, tail := streams[k][0], streams[k][1..];
    UnionPop(streams, k);
    if AllSorted(streams) && Sorted(merged) && Before(merged, streams) {
      var rest := streams[k := tail];
      LeastHeadLeqAll(streams, k);
      forall m: KeyValue, i: int, x: KeyValue | m in merged + [head] && 0 <= i < |rest| && x in rest[i]
        ensures Leq(m.key, x.key)
      {
        assert x in streams[i];
      }
    }
  }

  lemma LeastHeadLeqAll(streams: seq<seq<KeyValue>>, k: nat)
    requires Least(streams, k) && AllSorted(streams)
    ensures forall i, x :: 0 <= i < |streams| && x in streams[i] ==> Leq(streams[k][0].key, x.key)
  {
    forall i: int, x: KeyValue | 0 <= i < |streams| && x in streams[i]
      ensures Leq(streams[k][0].key, x.key)
    {
      var j :| 0 <= j < |streams[i]| && streams[i][j] == x;
      if j > 0 {
        LeqTransitive(streams[k][0].key, streams[i][0].key, x.key);
      }
    }
  }

  /** Part of `start` is in `merged`, the rest still in `streams`. */
  predicate PartlyMerged(start: seq<seq<KeyValue>>, streams: seq<seq<KeyValue>>, merged: seq<KeyValue>)
  {
    && Union(start) == Union(streams) + multiset(merged)
    && (AllSorted(start) ==> AllSorted(streams) && Sorted(merged) && Before(merged, streams))
  }

  lemma MergedFurther(start: seq<seq<KeyValue>>, streams: seq<seq<KeyValue>>, k: nat, merged: seq<KeyValue>)
    requires PartlyMerged(start, streams, merged) && Least(streams, k)
    ensures PartlyMerged(start, streams[k := streams[k][1..]], merged + [streams[k][0]])
    ensures |Union(streams[k := streams[k][1..]])| < |Union(streams)|
  {
    MergeStep(streams, k, merged);
  }

  /** Merging `fewer` is as good as merging `streams`. */
  predicate StandsFor(fewer: seq<seq<KeyValue>>, streams: seq<seq<KeyValue>>)
  {
    Union(fewer) == Union(streams) && (AllSorted(streams) ==> AllSorted(fewer))
  }

  lemma StandsForAppend(fewer: seq<seq<KeyValue>>, streams: seq<seq<KeyValue>>, s: seq<KeyValue>)
    requires StandsFor(fewer, streams)
    ensures StandsFor(fewer + [s], streams + [s])
    ensures s == [] ==> StandsFor(fewer, streams + [s])
  {
    UnionAppend(fewer, s);
    UnionAppend(streams, s);
    PrefixSorted(streams, [s]);
  }

  lemma PrefixSorted(a: seq<seq<KeyValue>>, b: seq<seq<KeyValue>>)
    ensures AllSorted(a + b) <==> AllSorted(a) && AllSorted(b)
  {
    var both := a + b;
    if AllSorted(both) {
      assert forall i :: 0 <= i < |a| ==> a[i] == both[i];
      assert forall i :: 0 <= i < |b| ==> b[i] == both[|a| + i];
    }
    if AllSorted(a) && AllSorted(b) {
      assert forall i :: 0 <= i < |both| ==> both[i] == if i < |a| then a[i] else b[i - |a|];
    }
  }

  /** A merged batch stands for its streams. */
  lemma StandsForBatch(fewer: seq<seq<KeyValue>>, streams: seq<seq<KeyValue>>,
                       batch: seq<seq<KeyValue>>, merged: seq<KeyValue>)
    requires StandsFor(fewer, streams) && MergeOf(batch, merged)
    ensures StandsFor(fewer + [merged], streams + batch)
  {
    UnionAppend(fewer, merged);
    UnionConcat(streams, batch);
    PrefixSorted(streams, batch);
  }

  lemma MergeStandsFor(fewer: seq<seq<KeyValue>>, streams: seq<seq<KeyValue>>, merged: seq<KeyValue>)
    requires StandsFor(fewer, streams) && MergeOf(fewer, merged)
    ensures MergeOf(streams, merged)
  {
  }

  /** Neighbours of what sorted streams merge into: the same key, or the one a dictionary lists first comes first. */
  lemma MergedInOrder(streams: seq<seq<KeyValue>>, merged: seq<KeyValue>, i: nat, a: bytes, b: bytes)
    requires MergeOf(streams, merged)
    requires forall s: seq<KeyValue>, j: int :: s in streams && 0 <= j < |s| - 1 ==> Leq(s[j].key, s[j + 1].key)
    requires i + 1 < |merged| && a == merged[i].key && b == merged[i + 1].key
    ensures || (|a| <= |b| && a == b[..|a|])
            || exists k :: 0 <= k < |a| && k < |b| && a[..k] == b[..k] && a[k] < b[k]
  {
    hide Leq, Sorted, Union;
    forall j | 0 <= j < |streams|
      ensures Sorted(streams[j])
    {
      SortedExactly(streams[j]);
      assert streams[j] in streams;
    }
    NeighboursInOrder(merged, i, a, b);
  }

  /** What holds of every record of the streams holds of every merged record. */
  lemma MergedWellFormed(streams: seq<seq<KeyValue>>, merged: seq<KeyValue>)
    requires MergeOf(streams, merged)
    requires forall i :: 0 <= i < |streams| ==> AllWellFormed(streams[i])
    ensures AllWellFormed(merged)
  {
    forall kv | kv in merged
      ensures WellFormed(kv)
    {
      assert kv in multiset(merged);
      UnionMember(streams, kv);
    }
  }
}
