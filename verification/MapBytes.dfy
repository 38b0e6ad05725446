/** Bytes through spilling and merging: none is lost, none is counted twice. */
module MapBytes {
  import opened Bytes
  import opened RecordCodec
  import opened Partitioning
  import opened MapSide

  /** The bytes of each part. */
  function Sizes(parts: seq<seq<KeyValue>>): (sizes: seq<nat>)
    ensures |sizes| == |parts|
    ensures forall r :: 0 <= r < |parts| ==> sizes[r] == |EncodeAll(parts[r])|
  {
    seq(|parts|, r requires 0 <= r < |parts| => |EncodeAll(parts[r])|)
  }

  /** The bytes of each partition of the pairs. */
  function SelectedSizes(pairs: seq<KeyValue>, numReducers: nat): (sizes: seq<nat>)
    requires numReducers > 0
    ensures |sizes| == numReducers
    ensures forall r :: 0 <= r < numReducers ==> sizes[r] == |EncodeAll(Select(pairs, numReducers, r))|
  {
    seq(numReducers, r requires 0 <= r < numReducers => |EncodeAll(Select(pairs, numReducers, r))|)
  }

  lemma {:induction false} SumUpdate(ns: seq<nat>, r: nat, n: nat)
    requires r < |ns|
    ensures Sum(ns[r := ns[r] + n]) == Sum(ns) + n
  {
    if r > 0 {
      SumUpdate(ns[1..], r - 1, n);
      assert ns[r := ns[r] + n][1..] == ns[1..][r - 1 := ns[1..][r - 1] + n];
    } else {
      assert ns[r := ns[r] + n][1..] == ns[1..];
    }
  }

  lemma {:induction false} SumOfNothing(ns: seq<nat>)
    requires forall i :: 0 <= i < |ns| ==> ns[i] == 0
    ensures Sum(ns) == 0
  {
    if ns != [] {
      SumOfNothing(ns[1..]);
    }
  }

  /** The sizes of the regions add up to the size of the file. */
  lemma {:induction false} SizesTileLayout(parts: seq<seq<KeyValue>>)
    ensures Sum(Sizes(parts)) == |Layout(parts)|
  {
    hide EncodeAll;
    if parts != [] {
      var n := |parts| - 1;
      SizesTileLayout(parts[..n]);
      assert Sizes(parts) == Sizes(parts[..n]) + [|EncodeAll(parts[n])|];
      SumAppend(Sizes(parts[..n]), |EncodeAll(parts[n])|);
    }
  }

  /** Every pair is in exactly one partition, byte for byte. */
  lemma {:induction false} SelectedSizesSum(pairs: seq<KeyValue>, numReducers: nat)
    requires numReducers > 0
    ensures Sum(SelectedSizes(pairs, numReducers)) == |EncodeAll(pairs)|
  {
    hide Hash, Encode, EncodeAll, Select, PartOf, Sum;
    var sizes := SelectedSizes(pairs, numReducers);
    if pairs == [] {
      EncodeNothing();
      forall q | 0 <= q < numReducers
        ensures sizes[q] == 0
      {
        SelectNothing(numReducers, q);
      }
      SumOfNothing(sizes);
    } else {
      EncodeFirst(pairs);
      var rest := SelectedSizes(pairs[1..], numReducers);
      var r := PartOf(pairs[0].key, numReducers);
      SelectedSizesSum(pairs[1..], numReducers);
      forall q | 0 <= q < numReducers
        ensures sizes[q] == rest[q] + if q == r then |Encode(pairs[0])| else 0
      {
        SelectedFirst(pairs, numReducers, q);
      }
      assert sizes == rest[r := rest[r] + |Encode(pairs[0])|];
      SumUpdate(rest, r, |Encode(pairs[0])|);
    }
  }

  lemma SelectedFirst(pairs: seq<KeyValue>, numReducers: nat, q: nat)
    requires numReducers > 0 && pairs != []
    ensures |EncodeAll(Select(pairs, numReducers, q))|
         == |EncodeAll(Select(pairs[1..], numReducers, q))| +
            if PartOf(pairs[0].key, numReducers) == q then |Encode(pairs[0])| else 0
  {
    hide Hash, Encode, EncodeAll;
    var rest := Select(pairs[1..], numReducers, q);
    EncodeFirst([pairs[0]] + rest);
    assert ([pairs[0]] + rest)[1..] == rest && [] + rest == rest;
  }

  /** The file of a partition takes as many bytes as the pairs. */
  lemma PartitionSize(pairs: seq<KeyValue>, numReducers: nat, parts: seq<seq<KeyValue>>)
    requires numReducers > 0 && IsPartition(pairs, numReducers, parts)
    ensures |Layout(parts)| == Sum(Sizes(parts)) == |EncodeAll(pairs)|
  {
    hide Hash, EncodeAll, Select, Sorted, Layout, Sum;
    SizesTileLayout(parts);
    SelectedSizesSum(pairs, numReducers);
    forall r | 0 <= r < numReducers
      ensures Sizes(parts)[r] == SelectedSizes(pairs, numReducers)[r]
    {
      SizeOfPermutation(parts[r], Select(pairs, numReducers, r));
    }
    assert Sizes(parts) == SelectedSizes(pairs, numReducers);
  }

  /** The bytes of all the spill files. */
  function SpillBytes(spilled: seq<seq<seq<KeyValue>>>): nat
  {
    if spilled == [] then 0 else SpillBytes(spilled[..|spilled| - 1]) + |Layout(spilled[|spilled| - 1])|
  }

  lemma {:induction false} SpillBytesAre(buffers: seq<seq<KeyValue>>, numReducers: nat,
                                         spilled: seq<seq<seq<KeyValue>>>)
    requires numReducers > 0 && AllSpilled(buffers, numReducers, spilled)
    ensures SpillBytes(spilled) == |EncodeAll(Flatten(buffers))|
  {
    hide EncodeAll, Layout, IsPartition;
    if buffers == [] {
      assert EncodeAll([]) == [] by { EncodeNothing(); }
    } else {
      var n := |buffers| - 1;
      SpillBytesAre(buffers[..n], numReducers, spilled[..n]);
      PartitionSize(buffers[n], numReducers, spilled[n]);
      EncodeAllConcat(Flatten(buffers[..n]), buffers[n]);
    }
  }

  /** However the pairs were spilled, the merged file takes as many bytes as all the spill files together. */
  lemma MergingKeepsBytes(buffers: seq<seq<KeyValue>>, numReducers: nat, spilled: seq<seq<seq<KeyValue>>>,
                          merged: seq<seq<KeyValue>>)
    requires numReducers > 0 && AllSpilled(buffers, numReducers, spilled)
    requires IsPartition(Flatten(buffers), numReducers, merged)
    ensures Sum(Sizes(merged)) == |Layout(merged)| == SpillBytes(spilled)
  {
    hide EncodeAll, Layout, IsPartition, Sum, Flatten, AllSpilled;
    PartitionSize(Flatten(buffers), numReducers, merged);
    SpillBytesAre(buffers, numReducers, spilled);
  }
}
