/** The order inside container/heap's slice, on the keys alone. */
module HeapOrder {
  import opened Bytes

  function Parent(k: nat): nat
    requires k > 0
  {
    (k - 1) / 2
  }

  function Swapped<T>(s: seq<T>, i: nat, j: nat): (t: seq<T>)
    requires i < |s| && j < |s|
    ensures |t| == |s|
  {
    s[i := s[j]][j := s[i]]
  }

  predicate AtLeastParent(keys: seq<bytes>, k: nat)
    requires 0 < k < |keys|
  {
    Leq(keys[Parent(k)], keys[k])
  }

  /** No key is smaller than its parent's. */
  predicate Heap(keys: seq<bytes>)
  {
    forall k :: 0 < k < |keys| ==> AtLeastParent(keys, k)
  }

  /** A heap, but for the key at j, which may be smaller than its parent's. */
  predicate HeapButUp(keys: seq<bytes>, j: nat)
  {
    && (forall k :: 0 < k < |keys| && k != j ==> AtLeastParent(keys, k))
    && (forall k :: 0 < j < |keys| && 0 < k < |keys| && Parent(k) == j ==> Leq(keys[Parent(j)], keys[k]))
  }

  /** The first n keys are a heap, but for the key at i, which may be greater than its children's. */
  predicate HeapButDown(keys: seq<bytes>, n: nat, i: nat)
    requires n <= |keys|
  {
    && (forall k :: 0 < k < n && Parent(k) != i ==> AtLeastParent(keys, k))
    && (forall k :: 0 < i < n && 0 < k < n && Parent(k) == i ==> Leq(keys[Parent(i)], keys[k]))
  }

  lemma UpStep(keys: seq<bytes>, j: nat)
    requires 0 < j < |keys| && HeapButUp(keys, j)
    requires Less(keys[j], keys[Parent(j)])
    ensures HeapButUp(Swapped(keys, Parent(j), j), Parent(j))
  {
    var i := Parent(j);
    var swapped := Swapped(keys, i, j);
    LeqOfLess(keys[j], keys[i]);
    forall k | 0 < k < |keys| && k != j && Parent(k) == i
      ensures Leq(keys[j], keys[k])
      ensures i > 0 ==> Leq(keys[Parent(i)], keys[k])
    {
      assert AtLeastParent(keys, k);
      LeqTransitive(keys[j], keys[i], keys[k]);
      if i > 0 {
        assert AtLeastParent(keys, i);
        LeqTransitive(keys[Parent(i)], keys[i], keys[k]);
      }
    }
    forall k | 0 < k < |keys| && k != i
      ensures AtLeastParent(swapped, k)
    {
      assert k != j ==> AtLeastParent(keys, k);
    }
    forall k | 0 < i < |keys| && 0 < k < |keys| && Parent(k) == i
      ensures Leq(swapped[Parent(i)], swapped[k])
    {
      assert AtLeastParent(keys, i);
    }
  }

  lemma DownStep(keys: seq<bytes>, n: nat, i: nat, j: nat)
    requires n <= |keys| && 0 < j < n && Parent(j) == i && HeapButDown(keys, n, i)
    requires forall k :: 0 < k < n && Parent(k) == i ==> Leq(keys[j], keys[k])
    requires Less(keys[j], keys[i])
    ensures HeapButDown(Swapped(keys, i, j), n, j)
  {
    LeqOfLess(keys[j], keys[i]);
    var swapped := Swapped(keys, i, j);
    forall k | 0 < k < n && Parent(k) != j
      ensures AtLeastParent(swapped, k)
    {
      assert Parent(k) != i ==> AtLeastParent(keys, k);
    }
    forall k | 0 < k < n && Parent(k) == j
      ensures Leq(swapped[i], swapped[k])
    {
      assert AtLeastParent(keys, k);
    }
  }

  lemma {:induction false} RootIsLeast(keys: seq<bytes>, k: nat)
    requires Heap(keys) && k < |keys|
    ensures Leq(keys[0], keys[k])
  {
    if k == 0 {
      LeqReflexive(keys[0]);
    } else {
      RootIsLeast(keys, Parent(k));
      assert AtLeastParent(keys, k);
      LeqTransitive(keys[0], keys[Parent(k)], keys[k]);
    }
  }
}
