/** KVScanner, and the heap of scanners ordered by the key each of them currently shows. */
module KVScanners {
  import opened Bytes
  import opened Lines
  import opened RecordCodec
  import opened HeapOrder

  class KVScanner {
    var input: bytes  // what the buffered scanner has not yielded yet
    var current: KeyValue
    var valid: bool
    ghost var rest: seq<KeyValue>  // the records in that input

    ghost predicate Valid()
      reads this
    {
      rest == Records(input)
    }

    constructor (input: bytes)
      ensures Valid() && this.input == input && !valid
    {
      this.input := input;
      current := KeyValue([], []);
      valid := false;
      rest := Records(input);
    }

    /** The record shown now and all that follow. */
    ghost function Pending(): seq<KeyValue>
      reads this
    {
      if valid then [current] + rest else []
    }

    method Next() returns (ok: bool)
      requires Valid()
      modifies this
      ensures Valid() && ok == valid == (old(rest) != [])
      ensures Pending() == old(rest)
    {
      while true
        invariant rest == old(rest) == Records(input)
        decreases |input|
      {
        var scan := NextLine(input, MAX_TOKEN);
        if scan == Done {
          break;
        }
        input := scan.rest;
        var record := ParseLine(scan.line);
        if record.Some? {
          current := record.value;
          valid := true;
          rest := rest[1..];
          return true;
        }
      }
      input := [];
      valid := false;
      return false;
    }
  }

  class ScannerHeap {
    var h: seq<KVScanner>

    constructor ()
      ensures h == []
    {
      h := [];
    }

    ghost function Keys(): (keys: seq<bytes>)
      reads this, h
      ensures |keys| == |h|
      ensures forall i :: 0 <= i < |h| ==> keys[i] == h[i].current.key
    {
      seq(|h|, i requires 0 <= i < |h| reads this, h => h[i].current.key)
    }

    /** In heap order, no scanner twice. */
    ghost predicate Valid()
      reads this, h
    {
      Heap(Keys()) && Distinct(h)
    }

    ghost function Members(): set<KVScanner>
      reads this
    {
      set s | s in h
    }

    predicate Less(i: nat, j: nat)
      requires i < |h| && j < |h|
      reads this, h
    {
      Bytes.Less(h[i].current.key, h[j].current.key)
    }

    method Swap(i: nat, j: nat)
      requires i < |h| && j < |h|
      modifies this
      ensures h == Swapped(old(h), i, j)
      ensures multiset(h) == multiset(old(h))
      ensures Keys() == Swapped(old(Keys()), i, j)
    {
      h := h[i := h[j]][j := h[i]];
    }

    method Up(start: nat)
      requires start < |h| && HeapButUp(Keys(), start)
      modifies this
      ensures Heap(Keys()) && multiset(h) == multiset(old(h))
    {
      var j: nat := start;
      while true
        invariant j < |h| && HeapButUp(Keys(), j)
        invariant multiset(h) == multiset(old(h))
        decreases j
      {
        var i: nat := if j == 0 then 0 else (j - 1) / 2;
        if i == j || !Less(j, i) {
          break;
        }
        UpStep(Keys(), j);
        Swap(i, j);
        j := i;
      }
    }

    method Down(start: nat, n: nat)
      requires start < n <= |h| && HeapButDown(Keys(), n, start)
      modifies this
      ensures |h| == old(|h|) && h[n..] == old(h[n..])
      ensures Heap(Keys()[..n]) && multiset(h) == multiset(old(h))
    {
      var i: nat := start;
      while true
        invariant |h| == old(|h|) && i < n && h[n..] == old(h[n..])
        invariant HeapButDown(Keys(), n, i)
        invariant multiset(h) == multiset(old(h))
        decreases n - i
      {
        if 2 * i + 1 >= n {
          break;
        }
        var j := SmallerChild(i, n);
        if !Less(j, i) {
          BelowBoth(Keys(), n, i, j);
          break;
        }
        DownStep(Keys(), n, i, j);
        Swap(i, j);
        i := j;
      }
    }

    method SmallerChild(i: nat, n: nat) returns (j: nat)
      requires 2 * i + 1 < n <= |h|
      ensures 0 < j < n && Parent(j) == i
      ensures forall k :: 0 < k < n && Parent(k) == i ==> Leq(Keys()[j], Keys()[k])
    {
      j := 2 * i + 1;
      LeqReflexive(h[j].current.key);
      if j + 1 < n && Less(j + 1, j) {
        LeqOfLess(h[j + 1].current.key, h[j].current.key);
        j := j + 1;
        LeqReflexive(h[j].current.key);
      }
    }

    /** heap.Push */
    method Push(s: KVScanner)
      requires Valid() && s !in h
      modifies this
      ensures Valid() && Members() == old(Members()) + {s}
    {
      ghost var keys := Keys();
      h := h + [s];
      AppendedLast(keys, s.current.key);
      assert Keys() == keys + [s.current.key];
      ghost var before := h;
      Up(|h| - 1);
      SameMembers(before, h);
    }

    /** heap.Pop */
    method Pop() returns (s: KVScanner)
      requires h != [] && Valid()
      modifies this
      ensures Valid() && s in old(h) && Members() == old(Members()) - {s}
      ensures forall t :: t in old(h) ==> Leq(s.current.key, t.current.key)
    {
      RootLeqAll();
      var n := |h| - 1;
      ghost var before := h;
      RootToEnd(n);
      s := h[n];
      SameMembers(before, h);
      ghost var keys := Keys();
      h := h[..n];
      assert Keys() == keys[..n];
    }

    method RootToEnd(n: nat)
      requires |h| == n + 1 && Heap(Keys())
      modifies this
      ensures |h| == n + 1 && h[n] == old(h[0])
      ensures Heap(Keys()[..n]) && multiset(h) == multiset(old(h))
    {
      HeapWithoutRoot(Keys());
      Swap(0, n);
      if n > 0 {
        ghost var last := h[n..];
        Down(0, n);
        assert h[n..] == last;
        assert h[n] == h[n..][0] == last[0];
      }
    }

    lemma RootLeqAll()
      requires h != [] && Heap(Keys())
      ensures forall t :: t in h ==> Leq(h[0].current.key, t.current.key)
    {
      forall i | 0 <= i < |h|
        ensures Leq(h[0].current.key, h[i].current.key)
      {
        RootIsLeast(Keys(), i);
      }
    }
  }

  ghost predicate Distinct(s: seq<KVScanner>)
  {
    forall i, j :: 0 <= i < j < |s| ==> s[i] != s[j]
  }

  lemma {:induction false} DistinctCounts(s: seq<KVScanner>)
    ensures Distinct(s) <==> forall x :: x in s ==> multiset(s)[x] == 1
  {
    if s != [] {
      var last := s[|s| - 1];
      var init := s[..|s| - 1];
      assert s == init + [last];
      DistinctCounts(init);
      assert multiset(s) == multiset(init) + multiset{last};
      if Distinct(s) {
        assert last !in init;
      }
      if forall x :: x in s ==> multiset(s)[x] == 1 {
        assert multiset(s)[last] == 1;
        assert last !in multiset(init);
        forall x | x in init
          ensures multiset(init)[x] == 1
        {
          assert x in s;
        }
      }
    }
  }

  lemma SameMembers(s: seq<KVScanner>, t: seq<KVScanner>)
    requires multiset(s) == multiset(t) && Distinct(s)
    ensures Distinct(t) && forall x :: x in s <==> x in t
  {
    DistinctCounts(s);
    DistinctCounts(t);
    assert forall x :: x in s <==> x in multiset(s);
    assert forall x :: x in t <==> x in multiset(t);
  }

  lemma AppendedLast(keys: seq<bytes>, key: bytes)
    requires Heap(keys)
    ensures HeapButUp(keys + [key], |keys|)
  {
    forall k | 0 < k < |keys|
      ensures AtLeastParent(keys + [key], k)
    {
      assert AtLeastParent(keys, k);
    }
  }

  lemma HeapWithoutRoot(keys: seq<bytes>)
    requires keys != [] && Heap(keys)
    ensures HeapButDown(Swapped(keys, 0, |keys| - 1), |keys| - 1, 0)
  {
    var swapped := Swapped(keys, 0, |keys| - 1);
    forall k | 0 < k < |keys| - 1 && Parent(k) != 0
      ensures AtLeastParent(swapped, k)
    {
      assert AtLeastParent(keys, k);
    }
  }

  lemma BelowBoth(keys: seq<bytes>, n: nat, i: nat, j: nat)
    requires n <= |keys| && i < n && j < n && HeapButDown(keys, n, i)
    requires forall k :: 0 < k < n && Parent(k) == i ==> Leq(keys[j], keys[k])
    requires Leq(keys[i], keys[j])
    ensures Heap(keys[..n])
  {
    forall k | 0 < k < n
      ensures AtLeastParent(keys[..n], k)
    {
      if Parent(k) == i {
        LeqTransitive(keys[i], keys[j], keys[k]);
      } else {
        assert AtLeastParent(keys, k);
      }
    }
  }
}
