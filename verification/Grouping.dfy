/** Groups of values by key: as runs of a sorted list, and one pair at a time. */
module Grouping {
  import opened Bytes
  import opened RecordCodec

  datatype Group = Group(key: bytes, values: seq<bytes>)

  /** All the values of one key, in order. */
  function ValuesOf(pairs: seq<KeyValue>, key: bytes): seq<bytes>
  {
    if pairs == [] then []
    else
      var last := pairs[|pairs| - 1];
      ValuesOf(pairs[..|pairs| - 1], key) + if last.key == key then [last.value] else []
  }

  /** The values grouped under a key, none when it has no group. */
  function Lookup(groups: seq<Group>, key: bytes): seq<bytes>
  {
    if groups == [] then []
    else if groups[0].key == key then groups[0].values
    else Lookup(groups[1..], key)
  }

  /** Keys strictly increasing, no group empty. */
  predicate Increasing(groups: seq<Group>)
  {
    groups == [] ||
    (groups[0].values != [] &&
     (|groups| > 1 ==> Less(groups[0].key, groups[1].key)) &&
     Increasing(groups[1..]))
  }

  /** Increasing: no group is empty, and each key comes before the next. */
  lemma {:induction false} IncreasingExactly(groups: seq<Group>)
    ensures Increasing(groups) <==>
              && (forall i :: 0 <= i < |groups| ==> groups[i].values != [])
              && (forall i :: 0 <= i < |groups| - 1 ==> Less(groups[i].key, groups[i + 1].key))
  {
    hide Less;
    if groups != [] {
      IncreasingExactly(groups[1..]);
      assert forall i :: 0 < i < |groups| ==> groups[i] == groups[1..][i - 1];
    }
  }

  /** One group for each distinct key, by key, with its values in order. */
  ghost predicate IsGrouping(groups: seq<Group>, pairs: seq<KeyValue>)
  {
    Increasing(groups) && forall key :: Lookup(groups, key) == ValuesOf(pairs, key)
  }

  /** One group for each distinct key, by key, with its values in any order. */
  ghost predicate IsUnorderedGrouping(groups: seq<Group>, pairs: seq<KeyValue>)
  {
    Increasing(groups) && forall key :: multiset(Lookup(groups, key)) == multiset(ValuesOf(pairs, key))
  }

  lemma ValuesOfAppend(pairs: seq<KeyValue>, kv: KeyValue, key: bytes)
    ensures ValuesOf(pairs + [kv], key) == ValuesOf(pairs, key) + if kv.key == key then [kv.value] else []
  {
    assert (pairs + [kv])[..|pairs|] == pairs;
  }

  lemma {:induction false} ValuesOfConcat(a: seq<KeyValue>, b: seq<KeyValue>, key: bytes)
    ensures ValuesOf(a + b, key) == ValuesOf(a, key) + ValuesOf(b, key)
  {
    if b == [] {
      assert a + b == a;
    } else {
      var init, last := b[..|b| - 1], b[|b| - 1];
      assert a + b == (a + init) + [last];
      ValuesOfAppend(a + init, last, key);
      ValuesOfConcat(a, init, key);
    }
  }

  /** How often a value occurs under a key is how often the pair occurs. */
  lemma {:induction false} ValuesOfCounts(pairs: seq<KeyValue>, key: bytes, value: bytes)
    ensures multiset(ValuesOf(pairs, key))[value] == multiset(pairs)[KeyValue(key, value)]
  {
    if pairs != [] {
      var init, last := pairs[..|pairs| - 1], pairs[|pairs| - 1];
      ValuesOfCounts(init, key, value);
      assert pairs == init + [last];
    }
  }

  /** Reordering the pairs reorders the values of each key. */
  lemma ValuesOfPermutation(a: seq<KeyValue>, b: seq<KeyValue>, key: bytes)
    requires multiset(a) == multiset(b)
    ensures multiset(ValuesOf(a, key)) == multiset(ValuesOf(b, key))
  {
    forall value
      ensures multiset(ValuesOf(a, key))[value] == multiset(ValuesOf(b, key))[value]
    {
      ValuesOfCounts(a, key, value);
      ValuesOfCounts(b, key, value);
    }
  }

  // ---------- Runs of equal keys ----------

  function AddLast(groups: seq<Group>, kv: KeyValue): seq<Group>
  {
    if groups == [] then [Group(kv.key, [kv.value])]
    else
      var init, last := groups[..|groups| - 1], groups[|groups| - 1];
      if last.key == kv.key then init + [Group(kv.key, last.values + [kv.value])]
      else groups + [Group(kv.key, [kv.value])]
  }

  /** The maximal runs of equal keys. */
  function Runs(pairs: seq<KeyValue>): seq<Group>
  {
    if pairs == [] then [] else AddLast(Runs(pairs[..|pairs| - 1]), pairs[|pairs| - 1])
  }

  lemma {:induction false} AddGreatest(groups: seq<Group>, kv: KeyValue, key: bytes)
    requires Increasing(groups)
    requires groups != [] ==> Leq(groups[|groups| - 1].key, kv.key)
    ensures Increasing(AddLast(groups, kv))
    ensures Lookup(AddLast(groups, kv), key) == Lookup(groups, key) + if kv.key == key then [kv.value] else []
  {
    var added := AddLast(groups, kv);
    if |groups| == 1 {
      if groups[0].key != kv.key {
        LessOfLeq(groups[0].key, kv.key);
        assert added[1..] == [Group(kv.key, [kv.value])];
      }
    } else if groups != [] {
      assert added == [groups[0]] + AddLast(groups[1..], kv);
      AddGreatest(groups[1..], kv, key);
      FirstBelowLast(groups);
      LeqOfLess(groups[0].key, groups[|groups| - 1].key);
      LessLeq(groups[0].key, groups[|groups| - 1].key, kv.key);
      assert added[1].key == groups[1].key;
    }
  }

  lemma LessLeq(a: bytes, b: bytes, c: bytes)
    requires Less(a, b) && Leq(b, c)
    ensures Less(a, c) && a != c
  {
    LeqOfLess(a, b);
    if b != c {
      LessOfLeq(b, c);
      LessTransitive(a, b, c);
    }
    LeqOfLess(a, c);
  }

  lemma {:induction false} FirstBelowLast(groups: seq<Group>)
    requires Increasing(groups) && |groups| > 1
    ensures Less(groups[0].key, groups[|groups| - 1].key)
  {
    if |groups| > 2 {
      FirstBelowLast(groups[1..]);
      LessTransitive(groups[0].key, groups[1].key, groups[|groups| - 1].key);
    }
  }

  lemma {:induction false} LastRun(pairs: seq<KeyValue>)
    requires pairs != []
    ensures Runs(pairs) != [] && Runs(pairs)[|Runs(pairs)| - 1].key == pairs[|pairs| - 1].key
  {
  }

  /** On pairs in key order the runs are the groups. */
  lemma {:induction false} RunsOfSorted(pairs: seq<KeyValue>)
    requires Sorted(pairs)
    ensures IsGrouping(Runs(pairs), pairs)
  {
    if pairs != [] {
      var init, last := pairs[..|pairs| - 1], pairs[|pairs| - 1];
      RunsOfSorted(init);
      if init != [] {
        LastRun(init);
      }
      AddGreatest(Runs(init), last, last.key);
      forall key
        ensures Lookup(Runs(pairs), key) == ValuesOf(pairs, key)
      {
        AddGreatest(Runs(init), last, key);
      }
    }
  }

  // ---------- One pair at a time ----------

  /** Each pair goes to its key's group, which is made in its place if missing. */
  function Insert(groups: seq<Group>, kv: KeyValue): seq<Group>
  {
    if groups == [] || Less(kv.key, groups[0].key) then [Group(kv.key, [kv.value])] + groups
    else if groups[0].key == kv.key then [Group(kv.key, groups[0].values + [kv.value])] + groups[1..]
    else [groups[0]] + Insert(groups[1..], kv)
  }

  function Sequential(pairs: seq<KeyValue>): seq<Group>
  {
    if pairs == [] then [] else Insert(Sequential(pairs[..|pairs| - 1]), pairs[|pairs| - 1])
  }

  lemma {:induction false} KeysFromFirst(groups: seq<Group>, key: bytes)
    requires Increasing(groups) && groups != [] && Lookup(groups, key) != []
    ensures Leq(groups[0].key, key)
  {
    LeqReflexive(key);
    if groups[0].key != key {
      KeysFromFirst(groups[1..], key);
      LessLeq(groups[0].key, groups[1].key, key);
      LeqOfLess(groups[0].key, key);
    }
  }

  lemma NothingBelowFirst(groups: seq<Group>, key: bytes)
    requires Increasing(groups) && groups != [] && Less(key, groups[0].key)
    ensures Lookup(groups, key) == []
  {
    if Lookup(groups, key) != [] {
      KeysFromFirst(groups, key);
    }
  }

  lemma {:induction false} InsertAdds(groups: seq<Group>, kv: KeyValue, key: bytes)
    requires Increasing(groups)
    ensures Increasing(Insert(groups, kv))
    ensures Lookup(Insert(groups, kv), key) == Lookup(groups, key) + if kv.key == key then [kv.value] else []
  {
    var inserted := Insert(groups, kv);
    if groups == [] {
    } else if Less(kv.key, groups[0].key) {
      NothingBelowFirst(groups, kv.key);
      assert inserted[1..] == groups;
    } else if groups[0].key == kv.key {
      assert inserted[1..] == groups[1..];
    } else {
      InsertAdds(groups[1..], kv, key);
      LessOfLeq(groups[0].key, kv.key);
      assert inserted[1..] == Insert(groups[1..], kv);
    }
  }

  /** The sequential grouping is one, whatever the order of the pairs. */
  lemma {:induction false} SequentialGroups(pairs: seq<KeyValue>)
    ensures IsGrouping(Sequential(pairs), pairs)
  {
    if pairs != [] {
      var init, last := pairs[..|pairs| - 1], pairs[|pairs| - 1];
      SequentialGroups(init);
      InsertAdds(Sequential(init), last, last.key);
      forall key
        ensures Lookup(Sequential(pairs), key) == ValuesOf(pairs, key)
      {
        InsertAdds(Sequential(init), last, key);
      }
    }
  }

  // ---------- Uniqueness ----------

  /** Both lists name the same keys, each with the same values up to order. */
  ghost predicate SameUpToOrder(a: seq<Group>, b: seq<Group>)
  {
    |a| == |b| && forall i :: 0 <= i < |a| ==> a[i].key == b[i].key && multiset(a[i].values) == multiset(b[i].values)
  }

  lemma NonemptyMultiset(s: seq<bytes>)
    ensures multiset(s) == multiset{} <==> s == []
  {
    if s != [] {
      assert s[0] in multiset(s);
    }
  }

  lemma FirstKeysAgree(a: seq<Group>, b: seq<Group>)
    requires Increasing(a) && Increasing(b) && a != []
    requires forall key :: multiset(Lookup(a, key)) == multiset(Lookup(b, key))
    ensures b != [] && Leq(b[0].key, a[0].key)
  {
    var key := a[0].key;
    NonemptyMultiset(Lookup(a, key));
    NonemptyMultiset(Lookup(b, key));
    KeysFromFirst(b, key);
  }

  /** Groups in key order are determined by the values of each key. */
  lemma {:induction false} GroupingsAgree(a: seq<Group>, b: seq<Group>)
    requires Increasing(a) && Increasing(b)
    requires forall key :: multiset(Lookup(a, key)) == multiset(Lookup(b, key))
    ensures SameUpToOrder(a, b)
  {
    if a == [] || b == [] {
      if a != [] {
        FirstKeysAgree(a, b);
      }
      if b != [] {
        FirstKeysAgree(b, a);
      }
    } else {
      FirstKeysAgree(a, b);
      FirstKeysAgree(b, a);
      var first := a[0].key;
      LessTotal(first, b[0].key);
      assert multiset(Lookup(a, first)) == multiset(Lookup(b, first));
      forall key
        ensures multiset(Lookup(a[1..], key)) == multiset(Lookup(b[1..], key))
      {
        assert multiset(Lookup(a, key)) == multiset(Lookup(b, key));
        if key == first {
          FirstNotLater(a);
          FirstNotLater(b);
        }
      }
      GroupingsAgree(a[1..], b[1..]);
    }
  }

  lemma FirstNotLater(groups: seq<Group>)
    requires Increasing(groups) && groups != []
    ensures Lookup(groups[1..], groups[0].key) == []
  {
    if |groups| > 1 {
      NothingBelowFirst(groups[1..], groups[0].key);
    }
  }
}
