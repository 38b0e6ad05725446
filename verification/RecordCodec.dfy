/** The key-value records of intermediate files: `key TAB value NEWLINE`. */
module RecordCodec {
  import opened Bytes
  import opened Lines

  datatype KeyValue = KeyValue(key: bytes, value: bytes)

  /** The bytes written for one record. */
  function Encode(kv: KeyValue): bytes
  {
    kv.key + [TAB] + kv.value + [NEWLINE]
  }

  function EncodeAll(kvs: seq<KeyValue>): bytes
  {
    if kvs == [] then [] else Encode(kvs[0]) + EncodeAll(kvs[1..])
  }

  /** bytes.SplitN(line, "\t", 2): a line without a tab holds no record. */
  function ParseLine(line: bytes): Option<KeyValue>
  {
    var i := IndexOf(line, TAB);
    if i == |line| then None else Some(KeyValue(line[..i], line[i + 1..]))
  }

  function ParseLines(lines: seq<bytes>): seq<KeyValue>
  {
    if lines == [] then []
    else
      match ParseLine(lines[0])
      case None => ParseLines(lines[1..])
      case Some(kv) => [kv] + ParseLines(lines[1..])
  }

  /** Every record a KVScanner finds in the input. */
  function Records(input: bytes): seq<KeyValue>
  {
    ParseLines(Scanned(input, MAX_TOKEN))
  }

  /** What a record needs to survive being written and scanned. */
  predicate WellFormed(kv: KeyValue)
  {
    && TAB !in kv.key && NEWLINE !in kv.key
    && NEWLINE !in kv.value
    && (kv.value == [] || kv.value[|kv.value| - 1] != CR)
    && |kv.key| + 1 + |kv.value| < MAX_TOKEN
  }

  predicate AllWellFormed(kvs: seq<KeyValue>)
  {
    forall kv :: kv in kvs ==> WellFormed(kv)
  }

  // ---------- Round trip ----------

  /** WellFormed, except that the value may end in a carriage return. */
  predicate Scannable(kv: KeyValue)
  {
    && TAB !in kv.key && NEWLINE !in kv.key
    && NEWLINE !in kv.value
    && |kv.key| + 1 + |kv.value| < MAX_TOKEN
  }

  lemma ScanEncoded(kv: KeyValue, rest: bytes)
    requires Scannable(kv)
    ensures Records(Encode(kv) + rest) == [KeyValue(kv.key, DropCR(kv.value))] + Records(rest)
  {
    var line := kv.key + [TAB] + kv.value;
    assert Encode(kv) + rest == line + [NEWLINE] + rest;
    ScannedLine(line, rest, MAX_TOKEN);
    var value := DropCR(kv.value);
    assert DropCR(line) == kv.key + [TAB] + value;
    IndexOfSep(kv.key, TAB, value);
    assert ParseLine(DropCR(line)) == Some(KeyValue(kv.key, value));
  }

  lemma {:induction false} ScannedLinesClean(input: bytes, max: nat)
    ensures forall line :: line in Scanned(input, max) ==> NEWLINE !in line && |line| < max
    decreases |input|
  {
    var scan := NextLine(input, max);
    if scan.Token? {
      ScannedLinesClean(scan.rest, max);
    }
  }

  lemma {:induction false} ParsedLinesScannable(lines: seq<bytes>)
    requires forall line :: line in lines ==> NEWLINE !in line && |line| < MAX_TOKEN
    ensures forall kv :: kv in ParseLines(lines) ==> Scannable(kv)
  {
    if lines != [] {
      ParsedLinesScannable(lines[1..]);
      var line := lines[0];
      assert line in lines;
      var i := IndexOf(line, TAB);
      if i < |line| {
        assert forall b :: b in line[..i] || b in line[i + 1..] ==> b in line;
      }
    }
  }

  /** Whatever the input, a scanned record is clean but for a carriage return at its end. */
  lemma RecordsScannable(input: bytes)
    ensures forall kv :: kv in Records(input) ==> Scannable(kv)
  {
    ScannedLinesClean(input, MAX_TOKEN);
    ParsedLinesScannable(Scanned(input, MAX_TOKEN));
  }

  lemma {:induction false} RecordsOfEncoded(kvs: seq<KeyValue>, rest: bytes)
    requires AllWellFormed(kvs)
    ensures Records(EncodeAll(kvs) + rest) == kvs + Records(rest)
  {
    hide *;
    if kvs == [] {
      EncodeNothing();
      assert EncodeAll(kvs) + rest == rest;
      assert kvs + Records(rest) == Records(rest);
    } else {
      var head, tail := kvs[0], kvs[1..];
      WellFormedFirst(kvs);
      EncodeFirst(kvs);
      ScanEncoded(head, EncodeAll(tail) + rest);
      RecordsOfEncoded(tail, rest);
      assert EncodeAll(kvs) + rest == Encode(head) + (EncodeAll(tail) + rest);
      assert kvs + Records(rest) == [head] + (tail + Records(rest));
    }
  }

  lemma WellFormedFirst(kvs: seq<KeyValue>)
    requires AllWellFormed(kvs) && kvs != []
    ensures Scannable(kvs[0]) && KeyValue(kvs[0].key, DropCR(kvs[0].value)) == kvs[0] && AllWellFormed(kvs[1..])
  {
    assert kvs[0] in kvs;
  }

  lemma EncodeFirst(kvs: seq<KeyValue>)
    requires kvs != []
    ensures EncodeAll(kvs) == Encode(kvs[0]) + EncodeAll(kvs[1..])
  {
  }

  lemma {:induction false} CarriageReturnsLost(kvs: seq<KeyValue>)
    requires forall kv :: kv in kvs ==> Scannable(kv)
    requires Records(EncodeAll(kvs)) == kvs
    ensures AllWellFormed(kvs)
  {
    if kvs != [] {
      assert kvs[0] in kvs;
      ScanEncoded(kvs[0], EncodeAll(kvs[1..]));
      var decoded := Records(EncodeAll(kvs));
      assert decoded[1..] == Records(EncodeAll(kvs[1..]));
      assert kvs[0] == decoded[0] == KeyValue(kvs[0].key, DropCR(kvs[0].value));
      CarriageReturnsLost(kvs[1..]);
    }
  }

  /** Scanning what was written gives the records back exactly when every record is well formed. */
  lemma RoundTripExactly(kvs: seq<KeyValue>)
    ensures Records(EncodeAll(kvs)) == kvs <==> AllWellFormed(kvs)
  {
    if AllWellFormed(kvs) {
      RecordsOfEncoded(kvs, []);
      assert EncodeAll(kvs) + [] == EncodeAll(kvs);
      assert kvs + [] == kvs;
    }
    if Records(EncodeAll(kvs)) == kvs {
      RecordsScannable(EncodeAll(kvs));
      CarriageReturnsLost(kvs);
    }
  }

  lemma EncodeNothing()
    ensures EncodeAll([]) == []
  {
  }

  /** Bytes that hold no tab before their newline are passed over. */
  lemma NoTabPassedOver(line: bytes, rest: bytes)
    requires TAB !in line && NEWLINE !in line && |line| < MAX_TOKEN
    ensures Records(line + [NEWLINE] + rest) == Records(rest)
  {
    ScannedLine(line, rest, MAX_TOKEN);
    IndexOfNone(DropCR(line), TAB);
  }

  lemma {:induction false} EncodeAllConcat(a: seq<KeyValue>, b: seq<KeyValue>)
    ensures EncodeAll(a + b) == EncodeAll(a) + EncodeAll(b)
  {
    if a == [] {
      assert a + b == b;
    } else {
      assert (a + b)[1..] == a[1..] + b;
      EncodeAllConcat(a[1..], b);
    }
  }

  lemma EncodeAllAppend(kvs: seq<KeyValue>, kv: KeyValue)
    ensures EncodeAll(kvs + [kv]) == EncodeAll(kvs) + Encode(kv)
  {
    EncodeAllConcat(kvs, [kv]);
    assert EncodeAll([kv]) == Encode(kv) + EncodeAll([]);
  }

  lemma {:induction false} SizeWithout(kvs: seq<KeyValue>, k: nat)
    requires k < |kvs|
    ensures |EncodeAll(kvs)| == |EncodeAll(kvs[..k] + kvs[k + 1..])| + |Encode(kvs[k])|
  {
    hide Encode;
    EncodeAllConcat(kvs[..k], kvs[k + 1..]);
    EncodeAllConcat(kvs[..k], kvs[k..]);
    assert kvs == kvs[..k] + kvs[k..] && kvs[k..][1..] == kvs[k + 1..];
  }

  /** Reordering the records does not change how many bytes they take. */
  lemma {:induction false} SizeOfPermutation(a: seq<KeyValue>, b: seq<KeyValue>)
    requires multiset(a) == multiset(b)
    ensures |EncodeAll(a)| == |EncodeAll(b)|
  {
    hide *;
    PermutedLength(a, b);
    if a != [] {
      var k := FindPermuted(a, b, 0);
      SizeWithout(a, 0);
      SizeWithout(b, k);
      SizeOfPermutation(a[..0] + a[1..], b[..k] + b[k + 1..]);
    }
  }

  // ---------- Order by key ----------

  predicate Sorted(kvs: seq<KeyValue>)
  {
    forall i, j :: 0 <= i < j < |kvs| ==> Leq(kvs[i].key, kvs[j].key)
  }

  /** A list is sorted exactly when each two neighbours are. */
  lemma SortedExactly(kvs: seq<KeyValue>)
    ensures Sorted(kvs) <==> forall i :: 0 <= i < |kvs| - 1 ==> Leq(kvs[i].key, kvs[i + 1].key)
  {
    hide Leq;
    if forall i :: 0 <= i < |kvs| - 1 ==> Leq(kvs[i].key, kvs[i + 1].key) {
      NeighboursSorted(kvs);
    }
  }

  /** Neighbours of a sorted list have the same key, or the first key is one a dictionary lists before the second. */
  lemma NeighboursInOrder(kvs: seq<KeyValue>, i: nat, a: bytes, b: bytes)
    requires Sorted(kvs) && i + 1 < |kvs| && a == kvs[i].key && b == kvs[i + 1].key
    ensures || (|a| <= |b| && a == b[..|a|])
            || exists k :: 0 <= k < |a| && k < |b| && a[..k] == b[..k] && a[k] < b[k]
  {
    hide Leq;
    LeqExactly(a, b);
  }

  /** Not later than: the same, or a prefix, or less at the first byte that differs. */
  lemma LeqExactly(a: bytes, b: bytes)
    ensures Leq(a, b) <==>
              || (|a| <= |b| && a == b[..|a|])
              || exists k :: 0 <= k < |a| && k < |b| && a[..k] == b[..k] && a[k] < b[k]
  {
    hide Less;
    LessExactly(a, b);
    LessTotal(a, b);
    LessIrreflexive(a);
    if Less(a, b) {
      LeqOfLess(a, b);
    }
    if |a| == |b| {
      assert b[..|a|] == b;
    }
  }

  lemma {:induction false} NeighboursSorted(kvs: seq<KeyValue>)
    requires forall i :: 0 <= i < |kvs| - 1 ==> Leq(kvs[i].key, kvs[i + 1].key)
    ensures Sorted(kvs)
  {
    hide Leq;
    if kvs != [] {
      var n := |kvs| - 1;
      NeighboursSorted(kvs[..n]);
      forall i | 0 <= i < n
        ensures Leq(kvs[i].key, kvs[n].key)
      {
        if i < n - 1 {
          assert Leq(kvs[..n][i].key, kvs[..n][n - 1].key);
          LeqTransitive(kvs[i].key, kvs[n - 1].key, kvs[n].key);
        }
      }
      assert forall i, j :: 0 <= i < j < n ==> kvs[..n][i] == kvs[i] && kvs[..n][j] == kvs[j];
    }
  }

  /** Stands for sort.Slice on keys: callers know only that the result is a sorted permutation. */
  method SortByKey(part: seq<KeyValue>) returns (sorted: seq<KeyValue>)
    ensures Sorted(sorted)
    ensures multiset(sorted) == multiset(part)
  {
    hide *;
    NothingSorted();
    sorted := [];
    for n := 0 to |part|
      invariant Sorted(sorted)
      invariant multiset(sorted) == multiset(part[..n])
    {
      var i := |sorted|;
      while i > 0 && Less(part[n].key, sorted[i - 1].key)
        invariant 0 <= i <= |sorted|
        invariant forall j :: i <= j < |sorted| ==> Less(part[n].key, sorted[j].key)
      {
        i := i - 1;
      }
      InsertKeepsSorted(sorted, i, part[n]);
      Inserted(sorted, i, part[n]);
      sorted := sorted[..i] + [part[n]] + sorted[i..];
      assert part[..n + 1] == part[..n] + [part[n]];
    }
    assert part[..|part|] == part;
  }

  lemma InsertKeepsSorted(kvs: seq<KeyValue>, at: nat, kv: KeyValue)
    requires Sorted(kvs) && at <= |kvs|
    requires forall j :: at <= j < |kvs| ==> Less(kv.key, kvs[j].key)
    requires at > 0 ==> !Less(kv.key, kvs[at - 1].key)
    ensures Sorted(kvs[..at] + [kv] + kvs[at..])
  {
    hide Less, Leq, Shifted;
    Inserted(kvs, at, kv);
    forall i: nat, j: nat | i < j <= |kvs|
      ensures Leq(Shifted(kvs, at, kv, i).key, Shifted(kvs, at, kv, j).key)
    {
      ShiftedSorted(kvs, at, kv, i, j);
    }
  }

  lemma ShiftedSorted(kvs: seq<KeyValue>, at: nat, kv: KeyValue, i: nat, j: nat)
    requires Sorted(kvs) && at <= |kvs| && i < j <= |kvs|
    requires forall k :: at <= k < |kvs| ==> Less(kv.key, kvs[k].key)
    requires at > 0 ==> !Less(kv.key, kvs[at - 1].key)
    ensures Leq(Shifted(kvs, at, kv, i).key, Shifted(kvs, at, kv, j).key)
  {
    hide Less, Leq;
    if j == at {
      NotLessIsLeq(kv.key, kvs[at - 1].key);
      if i < at - 1 {
        LeqTransitive(kvs[i].key, kvs[at - 1].key, kv.key);
      }
    } else if i == at {
      LeqOfLess(kv.key, kvs[j - 1].key);
    }
  }

  lemma NotLessIsLeq(a: bytes, b: bytes)
    requires !Less(a, b)
    ensures Leq(b, a)
  {
  }

  lemma NothingSorted()
    ensures Sorted([])
  {
  }
}
