/** The merged file, one line `key TAB value,value,...` for each group, and the result file. */
module GroupCodec {
  import opened Bytes
  import opened Lines
  import opened RecordCodec
  import opened Grouping

  type Reducer = (bytes, seq<bytes>) -> bytes

  function GroupLine(g: Group): bytes
  {
    g.key + [TAB] + Join(g.values, COMMA)
  }

  /** The bytes shuffle writes for the groups. */
  function GroupText(groups: seq<Group>): bytes
  {
    if groups == [] then [] else GroupText(groups[..|groups| - 1]) + GroupLine(groups[|groups| - 1]) + [NEWLINE]
  }

  /** The key and the values runReduce reads off a line; a line without a tab is passed over. */
  function ParseGroup(line: bytes): Option<Group>
  {
    match ParseLine(line)
    case None => None
    case Some(kv) => Some(Group(kv.key, Split(kv.value, COMMA)))
  }

  function ParseGroups(lines: seq<bytes>): seq<Group>
  {
    if lines == [] then []
    else
      match ParseGroup(lines[0])
      case None => ParseGroups(lines[1..])
      case Some(g) => [g] + ParseGroups(lines[1..])
  }

  /** Every group runReduce reads from a merged file. */
  function ScanGroups(text: bytes): seq<Group>
  {
    ParseGroups(Scanned(text, MAX_TOKEN))
  }

  function ResultLine(g: Group, reduce: Reducer): bytes
  {
    g.key + [COLON, SPACE] + reduce(g.key, g.values) + [NEWLINE]
  }

  /** The bytes runReduce writes for the groups. */
  function ResultText(groups: seq<Group>, reduce: Reducer): bytes
  {
    if groups == [] then [] else ResultLine(groups[0], reduce) + ResultText(groups[1..], reduce)
  }

  /** The result file has one line `key: result` for each group, in the order of the groups. */
  lemma {:induction false} ResultLines(groups: seq<Group>, reduce: Reducer)
    requires forall g :: g in groups ==> NEWLINE !in g.key && NEWLINE !in reduce(g.key, g.values)
    ensures |RawLines(ResultText(groups, reduce))| == |groups|
    ensures forall i :: 0 <= i < |groups| ==>
              RawLines(ResultText(groups, reduce))[i]
              == groups[i].key + [58, 32] + reduce(groups[i].key, groups[i].values)
  {
    if groups != [] {
      var line := groups[0].key + [58, 32] + reduce(groups[0].key, groups[0].values);
      ResultLines(groups[1..], reduce);
      assert ResultText(groups, reduce) == line + [NEWLINE] + ResultText(groups[1..], reduce);
      RawLinesStep(line, ResultText(groups[1..], reduce));
    }
  }

  // ---------- Writing ----------

  lemma {:induction false} JoinAppend(values: seq<bytes>, value: bytes)
    ensures Join(values + [value], COMMA) == if values == [] then value else Join(values, COMMA) + [COMMA] + value
  {
    if |values| > 1 {
      assert (values + [value])[1..] == values[1..] + [value];
      JoinAppend(values[1..], value);
    }
  }

  /** The write of one group: key, tab, the values with commas between them, newline. */
  method WriteGroup(out: bytes, g: Group) returns (out': bytes)
    ensures out' == out + GroupLine(g) + [NEWLINE] == out + g.key + [9] + Join(g.values, 44) + [10]
  {
    hide Join;
    out' := out + g.key;
    out' := out' + [TAB];
    ghost var before := out';
    assert Join(g.values[..0], COMMA) == [] by { JoinNothing(); }
    for i := 0 to |g.values|
      invariant out' == before + Join(g.values[..i], COMMA) + if 0 < i < |g.values| then [COMMA] else []
    {
      assert g.values[..i + 1] == g.values[..i] + [g.values[i]];
      JoinAppend(g.values[..i], g.values[i]);
      JoinNothing();
      out' := out' + g.values[i];
      if i < |g.values| - 1 {
        out' := out' + [COMMA];
      }
    }
    assert g.values[..|g.values|] == g.values;
    out' := out' + [NEWLINE];
  }

  lemma JoinNothing()
    ensures Join([], COMMA) == []
  {
  }

  // ---------- Round trip ----------

  /** What a group needs to survive being written, scanned and split. */
  predicate Clean(g: Group)
  {
    && TAB !in g.key && NEWLINE !in g.key
    && g.values != []
    && (forall v :: v in g.values ==> NEWLINE !in v && COMMA !in v)
    && (var last := g.values[|g.values| - 1]; last == [] || last[|last| - 1] != CR)
    && |GroupLine(g)| < MAX_TOKEN
  }

  predicate AllClean(groups: seq<Group>)
  {
    forall g :: g in groups ==> Clean(g)
  }

  function AsRecord(g: Group): KeyValue
  {
    KeyValue(g.key, Join(g.values, COMMA))
  }

  function AsRecords(groups: seq<Group>): (kvs: seq<KeyValue>)
    ensures |kvs| == |groups|
    ensures forall i :: 0 <= i < |groups| ==> kvs[i] == AsRecord(groups[i])
  {
    seq(|groups|, i requires 0 <= i < |groups| => AsRecord(groups[i]))
  }

  function AsGroups(kvs: seq<KeyValue>): (groups: seq<Group>)
    ensures |groups| == |kvs|
    ensures forall i :: 0 <= i < |kvs| ==> groups[i] == Group(kvs[i].key, Split(kvs[i].value, COMMA))
  {
    seq(|kvs|, i requires 0 <= i < |kvs| => Group(kvs[i].key, Split(kvs[i].value, COMMA)))
  }

  /** A merged file is a file of records, one for each group. */
  lemma {:induction false} GroupTextIsRecords(groups: seq<Group>)
    ensures GroupText(groups) == EncodeAll(AsRecords(groups))
  {
    if groups != [] {
      var init, last := groups[..|groups| - 1], groups[|groups| - 1];
      GroupTextIsRecords(init);
      assert AsRecords(groups) == AsRecords(init) + [AsRecord(last)];
      EncodeAllAppend(AsRecords(init), AsRecord(last));
    }
  }

  lemma {:induction false} ParseGroupsIsRecords(lines: seq<bytes>)
    ensures ParseGroups(lines) == AsGroups(ParseLines(lines))
  {
    if lines != [] {
      ParseGroupsIsRecords(lines[1..]);
      var kvs := ParseLines(lines);
      var rest := ParseLines(lines[1..]);
      if ParseLine(lines[0]).Some? {
        assert kvs == [ParseLine(lines[0]).value] + rest;
        assert AsGroups(kvs) == [AsGroups(kvs)[0]] + AsGroups(rest);
      }
    }
  }

  lemma {:induction false} JoinMembers(values: seq<bytes>, b: byte)
    requires b != COMMA
    ensures b in Join(values, COMMA) <==> exists i :: 0 <= i < |values| && b in values[i]
  {
    if |values| == 1 {
      assert b in values[0] <==> b in Join(values, COMMA);
    } else if values != [] {
      JoinMembers(values[1..], b);
      if b in Join(values[1..], COMMA) {
        var i :| 0 <= i < |values[1..]| && b in values[1..][i];
        assert b in values[i + 1];
      }
      if i :| 0 <= i < |values| && b in values[i] {
        assert i > 0 ==> b in values[1..][i - 1];
      }
    }
  }

  /** The last byte joined is the last byte of the last value, or a comma. */
  lemma JoinLast(values: seq<bytes>)
    requires values != []
    ensures var joined, last := Join(values, COMMA), values[|values| - 1];
            if last != [] then joined != [] && joined[|joined| - 1] == last[|last| - 1]
            else joined == [] || joined[|joined| - 1] == COMMA
  {
    var init, last := values[..|values| - 1], values[|values| - 1];
    assert values == init + [last];
    JoinAppend(init, last);
  }

  lemma CleanExactly(g: Group)
    ensures Clean(g) <==>
              WellFormed(AsRecord(g)) && g.values != [] && forall v :: v in g.values ==> COMMA !in v
  {
    if g.values != [] {
      JoinMembers(g.values, NEWLINE);
      JoinLast(g.values);
      assert |GroupLine(g)| == |g.key| + 1 + |AsRecord(g).value|;
    }
  }

  /** Writing the groups, scanning and splitting gives them back exactly when every group is clean. */
  lemma GroupRoundTripExactly(groups: seq<Group>)
    ensures ScanGroups(GroupText(groups)) == groups <==> AllClean(groups)
  {
    hide *;
    var kvs := AsRecords(groups);
    var scanned := Records(GroupText(groups));
    assert ScanGroups(GroupText(groups)) == AsGroups(scanned) by { ScanGroupsIsRecords(GroupText(groups)); }
    GroupTextIsRecords(groups);
    RoundTripExactly(kvs);
    if AllClean(groups) {
      CleanGivesRecords(groups);
    }
    if AsGroups(scanned) == groups {
      RecordsGiveClean(groups, scanned);
    }
  }

  lemma ScanGroupsIsRecords(text: bytes)
    ensures ScanGroups(text) == AsGroups(Records(text))
  {
    ParseGroupsIsRecords(Scanned(text, MAX_TOKEN));
  }

  lemma CleanGivesRecords(groups: seq<Group>)
    requires AllClean(groups)
    ensures AllWellFormed(AsRecords(groups)) && AsGroups(AsRecords(groups)) == groups
  {
    forall i | 0 <= i < |groups|
      ensures WellFormed(AsRecord(groups[i])) && AsGroups(AsRecords(groups))[i] == groups[i]
    {
      CleanExactly(groups[i]);
      SplitJoinExactly(groups[i].values, COMMA);
    }
  }

  /** Groups read from a scanned file are those the file was written from only if they are clean. */
  lemma RecordsGiveClean(groups: seq<Group>, scanned: seq<KeyValue>)
    requires scanned == Records(EncodeAll(AsRecords(groups)))
    requires AsGroups(scanned) == groups
    ensures AllClean(groups)
  {
    var kvs := AsRecords(groups);
    forall i | 0 <= i < |groups|
      ensures scanned[i] == kvs[i] && groups[i].values != []
      ensures forall v :: v in groups[i].values ==> COMMA !in v
    {
      SplitPartsClean(scanned[i].value, COMMA);
      JoinOfSplit(scanned[i].value);
    }
    assert scanned == kvs;
    RoundTripExactly(kvs);
    forall g | g in groups
      ensures Clean(g)
    {
      var i :| 0 <= i < |groups| && groups[i] == g;
      assert kvs[i] in kvs;
      CleanExactly(g);
    }
  }

  lemma {:induction false} JoinOfSplit(s: bytes)
    ensures Join(Split(s, COMMA), COMMA) == s
    decreases |s|
  {
    hide *;
    var i := IndexOf(s, COMMA);
    if i == |s| {
      SplitWhole(s, COMMA);
    } else {
      SplitAtFirst(s, COMMA);
      JoinOfSplit(s[i + 1..]);
      JoinFirst(s[..i], Split(s[i + 1..], COMMA), COMMA);
      assert s == s[..i] + [COMMA] + s[i + 1..];
    }
  }

  // ---------- Groups of a job ----------

  /** Each value with the byte that follows it. */
  function Weight(values: seq<bytes>): nat
  {
    if values == [] then 0 else |values[0]| + 1 + Weight(values[1..])
  }

  lemma {:induction false} JoinedLength(values: seq<bytes>)
    requires values != []
    ensures |Join(values, COMMA)| + 1 == Weight(values)
  {
    if |values| > 1 {
      JoinedLength(values[1..]);
    }
  }

  lemma {:induction false} WeightWithout(values: seq<bytes>, k: nat)
    requires k < |values|
    ensures Weight(values) == Weight(values[..k] + values[k + 1..]) + |values[k]| + 1
  {
    if k == 0 {
      assert values[..0] + values[1..] == values[1..];
    } else {
      WeightWithout(values[1..], k - 1);
      assert (values[..k] + values[k + 1..])[1..] == values[1..][..k - 1] + values[1..][k..];
    }
  }

  lemma {:induction false} WeightOfPermutation(a: seq<bytes>, b: seq<bytes>)
    requires multiset(a) == multiset(b)
    ensures Weight(a) == Weight(b)
  {
    hide *;
    PermutedLength(a, b);
    if a != [] {
      var k := FindPermuted(a, b, 0);
      WeightWithout(a, 0);
      WeightWithout(b, k);
      WeightOfPermutation(a[..0] + a[1..], b[..k] + b[k + 1..]);
    }
  }

  /** What a job asks of the pairs its mapper emits. */
  ghost predicate JobFits(pairs: seq<KeyValue>)
  {
    && AllWellFormed(pairs)
    && (forall kv :: kv in pairs ==> COMMA !in kv.value)
    && (forall key :: ValuesOf(pairs, key) != [] ==> |key| + Weight(ValuesOf(pairs, key)) < MAX_TOKEN)
  }

  lemma {:induction false} ValuesOfMember(pairs: seq<KeyValue>, key: bytes, value: bytes)
    requires value in ValuesOf(pairs, key)
    ensures KeyValue(key, value) in pairs
  {
    assert value in multiset(ValuesOf(pairs, key));
    ValuesOfCounts(pairs, key, value);
    assert KeyValue(key, value) in multiset(pairs);
  }

  lemma {:induction false} GroupIsLookedUp(groups: seq<Group>, i: nat)
    requires Increasing(groups) && i < |groups|
    ensures Lookup(groups, groups[i].key) == groups[i].values != []
  {
    if i > 0 {
      GroupIsLookedUp(groups[1..], i - 1);
      KeysFromFirst(groups[1..], groups[i].key);
      LessLeq(groups[0].key, groups[1].key, groups[i].key);
    }
  }

  /** The groups of pairs that fit, in any order of their values, survive being written and read. */
  lemma GroupsFit(groups: seq<Group>, pairs: seq<KeyValue>)
    requires JobFits(pairs) && IsUnorderedGrouping(groups, pairs)
    ensures AllClean(groups)
  {
    forall i | 0 <= i < |groups|
      ensures Clean(groups[i])
    {
      GroupIsLookedUp(groups, i);
      assert multiset(Lookup(groups, groups[i].key)) == multiset(ValuesOf(pairs, groups[i].key));
      GroupFits(groups[i], pairs);
    }
  }

  lemma GroupFits(g: Group, pairs: seq<KeyValue>)
    requires JobFits(pairs) && g.values != []
    requires multiset(g.values) == multiset(ValuesOf(pairs, g.key))
    ensures Clean(g)
  {
    hide Join, Weight, ValuesOf;
    forall v | v in g.values
      ensures KeyValue(g.key, v) in pairs
    {
      assert v in multiset(ValuesOf(pairs, g.key));
      ValuesOfMember(pairs, g.key, v);
    }
    var last := g.values[|g.values| - 1];
    assert WellFormed(KeyValue(g.key, last));
    NonemptyMultiset(g.values);
    NonemptyMultiset(ValuesOf(pairs, g.key));
    WeightOfPermutation(g.values, ValuesOf(pairs, g.key));
    JoinedLength(g.values);
    assert |GroupLine(g)| == |g.key| + Weight(g.values);
  }

  /** A reducer whose result does not depend on the order of the values, such as one that counts them. */
  ghost predicate OrderFree(reduce: Reducer)
  {
    forall key, a, b :: multiset(a) == multiset(b) ==> reduce(key, a) == reduce(key, b)
  }

  /** The shipped reducers print how many values there are. */
  function CountReducer(key: bytes, values: seq<bytes>): bytes
  {
    Dec(|values|)
  }

  /** What they print is the decimal text of the number of values. */
  lemma CountReducerCounts(key: bytes, values: seq<bytes>)
    ensures forall i :: 0 <= i < |CountReducer(key, values)| ==> IsDigit(CountReducer(key, values)[i])
    ensures ParseDec(CountReducer(key, values)) == |values|
    ensures CountReducer(key, values) != [] && (values != [] ==> CountReducer(key, values)[0] != 48)
  {
    ParseDecOfDec(|values|);
    NoLeadingZero(|values|);
  }

  lemma CountReducerOrderFree()
    ensures OrderFree(CountReducer)
  {
    forall key, a: seq<bytes>, b: seq<bytes> | multiset(a) == multiset(b)
      ensures CountReducer(key, a) == CountReducer(key, b)
    {
      assert |multiset(a)| == |a| && |multiset(b)| == |b|;
    }
  }

  lemma {:induction false} SameResult(a: seq<Group>, b: seq<Group>, reduce: Reducer)
    requires OrderFree(reduce) && SameUpToOrder(a, b)
    ensures ResultText(a, reduce) == ResultText(b, reduce)
  {
    if a != [] {
      SameResult(a[1..], b[1..], reduce);
    }
  }
}
