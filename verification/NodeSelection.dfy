/** Which nodes a chunk is sent to. */
module NodeSelection {
  import opened Bytes

  datatype NodeInfo = NodeInfo(address: bytes, usedSpace: nat, freeSpace: nat, requestsHandled: nat)

  type Nodes = map<bytes, NodeInfo>

  datatype Score = Score(id: bytes, usedSpace: nat, activeReqs: nat)

  function Min(a: nat, b: nat): nat
  {
    if a <= b then a else b
  }

  /** The nodes with room for a chunk whose address is not excluded. */
  function Eligible(nodes: Nodes, chunkSize: nat, excluded: seq<bytes>): set<bytes>
  {
    set id | id in nodes && nodes[id].address !in excluded && nodes[id].freeSpace >= chunkSize
  }

  /** Less used, or as much used and no busier. */
  predicate ScoreLeq(a: Score, b: Score)
  {
    a.usedSpace < b.usedSpace || (a.usedSpace == b.usedSpace && a.activeReqs <= b.activeReqs)
  }

  /**
   * The addresses of as many distinct eligible nodes as asked for or as there are, the best of a sample
   * that holds twice as many as asked for, or every eligible node.
   */
  ghost predicate Picks(nodes: Nodes, n: nat, chunkSize: nat, excluded: seq<bytes>,
                        selected: seq<bytes>, ids: seq<bytes>, sampled: set<bytes>)
  {
    var eligible := Eligible(nodes, chunkSize, excluded);
    && sampled <= eligible && |sampled| == Min(PoolTakes(2 * n), |eligible|)
    && |selected| == |ids| == Min(n, |eligible|)
    && (forall i, j :: 0 <= i < j < |ids| ==> ids[i] != ids[j])
    && (forall i :: 0 <= i < |ids| ==> ids[i] in sampled && selected[i] == nodes[ids[i]].address)
    && (forall i, id :: 0 <= i < |ids| && id in sampled && id !in ids ==>
         ScoreLeq(ScoreOf(nodes, ids[i]), ScoreOf(nodes, id)))
  }

  /** The addresses may be what a selection returns. */
  ghost predicate Chosen(nodes: Nodes, n: nat, chunkSize: nat, excluded: seq<bytes>, selected: seq<bytes>)
  {
    exists ids, sampled :: Picks(nodes, n, chunkSize, excluded, selected, ids, sampled)
  }

  /**
   * What is chosen, in terms of the nodes alone: addresses of different nodes with room, none excluded, as many as
   * asked for unless every node with room is among them; no node sampled but left out is less used, or as much used and
   * less busy; and no node with room was left out of a sample of fewer than twice as many as asked for.
   */
  lemma ChosenMeans(nodes: Nodes, n: nat, chunkSize: nat, excluded: seq<bytes>, selected: seq<bytes>)
    returns (ids: seq<bytes>, sampled: set<bytes>)
    requires Chosen(nodes, n, chunkSize, excluded, selected)
    ensures |selected| == |ids| <= n && forall i, j :: 0 <= i < j < |ids| ==> ids[i] != ids[j]
    ensures forall i :: 0 <= i < |ids| ==> ids[i] in sampled && ids[i] in nodes && selected[i] == nodes[ids[i]].address
    ensures forall id :: id in sampled ==>
              id in nodes && nodes[id].address !in excluded && nodes[id].freeSpace >= chunkSize
    ensures |ids| == n ||
            forall id :: id in nodes && nodes[id].address !in excluded && nodes[id].freeSpace >= chunkSize ==> id in ids
    ensures forall i, id :: 0 <= i < |ids| && id in sampled && id !in ids ==>
              || nodes[ids[i]].usedSpace < nodes[id].usedSpace
              || (nodes[ids[i]].usedSpace == nodes[id].usedSpace
                  && nodes[ids[i]].requestsHandled <= nodes[id].requestsHandled)
    ensures |sampled| == (if n == 0 then 1 else 2 * n) ||
            forall id :: id in nodes && nodes[id].address !in excluded && nodes[id].freeSpace >= chunkSize ==>
              id in sampled
  {
    ids, sampled :| Picks(nodes, n, chunkSize, excluded, selected, ids, sampled);
    var eligible := Eligible(nodes, chunkSize, excluded);
    forall id | id in nodes
      ensures id in eligible <==> nodes[id].address !in excluded && nodes[id].freeSpace >= chunkSize
    {
      EligibleNode(nodes, chunkSize, excluded, id);
    }
    var picked := set id | id in ids;
    EnumeratesCount(ids, picked);
    if |ids| < n {
      WholeSubset(picked, eligible);
    }
    if |sampled| == |eligible| {
      WholeSubset(sampled, eligible);
    }
  }

  lemma WholeSubset(a: set<bytes>, b: set<bytes>)
    requires a <= b && |a| >= |b|
    ensures a == b
  {
    assert |b| == |a| + |b - a|;
    assert b - a == {};
  }

  lemma ChosenCount(nodes: Nodes, n: nat, chunkSize: nat, excluded: seq<bytes>, selected: seq<bytes>)
    requires Chosen(nodes, n, chunkSize, excluded, selected)
    ensures |selected| == Min(n, |Eligible(nodes, chunkSize, excluded)|)
  {
  }

  /** An address chosen is that of a node with room, and is not excluded. */
  lemma ChosenAddress(nodes: Nodes, n: nat, chunkSize: nat, excluded: seq<bytes>, selected: seq<bytes>, addr: bytes)
    requires Chosen(nodes, n, chunkSize, excluded, selected) && addr in selected
    ensures addr !in excluded
    ensures exists id :: id in nodes && nodes[id].address == addr && nodes[id].freeSpace >= chunkSize
  {
    var ids, sampled :| Picks(nodes, n, chunkSize, excluded, selected, ids, sampled);
    var i :| 0 <= i < |selected| && selected[i] == addr;
    assert ids[i] in Eligible(nodes, chunkSize, excluded);
  }

  // ---------- Sampling ----------

  function ScoreOf(nodes: Nodes, id: bytes): Score
    requires id in nodes
  {
    Score(id, nodes[id].usedSpace, nodes[id].requestsHandled)
  }

  /** One score for each node sampled. */
  ghost predicate ScoresOf(scores: seq<Score>, nodes: Nodes, sampled: set<bytes>)
  {
    && (forall s :: s in scores ==> s.id in nodes && s.id in sampled && s == ScoreOf(nodes, s.id))
    && (forall id :: id in sampled ==> id in nodes && ScoreOf(nodes, id) in scores)
    && (forall i, j :: 0 <= i < j < |scores| ==> scores[i].id != scores[j].id)
  }

  lemma AnotherScore(scores: seq<Score>, nodes: Nodes, sampled: set<bytes>, id: bytes)
    requires ScoresOf(scores, nodes, sampled) && id in nodes && id !in sampled
    ensures ScoresOf(scores + [ScoreOf(nodes, id)], nodes, sampled + {id})
  {
    var more := scores + [ScoreOf(nodes, id)];
    assert more[|scores|] == ScoreOf(nodes, id);
    forall other | other in sampled
      ensures ScoreOf(nodes, other) in more
    {
      assert ScoreOf(nodes, other) in scores;
    }
    forall i | 0 <= i < |scores|
      ensures scores[i].id != id
    {
      assert scores[i] in scores;
    }
  }

  lemma {:induction false} ScoresCount(scores: seq<Score>, nodes: Nodes, sampled: set<bytes>)
    requires ScoresOf(scores, nodes, sampled)
    ensures |scores| == |sampled|
  {
    var order := seq(|scores|, i requires 0 <= i < |scores| => scores[i].id);
    forall id
      ensures id in order <==> id in sampled
    {
      if id in sampled {
        var i :| 0 <= i < |scores| && scores[i] == ScoreOf(nodes, id);
        assert order[i] == id;
      }
      if id in order {
        var i :| 0 <= i < |order| && order[i] == id;
        assert scores[i] in scores;
      }
    }
    EnumeratesCount(order, sampled);
  }

  /** How many nodes a pool of this size takes: one even when none are wanted. */
  function PoolTakes(poolSize: nat): nat
  {
    if poolSize == 0 then 1 else poolSize
  }

  /** The scores of a sample of eligible nodes: as many as the pool takes, or all of them. */
  ghost predicate IsSample(nodes: Nodes, poolSize: nat, chunkSize: nat, excluded: seq<bytes>,
                           candidates: seq<Score>, sampled: set<bytes>)
  {
    && ScoresOf(candidates, nodes, sampled)
    && sampled <= Eligible(nodes, chunkSize, excluded)
    && |sampled| == Min(PoolTakes(poolSize), |Eligible(nodes, chunkSize, excluded)|)
  }

  /** Every eligible node gone through is sampled, and the pool is not full. */
  ghost predicate Sampling(nodes: Nodes, poolSize: nat, chunkSize: nat, excluded: seq<bytes>, todo: set<bytes>,
                           candidates: seq<Score>, sampled: set<bytes>)
  {
    && ScoresOf(candidates, nodes, sampled)
    && sampled == Eligible(nodes, chunkSize, excluded) - todo
    && |candidates| < PoolTakes(poolSize)
  }

  /** Takes eligible nodes in whatever order the map gives them until the pool is full. */
  method SampleNodes(nodes: Nodes, poolSize: nat, chunkSize: nat, excluded: seq<bytes>) returns (candidates: seq<Score>)
    ensures exists sampled :: IsSample(nodes, poolSize, chunkSize, excluded, candidates, sampled)
  {
    hide *;
    ghost var sampled: set<bytes> := {};
    candidates := [];
    NothingSampled(nodes, poolSize, chunkSize, excluded);
    var todo := nodes.Keys;
    while todo != {}
      invariant todo <= nodes.Keys
      invariant Sampling(nodes, poolSize, chunkSize, excluded, todo, candidates, sampled)
      decreases todo
    {
      var id :| id in todo;
      if nodes[id].address !in excluded && nodes[id].freeSpace >= chunkSize {
        OneMoreSampled(nodes, poolSize, chunkSize, excluded, todo, candidates, sampled, id);
        candidates := candidates + [Score(id, nodes[id].usedSpace, nodes[id].requestsHandled)];
        sampled := sampled + {id};
        if |candidates| >= poolSize {
          return;
        }
      } else {
        OnePassedOver(nodes, poolSize, chunkSize, excluded, todo, candidates, sampled, id);
      }
      todo := todo - {id};
    }
    AllSampled(nodes, poolSize, chunkSize, excluded, candidates, sampled);
  }

  lemma OneMoreSampled(nodes: Nodes, poolSize: nat, chunkSize: nat, excluded: seq<bytes>, todo: set<bytes>,
                       candidates: seq<Score>, sampled: set<bytes>, id: bytes)
    requires Sampling(nodes, poolSize, chunkSize, excluded, todo, candidates, sampled) && id in todo && id in nodes
    requires nodes[id].address !in excluded && nodes[id].freeSpace >= chunkSize
    ensures var more := candidates + [Score(id, nodes[id].usedSpace, nodes[id].requestsHandled)];
            if |more| >= poolSize then IsSample(nodes, poolSize, chunkSize, excluded, more, sampled + {id})
            else Sampling(nodes, poolSize, chunkSize, excluded, todo - {id}, more, sampled + {id})
  {
    hide ScoresOf;
    var more := candidates + [ScoreOf(nodes, id)];
    EligibleNode(nodes, chunkSize, excluded, id);
    OneTaken(Eligible(nodes, chunkSize, excluded), todo, id);
    AnotherScore(candidates, nodes, sampled, id);
    ScoresCount(more, nodes, sampled + {id});
    SubsetCount(sampled + {id}, Eligible(nodes, chunkSize, excluded));
  }

  lemma EligibleNode(nodes: Nodes, chunkSize: nat, excluded: seq<bytes>, id: bytes)
    requires id in nodes
    ensures id in Eligible(nodes, chunkSize, excluded) <==>
            nodes[id].address !in excluded && nodes[id].freeSpace >= chunkSize
  {
  }

  lemma OneTaken(keys: set<bytes>, todo: set<bytes>, id: bytes)
    requires id in todo
    ensures id in keys ==> keys - (todo - {id}) == keys - todo + {id}
    ensures id in keys ==> id !in keys - todo && keys - todo + {id} <= keys
    ensures id !in keys ==> keys - (todo - {id}) == keys - todo
  {
  }

  lemma OnePassedOver(nodes: Nodes, poolSize: nat, chunkSize: nat, excluded: seq<bytes>, todo: set<bytes>,
                      candidates: seq<Score>, sampled: set<bytes>, id: bytes)
    requires Sampling(nodes, poolSize, chunkSize, excluded, todo, candidates, sampled) && id in todo && id in nodes
    requires nodes[id].address in excluded || nodes[id].freeSpace < chunkSize
    ensures Sampling(nodes, poolSize, chunkSize, excluded, todo - {id}, candidates, sampled)
  {
    hide ScoresOf, Eligible;
    EligibleNode(nodes, chunkSize, excluded, id);
    OneTaken(Eligible(nodes, chunkSize, excluded), todo, id);
  }

  lemma AllSampled(nodes: Nodes, poolSize: nat, chunkSize: nat, excluded: seq<bytes>,
                   candidates: seq<Score>, sampled: set<bytes>)
    requires Sampling(nodes, poolSize, chunkSize, excluded, {}, candidates, sampled)
    ensures IsSample(nodes, poolSize, chunkSize, excluded, candidates, sampled)
  {
    hide ScoresOf, Eligible;
    ScoresCount(candidates, nodes, sampled);
    assert sampled == Eligible(nodes, chunkSize, excluded);
  }

  lemma NothingSampled(nodes: Nodes, poolSize: nat, chunkSize: nat, excluded: seq<bytes>)
    ensures Sampling(nodes, poolSize, chunkSize, excluded, nodes.Keys, [], {})
  {
  }

  // ---------- Sorting ----------

  predicate ScoresSorted(scores: seq<Score>)
  {
    forall i, j :: 0 <= i < j < |scores| ==> ScoreLeq(scores[i], scores[j])
  }

  /** Stands for slices.SortFunc: callers know only that the result is a sorted permutation. */
  method SortScores(scores: seq<Score>) returns (sorted: seq<Score>)
    ensures ScoresSorted(sorted) && multiset(sorted) == multiset(scores)
  {
    hide *;
    NothingToSort();
    sorted := [];
    for n := 0 to |scores|
      invariant ScoresSorted(sorted) && multiset(sorted) == multiset(scores[..n])
    {
      var i := |sorted|;
      while i > 0 && !ScoreLeq(sorted[i - 1], scores[n])
        invariant 0 <= i <= |sorted|
        invariant forall j :: i <= j < |sorted| ==> !ScoreLeq(sorted[j], scores[n])
      {
        i := i - 1;
      }
      InsertScore(sorted, i, scores[n]);
      assert scores[..n + 1] == scores[..n] + [scores[n]];
      sorted := sorted[..i] + [scores[n]] + sorted[i..];
    }
    assert scores[..|scores|] == scores;
  }

  lemma NothingToSort()
    ensures ScoresSorted([])
  {
  }

  lemma InsertScore(scores: seq<Score>, at: nat, s: Score)
    requires ScoresSorted(scores) && at <= |scores|
    requires forall j :: at <= j < |scores| ==> !ScoreLeq(scores[j], s)
    requires at > 0 ==> ScoreLeq(scores[at - 1], s)
    ensures ScoresSorted(scores[..at] + [s] + scores[at..])
    ensures multiset(scores[..at] + [s] + scores[at..]) == multiset(scores) + multiset{s}
  {
    hide ScoreLeq, Shifted;
    Inserted(scores, at, s);
    forall i: nat, j: nat | i < j <= |scores|
      ensures ScoreLeq(Shifted(scores, at, s, i), Shifted(scores, at, s, j))
    {
      ShiftedSorted(scores, at, s, i, j);
    }
  }

  lemma ShiftedSorted(scores: seq<Score>, at: nat, s: Score, i: nat, j: nat)
    requires ScoresSorted(scores) && at <= |scores| && i < j <= |scores|
    requires forall k :: at <= k < |scores| ==> !ScoreLeq(scores[k], s)
    requires at > 0 ==> ScoreLeq(scores[at - 1], s)
    ensures ScoreLeq(Shifted(scores, at, s, i), Shifted(scores, at, s, j))
  {
    hide ScoreLeq;
    if i < at && j == at {
      SortedUpTo(scores, at, s, i);
    } else if i == at {
      NotLeqIsGeq(scores[j - 1], s);
    }
  }

  lemma SortedUpTo(scores: seq<Score>, at: nat, s: Score, i: nat)
    requires ScoresSorted(scores) && i < at <= |scores| && ScoreLeq(scores[at - 1], s)
    ensures ScoreLeq(scores[i], s)
  {
    if i < at - 1 {
      assert ScoreLeq(scores[i], scores[at - 1]);
    }
  }

  lemma NotLeqIsGeq(a: Score, b: Score)
    requires !ScoreLeq(a, b)
    ensures ScoreLeq(b, a)
  {
  }

  /** Sorting keeps each node sampled, once. */
  lemma ScoresPermuted(scores: seq<Score>, sorted: seq<Score>, nodes: Nodes, sampled: set<bytes>)
    requires ScoresOf(scores, nodes, sampled) && multiset(sorted) == multiset(scores)
    ensures ScoresOf(sorted, nodes, sampled)
  {
    forall s: Score
      ensures s in sorted <==> s in scores
    {
      assert s in multiset(sorted) <==> s in multiset(scores);
    }
    forall i, j | 0 <= i < j < |sorted|
      ensures sorted[i].id != sorted[j].id
    {
      if sorted[i].id == sorted[j].id {
        assert sorted[i] in scores && sorted[j] in scores;
        CountedTwice(sorted, i, j);
        CountedOnce(scores, sorted[i]);
      }
    }
  }

  lemma CountedTwice(scores: seq<Score>, i: nat, j: nat)
    requires i < j < |scores| && scores[i] == scores[j]
    ensures multiset(scores)[scores[i]] >= 2
  {
    assert scores == scores[..j] + scores[j..];
    assert scores[i] in scores[..j] && scores[j] in scores[j..];
    assert multiset(scores) == multiset(scores[..j]) + multiset(scores[j..]);
    assert scores[i] in multiset(scores[..j]) && scores[j] in multiset(scores[j..]);
  }

  lemma {:induction false} CountedOnce(scores: seq<Score>, s: Score)
    requires forall i, j :: 0 <= i < j < |scores| ==> scores[i].id != scores[j].id
    ensures multiset(scores)[s] <= 1
  {
    if scores != [] {
      var n := |scores| - 1;
      CountedOnce(scores[..n], s);
      assert scores == scores[..n] + [scores[n]];
      if scores[n] == s {
        assert s !in scores[..n];
        assert s !in multiset(scores[..n]);
      }
    }
  }

  // ---------- Selection ----------

  /** Samples up to 2n eligible nodes and takes the n least used of them. */
  method SelectNodes(nodes: Nodes, n: nat, chunkSize: nat, excluded: seq<bytes>) returns (selected: seq<bytes>)
    ensures Chosen(nodes, n, chunkSize, excluded, selected)
  {
    hide ScoresOf, Picks, Eligible, ScoresSorted, ScoreOf, BestSoFar;
    var candidates := SampleNodes(nodes, n * 2, chunkSize, excluded);
    ghost var sampled :| IsSample(nodes, n * 2, chunkSize, excluded, candidates, sampled);
    var sorted := SortScores(candidates);
    ScoresPermuted(candidates, sorted, nodes, sampled);
    ghost var ids: seq<bytes>;
    selected, ids := [], [];
    NothingPicked(nodes, sorted);
    var i := 0;
    while i < n && i < |sorted|
      invariant 0 <= i <= |sorted| && i <= n
      invariant BestSoFar(nodes, sorted, i, selected, ids)
    {
      ScoredNode(sorted, nodes, sampled, i);
      OneMorePick(nodes, sorted, i, selected, ids);
      selected := selected + [nodes[sorted[i].id].address];
      ids := ids + [sorted[i].id];
      i := i + 1;
    }
    BestPicked(nodes, n, chunkSize, excluded, sorted, i, selected, ids, sampled);
  }

  /** The first i scores name the nodes taken. */
  ghost predicate BestSoFar(nodes: Nodes, sorted: seq<Score>, i: nat, selected: seq<bytes>, ids: seq<bytes>)
  {
    && i <= |sorted| && |selected| == |ids| == i
    && forall k :: 0 <= k < i ==> ids[k] == sorted[k].id && ids[k] in nodes && selected[k] == nodes[ids[k]].address
  }

  lemma ScoredNode(sorted: seq<Score>, nodes: Nodes, sampled: set<bytes>, i: nat)
    requires ScoresOf(sorted, nodes, sampled) && i < |sorted|
    ensures sorted[i].id in nodes && sorted[i].id in sampled && sorted[i] == ScoreOf(nodes, sorted[i].id)
  {
    assert sorted[i] in sorted;
  }

  lemma NothingPicked(nodes: Nodes, sorted: seq<Score>)
    ensures BestSoFar(nodes, sorted, 0, [], [])
  {
  }

  lemma OneMorePick(nodes: Nodes, sorted: seq<Score>, i: nat, selected: seq<bytes>, ids: seq<bytes>)
    requires BestSoFar(nodes, sorted, i, selected, ids) && i < |sorted| && sorted[i].id in nodes
    ensures BestSoFar(nodes, sorted, i + 1, selected + [nodes[sorted[i].id].address], ids + [sorted[i].id])
  {
  }

  lemma BestPicked(nodes: Nodes, n: nat, chunkSize: nat, excluded: seq<bytes>, sorted: seq<Score>, taken: nat,
                   selected: seq<bytes>, ids: seq<bytes>, sampled: set<bytes>)
    requires ScoresOf(sorted, nodes, sampled) && ScoresSorted(sorted)
    requires sampled <= Eligible(nodes, chunkSize, excluded)
    requires |sampled| == Min(PoolTakes(2 * n), |Eligible(nodes, chunkSize, excluded)|)
    requires BestSoFar(nodes, sorted, taken, selected, ids) && taken == Min(n, |sorted|)
    ensures Picks(nodes, n, chunkSize, excluded, selected, ids, sampled)
  {
    ScoresCount(sorted, nodes, sampled);
    SubsetCount(sampled, Eligible(nodes, chunkSize, excluded));
    forall k | 0 <= k < |ids|
      ensures ids[k] in sampled
    {
      ScoredNode(sorted, nodes, sampled, k);
    }
    forall k, id | 0 <= k < |ids| && id in sampled && id !in ids
      ensures ScoreLeq(ScoreOf(nodes, ids[k]), ScoreOf(nodes, id))
    {
      LeftOutNoBetter(nodes, sorted, taken, selected, ids, sampled, k, id);
    }
  }

  lemma LeftOutNoBetter(nodes: Nodes, sorted: seq<Score>, taken: nat, selected: seq<bytes>, ids: seq<bytes>,
                        sampled: set<bytes>, k: nat, id: bytes)
    requires ScoresOf(sorted, nodes, sampled) && ScoresSorted(sorted)
    requires BestSoFar(nodes, sorted, taken, selected, ids) && k < taken && id in sampled && id !in ids
    ensures id in nodes && ScoreLeq(ScoreOf(nodes, ids[k]), ScoreOf(nodes, id))
  {
    forall m | 0 <= m < taken
      ensures sorted[m].id in ids
    {
      assert ids[m] in ids;
    }
    var m :| 0 <= m < |sorted| && sorted[m] == ScoreOf(nodes, id);
    ScoredNode(sorted, nodes, sampled, k);
    assert ScoreLeq(sorted[k], sorted[m]);
  }

  lemma SubsetCount(a: set<bytes>, b: set<bytes>)
    requires a <= b
    ensures |a| <= |b|
  {
    assert |b| == |a| + |b - a|;
  }
}
