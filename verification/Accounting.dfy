/** The bytes of each partition by worker, as the master adds them up. */
module Accounting {
  import opened Bytes

  type Counts = map<bytes, nat>

  /** All the bytes, over every worker. */
  ghost function Total(counts: Counts): nat
  {
    if counts == map[] then 0
    else
      var addr :| addr in counts;
      counts[addr] + Total(counts - {addr})
  }

  /** The total does not depend on which worker is counted first. */
  lemma {:induction false} TotalWithout(counts: Counts, addr: bytes)
    requires addr in counts
    ensures Total(counts) == counts[addr] + Total(counts - {addr})
    decreases |counts|
  {
    var first :| first in counts && Total(counts) == counts[first] + Total(counts - {first});
    if first != addr {
      TotalWithout(counts - {first}, addr);
      TotalWithout(counts - {addr}, first);
      assert counts - {first} - {addr} == counts - {addr} - {first};
    }
  }

  /** The bytes entered for an address, none when it has no entry. */
  function BytesAt(counts: Counts, addr: bytes): (n: nat)
    ensures addr in counts ==> n == counts[addr]
    ensures addr !in counts ==> n == 0
  {
    if addr in counts then counts[addr] else 0
  }

  function Add(counts: Counts, addr: bytes, n: nat): Counts
  {
    counts[addr := (if addr in counts then counts[addr] else 0) + n]
  }

  lemma TotalAdd(counts: Counts, addr: bytes, n: nat)
    ensures Total(Add(counts, addr, n)) == Total(counts) + n
  {
    var more := Add(counts, addr, n);
    TotalWithout(more, addr);
    assert more - {addr} == counts - {addr};
    if addr in counts {
      TotalWithout(counts, addr);
    } else {
      assert counts - {addr} == counts;
    }
  }

  /** The accumulation when a map task reports success. */
  method Account(reduceData: seq<Counts>, addr: bytes, report: seq<nat>) returns (reduceData': seq<Counts>)
    requires |report| == |reduceData|
    ensures |reduceData'| == |reduceData|
    ensures forall r :: 0 <= r < |report| ==> reduceData'[r] == Add(reduceData[r], addr, report[r])
    ensures forall r, a :: 0 <= r < |report| ==>
              && (a in reduceData'[r] <==> a in reduceData[r] || a == addr)
              && BytesAt(reduceData'[r], a) == BytesAt(reduceData[r], a) + if a == addr then report[r] else 0
    ensures forall r :: 0 <= r < |report| ==> Total(reduceData'[r]) == Total(reduceData[r]) + report[r]
  {
    hide Total;
    reduceData' := reduceData;
    for r := 0 to |report|
      invariant |reduceData'| == |reduceData|
      invariant forall q :: 0 <= q < r ==> reduceData'[q] == Add(reduceData[q], addr, report[q])
      invariant forall q :: 0 <= q < r ==> Total(reduceData'[q]) == Total(reduceData[q]) + report[q]
      invariant forall q :: r <= q < |reduceData| ==> reduceData'[q] == reduceData[q]
    {
      TotalAdd(reduceData[r], addr, report[r]);
      reduceData' := reduceData'[r := Add(reduceData'[r], addr, report[r])];
    }
  }

  // ---------- Completions in any order ----------

  /** A map task that succeeded, reported by its worker. */
  datatype Completion = Completion(addr: bytes, report: seq<nat>)

  function BytesOf(c: Completion, r: nat): nat
  {
    if r < |c.report| then c.report[r] else 0
  }

  /** The bytes of a partition by worker after these completions. */
  function Accumulated(done: seq<Completion>, r: nat): Counts
  {
    if done == [] then map[]
    else Add(Accumulated(done[..|done| - 1], r), done[|done| - 1].addr, BytesOf(done[|done| - 1], r))
  }

  lemma AddCommutes(counts: Counts, a: bytes, m: nat, b: bytes, n: nat)
    ensures Add(Add(counts, a, m), b, n) == Add(Add(counts, b, n), a, m)
  {
  }

  /** A completion may as well have come last. */
  lemma {:induction false} AccumulatedLast(done: seq<Completion>, k: nat, r: nat)
    requires k < |done|
    ensures Accumulated(done, r) == Add(Accumulated(done[..k] + done[k + 1..], r), done[k].addr, BytesOf(done[k], r))
  {
    hide Add;
    var n := |done| - 1;
    var init, last := done[..n], done[n];
    var others := done[..k] + done[k + 1..];
    if k == n {
      assert others == init;
    } else {
      AccumulatedLast(init, k, r);
      assert others[..n - 1] == init[..k] + init[k + 1..];
      AddCommutes(Accumulated(others[..n - 1], r), done[k].addr, BytesOf(done[k], r), last.addr, BytesOf(last, r));
    }
  }

  /** Whatever order the tasks complete in, the same bytes are counted for the same workers. */
  lemma {:induction false} CompletionOrder(a: seq<Completion>, b: seq<Completion>, r: nat)
    requires multiset(a) == multiset(b)
    ensures Accumulated(a, r) == Accumulated(b, r)
  {
    hide *;
    PermutedLength(a, b);
    if a != [] {
      var k := FindPermuted(a, b, 0);
      CompletionOrder(a[..0] + a[1..], b[..k] + b[k + 1..], r);
      AccumulatedLast(a, 0, r);
      AccumulatedLast(b, k, r);
    }
  }

  function ReportedBytes(done: seq<Completion>, r: nat): nat
  {
    if done == [] then 0 else ReportedBytes(done[..|done| - 1], r) + BytesOf(done[|done| - 1], r)
  }

  /** Over all workers, each completion is counted once. */
  lemma {:induction false} EachCountedOnce(done: seq<Completion>, r: nat)
    ensures Total(Accumulated(done, r)) == ReportedBytes(done, r)
  {
    hide Add, Total;
    if done == [] {
      NoBytes();
    } else {
      var init, last := done[..|done| - 1], done[|done| - 1];
      EachCountedOnce(init, r);
      TotalAdd(Accumulated(init, r), last.addr, BytesOf(last, r));
    }
  }

  /** Over all workers, a partition's bytes are the sum of what was reported for it. */
  lemma {:induction false} ReportsAddUp(done: seq<Completion>, r: nat, reported: seq<nat>)
    requires |reported| == |done|
    requires forall k :: 0 <= k < |done| ==> r < |done[k].report| && reported[k] == done[k].report[r]
    ensures Total(Accumulated(done, r)) == Sum(reported)
  {
    hide Add, Total, Accumulated;
    EachCountedOnce(done, r);
    if done == [] {
      NoBytes();
    } else {
      var n := |done| - 1;
      EachCountedOnce(done[..n], r);
      ReportsAddUp(done[..n], r, reported[..n]);
      SumAppend(reported[..n], reported[n]);
      assert reported == reported[..n] + [reported[n]];
    }
  }

  /** Under each address, the bytes are the sum of what was reported from it. */
  lemma {:induction false} EntryAddsUp(done: seq<Completion>, r: nat, addr: bytes, reported: seq<nat>)
    requires |reported| == |done|
    requires forall k :: 0 <= k < |done| ==>
               r < |done[k].report| && reported[k] == if done[k].addr == addr then done[k].report[r] else 0
    ensures BytesAt(Accumulated(done, r), addr) == Sum(reported)
    ensures addr in Accumulated(done, r) <==> exists k :: 0 <= k < |done| && done[k].addr == addr
  {
    if done != [] {
      var n := |done| - 1;
      EntryAddsUp(done[..n], r, addr, reported[..n]);
      SumAppend(reported[..n], reported[n]);
      assert reported == reported[..n] + [reported[n]];
    }
  }

  lemma NoBytes()
    ensures Total(map[]) == 0
  {
  }

  // ---------- Bytes by host ----------

  /** The part of the counts at the addresses of one host. */
  function At(counts: Counts, host: bytes -> bytes, h: bytes): Counts
  {
    map addr | addr in counts && host(addr) == h :: counts[addr]
  }

  function Elsewhere(counts: Counts, host: bytes -> bytes, h: bytes): Counts
  {
    map addr | addr in counts && host(addr) != h :: counts[addr]
  }

  /** The entries at a host are those of the addresses on it, as they are, and elsewhere are the others. */
  lemma HostExactly(counts: Counts, host: bytes -> bytes, h: bytes, addr: bytes)
    ensures addr in At(counts, host, h) <==> addr in counts && host(addr) == h
    ensures addr in Elsewhere(counts, host, h) <==> addr in counts && host(addr) != h
    ensures addr in At(counts, host, h) ==> At(counts, host, h)[addr] == counts[addr]
    ensures addr in Elsewhere(counts, host, h) ==> Elsewhere(counts, host, h)[addr] == counts[addr]
  {
  }

  /** What is not local must be fetched. */
  lemma {:induction false} LocalAndRemote(counts: Counts, host: bytes -> bytes, h: bytes)
    ensures Total(At(counts, host, h)) + Total(Elsewhere(counts, host, h)) == Total(counts)
    decreases |counts|
  {
    hide *;
    NoBytes();
    if counts == map[] {
      NoneAnywhere(host, h);
    } else {
      var addr :| addr in counts;
      LocalAndRemote(counts - {addr}, host, h);
      TotalWithout(counts, addr);
      OneAddress(counts, host, h, addr);
      if host(addr) == h {
        TotalWithout(At(counts, host, h), addr);
      } else {
        TotalWithout(Elsewhere(counts, host, h), addr);
      }
    }
  }

  lemma NoneAnywhere(host: bytes -> bytes, h: bytes)
    ensures At(map[], host, h) == map[] && Elsewhere(map[], host, h) == map[]
  {
  }

  /** An address is either at the host or elsewhere. */
  lemma OneAddress(counts: Counts, host: bytes -> bytes, h: bytes, addr: bytes)
    requires addr in counts
    ensures var rest := counts - {addr};
            if host(addr) == h then
              && addr in At(counts, host, h) && At(counts, host, h)[addr] == counts[addr]
              && At(counts, host, h) - {addr} == At(rest, host, h)
              && Elsewhere(counts, host, h) == Elsewhere(rest, host, h)
            else
              && addr in Elsewhere(counts, host, h) && Elsewhere(counts, host, h)[addr] == counts[addr]
              && Elsewhere(counts, host, h) - {addr} == Elsewhere(rest, host, h)
              && At(counts, host, h) == At(rest, host, h)
  {
  }
}
