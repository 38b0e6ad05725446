/** Hash partitions, and the layout of a partitioned file beside its index. */
module Partitioning {
  import opened Bytes
  import opened RecordCodec

  // ---------- Hash ----------

  /** The key read as a number in base 31. */
  function Poly(s: bytes): nat
  {
    if s == [] then 0 else Poly(s[..|s| - 1]) * 31 + s[|s| - 1] as nat
  }

  function Hash(key: bytes): nat
  {
    Poly(key) % 0x8000_0000
  }

  lemma WrapStep(p: nat, b: nat)
    ensures Wrap32(Wrap32(p) * 31 + b) == Wrap32(p * 31 + b)
    ensures Wrap32(0) == 0
  {
    var q, m := p / 0x1_0000_0000, p % 0x1_0000_0000;
    AddWraps(m * 31 + b, q * 31);
    assert p * 31 + b == m * 31 + b + (q * 31) * 0x1_0000_0000;
  }

  /** The low 31 bits of 32 are the low 31 bits. */
  lemma LowBits(n: nat)
    ensures Wrap32(n) % 0x8000_0000 == n % 0x8000_0000
  {
    var q, m := n / 0x1_0000_0000, n % 0x1_0000_0000;
    assert n == m + (2 * q) * 0x8000_0000;
    LowBitsStep(m, 2 * q);
  }

  lemma {:induction false} LowBitsStep(m: nat, k: nat)
    ensures (m + k * 0x8000_0000) % 0x8000_0000 == m % 0x8000_0000
  {
    if k > 0 {
      LowBitsStep(m, k - 1);
      var n := m + (k - 1) * 0x8000_0000;
      assert m + k * 0x8000_0000 == n + 0x8000_0000;
    }
  }

  lemma PolyAppend(s: bytes, b: byte)
    ensures Poly(s + [b]) == Poly(s) * 31 + b as nat
    ensures Poly([]) == 0
  {
    assert (s + [b])[..|s|] == s;
  }

  /** The wrapping 32-bit loop is the polynomial modulo 2^31: masking 0x7fffffff keeps 31 bits. */
  method IHash(s: bytes) returns (hash: nat)
    ensures hash == Poly(s) % 0x8000_0000
  {
    hide Poly, Wrap32;
    var h: nat := 0;
    PolyAppend([], 0);
    WrapStep(0, 0);
    assert s[..0] == [];
    for i := 0 to |s|
      invariant h == Wrap32(Poly(s[..i]))
    {
      assert s[..i + 1] == s[..i] + [s[i]];
      PolyAppend(s[..i], s[i]);
      WrapStep(Poly(s[..i]), s[i] as nat);
      h := Wrap32(h * 31 + s[i] as nat);
    }
    assert s[..|s|] == s;
    LowBits(Poly(s));
    hash := h % 0x8000_0000;
  }

  function PartOf(key: bytes, numReducers: nat): (r: nat)
    requires numReducers > 0
    ensures r < numReducers
  {
    Hash(key) % numReducers
  }

  /** The pairs of one partition, in the order given. */
  function Select(pairs: seq<KeyValue>, numReducers: nat, r: nat): seq<KeyValue>
    requires numReducers > 0
  {
    if pairs == [] then []
    else (if PartOf(pairs[0].key, numReducers) == r then [pairs[0]] else []) + Select(pairs[1..], numReducers, r)
  }

  lemma SelectFirst(pairs: seq<KeyValue>, numReducers: nat, r: nat) returns (head: seq<KeyValue>)
    requires numReducers > 0 && pairs != []
    ensures head == if PartOf(pairs[0].key, numReducers) == r then [pairs[0]] else []
    ensures Select(pairs, numReducers, r) == head + Select(pairs[1..], numReducers, r)
  {
    hide PartOf;
    head := if PartOf(pairs[0].key, numReducers) == r then [pairs[0]] else [];
  }

  lemma {:induction false} SelectConcat(a: seq<KeyValue>, b: seq<KeyValue>, numReducers: nat, r: nat)
    requires numReducers > 0
    ensures Select(a + b, numReducers, r) == Select(a, numReducers, r) + Select(b, numReducers, r)
  {
    hide PartOf, Select;
    if a == [] {
      assert a + b == b;
      SelectNothing(numReducers, r);
    } else {
      assert (a + b)[1..] == a[1..] + b;
      SelectConcat(a[1..], b, numReducers, r);
      var head := SelectFirst(a, numReducers, r);
      var same := SelectFirst(a + b, numReducers, r);
      assert head + (Select(a[1..], numReducers, r) + Select(b, numReducers, r))
          == head + Select(a[1..], numReducers, r) + Select(b, numReducers, r);
    }
  }

  lemma SelectNothing(numReducers: nat, r: nat)
    requires numReducers > 0
    ensures Select([], numReducers, r) == []
  {
  }

  lemma {:induction false} SelectCounts(pairs: seq<KeyValue>, numReducers: nat, r: nat, kv: KeyValue)
    requires numReducers > 0
    ensures multiset(Select(pairs, numReducers, r))[kv]
         == if PartOf(kv.key, numReducers) == r then multiset(pairs)[kv] else 0
  {
    hide Hash;
    if pairs != [] {
      SelectCounts(pairs[1..], numReducers, r, kv);
      assert pairs == [pairs[0]] + pairs[1..];
    }
  }

  /** Partition r holds the pairs whose key hashes to r, each as often as it was there. */
  lemma SelectedExactly(pairs: seq<KeyValue>, numReducers: nat, r: nat, kv: KeyValue)
    requires numReducers > 0
    ensures kv in Select(pairs, numReducers, r) <==> kv in pairs && Poly(kv.key) % 0x8000_0000 % numReducers == r
    ensures multiset(Select(pairs, numReducers, r))[kv]
         == if Poly(kv.key) % 0x8000_0000 % numReducers == r then multiset(pairs)[kv] else 0
  {
    SelectCounts(pairs, numReducers, r, kv);
    assert kv in Select(pairs, numReducers, r) <==> kv in multiset(Select(pairs, numReducers, r));
    assert kv in pairs <==> kv in multiset(pairs);
  }

  /** parts[r] is partition r of the pairs, in key order. */
  predicate IsPartition(pairs: seq<KeyValue>, numReducers: nat, parts: seq<seq<KeyValue>>)
    requires numReducers > 0
  {
    && |parts| == numReducers
    && forall r :: 0 <= r < numReducers ==>
         Sorted(parts[r]) && multiset(parts[r]) == multiset(Select(pairs, numReducers, r))
  }

  /**
   * A partition, said without hashing or selecting: for each reducer a list whose neighbours are in key order, which
   * holds each pair as often as it was there if the polynomial of its key gives that reducer, and not at all if not.
   */
  lemma PartitionExactly(pairs: seq<KeyValue>, numReducers: nat, parts: seq<seq<KeyValue>>)
    requires numReducers > 0
    ensures IsPartition(pairs, numReducers, parts) <==>
              && |parts| == numReducers
              && (forall r, i :: 0 <= r < numReducers && 0 <= i < |parts[r]| - 1 ==>
                    Leq(parts[r][i].key, parts[r][i + 1].key))
              && (forall r, kv :: 0 <= r < numReducers ==>
                    multiset(parts[r])[kv]
                    == if Poly(kv.key) % 0x8000_0000 % numReducers == r then multiset(pairs)[kv] else 0)
  {
    hide Leq, Poly, Select, Sorted;
    if |parts| == numReducers {
      forall r | 0 <= r < numReducers
        ensures Sorted(parts[r]) <==>
                  forall i :: 0 <= i < |parts[r]| - 1 ==> Leq(parts[r][i].key, parts[r][i + 1].key)
        ensures multiset(parts[r]) == multiset(Select(pairs, numReducers, r)) <==>
                  forall kv :: multiset(parts[r])[kv]
                    == if Poly(kv.key) % 0x8000_0000 % numReducers == r then multiset(pairs)[kv] else 0
      {
        SortedExactly(parts[r]);
        forall kv
          ensures multiset(Select(pairs, numReducers, r))[kv]
               == if Poly(kv.key) % 0x8000_0000 % numReducers == r then multiset(pairs)[kv] else 0
        {
          SelectedExactly(pairs, numReducers, r, kv);
        }
      }
    }
  }

  // ---------- Layout ----------

  /** The partitions written one after another. */
  function Layout(parts: seq<seq<KeyValue>>): bytes
  {
    if parts == [] then [] else Layout(parts[..|parts| - 1]) + EncodeAll(parts[|parts| - 1])
  }

  function Start(parts: seq<seq<KeyValue>>, r: nat): nat
    requires r <= |parts|
  {
    |Layout(parts[..r])|
  }

  lemma LayoutAppend(parts: seq<seq<KeyValue>>, part: seq<KeyValue>)
    ensures Layout(parts + [part]) == Layout(parts) + EncodeAll(part)
  {
    assert (parts + [part])[..|parts|] == parts;
  }

  lemma {:induction false} LayoutPrefix(parts: seq<seq<KeyValue>>, r: nat)
    requires r <= |parts|
    ensures Layout(parts[..r]) <= Layout(parts)
  {
    if r < |parts| {
      LayoutPrefix(parts[..|parts| - 1], r);
      assert parts[..|parts| - 1][..r] == parts[..r];
    } else {
      assert parts[..r] == parts;
    }
  }

  /** What an io.SectionReader over [start, end) yields. */
  function Section(data: bytes, start: nat, end: nat): bytes
  {
    var s := if start <= |data| then start else |data|;
    var e := if end <= |data| then end else |data|;
    if s <= e then data[s..e] else []
  }

  /** The byte range between two starts is the serialisation of one partition. */
  lemma SectionOfLayout(parts: seq<seq<KeyValue>>, r: nat)
    requires r < |parts|
    ensures Start(parts, r) <= Start(parts, r + 1) <= |Layout(parts)|
    ensures Section(Layout(parts), Start(parts, r), Start(parts, r + 1)) == EncodeAll(parts[r])
  {
    hide Layout, EncodeAll, Section;
    LayoutPrefix(parts, r + 1);
    assert parts[..r + 1] == parts[..r] + [parts[r]];
    LayoutAppend(parts[..r], parts[r]);
    SliceOfPrefix(Layout(parts[..r]), EncodeAll(parts[r]), Layout(parts));
  }

  lemma SliceOfPrefix(before: bytes, middle: bytes, whole: bytes)
    requires before + middle <= whole
    ensures Section(whole, |before|, |before + middle|) == middle
  {
    assert whole[..|before + middle|] == before + middle;
    assert whole[|before|..|before + middle|] == (before + middle)[|before|..];
  }
}
