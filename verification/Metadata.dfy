/** File metadata as values, and what reports and evictions do to it. */
module Metadata {
  import opened Bytes

  const REPLICATION_FACTOR: nat := 3

  datatype ChunkInfo = ChunkInfo(chunkId: nat, nodes: seq<bytes>, size: nat, checksum: bytes)

  datatype Meta = Meta(fileName: bytes, size: nat, chunks: seq<ChunkInfo>, createdAt: int, leaseExpiry: int)

  type FileMap = map<bytes, Meta>

  /** Index of the first chunk with this id, or how many chunks there are. */
  function FindChunk(chunks: seq<ChunkInfo>, id: nat): (i: nat)
    ensures i <= |chunks|
    ensures i < |chunks| ==> chunks[i].chunkId == id
    ensures forall j :: 0 <= j < i ==> chunks[j].chunkId != id
  {
    if chunks == [] || chunks[0].chunkId == id then 0 else FindChunk(chunks[1..], id) + 1
  }

  /** The addresses left when one is taken off. */
  function Without(nodes: seq<bytes>, addr: bytes): (rest: seq<bytes>)
    ensures forall a :: a in rest <==> a in nodes && a != addr
    ensures |rest| <= |nodes|
  {
    if nodes == [] then []
    else if nodes[|nodes| - 1] == addr then Without(nodes[..|nodes| - 1], addr)
    else Without(nodes[..|nodes| - 1], addr) + [nodes[|nodes| - 1]]
  }

  /** The addresses that are alive. */
  function Alive(nodes: seq<bytes>, active: set<bytes>): (rest: seq<bytes>)
    ensures forall a :: a in rest <==> a in nodes && a in active
    ensures |rest| <= |nodes| && (|rest| == |nodes| ==> rest == nodes)
  {
    if nodes == [] then []
    else
      var last := nodes[|nodes| - 1];
      var init := Alive(nodes[..|nodes| - 1], active);
      assert nodes == nodes[..|nodes| - 1] + [last];
      if last in active then init + [last] else init
  }

  lemma WithoutLast(nodes: seq<bytes>, last: bytes, addr: bytes)
    ensures Without(nodes + [last], addr)
         == if last == addr then Without(nodes, addr) else Without(nodes, addr) + [last]
    ensures Without([], addr) == []
  {
    assert (nodes + [last])[..|nodes|] == nodes;
  }

  lemma AliveLast(nodes: seq<bytes>, last: bytes, active: set<bytes>)
    ensures Alive(nodes + [last], active)
         == if last in active then Alive(nodes, active) + [last] else Alive(nodes, active)
    ensures Alive([], active) == []
  {
    assert (nodes + [last])[..|nodes|] == nodes;
  }

  /** Taking an address off goes address by address and keeps the order. */
  lemma {:induction false} WithoutConcat(a: seq<bytes>, b: seq<bytes>, addr: bytes)
    ensures Without(a + b, addr) == Without(a, addr) + Without(b, addr)
    ensures Without([addr], addr) == [] && forall x :: x != addr ==> Without([x], addr) == [x]
  {
    hide Without;
    forall x
      ensures Without([x], addr) == if x == addr then [] else [x]
    {
      WithoutLast([], x, addr);
      assert [] + [x] == [x];
    }
    if b == [] {
      WithoutLast([], addr, addr);
      assert a + b == a;
    } else {
      var init, last := b[..|b| - 1], b[|b| - 1];
      WithoutConcat(a, init, addr);
      WithoutLast(init, last, addr);
      WithoutLast(a + init, last, addr);
      assert a + b == a + init + [last] && b == init + [last];
    }
  }

  /** So does keeping the active ones. */
  lemma {:induction false} AliveConcat(a: seq<bytes>, b: seq<bytes>, active: set<bytes>)
    ensures Alive(a + b, active) == Alive(a, active) + Alive(b, active)
    ensures forall x :: Alive([x], active) == if x in active then [x] else []
  {
    hide Alive;
    forall x
      ensures Alive([x], active) == if x in active then [x] else []
    {
      AliveLast([], x, active);
      assert [] + [x] == [x];
    }
    if b == [] {
      AliveLast([], [], active);
      assert a + b == a;
    } else {
      var init, last := b[..|b| - 1], b[|b| - 1];
      AliveConcat(a, init, active);
      AliveLast(init, last, active);
      AliveLast(a + init, last, active);
      assert a + b == a + init + [last] && b == init + [last];
    }
  }

  predicate Distinct(nodes: seq<bytes>)
  {
    forall i, j :: 0 <= i < j < |nodes| ==> nodes[i] != nodes[j]
  }

  lemma {:induction false} WithoutDistinct(nodes: seq<bytes>, addr: bytes)
    requires Distinct(nodes)
    ensures Distinct(Without(nodes, addr))
  {
    if nodes != [] {
      var init, last := nodes[..|nodes| - 1], nodes[|nodes| - 1];
      WithoutDistinct(init, addr);
      assert last !in init;
    }
  }

  lemma {:induction false} AliveDistinct(nodes: seq<bytes>, active: set<bytes>)
    requires Distinct(nodes)
    ensures Distinct(Alive(nodes, active))
  {
    if nodes != [] {
      var init, last := nodes[..|nodes| - 1], nodes[|nodes| - 1];
      AliveDistinct(init, active);
      assert last !in init;
    }
  }

  function WithNodes(chunks: seq<ChunkInfo>, i: nat, nodes: seq<bytes>): seq<ChunkInfo>
    requires i < |chunks|
  {
    chunks[i := chunks[i].(nodes := nodes)]
  }

  /** A failure report takes the address off the chunk. */
  function FailChunk(chunks: seq<ChunkInfo>, id: nat, addr: bytes): seq<ChunkInfo>
  {
    var i := FindChunk(chunks, id);
    if i == |chunks| then chunks else WithNodes(chunks, i, Without(chunks[i].nodes, addr))
  }

  /** A success report puts the address on the chunk, once. */
  function StoreChunk(chunks: seq<ChunkInfo>, id: nat, addr: bytes): seq<ChunkInfo>
  {
    var i := FindChunk(chunks, id);
    if i == |chunks| || addr in chunks[i].nodes then chunks else WithNodes(chunks, i, chunks[i].nodes + [addr])
  }

  /** The report is the chunk's first copy. */
  predicate FirstCopy(chunks: seq<ChunkInfo>, id: nat)
  {
    var i := FindChunk(chunks, id);
    i < |chunks| && chunks[i].nodes == []
  }

  /** Reports change only the nodes of the first chunk with the id; a new address goes behind those there. */
  lemma ReportsExactly(chunks: seq<ChunkInfo>, i: nat, addr: bytes)
    requires i < |chunks| && forall j :: 0 <= j < i ==> chunks[j].chunkId != chunks[i].chunkId
    ensures var nodes := chunks[i].nodes;
            && FailChunk(chunks, chunks[i].chunkId, addr) == chunks[i := chunks[i].(nodes := Without(nodes, addr))]
            && (addr in nodes ==> StoreChunk(chunks, chunks[i].chunkId, addr) == chunks)
            && (addr !in nodes ==>
                 StoreChunk(chunks, chunks[i].chunkId, addr) == chunks[i := chunks[i].(nodes := nodes + [addr])])
            && (FirstCopy(chunks, chunks[i].chunkId) <==> nodes == [])
  {
    assert FindChunk(chunks, chunks[i].chunkId) == i;
  }

  lemma ReportsMiss(chunks: seq<ChunkInfo>, id: nat, addr: bytes)
    requires forall i :: 0 <= i < |chunks| ==> chunks[i].chunkId != id
    ensures FailChunk(chunks, id, addr) == StoreChunk(chunks, id, addr) == chunks && !FirstCopy(chunks, id)
  {
    assert FindChunk(chunks, id) == |chunks|;
  }

  function EvictChunks(chunks: seq<ChunkInfo>, active: set<bytes>): (evicted: seq<ChunkInfo>)
    ensures |evicted| == |chunks|
    ensures forall i :: 0 <= i < |chunks| ==> evicted[i] == chunks[i].(nodes := Alive(chunks[i].nodes, active))
  {
    seq(|chunks|, i requires 0 <= i < |chunks| => chunks[i].(nodes := Alive(chunks[i].nodes, active)))
  }

  // ---------- Well-formed chunk lists ----------

  /** Chunk ids count from 0, and no address is listed twice. */
  predicate ChunksOk(chunks: seq<ChunkInfo>)
  {
    forall i :: 0 <= i < |chunks| ==> chunks[i].chunkId == i && Distinct(chunks[i].nodes)
  }

  lemma FindById(chunks: seq<ChunkInfo>, id: nat)
    requires ChunksOk(chunks)
    ensures FindChunk(chunks, id) == if id < |chunks| then id else |chunks|
  {
    var i := FindChunk(chunks, id);
    if id < |chunks| {
      assert chunks[id].chunkId == id;
    }
  }

  lemma ReportsKeepOk(chunks: seq<ChunkInfo>, id: nat, addr: bytes, active: set<bytes>)
    requires ChunksOk(chunks)
    ensures ChunksOk(FailChunk(chunks, id, addr))
    ensures ChunksOk(StoreChunk(chunks, id, addr))
    ensures ChunksOk(EvictChunks(chunks, active))
  {
    var i := FindChunk(chunks, id);
    if i < |chunks| {
      WithoutDistinct(chunks[i].nodes, addr);
    }
    forall k | 0 <= k < |chunks|
      ensures Distinct(EvictChunks(chunks, active)[k].nodes)
    {
      AliveDistinct(chunks[k].nodes, active);
    }
  }

  /** How many chunks no node has reported. */
  function Copyless(chunks: seq<ChunkInfo>): (n: nat)
    ensures n <= |chunks|
  {
    if chunks == [] then 0
    else Copyless(chunks[..|chunks| - 1]) + if chunks[|chunks| - 1].nodes == [] then 1 else 0
  }

  lemma {:induction false} CopylessUpdate(chunks: seq<ChunkInfo>, i: nat, nodes: seq<bytes>)
    requires i < |chunks|
    ensures Copyless(WithNodes(chunks, i, nodes)) + (if chunks[i].nodes == [] then 1 else 0)
         == Copyless(chunks) + (if nodes == [] then 1 else 0)
  {
    var n := |chunks| - 1;
    var updated := WithNodes(chunks, i, nodes);
    if i < n {
      CopylessUpdate(chunks[..n], i, nodes);
      assert updated[..n] == WithNodes(chunks[..n], i, nodes);
    } else {
      assert updated[..n] == chunks[..n];
    }
  }

  lemma {:induction false} CopylessNone(chunks: seq<ChunkInfo>)
    ensures Copyless(chunks) == 0 <==> forall i :: 0 <= i < |chunks| ==> chunks[i].nodes != []
  {
    if chunks != [] {
      var n := |chunks| - 1;
      CopylessNone(chunks[..n]);
      assert forall i :: 0 <= i < n ==> chunks[..n][i] == chunks[i];
    }
  }

  lemma {:induction false} CopylessAll(chunks: seq<ChunkInfo>)
    requires forall i :: 0 <= i < |chunks| ==> chunks[i].nodes == []
    ensures Copyless(chunks) == |chunks|
  {
    if chunks != [] {
      CopylessAll(chunks[..|chunks| - 1]);
    }
  }
}
