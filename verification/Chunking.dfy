/** Cutting a file into chunks, storing them, and putting them together again. */
module Chunking {
  import opened Bytes
  import opened Lines

  const READ_SIZE: nat := 4096

  // ---------- Where a text is cut ----------

  /** Just after the first newline at or past `from`, or the end of the data. */
  function AfterNewline(data: bytes, from: nat): (cut: nat)
    requires from <= |data|
    ensures from <= cut <= |data|
    ensures cut < |data| ==> cut > from && data[cut - 1] == NEWLINE
  {
    var i := from + IndexOf(data[from..], NEWLINE);
    if i < |data| then i + 1 else i
  }

  /** The end of the chunk of a text that begins at `offset`. */
  function Cut(data: bytes, offset: nat, max: nat): (cut: nat)
    requires offset < |data| && max > 0
    ensures offset < cut <= |data|
    ensures cut < |data| ==> data[cut - 1] == NEWLINE
  {
    if |data| - offset <= max then |data| else AfterNewline(data, offset + max - 1)
  }

  function TextSizes(data: bytes, offset: nat, max: nat): seq<nat>
    requires offset <= |data| && max > 0
    decreases |data| - offset
  {
    if offset == |data| then []
    else [Cut(data, offset, max) - offset] + TextSizes(data, Cut(data, offset, max), max)
  }

  function FixedSizes(size: nat, max: nat): seq<nat>
    requires max > 0
  {
    if size == 0 then []
    else if size <= max then [size]
    else [max] + FixedSizes(size - max, max)
  }

  // ---------- Looking for the newline ----------

  /** Bytes without a newline lie within one line. */
  lemma {:induction false} WithinOneLine(data: bytes, from: nat, to: nat)
    requires from < to <= |data| && NEWLINE !in data[from..to]
    ensures exists line :: line in RawLines(data) && |line| >= to - from
    decreases |data|
  {
    var i := IndexOf(data, NEWLINE);
    var raw := RawLines(data);
    if i == |data| {
      assert raw[0] == data;
    } else if from > i {
      var rest := data[i + 1..];
      assert rest[from - i - 1..to - i - 1] == data[from..to];
      WithinOneLine(rest, from - i - 1, to - i - 1);
      assert raw[1..] == RawLines(rest);
      var line :| line in RawLines(rest) && |line| >= to - from;
      assert line in raw;
    } else {
      forall k | from <= k < to
        ensures data[k] != NEWLINE
      {
        assert data[from..to][k - from] == data[k];
      }
      assert i >= to && raw[0] == data[..i];
    }
  }

  /** Position of the first newline in a block read from the file, or its length. */
  method ScanBlock(buf: bytes) returns (i: nat)
    ensures i <= |buf| && NEWLINE !in buf[..i]
    ensures i < |buf| ==> buf[i] == NEWLINE
  {
    i := 0;
    while i < |buf| && buf[i] != NEWLINE
      invariant i <= |buf| && NEWLINE !in buf[..i]
    {
      i := i + 1;
    }
  }

  /** Reads ahead in blocks for the newline that ends the chunk; counts the bytes in 32 bits. */
  method BytesToNewline(data: bytes, target: nat) returns (extraBytes: nat)
    requires target <= |data|
    ensures extraBytes == Wrap32(AfterNewline(data, target) - target)
  {
    hide *;
    extraBytes := 0;
    var position := target;
    ReadSizePositive();
    NothingCounted();
    while true
      invariant target <= position <= |data| && extraBytes == Wrap32(position - target)
      invariant NEWLINE !in data[target..position]
      decreases |data| - position
    {
      var n := if |data| - position < READ_SIZE then |data| - position else READ_SIZE;
      if n == 0 {
        FirstNewline(data, target, position);
        return;
      }
      var i := ScanBlock(data[position..position + n]);
      assert data[target..position + i] == data[target..position] + data[position..position + n][..i];
      FirstNewline(data, target, position + i);
      if i < n {
        SumWraps(position - target, i + 1);
        extraBytes := Wrap32(extraBytes + i + 1);
        return;
      }
      SumWraps(position - target, n);
      extraBytes := Wrap32(extraBytes + n);
      position := position + n;
    }
  }

  lemma NothingCounted()
    ensures Wrap32(0) == 0
  {
  }

  lemma ReadSizePositive()
    ensures READ_SIZE > 0
  {
  }

  lemma FirstNewline(data: bytes, from: nat, at: nat)
    requires from <= at <= |data| && NEWLINE !in data[from..at]
    ensures at == |data| ==> AfterNewline(data, from) == |data|
    ensures at < |data| && data[at] == NEWLINE ==> AfterNewline(data, from) == at + 1
  {
    var rest := data[from..];
    assert rest[..at - from] == data[from..at];
    if at == |data| {
      IndexOfNone(rest, NEWLINE);
    } else if data[at] == NEWLINE {
      IndexOfSep(data[from..at], NEWLINE, data[at + 1..]);
      assert rest == data[from..at] + [NEWLINE] + data[at + 1..];
    }
  }

  /** Every chunk of a text is smaller than 4 GiB. */
  ghost predicate ChunksFit(data: bytes, offset: nat, max: nat)
    requires offset <= |data| && max > 0
  {
    forall size :: size in TextSizes(data, offset, max) ==> size < UINT32
  }

  /** The size one pass of the loop records for the chunk that begins at `offset`, and advances by. */
  function RecordedSize(data: bytes, offset: nat, max: nat): nat
    requires offset < |data| && max > 0
  {
    if |data| - offset <= max then |data| - offset
    else Wrap32(max - 1 + Wrap32(AfterNewline(data, offset + max - 1) - (offset + max - 1)))
  }

  /** The loop records the size of the chunk, cut to 32 bits. */
  lemma RecordedIsWrapped(data: bytes, offset: nat, max: nat)
    requires offset < |data| && 0 < max < UINT32
    ensures RecordedSize(data, offset, max) == Wrap32(Cut(data, offset, max) - offset)
  {
    hide AfterNewline;
    if |data| - offset > max {
      var target := offset + max - 1;
      SumWraps(AfterNewline(data, target) - target, max - 1);
    }
  }

  /** The size recorded is right exactly when the chunk is smaller than 4 GiB. */
  lemma RecordedExactly(data: bytes, offset: nat, max: nat)
    requires offset < |data| && 0 < max < UINT32
    ensures RecordedSize(data, offset, max) == Cut(data, offset, max) - offset
       <==> Cut(data, offset, max) - offset < UINT32
  {
    hide *;
    RecordedIsWrapped(data, offset, max);
    assert Wrap32(Cut(data, offset, max) - offset) == Cut(data, offset, max) - offset
       <==> Cut(data, offset, max) - offset < UINT32;
  }

  /**
   * Whatever the chunk size, on a file that is one line of 4 GiB the loop does not get on: it records a chunk
   * of no bytes and looks at the same offset again.
   */
  lemma NoProgress(data: bytes, max: nat)
    requires 0 < max < UINT32 && |data| == UINT32 && NEWLINE !in data
    ensures RecordedSize(data, 0, max) == 0
  {
    hide AfterNewline, RecordedSize;
    RecordedIsWrapped(data, 0, max);
    NoNewlineAfter(data, max - 1);
  }

  lemma NoNewlineAfter(data: bytes, from: nat)
    requires from <= |data| && NEWLINE !in data
    ensures AfterNewline(data, from) == |data|
  {
    IndexOfNone(data[from..], NEWLINE);
  }

  /** Text whose lines are short enough is cut into chunks that are small enough. */
  lemma {:induction false} ShortLinesFit(data: bytes, offset: nat, max: nat)
    requires offset <= |data| && 0 < max < UINT32
    requires LinesFit(data, UINT32 - max)
    ensures ChunksFit(data, offset, max)
    decreases |data| - offset
  {
    hide LinesFit, AfterNewline, Cut, TextSizes;
    if offset == |data| {
      TextSizesEnd(data, max);
    } else {
      TextSizesStep(data, offset, max);
      ShortLinesFit(data, Cut(data, offset, max), max);
      if |data| - offset > max {
        NewlineNear(data, offset + max - 1, UINT32 - max);
      }
    }
  }

  lemma NewlineNear(data: bytes, from: nat, bound: nat)
    requires from <= |data| && bound > 0 && LinesFit(data, bound)
    ensures AfterNewline(data, from) - from <= bound
  {
    hide RawLines;
    var i := IndexOf(data[from..], NEWLINE);
    if i > 0 {
      assert data[from..from + i] == data[from..][..i];
      WithinOneLine(data, from, from + i);
    }
  }

  /** The sizes of the chunks of a file, cut at newlines when it is a text. */
  method CalculateChunks(data: bytes, isText: bool, maxChunkSize: nat) returns (sizes: seq<nat>)
    requires 0 < maxChunkSize < UINT32
    requires isText ==> ChunksFit(data, 0, maxChunkSize)
    ensures sizes == if isText then TextSizes(data, 0, maxChunkSize) else FixedSizes(|data|, maxChunkSize)
  {
    hide *;
    sizes := [];
    if !isText {
      sizes := FixedChunks(|data|, maxChunkSize);
      return;
    }
    var currentOffset := 0;
    while currentOffset < |data|
      invariant 0 <= currentOffset <= |data|
      invariant TextSizes(data, 0, maxChunkSize) == sizes + TextSizes(data, currentOffset, maxChunkSize)
      invariant ChunksFit(data, currentOffset, maxChunkSize)
      decreases |data| - currentOffset
    {
      ghost var offset, before := currentOffset, sizes;
      TextSizesStep(data, currentOffset, maxChunkSize);
      NextFits(data, currentOffset, maxChunkSize);
      var remaining := |data| - currentOffset;
      if remaining <= maxChunkSize {
        sizes := sizes + [remaining];
        currentOffset := |data|;
      } else {
        var extraBytes := BytesToNewline(data, currentOffset + maxChunkSize - 1);
        var currentChunkSize := Wrap32(maxChunkSize - 1 + extraBytes);
        Recorded(data, currentOffset, maxChunkSize, extraBytes, currentChunkSize);
        sizes := sizes + [currentChunkSize];
        currentOffset := currentOffset + currentChunkSize;
      }
      assert before + ([currentOffset - offset] + TextSizes(data, currentOffset, maxChunkSize))
          == sizes + TextSizes(data, currentOffset, maxChunkSize);
    }
    TextSizesEnd(data, maxChunkSize);
    assert sizes + [] == sizes;
  }

  lemma NextFits(data: bytes, offset: nat, max: nat)
    requires offset < |data| && max > 0 && ChunksFit(data, offset, max)
    ensures Cut(data, offset, max) - offset < UINT32 && ChunksFit(data, Cut(data, offset, max), max)
  {
    hide TextSizes, Cut;
    TextSizesStep(data, offset, max);
    assert TextSizes(data, offset, max)[0] in TextSizes(data, offset, max);
    assert forall size :: size in TextSizes(data, Cut(data, offset, max), max) ==> size in TextSizes(data, offset, max);
  }

  lemma Recorded(data: bytes, offset: nat, max: nat, extraBytes: nat, size: nat)
    requires offset < |data| && 0 < max < UINT32 && |data| - offset > max && Cut(data, offset, max) - offset < UINT32
    requires extraBytes == Wrap32(AfterNewline(data, offset + max - 1) - (offset + max - 1))
    requires size == Wrap32(max - 1 + extraBytes)
    ensures offset + size == Cut(data, offset, max)
  {
    hide AfterNewline, Cut;
    RecordedExactly(data, offset, max);
  }

  lemma TextSizesStep(data: bytes, offset: nat, max: nat)
    requires offset < |data| && max > 0
    ensures TextSizes(data, offset, max)
         == [Cut(data, offset, max) - offset] + TextSizes(data, Cut(data, offset, max), max)
    ensures |data| - offset <= max ==> Cut(data, offset, max) == |data|
    ensures |data| - offset > max ==> Cut(data, offset, max) == AfterNewline(data, offset + max - 1)
  {
    hide AfterNewline;
  }

  lemma TextSizesEnd(data: bytes, max: nat)
    requires max > 0
    ensures TextSizes(data, |data|, max) == []
  {
  }

  /** Fixed-size chunks: every one but the last is full. */
  method FixedChunks(fileSize: nat, max: nat) returns (sizes: seq<nat>)
    requires max > 0
    ensures sizes == FixedSizes(fileSize, max)
  {
    hide *;
    sizes := [];
    var numChunks := (fileSize + max - 1) / max;
    CeilingBounds(fileSize, max, numChunks);
    NoChunks(fileSize, max);
    var i: nat := 0;
    while i < numChunks
      invariant i <= numChunks
      invariant i < numChunks ==> i * max < fileSize
      invariant FixedSizes(fileSize, max) == sizes + (if i < numChunks then FixedSizes(fileSize - i * max, max) else [])
    {
      var size := max;
      if i == numChunks - 1 {
        size := fileSize - i * max;
      }
      RemainingChunks(fileSize, max, numChunks, i);
      ghost var rest := if i + 1 < numChunks then FixedSizes(fileSize - (i + 1) * max, max) else [];
      assert sizes + ([size] + rest) == sizes + [size] + rest;
      sizes := sizes + [size];
      i := i + 1;
    }
  }

  lemma NoChunks(size: nat, max: nat)
    requires max > 0
    ensures 0 * max == 0
    ensures size == 0 ==> FixedSizes(size, max) == []
  {
  }

  lemma CeilingBounds(size: nat, max: nat, n: nat)
    requires max > 0 && n == (size + max - 1) / max
    ensures n > 0 ==> (n - 1) * max < size <= n * max
    ensures n == 0 <==> size == 0
  {
    assert n * max <= size + max - 1 < n * max + max;
    if n > 0 {
      assert (n - 1) * max == n * max - max;
    } else {
      assert n * max == 0;
    }
  }

  lemma MulMonotone(a: nat, b: nat, m: nat)
    requires a <= b
    ensures a * m <= b * m
  {
    assert b * m == a * m + (b - a) * m;
  }

  lemma RemainingChunks(size: nat, max: nat, n: nat, i: nat)
    requires max > 0 && i < n && (n - 1) * max < size <= n * max
    requires i * max < size
    ensures i == n - 1 ==> FixedSizes(size - i * max, max) == [size - i * max]
    ensures i < n - 1 ==> (i + 1) * max < size
    ensures i < n - 1 ==> FixedSizes(size - i * max, max) == [max] + FixedSizes(size - (i + 1) * max, max)
  {
    assert (i + 1) * max == i * max + max;
    if i < n - 1 {
      MulMonotone(i + 1, n - 1, max);
    } else {
      assert n * max == i * max + max;
    }
  }

  // ---------- Sizes add up ----------

  lemma {:induction false} TextSizesSum(data: bytes, offset: nat, max: nat)
    requires offset <= |data| && max > 0
    ensures Sum(TextSizes(data, offset, max)) == |data| - offset
    decreases |data| - offset
  {
    hide AfterNewline;
    if offset < |data| {
      TextSizesSum(data, Cut(data, offset, max), max);
    }
  }

  lemma {:induction false} FixedSizesSum(size: nat, max: nat)
    requires max > 0
    ensures Sum(FixedSizes(size, max)) == size
    decreases size
  {
    if size > max {
      FixedSizesSum(size - max, max);
    }
  }

  // ---------- Storing and merging ----------

  /** io.ReadFull into a fresh buffer of n bytes: what is missing stays zero. */
  function ReadFull(rest: bytes, n: nat): (buffer: bytes)
    ensures |buffer| == n
  {
    if n <= |rest| then rest[..n] else rest + seq(n - |rest|, _ => 0)
  }

  /** The segments read one after another. */
  function Segments(rest: bytes, sizes: seq<nat>): (segments: seq<bytes>)
    ensures |segments| == |sizes|
    decreases sizes
  {
    if sizes == [] then []
    else [ReadFull(rest, sizes[0])] + Segments(if sizes[0] <= |rest| then rest[sizes[0]..] else [], sizes[1..])
  }

  function Concat(parts: seq<bytes>): bytes
  {
    if parts == [] then [] else Concat(parts[..|parts| - 1]) + parts[|parts| - 1]
  }

  lemma {:induction false} ConcatFirst(first: bytes, parts: seq<bytes>)
    ensures Concat([first] + parts) == first + Concat(parts)
  {
    if parts == [] {
      assert [first] + parts == [first];
      assert Concat([first]) == Concat([]) + first;
    } else {
      var all := [first] + parts;
      assert all[..|all| - 1] == [first] + parts[..|parts| - 1];
      ConcatFirst(first, parts[..|parts| - 1]);
    }
  }

  /** Segments whose sizes add up to the file put together are the file. */
  lemma {:induction false} SegmentsConcat(data: bytes, sizes: seq<nat>)
    requires Sum(sizes) == |data|
    ensures Concat(Segments(data, sizes)) == data
    decreases sizes
  {
    if sizes != [] {
      var rest := data[sizes[0]..];
      SegmentsConcat(rest, sizes[1..]);
      ConcatFirst(data[..sizes[0]], Segments(rest, sizes[1..]));
      assert data == data[..sizes[0]] + rest;
    }
  }

  /** The sizes of the chunks in the order in which the controller allocated them. */
  function SizesFor(sizes: seq<nat>, allocations: seq<nat>): (ordered: seq<nat>)
    requires forall i :: 0 <= i < |allocations| ==> allocations[i] < |sizes|
    ensures |ordered| == |allocations|
    ensures forall i :: 0 <= i < |allocations| ==> ordered[i] == sizes[allocations[i]]
  {
    seq(|allocations|, i requires 0 <= i < |allocations| => sizes[allocations[i]])
  }

  /** Position i is the last that allocates its chunk. */
  predicate LastFor(allocations: seq<nat>, i: nat)
  {
    i < |allocations| && forall j :: i < j < |allocations| ==> allocations[j] != allocations[i]
  }

  /** The upload loop: each allocation gets the next segment of the file. */
  method Put(data: bytes, sizes: seq<nat>, allocations: seq<nat>) returns (stored: map<nat, bytes>)
    requires forall i :: 0 <= i < |allocations| ==> allocations[i] < |sizes|
    ensures forall id :: id in stored <==> id in allocations
    ensures forall i: nat :: LastFor(allocations, i) ==>
              stored[allocations[i]] == Segments(data, SizesFor(sizes, allocations))[i]
  {
    hide *;
    stored := map[];
    var rest := data;
    ghost var ordered := SizesFor(sizes, allocations);
    ghost var segments := Segments(data, ordered);
    assert ordered[0..] == ordered;
    NothingStored(allocations, segments);
    for n := 0 to |allocations|
      invariant StoredSoFar(stored, allocations[..n], segments)
      invariant Segments(rest, ordered[n..]) == segments[n..]
    {
      var id := allocations[n];
      var expectedSize := sizes[id];
      SegmentsStep(rest, ordered, n);
      StoreOne(stored, allocations, n, segments);
      assert segments[n..][0] == segments[n] && segments[n..][1..] == segments[n + 1..];
      var buffer := ReadFull(rest, expectedSize);
      rest := if expectedSize <= |rest| then rest[expectedSize..] else [];
      stored := stored[id := buffer];
    }
    assert allocations[..|allocations|] == allocations;
    AllStored(stored, allocations, segments);
  }

  /** Each chunk allocated so far holds the segment of its last allocation. */
  ghost predicate StoredSoFar(stored: map<nat, bytes>, allocations: seq<nat>, segments: seq<bytes>)
    requires |allocations| <= |segments|
  {
    && (forall id :: id in stored <==> id in allocations)
    && forall i: nat :: LastFor(allocations, i) ==> stored[allocations[i]] == segments[i]
  }

  lemma NothingStored(allocations: seq<nat>, segments: seq<bytes>)
    ensures StoredSoFar(map[], allocations[..0], segments)
  {
  }

  lemma StoreOne(stored: map<nat, bytes>, allocations: seq<nat>, n: nat, segments: seq<bytes>)
    requires n < |allocations| == |segments| && StoredSoFar(stored, allocations[..n], segments)
    ensures StoredSoFar(stored[allocations[n] := segments[n]], allocations[..n + 1], segments)
  {
    assert allocations[..n + 1] == allocations[..n] + [allocations[n]];
    forall i: nat | LastFor(allocations[..n + 1], i) && i < n
      ensures LastFor(allocations[..n], i) && allocations[i] != allocations[n]
    {
      assert allocations[..n + 1][n] != allocations[..n + 1][i];
    }
  }

  lemma AllStored(stored: map<nat, bytes>, allocations: seq<nat>, segments: seq<bytes>)
    requires |allocations| <= |segments| && StoredSoFar(stored, allocations, segments)
    ensures forall id :: id in stored <==> id in allocations
    ensures forall i: nat :: LastFor(allocations, i) ==> stored[allocations[i]] == segments[i]
  {
  }

  lemma SegmentsStep(rest: bytes, sizes: seq<nat>, n: nat)
    requires n < |sizes|
    ensures var more := if sizes[n] <= |rest| then rest[sizes[n]..] else [];
            Segments(rest, sizes[n..]) == [ReadFull(rest, sizes[n])] + Segments(more, sizes[n + 1..])
  {
    hide ReadFull;
    assert sizes[n..][1..] == sizes[n + 1..];
  }

  /** The merge loop: the parts in the order of the metadata, or nothing when one is missing. */
  method MergeChunks(parts: map<nat, bytes>, locations: seq<nat>) returns (merged: Option<bytes>)
    ensures merged.Some? <==> forall id :: id in locations ==> id in parts
    ensures merged.Some? ==> merged.value == Concat(seq(|locations|,
                         i requires 0 <= i < |locations| && locations[i] in parts => parts[locations[i]]))
  {
    var finalFile: bytes := [];
    ghost var done: seq<bytes> := [];
    for i := 0 to |locations|
      invariant forall j :: 0 <= j < i ==> locations[j] in parts
      invariant |done| == i && forall j :: 0 <= j < i ==> done[j] == parts[locations[j]]
      invariant finalFile == Concat(done)
    {
      if locations[i] !in parts {
        return None;
      }
      assert (done + [parts[locations[i]]])[..i] == done;
      done := done + [parts[locations[i]]];
      finalFile := finalFile + parts[locations[i]];
    }
    assert done == seq(|locations|, i requires 0 <= i < |locations| && locations[i] in parts => parts[locations[i]]);
    merged := Some(finalFile);
  }

  /** Allocated in the order of their ids, every chunk is allocated once. */
  lemma InOrder(sizes: seq<nat>, ids: seq<nat>)
    requires ids == seq(|sizes|, i => i)
    ensures SizesFor(sizes, ids) == sizes
    ensures forall i: nat :: i < |sizes| ==> LastFor(ids, i)
  {
  }

  /** Storing a file and merging its chunks in the order of their ids gives the file back, text or not. */
  method PutThenGet(data: bytes, isText: bool, maxChunkSize: nat) returns (merged: Option<bytes>)
    requires 0 < maxChunkSize < UINT32
    requires isText ==> ChunksFit(data, 0, maxChunkSize)
    ensures merged == Some(data)
  {
    hide *;
    var sizes := CalculateChunks(data, isText, maxChunkSize);
    var ids := seq(|sizes|, i => i);
    var stored := Put(data, sizes, ids);
    merged := MergeChunks(stored, ids);
    var segments := seq(|ids|, i requires 0 <= i < |ids| && ids[i] in stored => stored[ids[i]]);
    InOrder(sizes, ids);
    assert segments == Segments(data, sizes);
    TextSizesSum(data, 0, maxChunkSize);
    FixedSizesSum(|data|, maxChunkSize);
    SegmentsConcat(data, sizes);
  }

  // ---------- Text chunks keep lines whole ----------

  /** Every chunk but the last ends at a line boundary. */
  predicate LineAligned(chunks: seq<bytes>)
  {
    forall i :: 0 <= i < |chunks| - 1 ==> WholeLines(chunks[i])
  }

  /** The chunks of a text from an offset on. */
  function TextChunks(data: bytes, offset: nat, max: nat): seq<bytes>
    requires offset <= |data| && max > 0
  {
    Segments(data[offset..], TextSizes(data, offset, max))
  }

  lemma TextChunksStep(data: bytes, offset: nat, max: nat)
    requires offset < |data| && max > 0
    ensures TextChunks(data, offset, max)
         == [data[offset..Cut(data, offset, max)]] + TextChunks(data, Cut(data, offset, max), max)
  {
    hide Cut, TextSizes;
    var cut := Cut(data, offset, max);
    TextSizesStep(data, offset, max);
    assert data[offset..][cut - offset..] == data[cut..];
    assert data[offset..][..cut - offset] == data[offset..cut];
  }

  /** Every chunk of a text holds something and ends at a newline or at the end of the file. */
  lemma {:induction false} TextChunksAligned(data: bytes, offset: nat, max: nat)
    requires offset <= |data| && max > 0
    ensures LineAligned(TextChunks(data, offset, max))
    ensures forall i :: 0 <= i < |TextChunks(data, offset, max)| ==> TextChunks(data, offset, max)[i] != []
    decreases |data| - offset
  {
    hide TextChunks, TextSizes, Segments;
    if offset < |data| {
      var cut := Cut(data, offset, max);
      TextChunksStep(data, offset, max);
      TextChunksAligned(data, cut, max);
      var chunk, rest := data[offset..cut], TextChunks(data, cut, max);
      if cut == |data| {
        NoTextChunks(data, max);
      } else {
        assert chunk[|chunk| - 1] == data[cut - 1];
      }
      assert forall i :: 1 <= i <= |rest| ==> ([chunk] + rest)[i] == rest[i - 1];
    } else {
      NoTextChunks(data, max);
    }
  }

  lemma NoTextChunks(data: bytes, max: nat)
    requires max > 0
    ensures TextChunks(data, |data|, max) == []
  {
  }

  function LinesOfAll(chunks: seq<bytes>): seq<bytes>
  {
    if chunks == [] then [] else LinesOfAll(chunks[..|chunks| - 1]) + RawLines(chunks[|chunks| - 1])
  }

  lemma {:induction false} ConcatWhole(chunks: seq<bytes>)
    requires forall i :: 0 <= i < |chunks| ==> WholeLines(chunks[i])
    ensures WholeLines(Concat(chunks))
  {
    if chunks != [] {
      var init, last := chunks[..|chunks| - 1], chunks[|chunks| - 1];
      ConcatWhole(init);
      if last != [] {
        assert Concat(chunks)[|Concat(chunks)| - 1] == last[|last| - 1];
      } else {
        assert Concat(chunks) == Concat(init);
      }
    }
  }

  /** The lines of line-aligned chunks, chunk after chunk, are the lines of the file. */
  lemma {:induction false} LinesOfChunks(chunks: seq<bytes>)
    requires LineAligned(chunks)
    ensures LinesOfAll(chunks) == RawLines(Concat(chunks))
  {
    hide RawLines;
    if chunks == [] {
      NoLines();
    } else {
      var init := chunks[..|chunks| - 1];
      assert forall i :: 0 <= i < |init| ==> WholeLines(init[i]);
      LinesOfChunks(init);
      ConcatWhole(init);
      RawLinesConcat(Concat(init), chunks[|chunks| - 1]);
    }
  }

  lemma NoLines()
    ensures RawLines([]) == []
  {
  }

  /** Cutting a text loses, joins and splits no line. */
  lemma TextChunkLines(data: bytes, max: nat)
    requires max > 0
    ensures Concat(TextChunks(data, 0, max)) == data
    ensures LinesOfAll(TextChunks(data, 0, max)) == RawLines(data)
  {
    hide Segments, TextSizes, RawLines, LinesOfAll, Concat;
    TextSizesSum(data, 0, max);
    assert data[0..] == data;
    SegmentsConcat(data, TextSizes(data, 0, max));
    TextChunksAligned(data, 0, max);
    LinesOfChunks(TextChunks(data, 0, max));
  }
}
