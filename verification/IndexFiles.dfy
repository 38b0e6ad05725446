/** Index files: one line `partition start end` for each partition of a data file. */
module IndexFiles {
  import opened Bytes
  import opened RecordCodec
  import opened Partitioning

  datatype Range = Range(start: nat, end: nat)
  datatype Entry = Entry(id: nat, range: Range)

  /** "%d %d %d" printed. */
  function IndexLine(entry: Entry): bytes
  {
    Dec(entry.id) + [SPACE] + Dec(entry.range.start) + [SPACE] + Dec(entry.range.end)
  }

  predicate IsNumber(field: bytes)
  {
    field != [] && forall i :: 0 <= i < |field| ==> IsDigit(field[i])
  }

  /** "%d %d %d" scanned. */
  function ParseEntry(line: bytes): Option<Entry>
  {
    var fields := Split(line, SPACE);
    if |fields| == 3 && IsNumber(fields[0]) && IsNumber(fields[1]) && IsNumber(fields[2])
    then Some(Entry(ParseDec(fields[0]), Range(ParseDec(fields[1]), ParseDec(fields[2]))))
    else None
  }

  lemma JoinOfThree(a: bytes, b: bytes, c: bytes, sep: byte)
    ensures Join([a, b, c], sep) == a + [sep] + b + [sep] + c
  {
    assert [a, b, c][1..] == [b, c] && [b, c][1..] == [c];
    assert Join([b, c], sep) == b + [sep] + c;
  }

  lemma ParseOfIndexLine(entry: Entry)
    ensures ParseEntry(IndexLine(entry)) == Some(entry)
    ensures NEWLINE !in IndexLine(entry)
    ensures Split(IndexLine(entry), 32) == [Dec(entry.id), Dec(entry.range.start), Dec(entry.range.end)]
  {
    hide Split, Join, Dec, ParseDec;
    var fields := [Dec(entry.id), Dec(entry.range.start), Dec(entry.range.end)];
    JoinOfThree(fields[0], fields[1], fields[2], SPACE);
    SplitOfCleanJoin(fields, SPACE);
    ParseDecOfDec(entry.id);
    ParseDecOfDec(entry.range.start);
    ParseDecOfDec(entry.range.end);
  }

  function Text(lines: seq<bytes>): bytes
  {
    if lines == [] then [] else lines[0] + [NEWLINE] + Text(lines[1..])
  }

  lemma {:induction false} TextAppend(lines: seq<bytes>, line: bytes)
    ensures Text(lines + [line]) == Text(lines) + line + [NEWLINE]
  {
    if lines == [] {
      assert Text([line]) == line + [NEWLINE] + Text([]);
    } else {
      assert (lines + [line])[1..] == lines[1..] + [line];
      TextAppend(lines[1..], line);
    }
  }

  lemma {:induction false} SplitOfText(lines: seq<bytes>)
    requires forall i :: 0 <= i < |lines| ==> NEWLINE !in lines[i]
    ensures Split(Text(lines), NEWLINE) == lines + [[]]
  {
    if lines != [] {
      var line, rest := lines[0], Text(lines[1..]);
      SplitStep(line, NEWLINE, rest);
      SplitOfText(lines[1..]);
      assert [line] + (lines[1..] + [[]]) == lines + [[]];
    }
  }

  /** The entry of partition r of a layout. */
  function EntryOf(parts: seq<seq<KeyValue>>, r: nat): Entry
    requires r < |parts|
  {
    Entry(r, Range(Start(parts, r), Start(parts, r + 1)))
  }

  function IndexLines(parts: seq<seq<KeyValue>>): (lines: seq<bytes>)
    ensures |lines| == |parts|
    ensures forall r :: 0 <= r < |parts| ==> lines[r] == IndexLine(EntryOf(parts, r))
  {
    seq(|parts|, r requires 0 <= r < |parts| => IndexLine(EntryOf(parts, r)))
  }

  function IndexText(parts: seq<seq<KeyValue>>): bytes
  {
    Text(IndexLines(parts))
  }

  lemma IndexTextAppend(parts: seq<seq<KeyValue>>, part: seq<KeyValue>)
    ensures IndexText(parts + [part])
         == IndexText(parts)
          + IndexLine(Entry(|parts|, Range(|Layout(parts)|, |Layout(parts + [part])|))) + [NEWLINE]
  {
    var more := parts + [part];
    assert more[..|parts|] == parts && more[..|more|] == more;
    forall r | 0 <= r < |parts|
      ensures IndexLines(more)[r] == IndexLines(parts)[r]
    {
      assert more[..r] == parts[..r] && more[..r + 1] == parts[..r + 1];
    }
    assert IndexLines(more) == IndexLines(parts) + [IndexLine(EntryOf(more, |parts|))];
    TextAppend(IndexLines(parts), IndexLine(EntryOf(more, |parts|)));
  }

  // ---------- Looking up ----------

  /** The first entry of partition r. */
  function Find(lines: seq<bytes>, r: nat): Option<Range>
  {
    if lines == [] then None
    else
      var entry := ParseEntry(lines[0]);
      if entry.Some? && entry.value.id == r then Some(entry.value.range) else Find(lines[1..], r)
  }

  /** The lookup of handleFetchIntermediate and of shuffle. */
  method FindEntry(text: bytes, r: nat) returns (found: bool, start: nat, end: nat)
    ensures found == Find(Split(text, NEWLINE), r).Some?
    ensures found ==> Find(Split(text, NEWLINE), r) == Some(Range(start, end))
  {
    var lines := Split(text, NEWLINE);
    found, start, end := false, 0, 0;
    for i := 0 to |lines|
      invariant Find(lines[i..], r) == Find(lines, r)
    {
      var entry := ParseEntry(lines[i]);
      assert lines[i..][1..] == lines[i + 1..];
      if entry.Some? && entry.value.id == r {
        return true, entry.value.range.start, entry.value.range.end;
      }
    }
  }

  /** The range mergeSpills is left with: partition r's, or the last one read when r has none. */
  function FindOrLast(lines: seq<bytes>, r: nat, last: Range): Range
  {
    if lines == [] then last
    else
      match ParseEntry(lines[0])
      case None => FindOrLast(lines[1..], r, last)
      case Some(entry) => if entry.id == r then entry.range else FindOrLast(lines[1..], r, entry.range)
  }

  method FindEntryOrLast(text: bytes, r: nat) returns (start: nat, end: nat)
    ensures Range(start, end) == FindOrLast(Split(text, NEWLINE), r, Range(0, 0))
  {
    var lines := Split(text, NEWLINE);
    start, end := 0, 0;
    for i := 0 to |lines|
      invariant FindOrLast(lines[i..], r, Range(start, end)) == FindOrLast(lines, r, Range(0, 0))
    {
      var entry := ParseEntry(lines[i]);
      assert lines[i..][1..] == lines[i + 1..];
      if entry.Some? {
        start, end := entry.value.range.start, entry.value.range.end;
        if entry.value.id == r {
          break;
        }
      }
    }
  }

  lemma {:induction false} FindOrLastFinds(lines: seq<bytes>, r: nat, last: Range)
    requires Find(lines, r).Some?
    ensures FindOrLast(lines, r, last) == Find(lines, r).value
  {
    var entry := ParseEntry(lines[0]);
    if entry.None? {
      FindOrLastFinds(lines[1..], r, last);
    } else if entry.value.id != r {
      FindOrLastFinds(lines[1..], r, entry.value.range);
    }
  }

  /** With no line for the partition, the range of the last line that scans is what stays. */
  lemma {:induction false} FindOrLastMisses(lines: seq<bytes>, r: nat, entry: Entry, last: Range)
    requires Find(lines, r).None? && entry.id != r
    ensures FindOrLast(lines + [IndexLine(entry)], r, last) == entry.range
  {
    hide ParseEntry, IndexLine;
    if lines == [] {
      ParseOfIndexLine(entry);
    } else {
      assert (lines + [IndexLine(entry)])[1..] == lines[1..] + [IndexLine(entry)];
      var first := ParseEntry(lines[0]);
      FindOrLastMisses(lines[1..], r, entry, if first.Some? then first.value.range else last);
    }
  }

  lemma {:induction false} FindInNumbered(lines: seq<bytes>, ranges: seq<Range>, first: nat, r: nat)
    requires |lines| == |ranges| && first <= r < first + |ranges|
    requires forall i :: 0 <= i < |lines| ==> lines[i] == IndexLine(Entry(first + i, ranges[i]))
    ensures Find(lines + [[]], r) == Some(ranges[r - first])
  {
    ParseOfIndexLine(Entry(first, ranges[0]));
    assert lines + [[]] == [lines[0]] + (lines[1..] + [[]]);
    if first < r {
      FindInNumbered(lines[1..], ranges[1..], first + 1, r);
    }
  }

  /** Looking up partition r in the index of a layout gives exactly its byte range. */
  lemma FindInIndexText(parts: seq<seq<KeyValue>>, r: nat)
    requires r < |parts|
    ensures Find(Split(IndexText(parts), NEWLINE), r) == Some(Range(Start(parts, r), Start(parts, r + 1)))
  {
    var lines := IndexLines(parts);
    forall i | 0 <= i < |parts|
      ensures NEWLINE !in lines[i]
    {
      ParseOfIndexLine(EntryOf(parts, i));
    }
    SplitOfText(lines);
    FindInNumbered(lines, seq(|parts|, i requires 0 <= i < |parts| => EntryOf(parts, i).range), 0, r);
  }

  // ---------- Data file and index together ----------

  /** The bytes of partition r of a data file, by its index. */
  function Region(data: bytes, index: bytes, r: nat): bytes
  {
    match Find(Split(index, NEWLINE), r)
    case None => []
    case Some(range) => if range.end > range.start then Section(data, range.start, range.end) else []
  }

  /** Cutting by the index gives each partition's bytes, the empty ones included. */
  lemma RegionOfLayout(parts: seq<seq<KeyValue>>, r: nat)
    requires r < |parts|
    ensures Region(Layout(parts), IndexText(parts), r) == EncodeAll(parts[r])
  {
    FindInIndexText(parts, r);
    SectionOfLayout(parts, r);
    if Start(parts, r) == Start(parts, r + 1) {
      assert |EncodeAll(parts[r])| == 0;
    }
  }
}
