/** The write-ahead log: records, replay, its bytes, and what a crash can leave of it. */
module WalLog {
  import opened Bytes
  import opened Lines
  import opened Metadata

  datatype Op = PUT | DELETE | Unknown

  datatype WalRecord = WalRecord(op: Op, fileName: bytes, fileMeta: Option<Meta>)

  /** The longest line recovery can read. */
  const WAL_MAX_LINE: nat := 10 * 1024 * 1024
  const COMPACT_AT: nat := 1000

  // ---------- Replay ----------

  function Apply(files: FileMap, record: WalRecord): FileMap
  {
    match record.op
    case PUT => if record.fileMeta.Some? then files[record.fileMeta.value.fileName := record.fileMeta.value] else files
    case DELETE => files - {record.fileName}
    case Unknown => files
  }

  function Replay(records: seq<WalRecord>): FileMap
  {
    if records == [] then map[] else Apply(Replay(records[..|records| - 1]), records[|records| - 1])
  }

  lemma ReplayAppend(records: seq<WalRecord>, record: WalRecord)
    ensures Replay(records + [record]) == Apply(Replay(records), record)
  {
    assert (records + [record])[..|records|] == records;
  }

  predicate KeysMatch(files: FileMap)
  {
    forall name :: name in files ==> files[name].fileName == name
  }

  lemma {:induction false} ReplayKeysMatch(records: seq<WalRecord>)
    ensures KeysMatch(Replay(records))
  {
    if records != [] {
      ReplayKeysMatch(records[..|records| - 1]);
    }
  }

  function PutRecord(meta: Meta): WalRecord
  {
    WalRecord(PUT, meta.fileName, Some(meta))
  }

  function DeleteRecord(name: bytes): WalRecord
  {
    WalRecord(DELETE, name, None)
  }

  /** One PUT for each file, in the order the map gave them. */
  function Snapshot(files: FileMap, order: seq<bytes>): (records: seq<WalRecord>)
    requires forall name :: name in order ==> name in files
    ensures |records| == |order|
    ensures forall i :: 0 <= i < |order| ==> records[i] == PutRecord(files[order[i]])
  {
    seq(|order|, i requires 0 <= i < |order| => PutRecord(files[order[i]]))
  }

  /** The records are a snapshot of the files in some order. */
  ghost predicate IsSnapshot(files: FileMap, records: seq<WalRecord>)
  {
    exists order :: Enumerates(order, files.Keys) && records == Snapshot(files, order)
  }

  lemma {:induction false} ReplayOfSnapshot(files: FileMap, order: seq<bytes>)
    requires KeysMatch(files) && forall name :: name in order ==> name in files
    ensures forall name :: name in Replay(Snapshot(files, order)) <==> name in order
    ensures forall name :: name in order ==> Replay(Snapshot(files, order))[name] == files[name]
  {
    hide *;
    if order == [] {
      ReplayOfNothing(files);
    } else {
      var init, last := order[..|order| - 1], order[|order| - 1];
      assert order == init + [last];
      ReplayOfSnapshot(files, init);
      SnapshotLast(files, init, last);
      ReplayAppend(Snapshot(files, init), PutRecord(files[last]));
      ApplyPut(Replay(Snapshot(files, init)), files, last);
    }
  }

  lemma ReplayOfNothing(files: FileMap)
    ensures Replay(Snapshot(files, [])) == map[]
  {
  }

  lemma SnapshotLast(files: FileMap, init: seq<bytes>, last: bytes)
    requires last in files && forall name :: name in init ==> name in files
    ensures Snapshot(files, init + [last]) == Snapshot(files, init) + [PutRecord(files[last])]
  {
  }

  lemma ApplyPut(replayed: FileMap, files: FileMap, name: bytes)
    requires KeysMatch(files) && name in files
    ensures Apply(replayed, PutRecord(files[name])) == replayed[name := files[name]]
  {
  }

  /** Replaying a snapshot rebuilds the files, whatever order the map gave them in. */
  lemma SnapshotRebuilds(files: FileMap, order: seq<bytes>)
    requires KeysMatch(files) && Enumerates(order, files.Keys)
    ensures Replay(Snapshot(files, order)) == files
  {
    ReplayOfSnapshot(files, order);
  }

  // ---------- Bytes ----------

  /** How records are written on one line and read back; the program uses JSON. */
  datatype Codec = Codec(enc: WalRecord -> bytes, dec: bytes -> Option<WalRecord>)

  /** A record reads back as itself, is not empty and holds no line break. */
  ghost predicate RoundTrips(codec: Codec)
  {
    && (forall r :: codec.dec(codec.enc(r)) == Some(r))
    && (forall r :: codec.enc(r) != [] && NEWLINE !in codec.enc(r) && CR !in codec.enc(r))
  }

  /** Neither part of a record, nor a record behind (part of) another, reads as a record: JSON objects close once. */
  ghost predicate SelfDelimiting(codec: Codec)
  {
    && (forall r, k :: 0 <= k < |codec.enc(r)| ==> codec.dec(codec.enc(r)[..k]) == None)
    && (forall r, s, k :: 0 < k <= |codec.enc(r)| ==> codec.dec(codec.enc(r)[..k] + codec.enc(s)) == None)
  }

  function DecodeLines(codec: Codec, lines: seq<bytes>): seq<WalRecord>
  {
    if lines == [] then []
    else
      DecodeLines(codec, lines[..|lines| - 1])
      + match codec.dec(lines[|lines| - 1])
        case None => []
        case Some(record) => [record]
  }

  /** The records recovery reads: lines that do not parse are passed over, a line too long ends it. */
  function RecordsOf(codec: Codec, data: bytes): seq<WalRecord>
  {
    DecodeLines(codec, Scanned(data, WAL_MAX_LINE))
  }

  function LogLine(codec: Codec, record: WalRecord): bytes
  {
    codec.enc(record) + [NEWLINE]
  }

  function LogText(codec: Codec, records: seq<WalRecord>): bytes
  {
    if records == [] then [] else LogText(codec, records[..|records| - 1]) + LogLine(codec, records[|records| - 1])
  }

  predicate Fits(codec: Codec, record: WalRecord)
  {
    |codec.enc(record)| < WAL_MAX_LINE
  }

  /** Complete lines only, each of which recovery can read. */
  predicate Intact(data: bytes)
  {
    WholeLines(data) && LinesFit(data, WAL_MAX_LINE)
  }

  lemma DecodeLinesAppend(codec: Codec, lines: seq<bytes>, line: bytes)
    ensures DecodeLines(codec, lines + [line])
         == DecodeLines(codec, lines) + match codec.dec(line) case None => [] case Some(record) => [record]
  {
    assert (lines + [line])[..|lines|] == lines;
  }

  lemma {:induction false} DecodeLinesConcat(codec: Codec, a: seq<bytes>, b: seq<bytes>)
    ensures DecodeLines(codec, a + b) == DecodeLines(codec, a) + DecodeLines(codec, b)
  {
    if b == [] {
      assert a + b == a;
    } else {
      var init, last := b[..|b| - 1], b[|b| - 1];
      assert a + b == (a + init) + [last];
      DecodeLinesAppend(codec, a + init, last);
      DecodeLinesConcat(codec, a, init);
    }
  }

  /** Behind an intact log the records of a tail follow those of the log. */
  lemma RecordsOfConcat(codec: Codec, data: bytes, tail: bytes)
    requires Intact(data)
    ensures RecordsOf(codec, data + tail) == RecordsOf(codec, data) + RecordsOf(codec, tail)
  {
    hide Scanned, DecodeLines, LinesFit, WholeLines;
    ScannedConcat(data, tail, WAL_MAX_LINE);
    DecodeLinesConcat(codec, Scanned(data, WAL_MAX_LINE), Scanned(tail, WAL_MAX_LINE));
  }

  /** Recovery of a log with one more line, complete or not. */
  lemma OneMoreLine(codec: Codec, data: bytes, line: bytes, tail: bytes)
    requires Intact(data) && NEWLINE !in line && CR !in line && |line| < WAL_MAX_LINE
    requires tail == line + [NEWLINE] || (tail == line && line != [])
    ensures RecordsOf(codec, data + tail)
         == RecordsOf(codec, data) + match codec.dec(line) case None => [] case Some(record) => [record]
    ensures LinesFit(data + tail, WAL_MAX_LINE)
  {
    hide Scanned, RawLines, DecodeLines, WholeLines;
    RecordsOfConcat(codec, data, tail);
    LinesFitConcat(data, tail, WAL_MAX_LINE);
    TailLines(line, tail);
    assert LinesFit(tail, WAL_MAX_LINE);
    ScannedAllExactly(tail, WAL_MAX_LINE);
    assert DropCR(line) == line;
    assert Scanned(tail, WAL_MAX_LINE) == [line];
    OneDecoded(codec, line);
  }

  lemma OneDecoded(codec: Codec, line: bytes)
    ensures DecodeLines(codec, [line]) == match codec.dec(line) case None => [] case Some(record) => [record]
  {
    assert [line] == [] + [line];
    DecodeLinesAppend(codec, [], line);
  }

  lemma TailLines(line: bytes, tail: bytes)
    requires NEWLINE !in line
    requires tail == line + [NEWLINE] || (tail == line && line != [])
    ensures RawLines(tail) == [line]
  {
    if tail == line {
      IndexOfNone(line, NEWLINE);
    } else {
      assert tail == line + [NEWLINE] + [];
      RawLinesStep(line, []);
    }
  }

  /** Appending a record that fits appends it to what recovery reads. */
  lemma AppendRecord(codec: Codec, data: bytes, record: WalRecord)
    requires RoundTrips(codec) && Intact(data) && Fits(codec, record)
    ensures Intact(data + LogLine(codec, record))
    ensures RecordsOf(codec, data + LogLine(codec, record)) == RecordsOf(codec, data) + [record]
  {
    hide RecordsOf, LinesFit;
    OneMoreLine(codec, data, codec.enc(record), LogLine(codec, record));
  }

  lemma LongLineEndsRecovery(codec: Codec, data: bytes, line: bytes, after: bytes)
    requires Intact(data) && NEWLINE !in line && |line| >= WAL_MAX_LINE
    ensures RecordsOf(codec, data + (line + [NEWLINE] + after)) == RecordsOf(codec, data)
  {
    hide Scanned, LinesFit, WholeLines;
    RecordsOfConcat(codec, data, line + [NEWLINE] + after);
    ScannedLongLine(line, after, WAL_MAX_LINE);
    assert DecodeLines(codec, []) == [];
  }

  /** A record too long for recovery hides itself and everything logged after it. */
  lemma LongRecordEndsRecovery(codec: Codec, data: bytes, record: WalRecord, after: bytes)
    requires RoundTrips(codec) && Intact(data) && !Fits(codec, record)
    ensures RecordsOf(codec, data + LogLine(codec, record) + after) == RecordsOf(codec, data)
  {
    hide RecordsOf, LinesFit, WholeLines;
    LongLineEndsRecovery(codec, data, codec.enc(record), after);
    assert data + LogLine(codec, record) + after == data + (codec.enc(record) + [NEWLINE] + after);
  }

  lemma {:induction false} RecordsOfLogText(codec: Codec, records: seq<WalRecord>)
    requires RoundTrips(codec) && forall r :: r in records ==> Fits(codec, r)
    ensures Intact(LogText(codec, records)) && RecordsOf(codec, LogText(codec, records)) == records
  {
    hide RecordsOf, LinesFit, Intact, Fits, LogLine;
    if records == [] {
      EmptyLog(codec);
    } else {
      var init, last := records[..|records| - 1], records[|records| - 1];
      RecordsOfLogText(codec, init);
      AppendRecord(codec, LogText(codec, init), last);
      assert records == init + [last];
    }
  }

  lemma EmptyLog(codec: Codec)
    ensures Intact([]) && RecordsOf(codec, []) == []
  {
  }

  // ---------- Crashes ----------

  /**
   * A crash while a record is being appended: however many of its bytes reached the file, recovery
   * reads the log as it was before the append, or as it is after it.
   */
  lemma CrashInAppend(codec: Codec, data: bytes, record: WalRecord, k: nat)
    requires RoundTrips(codec) && SelfDelimiting(codec) && Intact(data) && Fits(codec, record)
    requires k <= |LogLine(codec, record)|
    ensures RecordsOf(codec, data + LogLine(codec, record)[..k])
         == RecordsOf(codec, data) + if k < |codec.enc(record)| then [] else [record]
  {
    hide RecordsOf, LinesFit, WholeLines;
    var line, full := codec.enc(record), LogLine(codec, record);
    if k == 0 {
      assert data + full[..0] == data;
    } else if k <= |line| {
      assert full[..k] == line[..k];
      assert line[..|line|] == line;
      OneMoreLine(codec, data, line[..k], full[..k]);
    } else {
      assert full[..k] == full;
      AppendRecord(codec, data, record);
    }
  }

  /**
   * The next append after such a crash: the new record can be read back exactly when the crash left no part
   * of a line. Behind a torn line, or a record whose newline is missing, both that line and the new record are lost.
   */
  lemma AppendAfterCrashExactly(codec: Codec, data: bytes, torn: WalRecord, k: nat, record: WalRecord)
    requires RoundTrips(codec) && SelfDelimiting(codec) && Intact(data) && Fits(codec, torn)
    requires Fits(codec, record) && k <= |codec.enc(torn)|
    ensures var crashed := data + LogLine(codec, torn)[..k];
            RecordsOf(codec, crashed + LogLine(codec, record)) == RecordsOf(codec, crashed) + [record] <==> k == 0
    ensures k > 0 ==>
              RecordsOf(codec, data + LogLine(codec, torn)[..k] + LogLine(codec, record)) == RecordsOf(codec, data)
  {
    hide RecordsOf, LinesFit, WholeLines, Scanned;
    var crashed := data + LogLine(codec, torn)[..k];
    CrashInAppend(codec, data, torn, k);
    if k == 0 {
      assert crashed == data;
      AppendRecord(codec, data, record);
    } else {
      var line := codec.enc(torn)[..k] + codec.enc(record);
      assert crashed + LogLine(codec, record) == data + (line + [NEWLINE]);
      if |line| < WAL_MAX_LINE {
        OneMoreLine(codec, data, line, line + [NEWLINE]);
      } else {
        LongLineEndsRecovery(codec, data, line, []);
        assert line + [NEWLINE] + [] == line + [NEWLINE];
      }
      assert |RecordsOf(codec, crashed) + [record]| > |RecordsOf(codec, data)|;
    }
  }

  /** The file at the log's path and the temporary file of a compaction. */
  datatype WalDisk = WalDisk(wal: bytes, tmp: Option<bytes>)

  /** What the disk can hold while a compaction runs: the snapshot is written aside, then renamed over the log. */
  predicate CompactionPoint(before: bytes, snapshot: bytes, disk: WalDisk)
  {
    || (disk.wal == before)  // the temporary file may be missing, stale, cut short or complete
    || (disk.wal == snapshot && disk.tmp == None)
  }

  /** At every point of a compaction the log replays to the same files. */
  lemma CrashInCompaction(codec: Codec, files: FileMap, order: seq<bytes>, before: bytes, disk: WalDisk)
    requires RoundTrips(codec) && KeysMatch(files) && Enumerates(order, files.Keys)
    requires forall r :: r in Snapshot(files, order) ==> Fits(codec, r)
    requires Intact(before) && Replay(RecordsOf(codec, before)) == files
    requires CompactionPoint(before, LogText(codec, Snapshot(files, order)), disk)
    ensures Intact(disk.wal) && Replay(RecordsOf(codec, disk.wal)) == files
  {
    hide RecordsOf, LinesFit, WholeLines, Replay, LogText;
    RecordsOfLogText(codec, Snapshot(files, order));
    SnapshotRebuilds(files, order);
  }
}
