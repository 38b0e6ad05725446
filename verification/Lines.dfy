/**
 * Lines as Go's bufio.Scanner yields them with ScanLines and a bounded buffer: the newline and
 * one carriage return before it are dropped, a last line needs no newline, and a line that does
 * not fit the buffer together with one more byte stops the scanner for good.
 */
module Lines {
  import opened Bytes

  /** The longest token mapreduce asks of a scanner. */
  const MAX_TOKEN: nat := 0x100_0000

  datatype Scan = Token(line: bytes, rest: bytes) | Done

  function DropCR(line: bytes): bytes
  {
    if line != [] && line[|line| - 1] == CR then line[..|line| - 1] else line
  }

  /** One call of Scan on the unread input. */
  function NextLine(input: bytes, max: nat): (scan: Scan)
    ensures scan.Token? ==> |scan.rest| < |input| && NEWLINE !in scan.line && |scan.line| < max
  {
    var i := IndexOf(input, NEWLINE);
    if input == [] || i >= max then Done
    else Token(DropCR(input[..i]), if i == |input| then [] else input[i + 1..])
  }

  /** Every token of the input, up to the first line that is too long. */
  function Scanned(input: bytes, max: nat): (lines: seq<bytes>)
    decreases |input|
  {
    match NextLine(input, max)
    case Done => []
    case Token(line, rest) => [line] + Scanned(rest, max)
  }

  /** The lines of a text, with their bytes untouched and whatever their length. */
  function RawLines(text: bytes): seq<bytes>
    decreases |text|
  {
    var i := IndexOf(text, NEWLINE);
    if text == [] then []
    else if i == |text| then [text]
    else [text[..i]] + RawLines(text[i + 1..])
  }

  /** Text that ends at a line boundary. */
  predicate WholeLines(text: bytes)
  {
    text == [] || text[|text| - 1] == NEWLINE
  }

  predicate LinesFit(text: bytes, max: nat)
  {
    forall line :: line in RawLines(text) ==> |line| < max
  }

  function DropCRs(lines: seq<bytes>): (dropped: seq<bytes>)
    ensures |dropped| == |lines|
    ensures forall i :: 0 <= i < |lines| ==> dropped[i] == DropCR(lines[i])
  {
    seq(|lines|, i requires 0 <= i < |lines| => DropCR(lines[i]))
  }

  lemma {:induction false} LinesFitCons(line: bytes, raw: seq<bytes>, max: nat)
    ensures (forall x :: x in [line] + raw ==> |x| < max) <==> |line| < max && forall x :: x in raw ==> |x| < max
  {
    assert line in [line] + raw;
    assert forall x :: x in raw ==> x in [line] + raw;
  }

  /** The scanner reads all the lines of a text exactly when each of them fits its buffer. */
  lemma {:induction false} ScannedAllExactly(text: bytes, max: nat)
    ensures Scanned(text, max) == DropCRs(RawLines(text)) <==> LinesFit(text, max)
    ensures |Scanned(text, max)| <= |RawLines(text)|
    decreases |text|
  {
    hide Scanned, RawLines, DropCRs, DropCR;
    if text == [] {
      NothingScanned(max);
    } else {
      var line, rest := OffLine(text, max);
      ScannedAllExactly(rest, max);
      LinesFitCons(line, RawLines(rest), max);
      DropCRsConcat([line], RawLines(rest));
      assert DropCRs([line]) == [DropCR(line)];
      SameTail(DropCR(line), Scanned(rest, max), DropCRs(RawLines(rest)));
    }
  }

  /** The first line taken off a text. */
  lemma OffLine(text: bytes, max: nat) returns (line: bytes, rest: bytes)
    requires text != []
    ensures |rest| < |text| && RawLines(text) == [line] + RawLines(rest)
    ensures Scanned(text, max) == if |line| < max then [DropCR(line)] + Scanned(rest, max) else []
  {
    var i := IndexOf(text, NEWLINE);
    line, rest := text[..i], if i == |text| then [] else text[i + 1..];
    assert i == |text| ==> line == text;
  }

  lemma SameTail(first: bytes, a: seq<bytes>, b: seq<bytes>)
    ensures [first] + a == [first] + b <==> a == b
    ensures [first] + b != []
  {
    assert ([first] + a)[1..] == a && ([first] + b)[1..] == b;
  }

  /** A clean line in front of more input comes out first. */
  lemma ScannedLine(line: bytes, rest: bytes, max: nat)
    requires NEWLINE !in line && |line| < max
    ensures NextLine(line + [NEWLINE] + rest, max) == Token(DropCR(line), rest)
    ensures Scanned(line + [NEWLINE] + rest, max) == [DropCR(line)] + Scanned(rest, max)
  {
    IndexOfSep(line, NEWLINE, rest);
  }

  /** One carriage return in front of the newline is not part of the line; the last line needs no newline. */
  lemma EndsOfLines(line: bytes, rest: bytes, max: nat)
    requires 10 !in line && |line| + 1 < max
    ensures NextLine(line + [13, 10] + rest, max) == Token(line, rest)
    ensures line == [] || line[|line| - 1] != 13 ==> NextLine(line + [10] + rest, max) == Token(line, rest)
    ensures line != [] && line[|line| - 1] != 13 ==> NextLine(line, max) == Token(line, [])
  {
    hide NextLine, Scanned;
    assert line + [13, 10] + rest == (line + [13]) + [10] + rest;
    ScannedLine(line + [13], rest, max);
    ScannedLine(line, rest, max);
    assert (line + [13])[..|line|] == line;
    if line != [] {
      LastLine(line, max);
    }
  }

  lemma LastLine(line: bytes, max: nat)
    requires NEWLINE !in line && line != [] && |line| < max
    ensures NextLine(line, max) == Token(DropCR(line), [])
  {
    hide DropCR;
    var i := IndexOf(line, NEWLINE);
    assert i == |line| && line[..i] == line;
  }

  lemma ScannedLongLine(line: bytes, rest: bytes, max: nat)
    requires NEWLINE !in line && |line| >= max
    ensures Scanned(line + [NEWLINE] + rest, max) == []
  {
    IndexOfSep(line, NEWLINE, rest);
  }

  lemma RawLinesStep(line: bytes, rest: bytes)
    requires NEWLINE !in line
    ensures RawLines(line + [NEWLINE] + rest) == [line] + RawLines(rest)
  {
    IndexOfSep(line, NEWLINE, rest);
  }

  /** Cutting a text at a line boundary cuts its list of lines. */
  lemma {:induction false} RawLinesConcat(a: bytes, b: bytes)
    requires WholeLines(a)
    ensures RawLines(a + b) == RawLines(a) + RawLines(b)
    decreases |a|
  {
    if a == [] {
      assert a + b == b;
    } else {
      var line, rest := FirstLine(a);
      calc {
        RawLines(a + b);
        { assert a + b == line + [NEWLINE] + (rest + b); }
        RawLines(line + [NEWLINE] + (rest + b));
        { RawLinesStep(line, rest + b); }
        [line] + RawLines(rest + b);
        { RawLinesConcat(rest, b); }
        [line] + (RawLines(rest) + RawLines(b));
        ([line] + RawLines(rest)) + RawLines(b);
        { RawLinesStep(line, rest); }
        RawLines(a) + RawLines(b);
      }
    }
  }

  lemma FirstLine(a: bytes) returns (line: bytes, rest: bytes)
    requires WholeLines(a) && a != []
    ensures NEWLINE !in line && a == line + [NEWLINE] + rest && WholeLines(rest)
  {
    var i := IndexOf(a, NEWLINE);
    IndexOfNone(a, NEWLINE);
    assert a[|a| - 1] in a;
    line, rest := a[..i], a[i + 1..];
  }

  lemma DropCRsConcat(a: seq<bytes>, b: seq<bytes>)
    ensures DropCRs(a + b) == DropCRs(a) + DropCRs(b)
  {
  }

  lemma LinesFitConcat(a: bytes, b: bytes, max: nat)
    requires WholeLines(a)
    ensures LinesFit(a + b, max) <==> LinesFit(a, max) && LinesFit(b, max)
  {
    RawLinesConcat(a, b);
    var ra, rb := RawLines(a), RawLines(b);
    assert forall x :: x in ra + rb <==> x in ra || x in rb;
  }

  /** Past lines that all fit, the scanner goes on as if it began there. */
  lemma {:induction false} ScannedConcat(a: bytes, b: bytes, max: nat)
    requires WholeLines(a) && LinesFit(a, max)
    ensures Scanned(a + b, max) == Scanned(a, max) + Scanned(b, max)
    decreases |a|
  {
    hide Scanned, WholeLines, LinesFit, DropCR;
    if a == [] {
      assert a + b == b;
      NothingScanned(max);
    } else {
      var line, rest := FirstLine(a);
      FirstLineFits(line, rest, max);
      ScannedConcat(rest, b, max);
      ScannedConcatStep(line, rest, b, max);
    }
  }

  lemma ScannedConcatStep(line: bytes, rest: bytes, b: bytes, max: nat)
    requires NEWLINE !in line && |line| < max && Scanned(rest + b, max) == Scanned(rest, max) + Scanned(b, max)
    ensures Scanned(line + [NEWLINE] + rest + b, max) == Scanned(line + [NEWLINE] + rest, max) + Scanned(b, max)
  {
    hide *;
    ScannedLine(line, rest, max);
    ScannedLine(line, rest + b, max);
    assert line + [NEWLINE] + rest + b == line + [NEWLINE] + (rest + b);
  }

  lemma FirstLineFits(line: bytes, rest: bytes, max: nat)
    requires NEWLINE !in line && LinesFit(line + [NEWLINE] + rest, max)
    ensures |line| < max && LinesFit(rest, max)
  {
    RawLinesStep(line, rest);
    LinesFitCons(line, RawLines(rest), max);
  }

  lemma NothingScanned(max: nat)
    ensures Scanned([], max) == [] && RawLines([]) == []
  {
  }
}
