/** Splitting input into lines as `bufio.Scanner` with its default
    `ScanLines` split function does, and writing lines back as `fmt.Fprintln`
    does. */
module Scan {
  import opened Bytes
  import opened Results
  import opened Io

  type Line = seq<byte>

  /** `bufio.MaxScanTokenSize`: the scanner's buffer never grows past it. */
  const MaxTokenSize: nat := 65536

  datatype ScanError =
    | TooLong     // bufio.ErrTooLong
    | ReadFailed  // the reader's own error

  /** The lines `Scan` delivered, and the error `Err` reports afterwards. */
  datatype Scanned = Scanned(tokens: seq<Line>, failure: Option<ScanError>)

  predicate NoNewline(s: seq<byte>)
  {
    forall j | 0 <= j < |s| :: s[j] != LF
  }

  /** The position of the first LF, if any. */
  function NewlineIndex(data: seq<byte>): (r: Option<nat>)
    ensures r.Some? ==> r.value < |data| && data[r.value] == LF && NoNewline(data[..r.value])
    ensures r.None? ==> NoNewline(data)
  {
    if |data| == 0 then None
    else if data[0] == LF then Some(0)
    else match NewlineIndex(data[1..])
      case None => None
      case Some(i) => assert data[..i + 1] == [data[0]] + data[1..][..i]; Some(i + 1)
  }

  /** The raw pieces between line feeds; a final piece without a line feed
      counts only when it is not empty. */
  function Segments(data: seq<byte>): (segs: seq<seq<byte>>)
    ensures forall k | 0 <= k < |segs| :: NoNewline(segs[k])
    decreases |data|
  {
    if |data| == 0 then []
    else match NewlineIndex(data)
      case None => [data]
      case Some(i) => [data[..i]] + Segments(data[i + 1..])
  }

  /** `dropCR`: one trailing carriage return is not part of the line. */
  function DropCR(s: seq<byte>): seq<byte>
  {
    if |s| > 0 && s[|s| - 1] == CR then s[..|s| - 1] else s
  }

  /** The index of the first piece too long for the scanner's buffer (a
      piece together with its line feed must fit in `MaxTokenSize` bytes),
      or the number of pieces when none is. */
  function FirstTooLong(segs: seq<seq<byte>>): (k: nat)
    ensures k <= |segs|
    ensures forall j | 0 <= j < k :: |segs[j]| < MaxTokenSize
    ensures k < |segs| ==> |segs[k]| >= MaxTokenSize
  {
    if |segs| == 0 then 0
    else if |segs[0]| >= MaxTokenSize then 0
    else 1 + FirstTooLong(segs[1..])
  }

  /** The scan loop: lines up to the first piece that does not fit; then the
      buffer error, or the reader's own error, or none at end of input. */
  function ScanAll(r: Reader): (s: Scanned)
    ensures s.failure.None? <==> r.end == Eof && FirstTooLong(Segments(Contents(r))) == |Segments(Contents(r))|
    ensures s.failure.None? ==> s.tokens == seq(|Segments(Contents(r))|, i requires 0 <= i < |Segments(Contents(r))| => DropCR(Segments(Contents(r))[i]))
  {
    var segs := Segments(Contents(r));
    var k := FirstTooLong(segs);
    Scanned(seq(k, i requires 0 <= i < k => DropCR(segs[i])),
            if k < |segs| then Some(TooLong) else if r.end == Fail then Some(ReadFailed) else None)
  }

  /** All lines, or the error `scanner.Err()` would report. */
  function ScanLines(r: Reader): (res: Result<seq<Line>, ScanError>)
    ensures res.Ok? <==> ScanAll(r).failure.None?
    ensures res.Ok? ==> res.value == ScanAll(r).tokens
  {
    var s := ScanAll(r);
    if s.failure.Some? then Err(s.failure.value) else Ok(s.tokens)
  }

  /** What `fmt.Fprintln` writes for each line in turn. */
  function JoinLines(lines: seq<Line>): seq<byte>
  {
    if |lines| == 0 then [] else lines[0] + [LF] + JoinLines(lines[1..])
  }

  lemma {:induction false} JoinLinesAppend(lines: seq<Line>, more: seq<Line>)
    ensures JoinLines(lines + more) == JoinLines(lines) + JoinLines(more)
    decreases |lines|
  {
    if |lines| == 0 {
      assert lines + more == more;
    } else {
      assert (lines + more)[1..] == lines[1..] + more;
      JoinLinesAppend(lines[1..], more);
    }
  }

  lemma {:induction false} NewlineIndexAfter(t: seq<byte>, rest: seq<byte>)
    requires NoNewline(t)
    ensures NewlineIndex(t + [LF] + rest) == Some(|t|)
    decreases |t|
  {
    if |t| > 0 {
      assert (t + [LF] + rest)[1..] == t[1..] + [LF] + rest;
      NewlineIndexAfter(t[1..], rest);
    }
  }

  /** Splitting what `JoinLines` wrote gives back the lines. */
  lemma {:induction false} SegmentsJoin(lines: seq<Line>)
    requires forall k | 0 <= k < |lines| :: NoNewline(lines[k])
    ensures Segments(JoinLines(lines)) == lines
    decreases |lines|
  {
    if |lines| > 0 {
      var data := JoinLines(lines);
      assert data == lines[0] + [LF] + JoinLines(lines[1..]);
      NewlineIndexAfter(lines[0], JoinLines(lines[1..]));
      assert data[..|lines[0]|] == lines[0];
      assert data[|lines[0]| + 1..] == JoinLines(lines[1..]);
      SegmentsJoin(lines[1..]);
      assert lines == [lines[0]] + lines[1..];
    }
  }

  /** Lines written one per `Fprintln` are read back unchanged, in the same
      number and order, as long as none holds a line feed, ends in a
      carriage return or overflows the scanner's buffer. */
  lemma ScanJoin(lines: seq<Line>, r: Reader)
    requires forall k | 0 <= k < |lines| :: NoNewline(lines[k])
    requires forall k | 0 <= k < |lines| :: |lines[k]| < MaxTokenSize
    requires forall k | 0 <= k < |lines| :: |lines[k]| == 0 || lines[k][|lines[k]| - 1] != CR
    requires Contents(r) == JoinLines(lines) && r.end == Eof
    ensures ScanLines(r) == Ok(lines)
  {
    SegmentsJoin(lines);
    var segs := Segments(Contents(r));
    assert FirstTooLong(segs) == |segs|;
    var tokens := ScanAll(r).tokens;
    assert |tokens| == |lines|;
    forall i | 0 <= i < |lines| ensures tokens[i] == lines[i] {
      assert DropCR(segs[i]) == lines[i];
    }
    assert tokens == lines;
    assert ScanAll(r).failure.None?;
  }
}
