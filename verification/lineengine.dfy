/** The line engine (`processLines` in internal/encrypt/process.go): every
    line is classified against the directives, marked lines are encrypted or
    decrypted, results land in an arena slot per line index, and the arena is
    written out in input order only once every line has succeeded. */
module LineEngine {
  import opened Bytes
  import opened Results
  import opened Cipher
  import opened Io
  import opened EncryptorTypes
  import opened Scan
  import LineCodec
  import Base64

  /** What the engine does with one line. */
  datatype LineKind = Seal | Open | Keep

  /** The text in front of an encrypted payload: the decrypt marker and ": ". */
  function SealedPrefix(d: Directives): seq<byte>
  {
    d.decrypt + Ascii(": ")
  }

  /** The `switch` of a worker: the first matching case wins. */
  function Classify(op: Operation, d: Directives, line: Line): LineKind
  {
    if op == Encrypt && HasSuffix(line, d.encrypt) then Seal
    else if op == Decrypt && HasPrefix(line, SealedPrefix(d)) then Open
    else Keep
  }

  /** A slot of the arena: the line's result and whether it was transformed. */
  datatype LineResult = LineResult(text: Line, transformed: bool)

  /** One worker iteration for one line; `draw` is the IV drawn for it. */
  function TransformLine(e: Encryptor, line: Line, draw: Option<Iv>): (r: Result<LineResult, Error>)
    ensures Classify(e.operation, e.directives, line) == Keep ==> r == Ok(LineResult(line, false))
    ensures r.Ok? ==> (r.value.transformed <==> Classify(e.operation, e.directives, line) != Keep)
    ensures Classify(e.operation, e.directives, line) == Seal ==>
      match LineCodec.EncryptData(e, line, draw)
      case Ok(text) => r == Ok(LineResult(SealedPrefix(e.directives) + text, true))
      case Err(err) => r == Err(err)
    ensures Classify(e.operation, e.directives, line) == Open ==>
      SealedPrefix(e.directives) + TrimPrefix(line, SealedPrefix(e.directives)) == line &&
      match LineCodec.DecryptData(e, TrimPrefix(line, SealedPrefix(e.directives)))
      case Ok(plain) => r == Ok(LineResult(plain, true))
      case Err(err) => r == Err(err)
  {
    match Classify(e.operation, e.directives, line)
    case Seal =>
      (match LineCodec.EncryptData(e, line, draw)
       case Err(err) => Err(err)
       case Ok(text) => Ok(LineResult(SealedPrefix(e.directives) + text, true)))
    case Open =>
      (match LineCodec.DecryptData(e, TrimPrefix(line, SealedPrefix(e.directives)))
       case Err(err) => Err(err)
       case Ok(plain) => Ok(LineResult(plain, true)))
    case Keep => Ok(LineResult(line, false))
  }

  /** An encrypted line goes back to the original line under the decrypt
      operation with the same key, cipher and directives. */
  lemma LineRoundTrip(enc: Encryptor, dec: Encryptor, line: Line, draw: Option<Iv>, draw': Option<Iv>)
    requires enc.operation == Encrypt && dec.operation == Decrypt
    requires dec.key == enc.key && dec.keystream == enc.keystream && dec.directives == enc.directives
    requires TransformLine(enc, line, draw).Ok? && TransformLine(enc, line, draw).value.transformed
    ensures TransformLine(dec, TransformLine(enc, line, draw).value.text, draw') == Ok(LineResult(line, true))
  {
    var d := enc.directives;
    var text := LineCodec.EncryptData(enc, line, draw).value;
    var sealed := SealedPrefix(d) + text;
    assert sealed[..|SealedPrefix(d)|] == SealedPrefix(d);
    assert Classify(dec.operation, d, sealed) == Open;
    assert TrimPrefix(sealed, SealedPrefix(d)) == text;
    LineCodec.DecryptEncryptData(enc, line, draw);
    var frame := LineCodec.EncryptBytes(enc, line, draw).value;
    assert LineCodec.DecryptBytes(dec, frame) == LineCodec.DecryptBytes(enc, frame);
  }

  /** Lines the directives do not select, including marker lines under the
      other operation, are copied verbatim and not counted as processed. */
  lemma KeepLinesVerbatim(e: Encryptor, line: Line, draw: Option<Iv>)
    requires !(e.operation == Encrypt && HasSuffix(line, e.directives.encrypt))
    requires !(e.operation == Decrypt && HasPrefix(line, SealedPrefix(e.directives)))
    ensures TransformLine(e, line, draw) == Ok(LineResult(line, false))
  {
  }

  /** The outcome of the whole arena in index order: every slot, or the
      error of the first failing line. */
  function TransformFrom(e: Encryptor, lines: seq<Line>, rng: nat -> Option<Iv>, from: nat): (r: Result<seq<LineResult>, Error>)
    requires from <= |lines|
    ensures r.Ok? <==> forall i | from <= i < |lines| :: TransformLine(e, lines[i], rng(i)).Ok?
    ensures r.Ok? ==> |r.value| == |lines| - from
    ensures r.Ok? ==> forall i | from <= i < |lines| :: Ok(r.value[i - from]) == TransformLine(e, lines[i], rng(i))
    ensures r.Err? ==> exists i | from <= i < |lines| :: TransformLine(e, lines[i], rng(i)) == Err(r.error)
    decreases |lines| - from
  {
    if from == |lines| then Ok([])
    else match TransformLine(e, lines[from], rng(from))
      case Err(err) => Err(err)
      case Ok(slot) =>
        match TransformFrom(e, lines, rng, from + 1)
        case Err(err) => Err(err)
        case Ok(slots) => Ok([slot] + slots)
  }

  function TransformAll(e: Encryptor, lines: seq<Line>, rng: nat -> Option<Iv>): Result<seq<LineResult>, Error>
  {
    TransformFrom(e, lines, rng, 0)
  }

  /** The claim order of the work queue hands out every index of `0..n-1`
      exactly once. */
  predicate IsPermutation(order: seq<nat>, n: nat)
  {
    multiset(order) == multiset(seq(n, i => i))
  }

  lemma PermutationCovers(order: seq<nat>, n: nat)
    requires IsPermutation(order, n)
    ensures forall k | 0 <= k < |order| :: order[k] < n
    ensures forall idx | 0 <= idx < n :: idx in order
  {
    var ids := seq(n, i => i);
    forall k | 0 <= k < |order| ensures order[k] < n {
      assert order[k] in multiset(order);
      assert order[k] in ids;
    }
    forall idx | 0 <= idx < n ensures idx in order {
      assert ids[idx] == idx;
      assert idx in multiset(ids);
    }
  }

  /** Once every claimed index has its slot filled, and the claims cover
      every index, every slot holds its line's result. */
  lemma ClaimsFillArena(e: Encryptor, lines: seq<Line>, rng: nat -> Option<Iv>, order: seq<nat>,
                        results: seq<Line>, processed: seq<bool>)
    requires IsPermutation(order, |lines|)
    requires |results| == |lines| && |processed| == |lines|
    requires forall j | 0 <= j < |order| :: (order[j] < |lines| &&
      TransformLine(e, lines[order[j]], rng(order[j])) == Ok(LineResult(results[order[j]], processed[order[j]])))
    ensures forall idx | 0 <= idx < |lines| ::
      TransformLine(e, lines[idx], rng(idx)) == Ok(LineResult(results[idx], processed[idx]))
  {
    PermutationCovers(order, |lines|);
    forall idx | 0 <= idx < |lines|
      ensures TransformLine(e, lines[idx], rng(idx)) == Ok(LineResult(results[idx], processed[idx]))
    {
      assert idx in order;
      var j :| 0 <= j < |order| && order[j] == idx;
    }
  }

  /** The worker pool run sequentially: indices are claimed in `order`, and
      the worker that claims `idx` writes only `results[idx]` and
      `processed[idx]`. The first failing line stops the run. Whatever the
      claim order, a run without failure leaves the arena equal to the line
      transformation mapped over the input. */
  method FillArena(e: Encryptor, lines: seq<Line>, rng: nat -> Option<Iv>, order: seq<nat>)
    returns (results: seq<Line>, processed: seq<bool>, failure: Option<Error>)
    requires IsPermutation(order, |lines|)
    ensures failure.None? <==> forall idx | 0 <= idx < |lines| :: TransformLine(e, lines[idx], rng(idx)).Ok?
    ensures failure.Some? ==> exists idx | 0 <= idx < |lines| :: TransformLine(e, lines[idx], rng(idx)) == Err(failure.value)
    ensures failure.None? ==> |results| == |lines| && |processed| == |lines|
    ensures failure.None? ==> forall idx | 0 <= idx < |lines| ::
      TransformLine(e, lines[idx], rng(idx)) == Ok(LineResult(results[idx], processed[idx]))
  {
    PermutationCovers(order, |lines|);
    results := seq(|lines|, _ => []);
    processed := seq(|lines|, _ => false);
    var k := 0;
    while k < |order|
      invariant 0 <= k <= |order|
      invariant |results| == |lines| && |processed| == |lines|
      invariant forall j | 0 <= j < k ::
        TransformLine(e, lines[order[j]], rng(order[j])) == Ok(LineResult(results[order[j]], processed[order[j]]))
    {
      var idx := order[k];
      match TransformLine(e, lines[idx], rng(idx))
      case Err(err) =>
        return [], [], Some(err);
      case Ok(slot) =>
        results := results[idx := slot.text];
        processed := processed[idx := slot.transformed];
      k := k + 1;
    }
    failure := None;
    ClaimsFillArena(e, lines, rng, order, results, processed);
  }

  /** The arena in claim order agrees with the index-order transformation. */
  lemma FillArenaAgrees(e: Encryptor, lines: seq<Line>, rng: nat -> Option<Iv>, results: seq<Line>, processed: seq<bool>)
    requires |results| == |lines| && |processed| == |lines|
    requires forall idx | 0 <= idx < |lines| :: TransformLine(e, lines[idx], rng(idx)) == Ok(LineResult(results[idx], processed[idx]))
    ensures TransformAll(e, lines, rng) == Ok(seq(|lines|, i requires 0 <= i < |lines| => LineResult(results[i], processed[i])))
  {
    var slots := TransformAll(e, lines, rng).value;
    forall i | 0 <= i < |lines| ensures slots[i] == LineResult(results[i], processed[i]) {
      assert Ok(slots[i - 0]) == TransformLine(e, lines[i], rng(i));
    }
    assert slots == seq(|lines|, i requires 0 <= i < |lines| => LineResult(results[i], processed[i]));
  }

  /** How many write calls, counted from call `base`, succeed before the
      first refused one, looking at no more than `n` calls. */
  function FirstRefused(accepts: Sink, base: nat, n: nat): (k: nat)
    ensures k <= n
    ensures forall c | base <= c < base + k :: accepts(c)
    ensures k < n ==> !accepts(base + k)
    decreases n
  {
    if n == 0 || !accepts(base) then 0 else 1 + FirstRefused(accepts, base + 1, n - 1)
  }

  /** The writing loop: one `Fprintln` per line, write call `base + k` for
      line `k`, stopping at the first failed write. Returns what was written
      and whether every write went through. */
  function WriteLines(texts: seq<Line>, accepts: Sink, base: nat): (w: (seq<byte>, bool))
    ensures w.1 <==> FirstRefused(accepts, base, |texts|) == |texts|
    ensures w.0 == JoinLines(texts[..FirstRefused(accepts, base, |texts|)])
  {
    if |texts| == 0 then ([], true)
    else if !accepts(base) then ([], false)
    else
      var rest := WriteLines(texts[1..], accepts, base + 1);
      ghost var j := FirstRefused(accepts, base + 1, |texts| - 1);
      assert texts[..j + 1][1..] == texts[1..][..j];
      (texts[0] + [LF] + rest.0, rest.1)
  }

  /** Whether some slot was transformed. */
  predicate AnyTransformed(slots: seq<LineResult>)
  {
    exists i | 0 <= i < |slots| :: slots[i].transformed
  }

  function Texts(slots: seq<LineResult>): (texts: seq<Line>)
    ensures |texts| == |slots| && forall i | 0 <= i < |slots| :: texts[i] == slots[i].text
  {
    seq(|slots|, i requires 0 <= i < |slots| => slots[i].text)
  }

  /** The result of a run: the processed flag, the bytes written and the
      error, if any. */
  datatype Outcome = Outcome(processed: bool, output: seq<byte>, err: Option<Error>)

  /** `processLines` with at least one worker. A multi-worker run reports the
      error of whichever failing line reaches the error channel first; the
      model reports the first failing line in index order, the one-worker
      schedule, and `FillArena` shows every claim order fails on the same
      inputs. */
  function ProcessLines(e: Encryptor, input: Reader, rng: nat -> Option<Iv>, accepts: Sink): (o: Outcome)
    ensures ScanLines(input).Err? ==> o == Outcome(false, [], Some(Scanning))
    ensures o.processed ==> o.err.None?
    ensures o.output != [] || o.err.None? ==>
      ScanLines(input).Ok? &&
      forall i | 0 <= i < |ScanLines(input).value| :: TransformLine(e, ScanLines(input).value[i], rng(i)).Ok?
  {
    match ScanLines(input)
    case Err(_) => Outcome(false, [], Some(Scanning))
    case Ok(lines) =>
      match TransformAll(e, lines, rng)
      case Err(err) => Outcome(false, [], Some(err))
      case Ok(slots) => WriteArena(slots, accepts)
  }

  /** The last stage of `processLines`: the arena written in index order. */
  function WriteArena(slots: seq<LineResult>, accepts: Sink): Outcome
  {
    var w := WriteLines(Texts(slots), accepts, 0);
    if !w.1 then Outcome(false, w.0, Some(Writing))
    else Outcome(AnyTransformed(slots), w.0, None)
  }

  /** A scanning failure or any failing line returns `(false, err)` before
      anything is written. */
  lemma FailuresWriteNothing(e: Encryptor, input: Reader, rng: nat -> Option<Iv>, accepts: Sink)
    requires ScanLines(input).Err? ||
      exists i | 0 <= i < |ScanLines(input).value| :: TransformLine(e, ScanLines(input).value[i], rng(i)).Err?
    ensures var o := ProcessLines(e, input, rng, accepts);
      !o.processed && o.output == [] && o.err.Some?
    ensures ScanLines(input).Err? ==> ProcessLines(e, input, rng, accepts).err == Some(Scanning)
  {
  }

  /** On success the output is each line's result followed by a line feed,
      in input order, and the flag says whether some line was selected by
      the directives. */
  lemma SuccessfulRun(e: Encryptor, input: Reader, rng: nat -> Option<Iv>, accepts: Sink)
    requires ProcessLines(e, input, rng, accepts).err.None?
    ensures ScanLines(input).Ok?
    ensures var lines := ScanLines(input).value;
      var o := ProcessLines(e, input, rng, accepts);
      && (forall i | 0 <= i < |lines| :: TransformLine(e, lines[i], rng(i)).Ok?)
      && o.output == JoinLines(seq(|lines|, i requires 0 <= i < |lines| => TransformLine(e, lines[i], rng(i)).value.text))
      && (o.processed <==> exists i | 0 <= i < |lines| :: Classify(e.operation, e.directives, lines[i]) != Keep)
  {
    var lines := ScanLines(input).value;
    var slots := TransformAll(e, lines, rng).value;
    var texts := Texts(slots);
    assert texts == seq(|lines|, i requires 0 <= i < |lines| => TransformLine(e, lines[i], rng(i)).value.text);
    assert texts[..|texts|] == texts;
    if exists i | 0 <= i < |lines| :: Classify(e.operation, e.directives, lines[i]) != Keep {
      var i :| 0 <= i < |lines| && Classify(e.operation, e.directives, lines[i]) != Keep;
      assert slots[i].transformed;
    }
  }

  /** A line that `fmt.Fprintln` writes and `bufio.Scanner` reads back
      unchanged: no line feed, no trailing carriage return, and short enough
      for the scanner's buffer. */
  predicate Rescannable(line: Line)
  {
    NoNewline(line) && |line| < MaxTokenSize && (|line| == 0 || line[|line| - 1] != CR)
  }

  /** Any line the encrypt operation handled, encrypted or kept, goes back
      to itself under the decrypt operation, with the same flag, unless a
      kept line already starts like an encrypted one. */
  lemma LineDecryptsBack(enc: Encryptor, dec: Encryptor, line: Line, draw: Option<Iv>, draw': Option<Iv>)
    requires enc.operation == Encrypt && dec.operation == Decrypt
    requires dec.key == enc.key && dec.keystream == enc.keystream && dec.directives == enc.directives
    requires TransformLine(enc, line, draw).Ok?
    requires !HasSuffix(line, enc.directives.encrypt) ==> !HasPrefix(line, SealedPrefix(enc.directives))
    ensures TransformLine(dec, TransformLine(enc, line, draw).value.text, draw')
         == Ok(LineResult(line, TransformLine(enc, line, draw).value.transformed))
  {
    if TransformLine(enc, line, draw).value.transformed {
      LineRoundTrip(enc, dec, line, draw, draw');
    } else {
      KeepLinesVerbatim(dec, line, draw');
    }
  }

  /** Decrypting the lines an encryption wrote gives back, slot by slot,
      its input lines, each flagged as the encryption flagged it. */
  lemma DecryptsBack(enc: Encryptor, dec: Encryptor, lines: seq<Line>, rng: nat -> Option<Iv>, rng': nat -> Option<Iv>)
    requires enc.operation == Encrypt && dec.operation == Decrypt
    requires dec.key == enc.key && dec.keystream == enc.keystream && dec.directives == enc.directives
    requires TransformAll(enc, lines, rng).Ok?
    requires forall i | 0 <= i < |lines| ::
      !HasSuffix(lines[i], enc.directives.encrypt) ==> !HasPrefix(lines[i], SealedPrefix(enc.directives))
    ensures var s := TransformAll(enc, lines, rng).value;
      var d := TransformAll(dec, Texts(s), rng');
      d.Ok? && |d.value| == |lines| &&
      forall i | 0 <= i < |lines| :: d.value[i] == LineResult(lines[i], s[i].transformed)
  {
    var s := TransformAll(enc, lines, rng).value;
    var outs := Texts(s);
    forall i | 0 <= i < |lines| ensures TransformLine(dec, outs[i], rng'(i)) == Ok(LineResult(lines[i], s[i].transformed)) {
      assert Ok(s[i - 0]) == TransformLine(enc, lines[i], rng(i));
      LineDecryptsBack(enc, dec, lines[i], rng(i), rng'(i));
    }
    var d := TransformAll(dec, outs, rng').value;
    forall i | 0 <= i < |lines| ensures d[i] == LineResult(lines[i], s[i].transformed) {
      assert Ok(d[i - 0]) == TransformLine(dec, outs[i], rng'(i));
    }
  }

  /** An arena that holds the given lines with another arena's flags has
      those lines as its texts and a transformed slot exactly when the other
      one has. */
  lemma RestoredArena(s: seq<LineResult>, d: seq<LineResult>, lines: seq<Line>)
    requires |s| == |lines| && |d| == |lines|
    requires forall i | 0 <= i < |lines| :: d[i] == LineResult(lines[i], s[i].transformed)
    ensures Texts(d) == lines
    ensures AnyTransformed(d) <==> AnyTransformed(s)
  {
    if AnyTransformed(d) {
      var i :| 0 <= i < |d| && d[i].transformed;
      assert s[i].transformed;
    }
    if AnyTransformed(s) {
      var i :| 0 <= i < |s| && s[i].transformed;
      assert d[i].transformed;
    }
  }

  /** A writer that takes every write, or a write stage that reports no
      error, leaves every slot's text followed by a line feed, and the flag
      says whether some slot was transformed. */
  lemma WriteArenaWhole(slots: seq<LineResult>, accepts: Sink)
    requires (forall c :: accepts(c)) || WriteArena(slots, accepts).err.None?
    ensures WriteArena(slots, accepts) == Outcome(AnyTransformed(slots), JoinLines(Texts(slots)), None)
  {
    if forall c :: accepts(c) {
      assert FirstRefused(accepts, 0, |slots|) == |slots|;
    }
    assert Texts(slots)[..|slots|] == Texts(slots);
  }

  /** Line mode end to end: decrypting what a successful line-mode
      encryption wrote, with the same key and directives, gives back the
      scanned lines, each followed by a line feed, with the same processed
      flag. This holds when every written line scans back unchanged and no
      line the encryption kept already looks encrypted. */
  lemma LineModeRoundTrip(enc: Encryptor, dec: Encryptor, input: Reader, rng: nat -> Option<Iv>, accEnc: Sink,
                          text: Reader, rng': nat -> Option<Iv>, accDec: Sink)
    requires enc.operation == Encrypt && dec.operation == Decrypt
    requires dec.key == enc.key && dec.keystream == enc.keystream && dec.directives == enc.directives
    requires ProcessLines(enc, input, rng, accEnc).err.None?
    requires ScanLines(input).Ok?
    requires forall i | 0 <= i < |ScanLines(input).value| ::
      TransformLine(enc, ScanLines(input).value[i], rng(i)).Ok? ==>
      Rescannable(TransformLine(enc, ScanLines(input).value[i], rng(i)).value.text)
    requires forall i | 0 <= i < |ScanLines(input).value| ::
      !HasSuffix(ScanLines(input).value[i], enc.directives.encrypt) ==>
      !HasPrefix(ScanLines(input).value[i], SealedPrefix(enc.directives))
    requires Contents(text) == ProcessLines(enc, input, rng, accEnc).output && text.end == Eof
    requires forall c :: accDec(c)
    ensures ProcessLines(dec, text, rng', accDec)
         == Outcome(ProcessLines(enc, input, rng, accEnc).processed, JoinLines(ScanLines(input).value), None)
  {
    var lines := ScanLines(input).value;
    var s := TransformAll(enc, lines, rng).value;
    WriteArenaWhole(s, accEnc);
    forall k | 0 <= k < |s| ensures Rescannable(Texts(s)[k]) {
      assert Ok(s[k - 0]) == TransformLine(enc, lines[k], rng(k));
    }
    ScanJoin(Texts(s), text);
    DecryptsBack(enc, dec, lines, rng, rng');
    var d := TransformAll(dec, Texts(s), rng').value;
    RestoredArena(s, d, lines);
    WriteArenaWhole(d, accDec);
  }

  /** Scanned lines hold no line feed. */
  lemma ScannedLinesNoNewline(input: Reader)
    requires ScanLines(input).Ok?
    ensures forall i | 0 <= i < |ScanLines(input).value| :: NoNewline(ScanLines(input).value[i])
  {
    var segs := Segments(Contents(input));
    forall i | 0 <= i < |segs| ensures NoNewline(DropCR(segs[i])) {
      assert NoNewline(segs[i]);
    }
  }

  /** The decrypt marker, ": " and base64 text hold no line feed between
      them when the marker holds none. */
  lemma SealedPrefixNoNewline(d: Directives, text: seq<byte>)
    requires NoNewline(d.decrypt)
    requires forall i | 0 <= i < |text| :: Base64.InAlphabet(text[i]) || text[i] == Base64.Pad
    ensures NoNewline(SealedPrefix(d) + text)
  {
    var sealed := SealedPrefix(d) + text;
    forall j | 0 <= j < |sealed| ensures sealed[j] != LF {
      if j >= |SealedPrefix(d)| {
        assert sealed[j] == text[j - |SealedPrefix(d)|];
      } else if j >= |d.decrypt| {
        assert sealed[j] == Ascii(": ")[j - |d.decrypt|];
      }
    }
  }

  /** An encrypted line is the marker prefix followed by the base64 text of
      the 16-byte IV and the line, so it grows by about a third; it holds a
      line feed only if the decrypt marker does. */
  lemma SealedLineShape(e: Encryptor, line: Line, draw: Option<Iv>)
    requires Classify(e.operation, e.directives, line) == Seal && TransformLine(e, line, draw).Ok?
    ensures |TransformLine(e, line, draw).value.text| == |SealedPrefix(e.directives)| + (BlockSize + |line| + 2) / 3 * 4
    ensures NoNewline(e.directives.decrypt) ==> NoNewline(TransformLine(e, line, draw).value.text)
  {
    var text := LineCodec.EncryptData(e, line, draw).value;
    assert TransformLine(e, line, draw).value.text == SealedPrefix(e.directives) + text;
    if NoNewline(e.directives.decrypt) {
      SealedPrefixNoNewline(e.directives, text);
    }
  }

  /** The default decrypt marker holds no line feed. */
  lemma DefaultMarkerNoNewline()
    ensures NoNewline(DefaultDirectives.decrypt)
  {
    var s := "### DIRECTIVE: DECRYPT";
    forall j | 0 <= j < |s| ensures (s[j] as int % 256) as byte != LF {
      assert 32 <= s[j] as int < 128;
    }
  }

  /** With the default markers a marked line of `n` bytes no longer fits the
      scanner once encrypted exactly when `n` is at least 49116. */
  lemma DefaultSealedOverflow(n: nat)
    ensures |SealedPrefix(DefaultDirectives)| + (BlockSize + n + 2) / 3 * 4 >= MaxTokenSize <==> n >= 49116
  {
    assert |SealedPrefix(DefaultDirectives)| == 24;
    var q := (BlockSize + n + 2) / 3;
    assert q * 4 >= 65512 <==> q >= 16378;
    assert q >= 16378 <==> BlockSize + n + 2 >= 49134;
  }

  /** A marked line that is too long once encrypted makes the decrypting
      run fail while scanning: the encrypted output cannot be decrypted in
      line mode, although the input line itself scanned. */
  lemma OversizedSealedLine(enc: Encryptor, dec: Encryptor, input: Reader, rng: nat -> Option<Iv>, accEnc: Sink,
                            k: nat, text: Reader, rng': nat -> Option<Iv>, accDec: Sink)
    requires enc.operation == Encrypt && NoNewline(enc.directives.decrypt)
    requires ProcessLines(enc, input, rng, accEnc).err.None?
    requires ScanLines(input).Ok? && k < |ScanLines(input).value|
    requires HasSuffix(ScanLines(input).value[k], enc.directives.encrypt)
    requires |SealedPrefix(enc.directives)| + (BlockSize + |ScanLines(input).value[k]| + 2) / 3 * 4 >= MaxTokenSize
    requires Contents(text) == ProcessLines(enc, input, rng, accEnc).output
    ensures ProcessLines(dec, text, rng', accDec) == Outcome(false, [], Some(Scanning))
  {
    var lines := ScanLines(input).value;
    var s := TransformAll(enc, lines, rng).value;
    WriteArenaWhole(s, accEnc);
    ScannedLinesNoNewline(input);
    forall i | 0 <= i < |s| ensures NoNewline(Texts(s)[i]) {
      assert Ok(s[i - 0]) == TransformLine(enc, lines[i], rng(i));
      if Classify(enc.operation, enc.directives, lines[i]) == Seal {
        SealedLineShape(enc, lines[i], rng(i));
      }
    }
    assert Ok(s[k - 0]) == TransformLine(enc, lines[k], rng(k));
    SealedLineShape(enc, lines[k], rng(k));
    SegmentsJoin(Texts(s));
    var segs := Segments(Contents(text));
    assert |segs[k]| >= MaxTokenSize;
    assert FirstTooLong(segs) <= k;
  }

  /** A failed write stops the output after the lines written so far and
      reports `(false, writing error)`: line `j` is the first whose write
      was refused, and lines `0..j-1` are in the output. */
  lemma WriteFailure(slots: seq<LineResult>, accepts: Sink)
    requires WriteArena(slots, accepts).err.Some?
    ensures var o := WriteArena(slots, accepts);
      && o.err == Some(Writing) && !o.processed
      && exists j | 0 <= j < |slots| ::
           && !accepts(j) && (forall c | 0 <= c < j :: accepts(c))
           && o.output == JoinLines(Texts(slots)[..j])
  {
    var j := FirstRefused(accepts, 0, |slots|);
    assert j < |slots| && !accepts(0 + j);
  }

  /** The arena as `make` leaves it: every slot the empty string, nothing
      transformed. */
  function EmptyArena(n: nat): (slots: seq<LineResult>)
    ensures |slots| == n && forall i | 0 <= i < n :: slots[i] == LineResult([], false)
  {
    seq(n, _ => LineResult([], false))
  }

  /** `processLines` with its `parallel` argument as the source uses it:
      `for range numWorkers` starts no worker when `parallel <= 0`. The wait
      group is then already done, `errChan` is closed at once, the receive
      yields nil, and the arena is written untouched. With at least one
      worker it is `ProcessLines`, whose arena `FillArena` shows is the same
      for every order in which the workers claim the lines. */
  function ProcessLinesAsWritten(e: Encryptor, input: Reader, rng: nat -> Option<Iv>, accepts: Sink): (o: Outcome)
    ensures ScanLines(input).Err? ==> o == Outcome(false, [], Some(Scanning))
    ensures e.parallel <= 0 ==> !o.processed
    ensures e.parallel <= 0 && o.err.Some? ==> o.err == Some(Scanning) || o.err == Some(Writing)
    ensures e.parallel >= 1 ==> o == ProcessLines(e, input, rng, accepts)
  {
    match ScanLines(input)
    case Err(_) => Outcome(false, [], Some(Scanning))
    case Ok(lines) =>
      if e.parallel <= 0 then WriteArena(EmptyArena(|lines|), accepts)
      else ProcessLines(e, input, rng, accepts)
  }

  /** Empty lines written one per `Fprintln` are just line feeds. */
  lemma {:induction false} JoinEmptyLines(n: nat)
    ensures JoinLines(Texts(EmptyArena(n))) == seq(n, _ => LF)
    decreases n
  {
    if n > 0 {
      JoinEmptyLines(n - 1);
      assert Texts(EmptyArena(n))[1..] == Texts(EmptyArena(n - 1));
    }
  }

  /** With no workers every input line comes out as an empty line, nothing
      counts as processed and no error is reported, whatever the lines
      hold. */
  lemma NoWorkersBlankOutput(e: Encryptor, input: Reader, rng: nat -> Option<Iv>, accepts: Sink)
    requires e.parallel <= 0
    requires ScanLines(input).Ok?
    requires forall c :: accepts(c)
    ensures ProcessLinesAsWritten(e, input, rng, accepts)
         == Outcome(false, seq(|ScanLines(input).value|, _ => LF), None)
  {
    var n := |ScanLines(input).value|;
    var texts := Texts(EmptyArena(n));
    assert FirstRefused(accepts, 0, n) == n;
    assert texts[..n] == texts;
    JoinEmptyLines(n);
    assert !AnyTransformed(EmptyArena(n));
  }

  /** A concrete input that shows it: with `parallel = 0`, the one-line
      input `a` comes out as an empty line instead of `a`. */
  lemma NoWorkersDropsLine(e: Encryptor, rng: nat -> Option<Iv>)
    requires e.parallel == 0 && e.directives == DefaultDirectives
    ensures var input := Reader([[97, LF]], Eof);
      var all: Sink := _ => true;
      && ProcessLinesAsWritten(e, input, rng, all).output == [LF]
      && ProcessLines(e, input, rng, all).output == [97, LF]
  {
    var input := Reader([[97, LF]], Eof);
    var all: Sink := _ => true;
    assert Flatten([[97, LF]]) == [97, LF] + Flatten([]);
    assert JoinLines([[97]]) == [97] + [LF] + JoinLines([]);
    ScanJoin([[97]], input);
    assert Classify(e.operation, e.directives, [97]) == Keep;
    var slots := [LineResult([97], false)];
    assert TransformLine(e, [97], rng(0)) == Ok(LineResult([97], false));
    var r := TransformFrom(e, [[97]], rng, 0);
    assert [[97]][0] == [97];
    assert r.Ok? && |r.value| == 1 && Ok(r.value[0 - 0]) == TransformLine(e, [[97]][0], rng(0));
    assert r.value[0] == slots[0];
    assert r.value == slots;
    assert Texts(slots) == [[97]];
    assert FirstRefused(all, 0, 1) == 1;
    assert WriteLines(Texts(slots), all, 0).0 == JoinLines([[97]]);
    NoWorkersBlankOutput(e, input, rng, all);
  }
}
