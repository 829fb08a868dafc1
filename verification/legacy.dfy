/** The older revision of the engine that internal/encrypt/encrypt.go still
    holds: a line loop with the markers built in that writes each line as
    soon as it is scanned, and whole-file streams that write the IV raw,
    in front of the base64 body, and only under the nondeterministic
    policy. */
module Legacy {
  import opened Bytes
  import opened Results
  import opened Cipher
  import opened Io
  import opened EncryptorTypes
  import opened Scan
  import Base64
  import LineCodec
  import LineEngine
  import StreamCodec

  type Outcome = LineEngine.Outcome

  /** The older loop ignores any configured directives: its markers are the
      default ones. */
  function Fixed(e: Encryptor): (f: Encryptor)
    ensures f.directives == DefaultDirectives
    ensures e.directives == DefaultDirectives ==> f == e
  {
    e.(directives := DefaultDirectives)
  }

  /** The index of the first token, from `from` on, whose line fails, or the
      number of tokens when none does. */
  function FirstFailing(e: Encryptor, tokens: seq<Line>, rng: nat -> Option<Iv>, from: nat): (k: nat)
    requires from <= |tokens|
    ensures from <= k <= |tokens|
    ensures forall i | from <= i < k :: LineEngine.TransformLine(e, tokens[i], rng(i)).Ok?
    ensures k < |tokens| ==> LineEngine.TransformLine(e, tokens[k], rng(k)).Err?
    decreases |tokens| - from
  {
    if from == |tokens| then from
    else if LineEngine.TransformLine(e, tokens[from], rng(from)).Err? then from
    else FirstFailing(e, tokens, rng, from + 1)
  }

  /** The texts of the first `k` lines, each of which succeeded. */
  function Emitted(e: Encryptor, tokens: seq<Line>, rng: nat -> Option<Iv>, k: nat): (texts: seq<Line>)
    requires k <= |tokens|
    requires forall i | 0 <= i < k :: LineEngine.TransformLine(e, tokens[i], rng(i)).Ok?
    ensures |texts| == k
    ensures forall i | 0 <= i < k :: LineEngine.TransformLine(e, tokens[i], rng(i)).value.text == texts[i]
  {
    seq(k, i requires 0 <= i < k => LineEngine.TransformLine(e, tokens[i], rng(i)).value.text)
  }

  /** What the writer holds when every line is written with its own call
      and a refused write is ignored: write call `base + k` carries line
      `k`. */
  function Emit(texts: seq<Line>, accepts: Sink, base: nat): seq<byte>
  {
    if |texts| == 0 then []
    else (if accepts(base) then texts[0] + [LF] else []) + Emit(texts[1..], accepts, base + 1)
  }

  /** When every write goes through, the writer holds each line followed by
      a line feed. */
  lemma {:induction false} EmitAll(texts: seq<Line>, accepts: Sink, base: nat)
    requires forall c :: accepts(c)
    ensures Emit(texts, accepts, base) == JoinLines(texts)
    decreases |texts|
  {
    if |texts| > 0 {
      EmitAll(texts[1..], accepts, base + 1);
    }
  }

  /** The older `processLines`: scanning, transforming and writing are one
      loop, so lines before a failing one have already been written, write
      errors are ignored, and the flag returned with an error is whatever
      it was when the error struck. */
  function ProcessLinesLegacy(e: Encryptor, input: Reader, rng: nat -> Option<Iv>, accepts: Sink): (o: Outcome)
    ensures o.err.None? <==>
      ScanAll(input).failure.None? &&
      forall i | 0 <= i < |ScanAll(input).tokens| :: LineEngine.TransformLine(Fixed(e), ScanAll(input).tokens[i], rng(i)).Ok?
    ensures o.processed ==> exists i | 0 <= i < |ScanAll(input).tokens| ::
      LineEngine.Classify(e.operation, DefaultDirectives, ScanAll(input).tokens[i]) != LineEngine.Keep
  {
    var s := ScanAll(input);
    var f := Fixed(e);
    var k := FirstFailing(f, s.tokens, rng, 0);
    var processed := exists i | 0 <= i < k :: LineEngine.Classify(f.operation, f.directives, s.tokens[i]) != LineEngine.Keep;
    var err :=
      if k < |s.tokens| then Some(LineEngine.TransformLine(f, s.tokens[k], rng(k)).error)
      else if s.failure.Some? then Some(Scanning)
      else None;
    LineEngine.Outcome(processed, Emit(Emitted(f, s.tokens, rng, k), accepts, 0), err)
  }

  /** A failing line `k` stops the older loop with that line's error after
      lines `0..k-1` have been written, and the flag says whether one of
      them was transformed. The newer engine writes nothing in that case. */
  lemma LegacyEmitsBeforeFailure(e: Encryptor, input: Reader, rng: nat -> Option<Iv>, accepts: Sink, k: nat)
    requires forall c :: accepts(c)
    requires k < |ScanAll(input).tokens|
    requires forall i | 0 <= i < k :: LineEngine.TransformLine(Fixed(e), ScanAll(input).tokens[i], rng(i)).Ok?
    requires LineEngine.TransformLine(Fixed(e), ScanAll(input).tokens[k], rng(k)).Err?
    ensures var o := ProcessLinesLegacy(e, input, rng, accepts);
      var tokens := ScanAll(input).tokens;
      && o.err == Some(LineEngine.TransformLine(Fixed(e), tokens[k], rng(k)).error)
      && o.output == JoinLines(Emitted(Fixed(e), tokens, rng, k))
      && (o.processed <==> exists i | 0 <= i < k :: LineEngine.Classify(e.operation, DefaultDirectives, tokens[i]) != LineEngine.Keep)
    ensures e.directives == DefaultDirectives ==>
      LineEngine.ProcessLines(e, input, rng, accepts).output == [] && !LineEngine.ProcessLines(e, input, rng, accepts).processed
  {
    var tokens := ScanAll(input).tokens;
    assert FirstFailing(Fixed(e), tokens, rng, 0) == k;
    EmitAll(Emitted(Fixed(e), tokens, rng, k), accepts, 0);
    if e.directives == DefaultDirectives && ScanLines(input).Ok? {
      assert ScanLines(input).value == tokens;
      assert LineEngine.TransformLine(e, ScanLines(input).value[k], rng(k)).Err?;
    }
    if e.directives == DefaultDirectives {
      LineEngine.FailuresWriteNothing(e, input, rng, accepts);
    }
  }

  /** A reader error or an over-long line ends the older loop with a
      scanning error after every line scanned so far has been written, and
      it reports the flag as it stood rather than `false`. */
  lemma LegacyScanFailure(e: Encryptor, input: Reader, rng: nat -> Option<Iv>, accepts: Sink)
    requires forall c :: accepts(c)
    requires ScanAll(input).failure.Some?
    requires forall i | 0 <= i < |ScanAll(input).tokens| :: LineEngine.TransformLine(Fixed(e), ScanAll(input).tokens[i], rng(i)).Ok?
    ensures var o := ProcessLinesLegacy(e, input, rng, accepts);
      var tokens := ScanAll(input).tokens;
      && o.err == Some(Scanning)
      && o.output == JoinLines(Emitted(Fixed(e), tokens, rng, |tokens|))
      && (o.processed <==> exists i | 0 <= i < |tokens| :: LineEngine.Classify(e.operation, DefaultDirectives, tokens[i]) != LineEngine.Keep)
    ensures LineEngine.ProcessLines(e, input, rng, accepts) == LineEngine.Outcome(false, [], Some(Scanning))
  {
    var tokens := ScanAll(input).tokens;
    assert FirstFailing(Fixed(e), tokens, rng, 0) == |tokens|;
    EmitAll(Emitted(Fixed(e), tokens, rng, |tokens|), accepts, 0);
  }

  /** With the default markers and writes that succeed, the older loop and
      the newer engine succeed on the same inputs and then write the same
      text and report the same flag. */
  lemma LegacyAgreesOnSuccess(e: Encryptor, input: Reader, rng: nat -> Option<Iv>, accepts: Sink)
    requires e.directives == DefaultDirectives
    requires forall c :: accepts(c)
    ensures ProcessLinesLegacy(e, input, rng, accepts).err.None? <==> LineEngine.ProcessLines(e, input, rng, accepts).err.None?
    ensures LineEngine.ProcessLines(e, input, rng, accepts).err.None? ==>
      ProcessLinesLegacy(e, input, rng, accepts) == LineEngine.ProcessLines(e, input, rng, accepts)
  {
    var s := ScanAll(input);
    var k := FirstFailing(e, s.tokens, rng, 0);
    if ProcessLinesLegacy(e, input, rng, accepts).err.None? {
      assert k == |s.tokens| && s.failure.None?;
      assert ScanLines(input) == Ok(s.tokens);
      var slots := LineEngine.TransformAll(e, s.tokens, rng);
      assert slots.Ok?;
      assert LineEngine.FirstRefused(accepts, 0, |slots.value|) == |slots.value|;
    }
    if LineEngine.ProcessLines(e, input, rng, accepts).err.None? {
      LineEngine.SuccessfulRun(e, input, rng, accepts);
      var lines := ScanLines(input).value;
      assert lines == s.tokens;
      assert k == |s.tokens|;
      var texts := Emitted(e, s.tokens, rng, k);
      EmitAll(texts, accepts, 0);
      assert texts == seq(|lines|, i requires 0 <= i < |lines| => LineEngine.TransformLine(e, lines[i], rng(i)).value.text);
    }
  }

  /** A refused write changes what the writer holds but neither the error
      nor the flag the older loop returns. */
  lemma LegacyIgnoresWriteErrors(e: Encryptor, input: Reader, rng: nat -> Option<Iv>, a1: Sink, a2: Sink)
    ensures ProcessLinesLegacy(e, input, rng, a1).err == ProcessLinesLegacy(e, input, rng, a2).err
    ensures ProcessLinesLegacy(e, input, rng, a1).processed == ProcessLinesLegacy(e, input, rng, a2).processed
  {
  }

  /** What the older encrypting stream handed on: the bytes written raw
      (the IV, under the nondeterministic policy), the bytes given to the
      base64 encoder, and the error. */
  datatype LegacyStream = LegacyStream(raw: seq<byte>, sent: seq<byte>, err: Option<Error>)

  /** The writer's contents after a successful older `encryptStream`: the
      raw bytes, then the flushed base64 text of the body. */
  function LegacyText(r: LegacyStream): seq<byte>
  {
    r.raw + Base64.Encode(r.sent)
  }

  /** The older `encryptStream`. The cipher is created first, so a key that
      reaches `Key[:16]` is at least 16 bytes long. The IV is written raw,
      as write call 0, only under the nondeterministic policy; the body's
      write calls follow it. */
  function EncryptStreamLegacy(e: Encryptor, draw: Option<Iv>, input: Reader, accepts: Sink): (r: LegacyStream)
    ensures !ValidKeyLength(|e.key|) ==> r == LegacyStream([], [], Some(CreatingCipher))
    ensures ValidKeyLength(|e.key|) && !e.policy.Deterministic? && draw.None? ==> r == LegacyStream([], [], Some(GeneratingIv))
    ensures e.policy != NonDeterministic ==> r.raw == []
    ensures r.err.None? ==>
      && ValidKeyLength(|e.key|) && LineCodec.ChooseIv(e, draw).Some? && input.end == Eof
      && r.sent == Xor(e.keystream, e.key, LineCodec.ChooseIv(e, draw).value, 0, Contents(input))
      && r.raw == (if e.policy == NonDeterministic then LineCodec.ChooseIv(e, draw).value else [])
    ensures e.policy == Deterministic && r.err.None? ==> r.sent == Xor(e.keystream, e.key, e.key[..BlockSize], 0, Contents(input))
    ensures input.end == Fail ==> r.err.Some?
  {
    if !ValidKeyLength(|e.key|) then LegacyStream([], [], Some(CreatingCipher))
    else match LineCodec.ChooseIv(e, draw)
      case None => LegacyStream([], [], Some(GeneratingIv))
      case Some(iv) =>
        var writesIv := e.policy == NonDeterministic;
        if writesIv && !accepts(0) then LegacyStream([], [], Some(WritingIv))
        else
          var first := if writesIv then 1 else 0;
          var body := StreamCodec.XorChunks(e.keystream, e.key, iv, input.chunks, 0, input.end, accepts, first, 0);
          StreamCodec.XorChunksComplete(e.keystream, e.key, iv, input.chunks, 0, input.end, accepts, first, 0);
          assert input.chunks[0..] == input.chunks;
          LegacyStream(if writesIv then iv else [], body.sent,
                       StreamCodec.StopError(body.stop, WritingEncryptedData, ReadingData))
  }

  /** Under the nondeterministic policy both revisions hand on the same IV
      and ciphertext with the same write calls and fail alike; they differ
      only in framing: the older one writes `IV ‖ base64(C)`, the newer one
      `base64(IV ‖ C)`. */
  lemma LegacyStreamFraming(e: Encryptor, draw: Option<Iv>, input: Reader, accepts: Sink)
    requires e.policy == NonDeterministic
    ensures var older := EncryptStreamLegacy(e, draw, input, accepts);
      var newer := StreamCodec.EncryptStream(e, draw, input, accepts);
      && older.err == newer.err
      && older.raw + older.sent == newer.sent
      && (older.err.None? ==> LegacyText(older) == draw.value + Base64.Encode(newer.sent[BlockSize..]))
  {
    var older := EncryptStreamLegacy(e, draw, input, accepts);
    var newer := StreamCodec.EncryptStream(e, draw, input, accepts);
    if older.err.None? {
      assert newer.sent[BlockSize..] == older.sent;
    }
  }

  /** The decrypting half once the IV is known: the cipher is created, then
      the rest of the input is base64-decoded and XORed with the keystream
      behind that IV, written with calls from 0. */
  function DecryptBody(e: Encryptor, iv: seq<byte>, rest: Reader, accepts: Sink): (r: StreamCodec.StreamResult)
    ensures !ValidKeyLength(|e.key|) ==> r == StreamCodec.StreamResult([], Some(CreatingCipher))
    ensures r.err.None? ==>
      && rest.end == Eof && Base64.Decode(Contents(rest)).Some?
      && r.sent == Xor(e.keystream, e.key, iv, 0, Base64.Decode(Contents(rest)).value)
    ensures r.err.Some? ==> r.err.value in {CreatingCipher, WritingDecryptedData, ReadingEncryptedData}
  {
    if !ValidKeyLength(|e.key|) then StreamCodec.StreamResult([], Some(CreatingCipher))
    else
      var decoded := StreamCodec.DecodeReader(rest);
      var p := StreamCodec.XorChunks(e.keystream, e.key, iv, decoded.chunks, 0, decoded.end, accepts, 0, 0);
      StreamCodec.XorChunksComplete(e.keystream, e.key, iv, decoded.chunks, 0, decoded.end, accepts, 0, 0);
      assert decoded.chunks[0..] == decoded.chunks;
      StreamCodec.StreamResult(p.sent, StreamCodec.StopError(p.stop, WritingDecryptedData, ReadingEncryptedData))
  }

  /** The older `decryptStream`. Under the deterministic policy the IV is
      `Key[:16]`, sliced before the cipher is created, so a shorter key
      stops the run; otherwise the first 16 raw bytes of the input are the
      IV and fewer fail with "reading IV". */
  function DecryptStreamLegacy(e: Encryptor, input: Reader, accepts: Sink): (r: StreamCodec.StreamResult)
    ensures e.policy == Deterministic && |e.key| < BlockSize ==> r == StreamCodec.StreamResult([], Some(KeyShorterThanBlock))
    ensures e.policy != Deterministic && |Contents(input)| < BlockSize ==> r == StreamCodec.StreamResult([], Some(ReadingIv))
    ensures e.policy == Deterministic && r.err.None? ==>
      && |e.key| >= BlockSize && Base64.Decode(Contents(input)).Some?
      && r.sent == Xor(e.keystream, e.key, e.key[..BlockSize], 0, Base64.Decode(Contents(input)).value)
    ensures e.policy != Deterministic && r.err.None? ==>
      && |Contents(input)| >= BlockSize && Base64.Decode(Contents(input)[BlockSize..]).Some?
      && r.sent == Xor(e.keystream, e.key, Contents(input)[..BlockSize], 0, Base64.Decode(Contents(input)[BlockSize..]).value)
  {
    if e.policy == Deterministic then
      if |e.key| < BlockSize then StreamCodec.StreamResult([], Some(KeyShorterThanBlock))
      else DecryptBody(e, e.key[..BlockSize], input, accepts)
    else if |Contents(input)| < BlockSize then StreamCodec.StreamResult([], Some(ReadingIv))
    else
      var rest := Reader(DropPrefix(input.chunks, BlockSize), input.end);
      DecryptBody(e, Contents(input)[..BlockSize], rest, accepts)
  }

  /** Under either named policy, decrypting what a successful older
      encryption wrote, with the same key and policy, gives back the input. */
  lemma LegacyStreamRoundTrip(enc: Encryptor, dec: Encryptor, draw: Option<Iv>, plain: Reader, accEnc: Sink,
                              text: Reader, accDec: Sink)
    requires enc.policy == Deterministic || enc.policy == NonDeterministic
    requires dec.policy == enc.policy && dec.key == enc.key && dec.keystream == enc.keystream
    requires EncryptStreamLegacy(enc, draw, plain, accEnc).err.None?
    requires Contents(text) == LegacyText(EncryptStreamLegacy(enc, draw, plain, accEnc)) && text.end == Eof
    requires forall c :: accDec(c)
    ensures DecryptStreamLegacy(dec, text, accDec) == StreamCodec.StreamResult(Contents(plain), None)
  {
    var r := EncryptStreamLegacy(enc, draw, plain, accEnc);
    var iv := LineCodec.ChooseIv(enc, draw).value;
    Base64.DecodeEncode(r.sent);
    XorInvolution(enc.keystream, enc.key, iv, 0, Contents(plain));
    var rest := if enc.policy == NonDeterministic then Reader(DropPrefix(text.chunks, BlockSize), text.end) else text;
    assert Contents(rest) == Base64.Encode(r.sent) by {
      if enc.policy == NonDeterministic {
        assert Contents(text)[BlockSize..] == Base64.Encode(r.sent);
      }
    }
    assert enc.policy == NonDeterministic ==> Contents(text)[..BlockSize] == iv;
    var decoded := StreamCodec.DecodeReader(rest);
    StreamCodec.XorChunksAllWritten(dec.keystream, dec.key, iv, decoded.chunks, 0, decoded.end, accDec, 0, 0);
    assert decoded.chunks[0..] == decoded.chunks;
  }
}
