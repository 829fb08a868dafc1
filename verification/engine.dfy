/** The entry point of the engine: `Process` sends line mode to the line
    engine and file mode to the whole-stream codec (internal/encrypt/encrypt.go
    and `processWholeFile` in internal/encrypt/process.go). */
module Engine {
  import opened Bytes
  import opened Results
  import opened Cipher
  import opened Io
  import opened EncryptorTypes
  import Base64
  import LineEngine
  import Scan
  import StreamCodec

  type Outcome = LineEngine.Outcome

  /** `processWholeFile`: one stream in or out, reported as processed for
      either operation even when the stream fails. The encrypt branch's
      writer holds the base64 text of what went through the encoder; its
      contents after a failure are not modelled (empty here). `draw` is the
      IV drawn for the stream. */
  function ProcessWholeFile(e: Encryptor, input: Reader, draw: Option<Iv>, accepts: Sink): (o: Outcome)
    ensures e.operation.OtherOperation? ==> o == LineEngine.Outcome(false, [], Some(InvalidOperation))
    ensures !e.operation.OtherOperation? ==> o.processed
    ensures e.operation == Encrypt && o.err.None? ==>
      draw.Some? && input.end == Eof &&
      Base64.Decode(o.output) == Some(draw.value + Xor(e.keystream, e.key, draw.value, 0, Contents(input)))
    ensures e.operation == Decrypt && o.err.None? ==>
      var frame := Base64.Decode(Contents(input));
      frame.Some? && |frame.value| >= BlockSize &&
      o.output == Xor(e.keystream, e.key, frame.value[..BlockSize], 0, frame.value[BlockSize..])
    ensures e.operation == Encrypt ==> o.err == StreamCodec.EncryptStream(e, draw, input, accepts).err
    ensures e.operation == Decrypt ==> o.err == StreamCodec.DecryptStream(e, input, accepts).err
  {
    match e.operation
    case Encrypt =>
      var r := StreamCodec.EncryptStream(e, draw, input, accepts);
      Base64.DecodeEncode(r.sent);
      LineEngine.Outcome(true, if r.err.None? then StreamCodec.EncryptedText(r) else [], r.err)
    case Decrypt =>
      var r := StreamCodec.DecryptStream(e, input, accepts);
      LineEngine.Outcome(true, r.sent, r.err)
    case OtherOperation(_) => LineEngine.Outcome(false, [], Some(InvalidOperation))
  }

  /** `Process` with the invalid-mode error naming the mode. The stream
      draws its IV first, as `rng(0)`. */
  function Process(e: Encryptor, input: Reader, rng: nat -> Option<Iv>, accepts: Sink): (o: Outcome)
    ensures e.mode == Line ==> o == LineEngine.ProcessLines(e, input, rng, accepts)
    ensures e.mode == File ==> o == ProcessWholeFile(e, input, rng(0), accepts)
    ensures e.mode.OtherMode? ==> o == LineEngine.Outcome(false, [], Some(InvalidMode(e.mode.name)))
  {
    match e.mode
    case Line => LineEngine.ProcessLines(e, input, rng, accepts)
    case File => ProcessWholeFile(e, input, rng(0), accepts)
    case OtherMode(name) => LineEngine.Outcome(false, [], Some(InvalidMode(name)))
  }

  /** `Process` as written: line mode goes to the line engine as written,
      which starts no worker when `parallel <= 0`, and the invalid-mode
      message formats `e.Type`, the IV policy, instead of `e.Mode`. */
  function ProcessAsWritten(e: Encryptor, input: Reader, rng: nat -> Option<Iv>, accepts: Sink): (o: Outcome)
    ensures e.mode == File ==> o == Process(e, input, rng, accepts)
    ensures e.mode == Line ==> o == LineEngine.ProcessLinesAsWritten(e, input, rng, accepts)
    ensures e.mode.OtherMode? ==> !o.processed && o.output == [] && o.err == Some(InvalidMode(PolicyName(e.policy)))
  {
    match e.mode
    case Line => LineEngine.ProcessLinesAsWritten(e, input, rng, accepts)
    case File => ProcessWholeFile(e, input, rng(0), accepts)
    case OtherMode(_) => LineEngine.Outcome(false, [], Some(InvalidMode(PolicyName(e.policy))))
  }

  /** With mode "stream" and the nondeterministic policy, the message
      reports "nondeterministic" and not the mode that was rejected. */
  lemma InvalidModeNamesPolicy(e: Encryptor, input: Reader, rng: nat -> Option<Iv>, accepts: Sink)
    requires e.mode == OtherMode("stream") && e.policy == NonDeterministic
    ensures ProcessAsWritten(e, input, rng, accepts).err == Some(InvalidMode("nondeterministic"))
    ensures Process(e, input, rng, accepts).err == Some(InvalidMode("stream"))
    ensures ProcessAsWritten(e, input, rng, accepts) != Process(e, input, rng, accepts)
  {
    assert "nondeterministic" != "stream";
  }

  /** The two agree in file mode and, with at least one worker, in line
      mode; on any other mode they differ only in the text of the error. */
  lemma ProcessAgreesOnValidModes(e: Encryptor, input: Reader, rng: nat -> Option<Iv>, accepts: Sink)
    ensures e.mode == File ==> ProcessAsWritten(e, input, rng, accepts) == Process(e, input, rng, accepts)
    ensures e.mode == Line && e.parallel >= 1 ==> ProcessAsWritten(e, input, rng, accepts) == Process(e, input, rng, accepts)
    ensures e.mode == Line && e.parallel <= 0 && Scan.ScanLines(input).Ok? && (forall c :: accepts(c)) ==>
      ProcessAsWritten(e, input, rng, accepts) == LineEngine.Outcome(false, seq(|Scan.ScanLines(input).value|, _ => LF), None)
    ensures e.mode.OtherMode? ==>
      var o := Process(e, input, rng, accepts);
      var w := ProcessAsWritten(e, input, rng, accepts);
      !o.processed && !w.processed && o.output == w.output == [] && o.err.Some? && w.err.Some? &&
      o.err.value.InvalidMode? && w.err.value.InvalidMode? && o.err.value.name == e.mode.name
  {
    if e.mode == Line && e.parallel <= 0 && Scan.ScanLines(input).Ok? && (forall c :: accepts(c)) {
      LineEngine.NoWorkersBlankOutput(e, input, rng, accepts);
    }
  }

  /** File mode end to end: decrypting what a successful file-mode
      encryption wrote, with the same key, gives back the input. */
  lemma FileModeRoundTrip(enc: Encryptor, dec: Encryptor, input: Reader, rng: nat -> Option<Iv>, accEnc: Sink,
                          text: Reader, rng': nat -> Option<Iv>, accDec: Sink)
    requires enc.mode == File && enc.operation == Encrypt
    requires dec.mode == File && dec.operation == Decrypt
    requires dec.key == enc.key && dec.keystream == enc.keystream
    requires Process(enc, input, rng, accEnc).err.None?
    requires Contents(text) == Process(enc, input, rng, accEnc).output && text.end == Eof
    requires forall c :: accDec(c)
    ensures Process(dec, text, rng', accDec) == LineEngine.Outcome(true, Contents(input), None)
  {
    StreamCodec.StreamRoundTrip(enc, dec, rng(0), input, accEnc, text, accDec);
  }
}
