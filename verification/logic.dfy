/** `Run` of internal/logic/logic.go: choose the key source, decode the key,
    insist on a 32-byte key before the input is opened, process, and decide
    which summary to print. Reading the key file and opening the input are
    given as their results; the engine is the model's `Engine.Process`. */
module Logic {
  import opened Bytes
  import opened Results
  import opened Cipher
  import opened Io
  import opened EncryptorTypes
  import HexKey
  import Engine
  import LineEngine

  /** The key is given as hex text, or as the path of a file holding it. */
  datatype KeySource = KeySource(text: seq<byte>, file: string)

  /** The configuration fields `Run` reads once it has a key. */
  datatype Settings = Settings(mode: string, operation: string, file: string, directives: Directives, parallel: int)

  /** The configuration fields `Run` reads. */
  datatype Config = Config(key: KeySource, settings: Settings)

  /** What the outside world supplies: the key file's contents (None if it
      cannot be read), the opened input (None if it cannot be opened), the
      random draws, the writer and AES-CFB under the decoded key. */
  datatype World = World(keyFile: Option<seq<byte>>, input: Option<Reader>, rng: nat -> Option<Iv>,
                         accepts: Sink, keystream: Keystream)

  datatype RunError =
    | ReadingKeyFile            // "reading key file: ..."
    | ReadingKey                // "reading key: invalid hex key: ..."
    | InvalidKeyLength(got: nat) // "invalid key length: got %d bytes, want 32"
    | LoadingData               // "loading data: opening input file ..."
    | Processing(cause: Error)  // "processing data: ..."

  /** The line printed to standard error after a successful run. */
  datatype Summary = NoSummary | FileSummary | LinesSummary

  datatype RunResult = RunResult(stdout: seq<byte>, summary: Summary, err: Option<RunError>)

  const KeySize: nat := 32

  /** The key `Run` ends up with: the hex text when it is set, else the
      file's contents, else no key at all (the empty key). */
  function LoadKey(k: KeySource, keyFile: Option<seq<byte>>): (r: Result<seq<byte>, RunError>)
    ensures k.text != [] ==> r == (match HexKey.Decode(k.text) case Ok(key) => Ok(key) case Err(_) => Err(ReadingKey))
    ensures k.text == [] && k.file != "" && keyFile.None? ==> r == Err(ReadingKeyFile)
    ensures k.text == [] && k.file != "" && keyFile.Some? ==>
      r == (match HexKey.Decode(keyFile.value) case Ok(key) => Ok(key) case Err(_) => Err(ReadingKey))
    ensures k.text == [] && k.file == "" ==> r == Ok([])
  {
    if k.text != [] then
      match HexKey.Decode(k.text)
      case Ok(key) => Ok(key)
      case Err(_) => Err(ReadingKey)
    else if k.file != "" then
      match keyFile
      case None => Err(ReadingKeyFile)
      case Some(contents) =>
        match HexKey.Decode(contents)
        case Ok(key) => Ok(key)
        case Err(_) => Err(ReadingKey)
    else Ok([])
  }

  /** The encryptor `Run` builds: the configured strings become operation
      and mode as they are, and IVs are drawn at random. */
  function BuildEncryptor(s: Settings, key: seq<byte>, ks: Keystream): Encryptor
  {
    Encryptor(key, ParseOperation(s.operation), ParseMode(s.mode), NonDeterministic,
              s.directives, s.parallel, ks)
  }

  /** The summary rule: file mode always, line mode only when some line
      was transformed. */
  function SummaryFor(mode: string, processed: bool): Summary
  {
    if mode == "file" then FileSummary
    else if mode == "line" && processed then LinesSummary
    else NoSummary
  }

  function Run(cfg: Config, w: World): (r: RunResult)
    ensures r.err.None? ==> LoadKey(cfg.key, w.keyFile).Ok? && |LoadKey(cfg.key, w.keyFile).value| == KeySize && w.input.Some?
    ensures r.err.Some? ==> r.summary == NoSummary
    ensures r.err.None? ==> (r.summary == FileSummary <==> cfg.settings.mode == "file")
    ensures LoadKey(cfg.key, w.keyFile).Ok? && |LoadKey(cfg.key, w.keyFile).value| != KeySize ==>
      r == RunResult([], NoSummary, Some(InvalidKeyLength(|LoadKey(cfg.key, w.keyFile).value|)))
    ensures r.stdout != [] ==> LoadKey(cfg.key, w.keyFile).Ok? && |LoadKey(cfg.key, w.keyFile).value| == KeySize && w.input.Some?
  {
    RunWithKey(cfg.settings, LoadKey(cfg.key, w.keyFile), w)
  }

  /** The rest of `Run` once the key has been loaded, or has failed to. */
  function RunWithKey(s: Settings, loaded: Result<seq<byte>, RunError>, w: World): RunResult
  {
    match loaded
    case Err(err) => RunResult([], NoSummary, Some(err))
    case Ok(key) =>
      if |key| != KeySize then RunResult([], NoSummary, Some(InvalidKeyLength(|key|)))
      else match w.input
        case None => RunResult([], NoSummary, Some(LoadingData))
        case Some(input) =>
          var o := Engine.Process(BuildEncryptor(s, key, w.keystream), input, w.rng, w.accepts);
          if o.err.Some? then RunResult(o.output, NoSummary, Some(Processing(o.err.value)))
          else RunResult(o.output, SummaryFor(s.mode, o.processed), None)
  }

  /** A non-empty key string is used and the key file is neither read nor
      consulted. */
  lemma KeyStringWins(cfg: Config, w: World, otherFile: string, otherContents: Option<seq<byte>>)
    requires cfg.key.text != []
    ensures Run(cfg, w) == Run(cfg.(key := KeySource(cfg.key.text, otherFile)), w.(keyFile := otherContents))
  {
    assert LoadKey(cfg.key, w.keyFile) == LoadKey(KeySource(cfg.key.text, otherFile), otherContents);
  }

  /** A key of the wrong length, including the empty key when neither source
      is set, stops the run before the input is opened: the result does not
      depend on the input and nothing is written. */
  lemma KeyCheckedBeforeInput(cfg: Config, w: World, otherInput: Option<Reader>)
    requires LoadKey(cfg.key, w.keyFile).Ok? && |LoadKey(cfg.key, w.keyFile).value| != KeySize
    ensures Run(cfg, w) == Run(cfg, w.(input := otherInput))
    ensures Run(cfg, w).stdout == [] && Run(cfg, w).err == Some(InvalidKeyLength(|LoadKey(cfg.key, w.keyFile).value|))
    ensures cfg.key.text == [] && cfg.key.file == "" ==> Run(cfg, w).err == Some(InvalidKeyLength(0))
  {
  }

  /** A processing error is returned wrapped and no summary is printed; on
      success line mode prints a summary exactly when a line was
      transformed. */
  lemma SummaryRule(cfg: Config, w: World)
    requires LoadKey(cfg.key, w.keyFile).Ok? && |LoadKey(cfg.key, w.keyFile).value| == KeySize && w.input.Some?
    ensures var e := BuildEncryptor(cfg.settings, LoadKey(cfg.key, w.keyFile).value, w.keystream);
      var o := Engine.Process(e, w.input.value, w.rng, w.accepts);
      var r := Run(cfg, w);
      && r.stdout == o.output
      && (o.err.Some? ==> r.summary == NoSummary && r.err == Some(Processing(o.err.value)))
      && (o.err.None? && cfg.settings.mode == "line" ==> (r.summary == LinesSummary <==> o.processed))
      && (o.err.None? && cfg.settings.mode == "file" ==> r.summary == FileSummary)
  {
  }

  /** A key file holding the hex key with surrounding white space, a
      trailing newline say, gives the same run as the key typed as text. */
  lemma KeyFileMatchesKeyString(cfg: Config, w: World, key: seq<byte>, lead: seq<byte>, trail: seq<byte>)
    requires HexKey.AllSpace(lead) && HexKey.AllSpace(trail)
    requires cfg.key.text == [] && cfg.key.file != ""
    requires w.keyFile == Some(lead + HexKey.Encode(key) + trail)
    requires HexKey.Encode(key) != []
    ensures Run(cfg, w) == Run(cfg.(key := KeySource(HexKey.Encode(key), "")), w)
  {
    var cfg' := cfg.(key := KeySource(HexKey.Encode(key), ""));
    HexKey.DecodeEncode(key, lead, trail);
    HexKey.DecodeEncode(key, [], []);
    assert [] + HexKey.Encode(key) + [] == HexKey.Encode(key);
    assert LoadKey(cfg.key, w.keyFile) == Ok(key) == LoadKey(cfg'.key, w.keyFile);
  }
}
