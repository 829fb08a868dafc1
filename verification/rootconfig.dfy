/** `Config.Validate` of the root command (config.go): the tag rules and the
    key/keyfile rule each add an error, all are collected, and the verdict
    depends on how many there are. */
module RootConfig {

  datatype Config = Config(mode: string, operation: string, key: string, keyFile: string, file: string)

  datatype Violation =
    | ModeNotOneOf       // tag `oneof=file line`
    | OperationNotOneOf  // tag `oneof=encrypt decrypt`
    | KeyAndKeyFile      // "key and keyfile cannot be used together"
    | NoKeyOrKeyFile     // "key or keyfile must be provided"

  /** nil, `ErrUsage: e`, or `ErrUsage` followed by the joined errors. */
  datatype Verdict = Valid | Usage(violation: Violation) | UsageJoined(violations: seq<Violation>)

  /** What each rule demands, stated on its own. */
  predicate Violates(c: Config, v: Violation)
  {
    match v
    case ModeNotOneOf => c.mode != "file" && c.mode != "line"
    case OperationNotOneOf => c.operation != "encrypt" && c.operation != "decrypt"
    case KeyAndKeyFile => c.key != "" && c.keyFile != ""
    case NoKeyOrKeyFile => c.key == "" && c.keyFile == ""
  }

  /** The struct validator's errors, one per field whose tag fails. */
  function TagErrors(c: Config): seq<Violation>
  {
    (if c.mode in ["file", "line"] then [] else [ModeNotOneOf]) +
    (if c.operation in ["encrypt", "decrypt"] then [] else [OperationNotOneOf])
  }

  /** The `switch` on the two key sources adds at most one error. */
  function KeyErrors(c: Config): seq<Violation>
  {
    if c.key != "" && c.keyFile != "" then [KeyAndKeyFile]
    else if c.key == "" && c.keyFile == "" then [NoKeyOrKeyFile]
    else []
  }

  function Validate(c: Config): (r: Verdict)
    ensures r == Valid <==>
      !Violates(c, ModeNotOneOf) && !Violates(c, OperationNotOneOf) && !Violates(c, KeyAndKeyFile) && !Violates(c, NoKeyOrKeyFile)
    ensures r.Usage? ==> Violates(c, r.violation)
    ensures r.UsageJoined? ==> |r.violations| >= 2 && forall i | 0 <= i < |r.violations| :: Violates(c, r.violations[i])
  {
    var errs := TagErrors(c) + KeyErrors(c);
    if |errs| == 0 then Valid
    else if |errs| == 1 then Usage(errs[0])
    else UsageJoined(errs)
  }

  /** The violations a verdict reports. */
  function Reported(v: Verdict): set<Violation>
  {
    match v
    case Valid => {}
    case Usage(x) => {x}
    case UsageJoined(xs) => set i | 0 <= i < |xs| :: xs[i]
  }

  /** All violations are collected: a violation is reported exactly when
      its rule is broken, none twice, and the verdict's shape follows their
      number. */
  lemma ValidateCollectsAll(c: Config)
    ensures forall v :: v in Reported(Validate(c)) <==> Violates(c, v)
    ensures Validate(c) == Valid <==> forall v :: !Violates(c, v)
    ensures Validate(c).Usage? <==> |Reported(Validate(c))| == 1
    ensures Validate(c).UsageJoined? ==> |Validate(c).violations| == |Reported(Validate(c))| >= 2
  {
    var errs := TagErrors(c) + KeyErrors(c);
    assert forall v :: v in errs <==> Violates(c, v);
    assert forall i, j | 0 <= i < j < |errs| :: errs[i] != errs[j];
    var s := set i | 0 <= i < |errs| :: errs[i];
    assert forall v :: v in s <==> v in errs;
    if |errs| == 1 {
      assert s == {errs[0]};
    }
    if |errs| >= 2 {
      DistinctCount(errs);
    }
    if Validate(c) == Valid {
      forall v ensures !Violates(c, v) {
        assert v !in errs;
      }
    }
  }

  /** A sequence without repeats has as many distinct elements as entries. */
  lemma {:induction false} DistinctCount(xs: seq<Violation>)
    requires forall i, j | 0 <= i < j < |xs| :: xs[i] != xs[j]
    ensures |set i | 0 <= i < |xs| :: xs[i]| == |xs|
    decreases |xs|
  {
    if |xs| > 0 {
      var init := xs[..|xs| - 1];
      DistinctCount(init);
      var s := set i | 0 <= i < |xs| :: xs[i];
      var t := set i | 0 <= i < |init| :: init[i];
      assert xs[|xs| - 1] !in t;
      assert s == t + {xs[|xs| - 1]};
    }
  }

  /** Exactly one key source set adds no key error; both or neither add
      exactly one. */
  lemma KeySourcesExclusive(c: Config)
    ensures (c.key != "") != (c.keyFile != "") <==> KeyErrors(c) == []
    ensures !Violates(c, KeyAndKeyFile) || !Violates(c, NoKeyOrKeyFile)
  {
  }
}
