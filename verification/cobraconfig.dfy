/** `Config.Validate` of the cobra front end (cmd/cobra/config.go): checks
    run one after another and the first that fails is the only one
    reported. */
module CobraConfig {
  import opened Results

  /** The fields the checks read; the directives and the `Show` flag are
      only seen by the struct validator. */
  datatype Config = Config(mode: string, operation: string, key: string, file: string)

  /** Why a configuration is refused. The first three are written by hand
      and wrap `ErrUsage`; the last is the struct validator's own error. */
  datatype Failure =
    | InvalidMode(mode: string)           // "invalid mode %q, allowed are: [file line]"
    | InvalidOperation(operation: string) // "invalid operation %q, allowed are: [encrypt decrypt]"
    | MissingKey                          // "key file/string must be provided"
    | StructInvalid                       // "validating config: ..."

  const AllowedModes: seq<string> := ["file", "line"]
  const AllowedOperations: seq<string> := ["encrypt", "decrypt"]

  /** `Validate`; `structValid` is the verdict of the struct-tag validator,
      a library call that runs only once the hand-written checks pass. */
  function Validate(c: Config, structValid: bool): (r: Option<Failure>)
    ensures r.None? <==> c.mode in {"file", "line"} && c.operation in {"encrypt", "decrypt"} && c.key != "" && structValid
    ensures c.mode != "file" && c.mode != "line" ==> r == Some(InvalidMode(c.mode))
    ensures r.Some? && r.value.InvalidOperation? ==> c.mode in {"file", "line"} && r.value.operation == c.operation
    ensures r == Some(MissingKey) ==> c.mode in {"file", "line"} && c.operation in {"encrypt", "decrypt"} && c.key == ""
  {
    if c.mode !in AllowedModes then Some(InvalidMode(c.mode))
    else if c.operation !in AllowedOperations then Some(InvalidOperation(c.operation))
    else if c.key == "" then Some(MissingKey)
    else if !structValid then Some(StructInvalid)
    else None
  }

  /** Every check the configuration fails, in the order they are made. */
  function Failures(c: Config, structValid: bool): seq<Failure>
  {
    (if c.mode == "file" || c.mode == "line" then [] else [InvalidMode(c.mode)]) +
    (if c.operation == "encrypt" || c.operation == "decrypt" then [] else [InvalidOperation(c.operation)]) +
    (if c.key != "" then [] else [MissingKey]) +
    (if structValid then [] else [StructInvalid])
  }

  /** Only the first failing check is reported: the verdict is empty
      exactly when no check fails, and otherwise it is the first failure. */
  lemma ValidateReportsFirst(c: Config, structValid: bool)
    ensures Validate(c, structValid).None? <==> |Failures(c, structValid)| == 0
    ensures |Failures(c, structValid)| > 0 ==> Validate(c, structValid) == Some(Failures(c, structValid)[0])
  {
  }
}
