/** The values an `Encryptor` is built from (internal/encrypt/constants.go,
    the `Encryptor` struct and `Directives`), and the errors the engine can
    return. Go keeps operation, mode and IV policy as free strings; each has
    a variant here for any value outside the named constants. */
module EncryptorTypes {
  import opened Bytes
  import Cipher

  datatype Operation = Encrypt | Decrypt | OtherOperation(name: string)

  datatype Mode = Line | File | OtherMode(name: string)

  /** The `Type` of the package revision that has one: a deterministic IV
      is the first block of the key, any other value draws a random IV. */
  datatype IvPolicy = Deterministic | NonDeterministic | OtherPolicy(name: string)

  /** Marker strings: a line ending in `encrypt` is to be encrypted; an
      encrypted line starts with `decrypt` followed by ": ". */
  datatype Directives = Directives(encrypt: seq<byte>, decrypt: seq<byte>)

  const DefaultDirectives: Directives :=
    Directives(Ascii("### DIRECTIVE: ENCRYPT"), Ascii("### DIRECTIVE: DECRYPT"))

  /** The configuration of one run. `keystream` stands for AES-CFB under
      `key`, which the source obtains from the crypto packages. */
  datatype Encryptor = Encryptor(
    key: seq<byte>,
    operation: Operation,
    mode: Mode,
    policy: IvPolicy,
    directives: Directives,
    parallel: int,
    keystream: Cipher.Keystream)

  function ParseOperation(s: string): (op: Operation)
    ensures op.OtherOperation? <==> s != "encrypt" && s != "decrypt"
    ensures op == Encrypt <==> s == "encrypt"
    ensures op == Decrypt <==> s == "decrypt"
    ensures op.OtherOperation? ==> op.name == s
  {
    if s == "encrypt" then Encrypt else if s == "decrypt" then Decrypt else OtherOperation(s)
  }

  function ParseMode(s: string): (m: Mode)
    ensures m.OtherMode? <==> s != "line" && s != "file"
    ensures m == Line <==> s == "line"
    ensures m == File <==> s == "file"
    ensures m.OtherMode? ==> m.name == s
  {
    if s == "line" then Line else if s == "file" then File else OtherMode(s)
  }

  /** The string a policy prints as. */
  function PolicyName(p: IvPolicy): string
  {
    match p
    case Deterministic => "deterministic"
    case NonDeterministic => "nondeterministic"
    case OtherPolicy(name) => name
  }

  datatype Error =
    | CreatingCipher          // aes.NewCipher refused the key
    | GeneratingIv            // crypto/rand failed
    | CiphertextTooShort      // decryptBytes: fewer than 16 bytes
    | DecodingBase64          // decryptData: not base64
    | Scanning                // ErrProcessing: scanning error
    | Writing                 // ErrProcessing: writing error
    | InvalidOperation        // ErrProcessing: invalid operation
    | InvalidMode(name: string)
    | WritingIv               // encryptStream
    | WritingEncryptedData    // encryptStream
    | ReadingData             // encryptStream
    | ReadingIv               // decryptStream
    | ReadingEncryptedData    // decryptStream
    | WritingDecryptedData    // decryptStream
    | KeyShorterThanBlock     // stands for the panic of Key[:16] beyond the key's capacity
}
