# go-encryptor: the selective encryption engine in Dafny

This project models the engine of go-encryptor (`gocry`), package
`internal/encrypt`, together with the key decoding, the configuration checks
and the `Run` decision logic around it. The engine encrypts or decrypts a
byte stream in one of two modes:

- **line mode** (`processLines`). Every line that ends with the encrypt
  directive is replaced by the decrypt directive, `": "`, and the base64
  text of `IV ‖ ciphertext`. Under the decrypt operation every line that
  starts with the decrypt directive and `": "` is decrypted back. All other
  lines pass through unchanged. A pool of workers fills one arena slot per
  line. The arena is written in input order only once every line has
  succeeded, and the run reports whether any line was transformed.
- **file mode** (`encryptStream`/`decryptStream`). The whole input is
  encrypted as one CFB session, read in chunks. The writer receives
  `base64(IV ‖ C)`. Decryption decodes that text, takes the first 16 bytes
  as the IV, and decrypts the rest.

The package holds two revisions that do not compile together.

- process.go and stream.go are the current engine: configurable
  directives, a `parallel` worker count, and `base64(IV ‖ C)` in file mode.
- encrypt.go keeps an older engine: fixed directives, a
  deterministic/nondeterministic IV policy, a line loop that writes as it
  scans, and a raw IV in front of a base64 body in file mode.

`Engine`, `LineEngine` and `StreamCodec` model the current engine. They use
the byte helpers that exist only in encrypt.go (`LineCodec`). The older loop
and streams are modelled too, in `Legacy`, and compared with the current
ones.

Modules, one per concern:

| module | file | models |
|---|---|---|
| `Bytes`, `Results`, `Io` | bytes.dfy, results.dfy, io.dfy | bytes and Go string helpers; Option/Result; readers as chunk sequences and writers as which write calls succeed |
| `Base64`, `Hex` | base64.dfy, hex.dfy | `encoding/base64` StdEncoding (section 4 of RFC 4648) and `encoding/hex` (section 8 of RFC 4648) |
| `Scan` | scan.dfy | `bufio.Scanner` with `ScanLines`, and `fmt.Fprintln` of lines |
| `Cipher` | cipher.dfy | AES-CFB as a keystream XORed with the data |
| `EncryptorTypes` | encryptor.dfy | `Operation`, `Mode`, the IV policy, `Directives`, `Encryptor`, errors |
| `LineCodec` | linecodec.dfy | `encryptBytes`, `decryptBytes`, `encryptData`, `decryptData` |
| `LineEngine` | lineengine.dfy | `processLines`: classification, the arena and its worker pool, ordered output |
| `StreamCodec` | streamcodec.dfy | `encryptStream`, `decryptStream` and their chunk loop |
| `Engine` | engine.dfy | `Process` and `processWholeFile` |
| `Legacy` | legacy.dfy | the older `processLines` and streams of encrypt.go |
| `CipherKey`, `HexKey` | cipherkey.dfy, hexkey.dfy | `DecodeKey`/`EncodeKey` of internal/encrypt/key.go; `Decode`/`Encode` of pkg/key/key.go |
| `CobraConfig`, `RootConfig` | cobraconfig.dfy, rootconfig.dfy | `Config.Validate` of cmd/cobra/config.go and of config.go |
| `Logic` | logic.dfy | `Run` of internal/logic/logic.go |

The things the code gets from outside become parameters:

- AES-CFB under a key is the `keystream` field of `Encryptor`. Byte `i` of
  the keystream is a function of key, IV and position.
- The random IV of line `i` is `rng(i)`, and the stream's IV is `rng(0)`.
  `None` stands for a failure of `crypto/rand`.
- A reader is the list of chunks its `Read` calls return, then end of
  input or an error.
- A writer is given by which of its numbered write calls succeed.
- The key file's contents and the opened input are results handed to `Run`.

## Model

| member | source | states |
|---|---|---|
| `EncryptorTypes.ParseOperation` | internal/encrypt/constants.go:6-11 | "encrypt" becomes `Encrypt` and "decrypt" becomes `Decrypt`, and no other string does. Any other string becomes an unknown operation that keeps the string unchanged. |
| `EncryptorTypes.ParseMode` | internal/encrypt/constants.go:19-24 | "line" becomes `Line` and "file" becomes `File`, and no other string does. Any other string becomes an unknown mode that keeps the string unchanged. |
| `Cipher.XorInvolution` | internal/encrypt/encrypt.go:152-173 | Encrypting and decrypting are the same XOR with the keystream of key and IV, so applying it twice restores the data. |
| `Cipher.XorAppend` | internal/encrypt/stream.go:24-45 | One CFB session spans consecutive chunks: XORing a concatenation equals XORing each part at its own position in the keystream. |
| `LineCodec.EncryptBytes` | internal/encrypt/encrypt.go:135-156 | A bad key fails with "creating cipher" first. A failed random draw fails with "generating IV" unless the policy is deterministic. On success the result is `16 + len(data)` bytes. Its first 16 bytes are the IV: `Key[:16]` under the deterministic policy, the draw otherwise. The rest XORs back to the data. |
| `LineCodec.DeterministicIgnoresDraw` | internal/encrypt/encrypt.go:144-145 | Under the deterministic policy the result depends on key and data only, whatever the random draw. |
| `LineCodec.DecryptBytes` | internal/encrypt/encrypt.go:159-176 | Fewer than 16 bytes fail with "ciphertext too short" before the key is looked at. A bad key fails with "creating cipher". Otherwise the result has `len - 16` bytes and is the body XORed with the keystream behind the leading IV. |
| `LineCodec.DecryptEncryptBytes` | internal/encrypt/encrypt.go:135-176 | `decryptBytes(encryptBytes(d)) == d` for every key and IV that encryption accepted. |
| `LineCodec.EncryptData` | internal/encrypt/encrypt.go:117-123 | Fails exactly when `encryptBytes` fails, with its error. On success the text is base64 of the frame, decodes back to it, and has the base64 length of `16 + len(data)` bytes. |
| `LineCodec.DecryptData` | internal/encrypt/encrypt.go:126-132 | Text that is not base64 fails with "decoding base64" before any decryption; otherwise the result is `decryptBytes` of the decoded frame. |
| `LineCodec.DecryptEncryptData` | internal/encrypt/encrypt.go:117-132 | Text from `encryptData` decrypts to the original data. |
| `Base64.DecodeEncode` | internal/encrypt/encrypt.go:122-127 | StdEncoding decoding of StdEncoding text gives back the bytes. |
| `Base64.DecodeRejectsForeign` | internal/encrypt/encrypt.go:127-130 | Text holding a byte outside the alphabet, other than padding and the CR/LF the decoder skips, is rejected. |
| `Hex.DecodeEncode` | internal/encrypt/key.go:11-26 | `hex.DecodeString(hex.EncodeToString(k)) == k`. |
| `Hex.DecodeDefined` | internal/encrypt/key.go:11-14 | Base16 decoding succeeds exactly on even-length text of hex digits of either case. |
| `CipherKey.DecodeKey` | internal/encrypt/key.go:10-22 | Text that is not base16 fails with "invalid hex key"; a decoded length other than 32 fails with "invalid key length" naming the length; a success is exactly 32 bytes, the decoding of the text. |
| `CipherKey.EncodeKey` | internal/encrypt/key.go:25-27 | The text is `2 * len(key)` lower-case hex digits. |
| `CipherKey.DecodeEncodeKey` | internal/encrypt/key.go:10-27 | `DecodeKey(EncodeKey(k)) == k` for every 32-byte key. |
| `CipherKey.DecodeEncodeKeyWrongLength` | internal/encrypt/key.go:17-19 | `DecodeKey(EncodeKey(k))` fails with the length error for every key that is not 32 bytes. |
| `HexKey.Decode` | pkg/key/key.go:11-20 | Surrounding white space is trimmed first. Invalid hex then fails with "invalid hex key". There is no length check: 2m digits give m bytes. |
| `HexKey.Encode` | pkg/key/key.go:23-25 | The text is `2 * len(key)` lower-case hex digits. |
| `HexKey.TrimSpaceAround` | pkg/key/key.go:12 | Trimming removes exactly the leading and trailing white space and keeps the core. |
| `HexKey.DecodeEncode` | pkg/key/key.go:11-25 | `Decode(Encode(k)) == k`, also with white space such as a trailing newline around the text. |
| `Scan.ScanAll` | internal/encrypt/process.go:24-31 | The scan loop ends without error exactly when the reader ends cleanly and no piece overflows the 64 KiB buffer. The tokens are then every LF-separated piece with one trailing CR dropped. |
| `Scan.ScanLines` | internal/encrypt/process.go:24-31 | Scanning succeeds exactly when the reader ends cleanly and no line overflows the 64 KiB buffer. The lines are then the LF-separated pieces, each without one trailing CR. |
| `Scan.ScanJoin` | internal/encrypt/process.go:24-27 | Lines written one per `Fprintln` scan back to the same lines, in number and order, when none holds a LF, ends in CR or overflows the buffer. |
| `LineEngine.TransformLine` | internal/encrypt/process.go:60-90 | Under Encrypt, a line ending in the encrypt marker becomes the decrypt marker, `": "` and `encryptData` of the whole line, marker included. Under Decrypt, a line starting with the decrypt marker and `": "` has exactly that prefix removed and the rest goes to `decryptData`. Any other line is kept, with flag false. A codec error is the line's error. |
| `LineEngine.LineRoundTrip` | internal/encrypt/process.go:61-83 | Feeding the encrypt branch's output of a line through the decrypt branch, with the same key and directives, gives the line back with flag true. |
| `LineEngine.KeepLinesVerbatim` | internal/encrypt/process.go:85-87 | A line neither case selects is copied verbatim with flag false; this includes a marker line under the other operation. |
| `LineEngine.LineDecryptsBack` | internal/encrypt/process.go:60-87 | Every line the encrypt operation handled comes back unchanged under the decrypt operation, with the same key and directives, and with the same flag. This covers encrypted lines and kept lines alike. The one exception: a kept line that already starts with the decrypt marker and `": "`. |
| `LineEngine.LineModeRoundTrip` | internal/encrypt/process.go:20-133 | Line mode end to end: decrypting the output of a successful line-mode encryption gives back the scanned input lines, each followed by LF, with the same processed flag. It needs every output line to scan back unchanged, and no kept line to start with the decrypt marker and `": "`. The result is the scanned lines, not the raw input: a missing final LF is added and a CR before LF is dropped. |
| `LineEngine.SealedLineShape` | internal/encrypt/process.go:61-69 | An encrypted line is `len(decrypt marker) + 2` bytes of prefix plus the base64 length of `16 + len(line)` bytes. It holds no LF when the decrypt marker holds none. |
| `LineEngine.OversizedSealedLine` | internal/encrypt/process.go:24-31 | If a marked input line grows to 64 KiB or more once encrypted, decrypting the encrypted output fails with the scanning error. This holds although that input line scanned. |
| `LineEngine.DefaultSealedOverflow` | cmd/cobra/flags.go:22-23 | With the default markers, a marked line of `n` bytes is 64 KiB or more once encrypted exactly when `n >= 49116`. Lines of 49116 to 65535 bytes therefore scan for encryption but cannot be decrypted. |
| `LineEngine.ProcessLines` | internal/encrypt/process.go:20-133 | The corrected line engine, with at least one worker. A scanning failure gives `(false, scanning error)` with nothing written. Output is written only once every scanned line has succeeded. The processed flag is true only on success. The full meaning is stated by `LineEngine.SuccessfulRun`, `LineEngine.FailuresWriteNothing`, `LineEngine.WriteFailure` and `LineEngine.LineModeRoundTrip`. |
| `LineEngine.TransformFrom` | internal/encrypt/process.go:110-113 | The arena in index order: it exists exactly when every line succeeds, and slot `i` is line `i`'s result; otherwise the error is the error of a failing line. |
| `LineEngine.PermutationCovers` | internal/encrypt/process.go:95-102 | The work queue hands out every index below `len(lines)` and nothing else. |
| `LineEngine.FillArena` | internal/encrypt/process.go:34-93 | Workers claim indices in any order, and the worker for `idx` writes only `results[idx]` and `processedStatus[idx]`. The run fails exactly when some line fails, and then with that line's error. Otherwise every slot holds its own line's result and flag, whatever the claim order. |
| `LineEngine.FillArenaAgrees` | internal/encrypt/process.go:89-90 | The filled arena equals the line transformation mapped over the input, in index order. |
| `LineEngine.WriteLines` | internal/encrypt/process.go:116-120 | One `Fprintln` per slot in index order, stopping at the first refused write. It succeeds exactly when no write among them is refused, and the output is the slots before the first refusal, each followed by LF. |
| `LineEngine.FailuresWriteNothing` | internal/encrypt/process.go:29-31 | A scanning failure, or any failing line, returns `(false, err)` before anything is written. A scanning failure reports the scanning error. |
| `LineEngine.SuccessfulRun` | internal/encrypt/process.go:115-133 | On success every line succeeded. The output is each line's result followed by LF, in input order, so the line count and order match the input. The flag is true exactly when some line was selected by the directives. |
| `LineEngine.WriteFailure` | internal/encrypt/process.go:116-119 | A refused write returns `(false, writing error)` after the lines before the first refused write have been written. |
| `LineEngine.ProcessLinesAsWritten` | internal/encrypt/process.go:35-45 | The line engine as written, including `parallel <= 0`. A scanning failure is reported as in the corrected engine. With no workers the flag is never true and no line error can be reported, only the scanning or writing error. With at least one worker it is the corrected engine. |
| `LineEngine.NoWorkersBlankOutput` | internal/encrypt/process.go:35-45 | With `parallel <= 0` no worker starts. Every scanned line then comes out as an empty line, the flag is false and no error is reported. |
| `LineEngine.NoWorkersDropsLine` | internal/encrypt/process.go:104-113 | With `parallel = 0` the one-line input `a` is written as an empty line, while the intended engine writes `a`. |
| `StreamCodec.XorChunksPrefix` | internal/encrypt/stream.go:36-52 | What the chunk loop has written is always a prefix of the unread input, XORed with the same stretch of keystream. |
| `StreamCodec.XorChunksComplete` | internal/encrypt/stream.go:37-52 | Unless a write failed, the loop wrote all of the input XORed with the keystream. It stops cleanly exactly when the reader ends with `io.EOF`. |
| `StreamCodec.XorLoop` | internal/encrypt/stream.go:36-52 | The loop as a method. Its invariants: the keystream offset equals the number of bytes read so far, and the bytes written equal those bytes XORed with the keystream from position 0. So the written bytes are always such a prefix, and unless a write fails they cover the whole input. The method computes exactly what `XorChunks` describes. |
| `StreamCodec.EncryptStream` | internal/encrypt/stream.go:12-54 | The errors come in this order: "creating cipher", "generating IV", "writing IV". On success the encoder received the IV and then the whole input XORed with its keystream, so `len(C) == len(plaintext)`. What the encoder got so far is always the IV followed by a ciphertext prefix. "reading data" is reported only when the reader failed. "writing encrypted data" is reported only when some body write was refused. When the key is valid, an IV was drawn and every write is accepted, a reader failure gives "reading data" and a clean end gives success. |
| `StreamCodec.EncryptStreamSucceeds` | internal/encrypt/stream.go:36-53 | With a valid key, an IV, a clean reader and a writer that takes every write, encryption succeeds. |
| `StreamCodec.EncryptStreamIgnoresChunking` | internal/encrypt/stream.go:24-52 | The result does not depend on how the reads split the input. |
| `StreamCodec.StreamMatchesLineFrame` | internal/encrypt/stream.go:27-45 | The stream's frame is the frame `encryptBytes` builds for the same data and IV, so the writer's text is what `encryptData` returns. |
| `StreamCodec.DecodeReader` | internal/encrypt/stream.go:58 | The model decodes the whole text at once. It ends cleanly exactly when the text is complete, well-formed base64, and then delivers the decoded bytes. Go's decoder decodes each refill separately; the difference is admitted under "Left out". |
| `StreamCodec.DecryptStream` | internal/encrypt/stream.go:56-96 | Fewer than 16 decoded bytes fail with "reading IV" before any output. Then a bad key fails with "creating cipher". On success the input was valid base64 of a frame of at least 16 bytes, and the output is the frame's body XORed with the keystream behind its first 16 bytes, i.e. `decodedLength - 16` bytes. Every failure is one of the four stream errors. "reading encrypted data" is reported only when the base64 decoder ended in an error. "writing decrypted data" is reported only when a write was refused. When the IV was read, the key is valid and every write is accepted, a decoder error gives "reading encrypted data" and a clean end gives success. |
| `StreamCodec.StreamRoundTrip` | internal/encrypt/stream.go:12-96 | Decrypting the text `encryptStream` wrote, however it is split into reads, gives back exactly the input, with the same key. |
| `Engine.ProcessWholeFile` | internal/encrypt/process.go:139-148 | Encrypt and Decrypt report processed even when the stream fails. Any other operation gives `(false, invalid operation)`. On success, encryption's output decodes to `IV ‖ C` and decryption's output is the decrypted body. |
| `Engine.Process` | internal/encrypt/encrypt.go:55-64 | Line mode is the line engine, file mode is `processWholeFile` (the stream's IV is the first draw), and any other mode gives `(false, invalid mode)` naming that mode. |
| `Engine.ProcessAsWritten` | internal/encrypt/encrypt.go:55-64 | `Process` as written. File mode is the corrected dispatch, and line mode is the line engine as written. Any other mode gives `(false, error)` with nothing written, and the error names the IV policy, not the mode. |
| `Engine.InvalidModeNamesPolicy` | internal/encrypt/encrypt.go:62 | With mode "stream" and the nondeterministic policy, the code as written reports "invalid mode: nondeterministic" instead of "invalid mode: stream". |
| `Engine.ProcessAgreesOnValidModes` | internal/encrypt/encrypt.go:56-62 | The code as written and the corrected dispatch agree in file mode, and in line mode with at least one worker. In line mode with `parallel <= 0`, the code as written writes one blank line per scanned line, reports nothing processed and returns no error. On any other mode they differ only in the name inside the error. |
| `Engine.FileModeRoundTrip` | internal/encrypt/encrypt.go:59-60 | File mode end to end: decrypting what a successful file-mode encryption wrote, with the same key, gives `(true, input, nil)`. |
| `Legacy.ProcessLinesLegacy` | internal/encrypt/encrypt.go:68-102 | The older loop, with its built-in markers. It reports no error exactly when the scan ends cleanly and every scanned line transforms. A true flag means some scanned line was selected by the default markers. |
| `Legacy.LegacyEmitsBeforeFailure` | internal/encrypt/encrypt.go:72-95 | In the older loop, a failing line `k` returns that line's error after lines `0..k-1` have been written. The flag says whether one of them was transformed. The current engine writes nothing in that case. |
| `Legacy.LegacyScanFailure` | internal/encrypt/encrypt.go:98-100 | A scanning error in the older loop comes after every scanned line has been written. It returns the flag as it stood, where the current engine returns `(false, nothing written)`. |
| `Legacy.LegacyAgreesOnSuccess` | internal/encrypt/encrypt.go:68-102 | With the default markers and writes that succeed, the older loop and the current engine succeed on the same inputs, and then write the same text with the same flag. |
| `Legacy.EmitAll` | internal/encrypt/encrypt.go:83-94 | When every write goes through, the older loop's writes add up to each line followed by LF. |
| `Legacy.EncryptStreamLegacy` | internal/encrypt/encrypt.go:179-224 | The cipher is created first. The IV is `Key[:16]` under the deterministic policy and a random draw otherwise. It is written raw only under the nondeterministic policy. On success the body is the whole input XORed with that IV's keystream. A reader error always surfaces as an error. |
| `Legacy.LegacyStreamFraming` | internal/encrypt/encrypt.go:199-204 | Under the nondeterministic policy both revisions hand on the same IV and ciphertext and fail alike. Only the framing differs: `IV ‖ base64(C)` against `base64(IV ‖ C)`. |
| `Legacy.DecryptBody` | internal/encrypt/encrypt.go:243-268 | Once the IV is known, a bad key fails with "creating cipher". Otherwise a success means the rest was complete base64, and the output is its decoding XORed with the IV's keystream. |
| `Legacy.DecryptStreamLegacy` | internal/encrypt/encrypt.go:227-269 | Under the deterministic policy the IV is `Key[:16]`, sliced before the cipher is created, so a key shorter than 16 bytes stops the run. Otherwise the first 16 raw input bytes are the IV, and fewer fail with "reading IV". |
| `Legacy.LegacyStreamRoundTrip` | internal/encrypt/encrypt.go:178-269 | Under either named policy, decrypting what a successful older encryption wrote, with the same key and policy, gives back the input. |
| `CobraConfig.Validate` | cmd/cobra/config.go:23-44 | The configuration passes exactly when the mode is file or line, the operation is encrypt or decrypt, the key is non-empty, and the struct validator agrees. A bad mode is reported as such whatever else is wrong. An operation error is reported only once the mode passed, and a missing key only once both passed. |
| `CobraConfig.ValidateReportsFirst` | cmd/cobra/config.go:23-36 | Only the first failing check is reported: the verdict is the head of the list of all failing checks, in order. |
| `RootConfig.Validate` | config.go:34-52 | The verdict is nil exactly when no rule is broken. A single reported error is a broken rule. A joined report holds at least two errors, each a broken rule. |
| `RootConfig.ValidateCollectsAll` | config.go:34-52 | Every violated rule is reported and nothing else: mode in {file, line}, operation in {encrypt, decrypt}, not both key and keyfile, at least one of them. Zero violations give nil, one gives `ErrUsage: e`, and two or more give `ErrUsage` with all of them joined, none twice. |
| `RootConfig.KeySourcesExclusive` | config.go:36-42 | Exactly one of key and keyfile set adds no error. Both set or neither set adds exactly one of the two key errors. |
| `Logic.LoadKey` | internal/logic/logic.go:23-38 | A non-empty key string is decoded. Otherwise a key file is read ("reading key file" if that fails) and its contents are decoded. With neither, the key is empty. A decoding failure is "reading key". |
| `Logic.Run` | internal/logic/logic.go:17-77 | A run succeeds only with a 32-byte key and an opened input. A wrong-length key fails with "invalid key length" and writes nothing. No summary accompanies an error. A successful file-mode run prints the file summary. |
| `Logic.KeyStringWins` | internal/logic/logic.go:24-26 | With a non-empty key string, the key file's name and contents do not matter. |
| `Logic.KeyCheckedBeforeInput` | internal/logic/logic.go:40-49 | A key that is not 32 bytes stops the run before the input is opened, so the input does not matter. This includes the empty key when no source is set, which reports length 0. |
| `Logic.SummaryRule` | internal/logic/logic.go:61-74 | The engine's output goes to stdout. A processing error is returned wrapped with no summary. On success, file mode prints a summary, and line mode prints one exactly when processed is true. |
| `Logic.KeyFileMatchesKeyString` | internal/logic/logic.go:27-34 | A key file holding the hex key with surrounding white space runs exactly as the key typed as text. |

## Left out

- AES and CFB internals. The keystream is a function of key, IV and position only. CFB feeds ciphertext back, but the engine never relies on that, so encrypting and decrypting stay one XOR. Key sizes other than 16, 24 and 32 bytes fail with "creating cipher".
- `crypto/rand`. IVs are the parameter `rng`; key generation (`GenerateKey`, `GenerateKeyString`, `generate`, `GenerateHex`) is not modelled.
- Goroutines, channels and the wait group. The pool is modelled sequentially: `FillArena` runs over any claim order, and `ProcessLines` reports the first failing line in index order. When several lines fail, the code returns whichever error reaches the unbuffered `errChan` first. Extra failing workers and the distributor can then block forever. That deadlock is a concurrency defect and is not modelled.
- `Scan.ScanAll`: `bufio.Scanner` is modelled by its result. It yields the LF-separated pieces with one trailing CR dropped, stops at the first piece that does not fit the 64 KiB buffer, and ends with the reader's error. How the buffer grows, and the exact point at which a final piece of 65536 bytes without a newline fails, are not modelled.
- `HexKey.Decode`: `strings.TrimSpace` is modelled for ASCII white space only, not Unicode spaces.
- `StreamCodec.DecodeReader`: the streaming base64 decoder is modelled as delivering all decoded bytes of the well-formed quanta, then end of input or an error. Exactly how many bytes it hands out before reporting an error in the middle of the text is not modelled. Only the successful output is stated. Go's decoder decodes each refill of its buffer separately, so padding that ends one underlying read does not reject the quanta that follow. For example, a text split into reads as `[t[..20], t[20..24], "QUJD"]` is accepted, where `t` is the 24-character base64 of a 16-byte IV. The model decodes the whole text at once and rejects it. `DecryptStream`'s success clause, which requires the whole text to decode, is therefore stated only for text without padding inside it.
- The "IV too short" branch of `decryptStream` cannot be reached, because `io.ReadFull` fails whenever it reads fewer bytes. It is not modelled.
- The deferred `Close` of the base64 encoder flushes its last quantum, and its error is dropped. A refused final flush is not reported, and the run still succeeds with the text missing its last quantum. The model assumes the flush succeeds. The model's writer refuses or accepts the encoder's writes one per `Write` call. The encoder's buffering of up to two bytes, and the real numbering of its calls to the underlying writer, are not modelled.
- `Engine.ProcessWholeFile`: after a failed file-mode encryption the model's output is empty. The base64 text the writer holds at that point is not modelled; the model keeps only the bytes handed to the encoder.
- `Logic.Run` decodes the key with `key.FromHex` from an external module. That module is not part of this model, and `HexKey.Decode` of pkg/key/key.go stands in for it. The encryptor `Run` builds draws random IVs (nondeterministic policy).
- `RootConfig.ValidateCollectsAll`: the struct-tag errors come from iterating a Go map, so their order is unspecified. The model lists them in field order, and the lemma states only which errors are reported and how many.
- `CobraConfig.Validate`: the go-playground struct validator is a parameter. `internal/config`, `registerExclusive` and `pkg/validator` are not modelled.
- Command-line, viper and cobra plumbing; cmd/cobra/logic.go and cmd/gocry/logic.go (file I/O, stdin detection, SHA-256 key derivation); and the summary printer. All are outside the engine.
- `StreamCodec.DecryptStream`: the decoded body is written in one call. `decryptStream` writes once per decoder `Read`: the bytes left over after the IV, then at most 768 bytes per refill of the decoder's 1024-character buffer. Those read boundaries and the resulting numbering of write calls are not modelled. So for a writer that refuses some calls but not others, the model's verdict can differ from the program's. For example, with a 1000-byte body and only call 0 accepted, the model succeeds and the program reports "writing decrypted data".
- `LineEngine.LineModeRoundTrip`: line mode is not a byte-exact round trip. The decrypting run returns the scanned lines, each followed by LF, so a missing final LF is added and CRLF becomes LF. A kept line that starts with the decrypt marker and `": "` is taken for an encrypted line on the way back. An encrypted line of 64 KiB or more cannot be scanned again (`LineEngine.OversizedSealedLine`); with the default markers this happens to marked lines of 49116 bytes or more (`LineEngine.DefaultSealedOverflow`).
- `Logic.Run`: line mode goes through the corrected engine, `LineEngine.ProcessLines`, which does not depend on `parallel`. With `parallel <= 0` the program writes blank lines, reports nothing processed and prints no summary; the model writes the transformed lines and may print the line summary. The first Findings row models that behaviour as written (`LineEngine.ProcessLinesAsWritten`, used by `Engine.ProcessAsWritten`).
- `Legacy.DecryptStreamLegacy`: under the deterministic policy, `Key[:16]` of a key shorter than 16 bytes is modelled as the error `KeyShorterThanBlock`. In Go the slice is bounded by the key's capacity, not its length. When the capacity is under 16 the program panics and returns no error. When it is at least 16, for example an 8-byte key decoded from 16 hex digits, the slice succeeds and `aes.NewCipher` then fails with "creating cipher". Slice capacity is not modelled.
- `Legacy.EncryptStreamLegacy`: a policy value other than the two named ones draws a random IV but writes none, so its output cannot be decrypted. The round trip is stated only for the two named policies.

## Findings

| source | as written | input that shows it | evidently intended | confidence | as-written member | corrected member |
|---|---|---|---|---|---|---|
| internal/encrypt/process.go:35-45 | `for range numWorkers` starts no worker when `parallel <= 0`. The wait group is then already done and `errChan` is closed at once, so the receive yields nil and the untouched arena is written out. | `parallel = 0`, input `"a\n"`, line mode: the output is `"\n"` and the run reports success | at least one worker, so every line is processed and written (`parallel` is a positive degree of parallelism) | high; not executed | `LineEngine.ProcessLinesAsWritten` (with `LineEngine.NoWorkersDropsLine`, `LineEngine.NoWorkersBlankOutput`) | `LineEngine.ProcessLines` (with `LineEngine.FillArena`, `LineEngine.FillArenaAgrees`, `LineEngine.SuccessfulRun`) |
| internal/encrypt/encrypt.go:62 | the invalid-mode error formats `e.Type`, the IV policy | mode `"stream"`, policy nondeterministic: the error reads "invalid mode: nondeterministic" | the error names the rejected mode, "invalid mode: stream" | high; not executed | `Engine.ProcessAsWritten` (with `Engine.InvalidModeNamesPolicy`) | `Engine.Process` (with `Engine.ProcessAgreesOnValidModes`) |
