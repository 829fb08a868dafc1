/** Encryption of one piece of data as `IV ‖ ciphertext`, and its base64
    text form (encryptBytes, decryptBytes, encryptData, decryptData in
    internal/encrypt/encrypt.go). */
module LineCodec {
  import opened Bytes
  import opened Results
  import opened Cipher
  import opened EncryptorTypes
  import Base64

  /** The IV `encryptBytes` puts in front: the key's first block under the
      deterministic policy, otherwise the random draw (None if it failed). */
  function ChooseIv(e: Encryptor, draw: Option<Iv>): Option<Iv>
    requires |e.key| >= BlockSize
  {
    if e.policy.Deterministic? then Some(e.key[..BlockSize]) else draw
  }

  /** `encryptBytes`: the cipher is created first, then the IV is chosen,
      then the data is XORed with the keystream behind the IV. */
  function EncryptBytes(e: Encryptor, data: seq<byte>, draw: Option<Iv>): (r: Result<seq<byte>, Error>)
    ensures !ValidKeyLength(|e.key|) ==> r == Err(CreatingCipher)
    ensures ValidKeyLength(|e.key|) && !e.policy.Deterministic? && draw.None? ==> r == Err(GeneratingIv)
    ensures r.Ok? <==> ValidKeyLength(|e.key|) && (e.policy.Deterministic? || draw.Some?)
    ensures r.Ok? ==> |r.value| == BlockSize + |data|
    ensures r.Ok? ==> r.value[..BlockSize] == (if e.policy.Deterministic? then e.key[..BlockSize] else draw.value)
    ensures r.Ok? ==> Xor(e.keystream, e.key, r.value[..BlockSize], 0, r.value[BlockSize..]) == data
  {
    if !ValidKeyLength(|e.key|) then Err(CreatingCipher)
    else match ChooseIv(e, draw)
      case None => Err(GeneratingIv)
      case Some(iv) =>
        var body := Xor(e.keystream, e.key, iv, 0, data);
        XorInvolution(e.keystream, e.key, iv, 0, data);
        assert (iv + body)[..BlockSize] == iv && (iv + body)[BlockSize..] == body;
        Ok(iv + body)
  }

  /** `decryptBytes`: the length is checked before the cipher is created;
      the first block is the IV, the rest is XORed with its keystream. */
  function DecryptBytes(e: Encryptor, ciphertext: seq<byte>): (r: Result<seq<byte>, Error>)
    ensures |ciphertext| < BlockSize ==> r == Err(CiphertextTooShort)
    ensures |ciphertext| >= BlockSize && !ValidKeyLength(|e.key|) ==> r == Err(CreatingCipher)
    ensures r.Ok? <==> |ciphertext| >= BlockSize && ValidKeyLength(|e.key|)
    ensures r.Ok? ==> |r.value| == |ciphertext| - BlockSize
    ensures r.Ok? ==> Xor(e.keystream, e.key, ciphertext[..BlockSize], 0, r.value) == ciphertext[BlockSize..]
  {
    if |ciphertext| < BlockSize then Err(CiphertextTooShort)
    else if !ValidKeyLength(|e.key|) then Err(CreatingCipher)
    else
      var iv, body := ciphertext[..BlockSize], ciphertext[BlockSize..];
      XorInvolution(e.keystream, e.key, iv, 0, body);
      Ok(Xor(e.keystream, e.key, iv, 0, body))
  }

  /** `decryptBytes(encryptBytes(d)) == d` for every IV the encryption used. */
  lemma DecryptEncryptBytes(e: Encryptor, data: seq<byte>, draw: Option<Iv>)
    requires EncryptBytes(e, data, draw).Ok?
    ensures DecryptBytes(e, EncryptBytes(e, data, draw).value) == Ok(data)
  {
    var frame := EncryptBytes(e, data, draw).value;
    XorInvolution(e.keystream, e.key, frame[..BlockSize], 0, frame[BlockSize..]);
  }

  /** Under the deterministic policy the random draw is not consulted, so
      equal data under equal keys gives equal frames. */
  lemma DeterministicIgnoresDraw(e: Encryptor, data: seq<byte>, draw1: Option<Iv>, draw2: Option<Iv>)
    requires e.policy.Deterministic?
    ensures EncryptBytes(e, data, draw1) == EncryptBytes(e, data, draw2)
  {
  }

  /** `encryptData`: the frame as base64 text. */
  function EncryptData(e: Encryptor, data: seq<byte>, draw: Option<Iv>): (r: Result<seq<byte>, Error>)
    ensures EncryptBytes(e, data, draw).Err? ==> r == Err(EncryptBytes(e, data, draw).error)
    ensures r.Ok? <==> EncryptBytes(e, data, draw).Ok?
    ensures r.Ok? ==> Base64.Decode(r.value) == Some(EncryptBytes(e, data, draw).value)
    ensures r.Ok? ==> |r.value| == (BlockSize + |data| + 2) / 3 * 4
    ensures r.Ok? ==> forall i | 0 <= i < |r.value| :: Base64.InAlphabet(r.value[i]) || r.value[i] == Base64.Pad
  {
    match EncryptBytes(e, data, draw)
    case Err(err) => Err(err)
    case Ok(frame) =>
      Base64.DecodeEncode(frame);
      Ok(Base64.Encode(frame))
  }

  /** `decryptData`: text that is not base64 fails with "decoding base64"
      before any decryption is attempted. */
  function DecryptData(e: Encryptor, text: seq<byte>): (r: Result<seq<byte>, Error>)
    ensures Base64.Decode(text).None? ==> r == Err(DecodingBase64)
    ensures Base64.Decode(text).Some? ==> r == DecryptBytes(e, Base64.Decode(text).value)
  {
    match Base64.Decode(text)
    case None => Err(DecodingBase64)
    case Some(frame) => DecryptBytes(e, frame)
  }

  /** Text produced by `encryptData` decrypts to the original data. */
  lemma DecryptEncryptData(e: Encryptor, data: seq<byte>, draw: Option<Iv>)
    requires EncryptData(e, data, draw).Ok?
    ensures DecryptData(e, EncryptData(e, data, draw).value) == Ok(data)
  {
    DecryptEncryptBytes(e, data, draw);
  }
}
