/** Key text handling of the cipher package (internal/encrypt/key.go): a key
    travels as base16 text and must decode to exactly 32 bytes (AES-256). */
module CipherKey {
  import opened Bytes
  import opened Results
  import Hex

  const KeySize: nat := 32

  datatype KeyError =
    | InvalidHexKey              // "invalid hex key: ..."
    | InvalidKeyLength(got: nat) // "invalid key length: got %d bytes, want 32"

  /** `DecodeKey`: base16 first, then the length check. */
  function DecodeKey(keyStr: seq<byte>): (r: Result<seq<byte>, KeyError>)
    ensures r.Ok? ==> |r.value| == KeySize && Hex.Decode(keyStr) == Some(r.value)
    ensures r == Err(InvalidHexKey) <==> Hex.Decode(keyStr).None?
    ensures r.Err? && r.error.InvalidKeyLength? ==>
      Hex.Decode(keyStr).Some? && r.error.got == |Hex.Decode(keyStr).value| != KeySize
  {
    match Hex.Decode(keyStr)
    case None => Err(InvalidHexKey)
    case Some(key) => if |key| != KeySize then Err(InvalidKeyLength(|key|)) else Ok(key)
  }

  /** `EncodeKey`: lower-case base16, two digits per byte. */
  function EncodeKey(key: seq<byte>): (t: seq<byte>)
    ensures |t| == 2 * |key|
    ensures forall i | 0 <= i < |t| :: Hex.IsLowerDigit(t[i])
  {
    Hex.Encode(key)
  }

  /** Every 32-byte key survives encoding and decoding. */
  lemma DecodeEncodeKey(key: seq<byte>)
    requires |key| == KeySize
    ensures DecodeKey(EncodeKey(key)) == Ok(key)
  {
    Hex.DecodeEncode(key);
  }

  /** Any other length is refused after decoding, and the error reports it. */
  lemma DecodeEncodeKeyWrongLength(key: seq<byte>)
    requires |key| != KeySize
    ensures DecodeKey(EncodeKey(key)) == Err(InvalidKeyLength(|key|))
  {
    Hex.DecodeEncode(key);
  }
}
