/** Base16 text (section 8 of RFC 4648) as Go's `encoding/hex` writes and
    reads it: the encoder emits lower-case digits, the decoder accepts either
    case and rejects odd-length input. */
module Hex {
  import opened Bytes
  import opened Results

  /** The lower-case digit for a 4-bit value. */
  function Digit(v: byte): byte
    requires v < 16
  {
    if v < 10 then v + 48 else v + 87
  }

  /** The value of a digit of either case; None for any other byte. */
  function DigitValue(c: byte): (r: Option<byte>)
    ensures r.Some? ==> r.value < 16
  {
    if 48 <= c <= 57 then Some(c - 48)
    else if 97 <= c <= 102 then Some(c - 87)
    else if 65 <= c <= 70 then Some(c - 55)
    else None
  }

  predicate IsLowerDigit(c: byte)
  {
    48 <= c <= 57 || 97 <= c <= 102
  }

  /** `hex.EncodeToString`. */
  function Encode(s: seq<byte>): (t: seq<byte>)
    ensures |t| == 2 * |s|
    ensures forall i | 0 <= i < |t| :: IsLowerDigit(t[i])
  {
    if |s| == 0 then [] else [Digit(s[0] >> 4), Digit(s[0] & 15)] + Encode(s[1..])
  }

  /** `hex.DecodeString`: None is its invalid-byte or odd-length error. */
  function Decode(t: seq<byte>): (r: Option<seq<byte>>)
    ensures r.Some? ==> |t| == 2 * |r.value|
    decreases |t|
  {
    if |t| == 0 then Some([])
    else if |t| == 1 then None
    else
      var hi, lo := DigitValue(t[0]), DigitValue(t[1]);
      if hi.None? || lo.None? then None
      else
        match Decode(t[2..])
        case None => None
        case Some(rest) => Some([(hi.value << 4) | lo.value] + rest)
  }

  /** Decoding what was encoded gives back the original bytes. */
  lemma {:induction false} DecodeEncode(s: seq<byte>)
    ensures Decode(Encode(s)) == Some(s)
    decreases |s|
  {
    if |s| > 0 {
      var t := Encode(s);
      var hi, lo := s[0] >> 4, s[0] & 15;
      assert DigitValue(Digit(hi)) == Some(hi);
      assert DigitValue(Digit(lo)) == Some(lo);
      assert (hi << 4) | lo == s[0];
      assert t[2..] == Encode(s[1..]);
      DecodeEncode(s[1..]);
      assert [s[0]] + s[1..] == s;
    }
  }

  /** Decoding succeeds exactly on even-length text made of digits. */
  lemma {:induction false} DecodeDefined(t: seq<byte>)
    ensures Decode(t).Some? <==> |t| % 2 == 0 && forall i | 0 <= i < |t| :: DigitValue(t[i]).Some?
    decreases |t|
  {
    if |t| >= 2 {
      DecodeDefined(t[2..]);
      if Decode(t).Some? {
        forall i | 0 <= i < |t| ensures DigitValue(t[i]).Some? {
          if i >= 2 { assert t[i] == t[2..][i - 2]; }
        }
      }
      if |t| % 2 == 0 && forall i | 0 <= i < |t| :: DigitValue(t[i]).Some? {
        assert forall i | 0 <= i < |t[2..]| :: t[2..][i] == t[i + 2];
      }
    }
  }
}
