/** The standard base64 alphabet with `=` padding (section 4 of RFC 4648), as
    Go's `base64.StdEncoding` encodes and decodes it: the decoder skips CR and
    LF anywhere in its input, requires padding, and does not insist that the
    unused low bits of a padded final quantum are zero. */
module Base64 {
  import opened Bytes
  import opened Results

  const Pad: byte := 61 // '='

  /** The alphabet character for a 6-bit value. */
  function EncodeSextet(v: byte): (c: byte)
    requires v < 64
  {
    if v < 26 then v + 65        // 'A'..'Z'
    else if v < 52 then v + 71   // 'a'..'z'
    else if v < 62 then v - 4    // '0'..'9'
    else if v == 62 then 43      // '+'
    else 47                      // '/'
  }

  /** The 6-bit value of an alphabet character; None for any other byte. */
  function DecodeSextet(c: byte): (r: Option<byte>)
    ensures r.Some? ==> r.value < 64
  {
    if 65 <= c <= 90 then Some(c - 65)
    else if 97 <= c <= 122 then Some(c - 71)
    else if 48 <= c <= 57 then Some(c + 4)
    else if c == 43 then Some(62)
    else if c == 47 then Some(63)
    else None
  }

  predicate InAlphabet(c: byte)
  {
    DecodeSextet(c).Some?
  }

  lemma SextetRoundTrip(v: byte)
    requires v < 64
    ensures DecodeSextet(EncodeSextet(v)) == Some(v)
    ensures EncodeSextet(v) != Pad && EncodeSextet(v) != LF && EncodeSextet(v) != CR
  {
  }

  /** The four 6-bit values that carry three bytes, most significant first. */
  function GroupSextets(b0: byte, b1: byte, b2: byte): (v: seq<byte>)
    ensures |v| == 4 && v[0] < 64 && v[1] < 64 && v[2] < 64 && v[3] < 64
  {
    [b0 >> 2, ((b0 & 3) << 4) | (b1 >> 4), ((b1 & 15) << 2) | (b2 >> 6), b2 & 63]
  }

  /** Three bytes as four characters; with `count` < 3 only the first
      `count` bytes are real and the quantum is padded. */
  function EncodeQuantum(b0: byte, b1: byte, b2: byte, count: nat): (q: seq<byte>)
    requires 1 <= count <= 3
    ensures |q| == 4
    ensures forall i | 0 <= i < 4 :: InAlphabet(q[i]) || q[i] == Pad
  {
    var v := GroupSextets(b0, b1, b2);
    SextetRoundTrip(v[0]);
    SextetRoundTrip(v[1]);
    SextetRoundTrip(v[2]);
    SextetRoundTrip(v[3]);
    [ EncodeSextet(v[0]), EncodeSextet(v[1]),
      if count >= 2 then EncodeSextet(v[2]) else Pad,
      if count == 3 then EncodeSextet(v[3]) else Pad ]
  }

  /** `base64.StdEncoding.EncodeToString`. */
  function Encode(s: seq<byte>): (t: seq<byte>)
    ensures |t| == (|s| + 2) / 3 * 4
    ensures forall i | 0 <= i < |t| :: InAlphabet(t[i]) || t[i] == Pad
    decreases |s|
  {
    if |s| == 0 then []
    else if |s| == 1 then EncodeQuantum(s[0], 0, 0, 1)
    else if |s| == 2 then EncodeQuantum(s[0], s[1], 0, 2)
    else EncodeQuantum(s[0], s[1], s[2], 3) + Encode(s[3..])
  }

  /** The decoder's view of its input: every CR and LF removed. */
  function StripNewlines(t: seq<byte>): (u: seq<byte>)
    ensures forall i | 0 <= i < |u| :: u[i] != LF && u[i] != CR
    ensures |u| <= |t|
  {
    if |t| == 0 then []
    else (if t[0] == LF || t[0] == CR then [] else [t[0]]) + StripNewlines(t[1..])
  }

  /** What decoding produced: the bytes of the well-formed quanta before the
      first malformed one, and whether the whole input was well formed. */
  datatype Decoded = Decoded(data: seq<byte>, complete: bool)

  /** Decodes four-character quanta from the front. A quantum with padding
      must be the last one; an incomplete quantum is malformed. */
  function DecodeQuanta(s: seq<byte>): (d: Decoded)
    decreases |s|
  {
    if |s| == 0 then Decoded([], true)
    else if |s| < 4 then Decoded([], false)
    else
      var a, b, c, e := DecodeSextet(s[0]), DecodeSextet(s[1]), DecodeSextet(s[2]), DecodeSextet(s[3]);
      if a.None? || b.None? then Decoded([], false)
      else if s[2] == Pad then
        if s[3] == Pad && |s| == 4 then Decoded(QuantumBytes(a.value, b.value, 0, 0)[..1], true)
        else Decoded([], false)
      else if c.None? then Decoded([], false)
      else if s[3] == Pad then
        if |s| == 4 then Decoded(QuantumBytes(a.value, b.value, c.value, 0)[..2], true)
        else Decoded([], false)
      else if e.None? then Decoded([], false)
      else
        var rest := DecodeQuanta(s[4..]);
        Decoded(QuantumBytes(a.value, b.value, c.value, e.value) + rest.data, rest.complete)
  }

  /** The three bytes four sextets carry. */
  function QuantumBytes(v0: byte, v1: byte, v2: byte, v3: byte): seq<byte>
  {
    [(v0 << 2) | (v1 >> 4), (v1 << 4) | (v2 >> 2), (v2 << 6) | v3]
  }

  /** `base64.StdEncoding.DecodeString`: None is its "illegal base64 data" error. */
  function Decode(t: seq<byte>): Option<seq<byte>>
  {
    var d := DecodeQuanta(StripNewlines(t));
    if d.complete then Some(d.data) else None
  }

  lemma {:induction false} StripNewlinesNoop(t: seq<byte>)
    requires forall i | 0 <= i < |t| :: t[i] != LF && t[i] != CR
    ensures StripNewlines(t) == t
    decreases |t|
  {
    if |t| > 0 {
      StripNewlinesNoop(t[1..]);
      assert [t[0]] + t[1..] == t;
    }
  }

  lemma GroupBits(b0: byte, b1: byte, b2: byte)
    ensures var v := GroupSextets(b0, b1, b2); QuantumBytes(v[0], v[1], v[2], v[3]) == [b0, b1, b2]
  {
  }

  lemma DecodeQuantaFull(c0: byte, c1: byte, c2: byte, c3: byte, rest: seq<byte>)
    requires DecodeSextet(c0).Some? && DecodeSextet(c1).Some?
    requires DecodeSextet(c2).Some? && DecodeSextet(c3).Some?
    requires c2 != Pad && c3 != Pad
    ensures DecodeQuanta([c0, c1, c2, c3] + rest)
         == Decoded(QuantumBytes(DecodeSextet(c0).value, DecodeSextet(c1).value, DecodeSextet(c2).value, DecodeSextet(c3).value)
                    + DecodeQuanta(rest).data, DecodeQuanta(rest).complete)
  {
    var s := [c0, c1, c2, c3] + rest;
    assert s[4..] == rest;
  }

  lemma DecodeQuantaPadded(c0: byte, c1: byte, c2: byte)
    requires DecodeSextet(c0).Some? && DecodeSextet(c1).Some?
    ensures DecodeQuanta([c0, c1, Pad, Pad])
         == Decoded(QuantumBytes(DecodeSextet(c0).value, DecodeSextet(c1).value, 0, 0)[..1], true)
    ensures DecodeSextet(c2).Some? && c2 != Pad ==>
      DecodeQuanta([c0, c1, c2, Pad])
      == Decoded(QuantumBytes(DecodeSextet(c0).value, DecodeSextet(c1).value, DecodeSextet(c2).value, 0)[..2], true)
  {
  }

  lemma DecodeQuantaGroup(b0: byte, b1: byte, b2: byte, rest: seq<byte>)
    ensures DecodeQuanta(EncodeQuantum(b0, b1, b2, 3) + rest)
         == Decoded([b0, b1, b2] + DecodeQuanta(rest).data, DecodeQuanta(rest).complete)
  {
    var v := GroupSextets(b0, b1, b2);
    SextetRoundTrip(v[0]);
    SextetRoundTrip(v[1]);
    SextetRoundTrip(v[2]);
    SextetRoundTrip(v[3]);
    GroupBits(b0, b1, b2);
    DecodeQuantaFull(EncodeSextet(v[0]), EncodeSextet(v[1]), EncodeSextet(v[2]), EncodeSextet(v[3]), rest);
  }

  lemma DecodeQuantaOne(b0: byte)
    ensures DecodeQuanta(EncodeQuantum(b0, 0, 0, 1)) == Decoded([b0], true)
  {
    var v := GroupSextets(b0, 0, 0);
    SextetRoundTrip(v[0]);
    SextetRoundTrip(v[1]);
    GroupBits(b0, 0, 0);
    DecodeQuantaPadded(EncodeSextet(v[0]), EncodeSextet(v[1]), 0);
  }

  lemma DecodeQuantaTwo(b0: byte, b1: byte)
    ensures DecodeQuanta(EncodeQuantum(b0, b1, 0, 2)) == Decoded([b0, b1], true)
  {
    var v := GroupSextets(b0, b1, 0);
    SextetRoundTrip(v[0]);
    SextetRoundTrip(v[1]);
    SextetRoundTrip(v[2]);
    GroupBits(b0, b1, 0);
    DecodeQuantaPadded(EncodeSextet(v[0]), EncodeSextet(v[1]), EncodeSextet(v[2]));
  }

  /** The first two or three bytes, then the rest. */
  lemma SplitFront(s: seq<byte>, n: nat)
    requires n == 2 || n == 3
    requires |s| >= n
    ensures n == 2 ==> s == [s[0], s[1]] + s[2..]
    ensures n == 3 ==> s == [s[0], s[1], s[2]] + s[3..]
  {
  }

  lemma {:induction false} DecodeQuantaEncode(s: seq<byte>)
    ensures DecodeQuanta(Encode(s)) == Decoded(s, true)
    decreases |s|
  {
    if |s| == 1 {
      assert Encode(s) == EncodeQuantum(s[0], 0, 0, 1);
      DecodeQuantaOne(s[0]);
    } else if |s| == 2 {
      assert Encode(s) == EncodeQuantum(s[0], s[1], 0, 2);
      DecodeQuantaTwo(s[0], s[1]);
      SplitFront(s, 2);
    } else if |s| >= 3 {
      var rest := Encode(s[3..]);
      assert Encode(s) == EncodeQuantum(s[0], s[1], s[2], 3) + rest;
      DecodeQuantaGroup(s[0], s[1], s[2], rest);
      DecodeQuantaEncode(s[3..]);
      SplitFront(s, 3);
    }
  }

  /** Decoding what was encoded gives back the original bytes. */
  lemma DecodeEncode(s: seq<byte>)
    ensures Decode(Encode(s)) == Some(s)
  {
    var t := Encode(s);
    forall i | 0 <= i < |t|
      ensures t[i] != LF && t[i] != CR
    {
      if InAlphabet(t[i]) {
        var v := DecodeSextet(t[i]).value;
        assert t[i] != LF && t[i] != CR;
      }
    }
    StripNewlinesNoop(t);
    DecodeQuantaEncode(s);
  }

  /** A byte that is neither in the alphabet, nor padding, nor CR/LF, makes
      the decoder fail wherever it occurs. */
  lemma {:induction false} DecodeQuantaRejectsForeign(s: seq<byte>, k: nat)
    requires k < |s| && !InAlphabet(s[k]) && s[k] != Pad
    ensures !DecodeQuanta(s).complete
    decreases |s|
  {
    if |s| >= 4 && k >= 4 {
      var a, b, c, e := DecodeSextet(s[0]), DecodeSextet(s[1]), DecodeSextet(s[2]), DecodeSextet(s[3]);
      if a.Some? && b.Some? && s[2] != Pad && c.Some? && s[3] != Pad && e.Some? {
        DecodeQuantaRejectsForeign(s[4..], k - 4);
      }
    }
  }

  lemma {:induction false} StripNewlinesKeeps(t: seq<byte>, k: nat) returns (j: nat)
    requires k < |t| && t[k] != LF && t[k] != CR
    ensures j < |StripNewlines(t)| && StripNewlines(t)[j] == t[k]
    decreases |t|
  {
    if k == 0 {
      j := 0;
    } else {
      var j' := StripNewlinesKeeps(t[1..], k - 1);
      j := if t[0] == LF || t[0] == CR then j' else j' + 1;
    }
  }

  /** `DecodeString` rejects text holding any byte outside the alphabet,
      the padding character and the line breaks it skips. */
  lemma DecodeRejectsForeign(t: seq<byte>, k: nat)
    requires k < |t| && !InAlphabet(t[k]) && t[k] != Pad && t[k] != LF && t[k] != CR
    ensures Decode(t) == None
  {
    var j := StripNewlinesKeeps(t, k);
    DecodeQuantaRejectsForeign(StripNewlines(t), j);
  }
}
