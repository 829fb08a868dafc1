/** Key text handling of pkg/key/key.go: like the cipher package's, but the
    text is trimmed of surrounding white space first (a key file usually ends
    in a newline) and no length is enforced. */
module HexKey {
  import opened Bytes
  import opened Results
  import Hex

  datatype KeyError = InvalidHexKey // "invalid hex key: ..."

  /** The ASCII white space `strings.TrimSpace` removes. */
  predicate IsSpace(b: byte)
  {
    b == 9 || b == 10 || b == 11 || b == 12 || b == 13 || b == 32
  }

  predicate AllSpace(s: seq<byte>)
  {
    forall i | 0 <= i < |s| :: IsSpace(s[i])
  }

  function TrimLeft(s: seq<byte>): (r: seq<byte>)
    ensures |r| <= |s| && r == s[|s| - |r|..]
    ensures AllSpace(s[..|s| - |r|])
    ensures |r| > 0 ==> !IsSpace(r[0])
  {
    if |s| > 0 && IsSpace(s[0]) then TrimLeft(s[1..]) else s
  }

  function TrimRight(s: seq<byte>): (r: seq<byte>)
    ensures |r| <= |s| && r == s[..|r|]
    ensures AllSpace(s[|r|..])
    ensures |r| > 0 ==> !IsSpace(r[|r| - 1])
  {
    if |s| > 0 && IsSpace(s[|s| - 1]) then TrimRight(s[..|s| - 1]) else s
  }

  /** `strings.TrimSpace` on ASCII text: the longest slice of `s` that neither
      starts nor ends with white space, once only white space is cut away. */
  function TrimSpace(s: seq<byte>): (r: seq<byte>)
  {
    TrimRight(TrimLeft(s))
  }

  /** `Decode`: trim, then base16. */
  function Decode(hexKey: seq<byte>): (r: Result<seq<byte>, KeyError>)
    ensures r.Ok? <==> Hex.Decode(TrimSpace(hexKey)).Some?
    ensures r.Ok? ==> Hex.Decode(TrimSpace(hexKey)) == Some(r.value)
    ensures r.Ok? ==> 2 * |r.value| == |TrimSpace(hexKey)|
  {
    match Hex.Decode(TrimSpace(hexKey))
    case None => Err(InvalidHexKey)
    case Some(key) => Ok(key)
  }

  /** `Encode`: lower-case base16, two digits per byte. */
  function Encode(key: seq<byte>): (t: seq<byte>)
    ensures |t| == 2 * |key|
    ensures forall i | 0 <= i < |t| :: Hex.IsLowerDigit(t[i])
  {
    Hex.Encode(key)
  }

  lemma {:induction false} TrimLeftSpaces(lead: seq<byte>, core: seq<byte>)
    requires AllSpace(lead)
    requires |core| > 0 ==> !IsSpace(core[0])
    ensures TrimLeft(lead + core) == core
    decreases |lead|
  {
    if |lead| > 0 {
      assert (lead + core)[1..] == lead[1..] + core;
      TrimLeftSpaces(lead[1..], core);
    } else {
      assert lead + core == core;
    }
  }

  lemma {:induction false} TrimRightSpaces(core: seq<byte>, trail: seq<byte>)
    requires AllSpace(trail)
    requires |core| > 0 ==> !IsSpace(core[|core| - 1])
    ensures TrimRight(core + trail) == core
    decreases |trail|
  {
    if |trail| > 0 {
      assert (core + trail)[..|core + trail| - 1] == core + trail[..|trail| - 1];
      TrimRightSpaces(core, trail[..|trail| - 1]);
    } else {
      assert core + trail == core;
    }
  }

  /** Trimming removes exactly the white space around a core that neither
      starts nor ends with white space. */
  lemma TrimSpaceAround(lead: seq<byte>, core: seq<byte>, trail: seq<byte>)
    requires AllSpace(lead) && AllSpace(trail)
    requires |core| > 0 ==> !IsSpace(core[0]) && !IsSpace(core[|core| - 1])
    ensures TrimSpace(lead + core + trail) == core
  {
    if |core| == 0 {
      assert lead + core + trail == lead + trail;
      assert AllSpace(lead + trail);
      TrimLeftSpaces(lead + trail, []);
      assert lead + trail + [] == lead + trail;
    } else {
      assert lead + core + trail == lead + (core + trail);
      TrimLeftSpaces(lead, core + trail);
    }
    TrimRightSpaces(core, trail);
  }

  /** Encoded keys decode back, whatever white space surrounds them (a
      trailing newline in a key file, say) and whatever their length. */
  lemma DecodeEncode(key: seq<byte>, lead: seq<byte>, trail: seq<byte>)
    requires AllSpace(lead) && AllSpace(trail)
    ensures Decode(lead + Encode(key) + trail) == Ok(key)
  {
    var t := Encode(key);
    if |t| > 0 {
      assert Hex.IsLowerDigit(t[0]) && Hex.IsLowerDigit(t[|t| - 1]);
    }
    TrimSpaceAround(lead, t, trail);
    Hex.DecodeEncode(key);
  }
}
