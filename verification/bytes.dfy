/** Byte strings and the handful of Go `strings`/`bytes` helpers the engine
    relies on. Go strings are immutable byte sequences, so lines, markers and
    encoded text are all `seq<byte>` here. */
module Bytes {

  type byte = bv8

  const LF: byte := 10
  const CR: byte := 13

  /** The bytes of an ASCII string literal (every character below 128). */
  function Ascii(s: string): seq<byte>
  {
    seq(|s|, i requires 0 <= i < |s| => (s[i] as int % 256) as byte)
  }

  /** `strings.HasPrefix`. */
  predicate HasPrefix(s: seq<byte>, p: seq<byte>)
  {
    |p| <= |s| && s[..|p|] == p
  }

  /** `strings.HasSuffix`. */
  predicate HasSuffix(s: seq<byte>, p: seq<byte>)
  {
    |p| <= |s| && s[|s| - |p|..] == p
  }

  /** `strings.TrimPrefix`: drops `p` when `s` starts with it, else returns `s`. */
  function TrimPrefix(s: seq<byte>, p: seq<byte>): (r: seq<byte>)
    ensures HasPrefix(s, p) ==> p + r == s
    ensures !HasPrefix(s, p) ==> r == s
  {
    if HasPrefix(s, p) then s[|p|..] else s
  }

  /** Concatenation of a sequence of byte strings, in order. */
  function Flatten(parts: seq<seq<byte>>): seq<byte>
  {
    if |parts| == 0 then [] else parts[0] + Flatten(parts[1..])
  }

  lemma {:induction false} FlattenAppend(parts: seq<seq<byte>>, more: seq<seq<byte>>)
    ensures Flatten(parts + more) == Flatten(parts) + Flatten(more)
    decreases |parts|
  {
    if |parts| == 0 {
      assert parts + more == more;
    } else {
      assert (parts + more)[1..] == parts[1..] + more;
      FlattenAppend(parts[1..], more);
    }
  }

  lemma FlattenSnoc(parts: seq<seq<byte>>, k: nat)
    requires k < |parts|
    ensures Flatten(parts[..k + 1]) == Flatten(parts[..k]) + parts[k]
  {
    assert parts[..k + 1] == parts[..k] + [parts[k]];
    FlattenAppend(parts[..k], [parts[k]]);
    assert Flatten([parts[k]]) == parts[k] + Flatten([]);
  }
}
