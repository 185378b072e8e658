/** Octets and the handful of characters the HTTP code names. */
module Bytes {
  type byte = x: int | 0 <= x < 256

  const HT: byte := 9
  const LF: byte := 10
  const CR: byte := 13
  const SP: byte := 32
  const SEMICOLON: byte := 59
  const COLON: byte := 58
  const DEL: byte := 127
  const CRLF: seq<byte> := [CR, LF]

  /** The octets of a C string literal. */
  function Ascii(s: string): (r: seq<byte>)
    ensures |r| == |s|
  {
    seq(|s|, i requires 0 <= i < |s| => if s[i] < 128 as char then s[i] as int else 63)
  }

  /** All pieces of a stream, glued together again. */
  function Flatten<T>(pieces: seq<seq<T>>): (s: seq<T>) {
    if pieces == [] then [] else pieces[0] + Flatten(pieces[1..])
  }

  /** `text` is what the buffer holds at i. */
  ghost predicate Holds(s: seq<byte>, i: nat, text: seq<byte>) {
    i + |text| <= |s| && s[i..i + |text|] == text
  }

  lemma HoldsSplit(s: seq<byte>, i: nat, a: seq<byte>, b: seq<byte>)
    requires Holds(s, i, a + b)
    ensures Holds(s, i, a) && Holds(s, i + |a|, b)
  {
    var t := s[i..i + |a + b|];
    assert s[i..i + |a|] == t[..|a|];
    assert s[i + |a|..i + |a| + |b|] == t[|a|..];
  }

  lemma HoldsAll(s: seq<byte>, i: nat, text: seq<byte>)
    requires Holds(s, i, text)
    ensures forall k | i <= k < i + |text| :: s[k] == text[k - i]
  {
    assert forall k | i <= k < i + |text| :: s[k] == s[i..i + |text|][k - i];
  }

  lemma HoldsAt(s: seq<byte>, i: nat, text: seq<byte>, k: nat)
    requires Holds(s, i, text) && k < |text|
    ensures s[i + k] == text[k]
  {
    assert s[i + k] == s[i..i + |text|][k];
  }
}
