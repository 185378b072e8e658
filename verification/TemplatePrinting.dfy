/** Every source is literals and keys in braces, and renders to the literals with the keys' values in between. */
module TemplatePrinting {
  import opened Bytes
  import opened Templates

  datatype Part = Text(text: seq<byte>) | Key(key: seq<byte>)

  /** How a source ends: with a last literal, or with a key that is never closed. */
  datatype Tail = Plain(text: seq<byte>) | Unclosed(key: seq<byte>)

  function PartText(p: Part): seq<byte> {
    match p
    case Text(t) => t
    case Key(k) => [OPEN, OPEN] + k + [CLOSE, CLOSE]
  }

  function TailText(t: Tail): seq<byte> {
    match t
    case Plain(t) => t
    case Unclosed(k) => [OPEN, OPEN] + k
  }

  function Printed(ps: seq<Part>, tail: Tail): seq<byte> {
    if ps == [] then TailText(tail) else PartText(ps[0]) + Printed(ps[1..], tail)
  }

  predicate NoPair(s: seq<byte>, b: byte) {
    forall k | 0 <= k < |s| :: !PairAt(s, k, b)
  }

  /** No doubled brace of the kind that would end it, nor half a one where the next thing starts with that brace. */
  predicate PartOk(p: Part) {
    match p
    case Text(t) => NoPair(t, OPEN) && (t == [] || t[|t| - 1] != OPEN)
    case Key(k) => NoPair(k, CLOSE) && (k == [] || k[|k| - 1] != CLOSE)
  }

  predicate TailOk(t: Tail) {
    match t
    case Plain(t) => NoPair(t, OPEN)
    case Unclosed(k) => NoPair(k, CLOSE)
  }

  ghost predicate SourceOk(ps: seq<Part>, tail: Tail) {
    (forall k | 0 <= k < |ps| :: PartOk(ps[k])) && TailOk(tail)
  }

  /** What a part is replaced by: a literal by itself, a key by the value of the first variable that has it. */
  ghost predicate PartValue(p: Part, vars: seq<TplVar>, value: seq<byte>) {
    match p
    case Text(t) => value == t
    case Key(k) => Means(k, vars, value)
  }

  ghost predicate TailValue(t: Tail, vars: seq<TplVar>, value: seq<byte>) {
    match t
    case Plain(t) => value == t
    case Unclosed(k) => Means(k, vars, value)
  }

  /** A stretch of source without pairs, where none starts at its end either. */
  lemma NoPairHeld(src: seq<byte>, i: nat, text: seq<byte>, b: byte)
    requires Holds(src, i, text) && NoPair(text, b)
    requires text == [] || text[|text| - 1] != b || i + |text| == |src|
    ensures forall k | i <= k < i + |text| :: !PairAt(src, k, b)
  {
    HoldsAll(src, i, text);
    hide Holds;
    forall k | i <= k < i + |text| ensures !PairAt(src, k, b) {
      assert src[k] == text[k - i];
      assert !PairAt(text, k - i, b);
      assert k + 1 < i + |text| ==> src[k + 1] == text[k + 1 - i];
    }
  }

  lemma TailRenders(src: seq<byte>, i: nat, tail: Tail, vars: seq<TplVar>, value: seq<byte>)
    requires i <= |src| && src[i..] == TailText(tail) && TailOk(tail) && TailValue(tail, vars, value)
    ensures Substitute(src, i, vars) == value
  {
    match tail {
      case Plain(t) =>
        assert src[i..|src|] == t;
        NoPairHeld(src, i, t, OPEN);
        SubstituteLiteral(src, i, |src|, vars);
        assert src[i..|src|] + [] == value;
      case Unclosed(k) =>
        OpenHeld(src, i, k);
        NoPairHeld(src, i + 2, k, CLOSE);
        UnclosedRenders(src, i, vars);
        LookupMeans(k, vars);
        MeansOnce(k, vars, value, Lookup(k, vars));
    }
  }

  lemma OpenHeld(src: seq<byte>, i: nat, key: seq<byte>)
    requires i <= |src| && src[i..] == [OPEN, OPEN] + key
    ensures i + 2 <= |src| && src[i + 2..|src|] == key && PairAt(src, i, OPEN)
  {
    assert src[i] == src[i..][0] && src[i + 1] == src[i..][1];
    assert src[i + 2..] == src[i..][2..];
  }

  lemma UnclosedRenders(src: seq<byte>, i: nat, vars: seq<TplVar>)
    requires PairAt(src, i, OPEN) && forall k | i + 2 <= k < |src| :: !PairAt(src, k, CLOSE)
    ensures Substitute(src, i, vars) == Lookup(src[i + 2..|src|], vars)
  {
    NextPairFound(src, i + 2, |src|, CLOSE);
    assert Substitute(src, |src|, vars) == [];
  }

  lemma ClosedRenders(src: seq<byte>, i: nat, close: nat, vars: seq<TplVar>)
    requires i + 2 <= close && PairAt(src, i, OPEN) && PairAt(src, close, CLOSE)
    requires forall k | i + 2 <= k < close :: !PairAt(src, k, CLOSE)
    ensures Substitute(src, i, vars) == Lookup(src[i + 2..close], vars) + Substitute(src, close + 2, vars)
  {
    NextPairFound(src, i + 2, close, CLOSE);
  }

  lemma TextRenders(src: seq<byte>, i: nat, text: seq<byte>, vars: seq<TplVar>)
    requires Holds(src, i, text) && PartOk(Text(text))
    ensures Substitute(src, i, vars) == text + Substitute(src, i + |text|, vars)
  {
    hide Substitute, NoPair;
    NoPairHeld(src, i, text, OPEN);
    SubstituteLiteral(src, i, i + |text|, vars);
  }

  /** A printed key: where its braces are, and that none come between. */
  lemma KeyPlaces(src: seq<byte>, i: nat, key: seq<byte>)
    requires Holds(src, i, [OPEN, OPEN] + key + [CLOSE, CLOSE]) && PartOk(Key(key))
    ensures var close := i + 2 + |key|;
            && PairAt(src, i, OPEN) && PairAt(src, close, CLOSE) && src[i + 2..close] == key
            && forall k | i + 2 <= k < close :: !PairAt(src, k, CLOSE)
  {
    hide NoPair, Holds, PairAt;
    HoldsSplit(src, i, [OPEN, OPEN] + key, [CLOSE, CLOSE]);
    HoldsSplit(src, i, [OPEN, OPEN], key);
    PairHeld(src, i, OPEN);
    PairHeld(src, i + 2 + |key|, CLOSE);
    NoPairHeld(src, i + 2, key, CLOSE);
    HeldText(src, i + 2, key);
  }

  lemma PairHeld(src: seq<byte>, i: nat, b: byte)
    requires Holds(src, i, [b, b])
    ensures PairAt(src, i, b)
  {
    HoldsAll(src, i, [b, b]);
  }

  lemma HeldText(src: seq<byte>, i: nat, text: seq<byte>)
    requires Holds(src, i, text)
    ensures i + |text| <= |src| && src[i..i + |text|] == text
  {
  }

  lemma KeyRenders(src: seq<byte>, i: nat, key: seq<byte>, vars: seq<TplVar>)
    requires Holds(src, i, [OPEN, OPEN] + key + [CLOSE, CLOSE]) && PartOk(Key(key))
    ensures Substitute(src, i, vars) == Lookup(key, vars) + Substitute(src, i + |key| + 4, vars)
  {
    KeyPlaces(src, i, key);
    hide *;
    ClosedRenders(src, i, i + 2 + |key|, vars);
  }

  lemma KeyReplaced(src: seq<byte>, i: nat, key: seq<byte>, vars: seq<TplVar>, value: seq<byte>)
    requires Holds(src, i, [OPEN, OPEN] + key + [CLOSE, CLOSE]) && PartOk(Key(key)) && Means(key, vars, value)
    ensures Substitute(src, i, vars) == value + Substitute(src, i + |key| + 4, vars)
  {
    hide *;
    KeyRenders(src, i, key, vars);
    LookupMeans(key, vars);
    MeansOnce(key, vars, value, Lookup(key, vars));
  }

  lemma PartRenders(src: seq<byte>, i: nat, p: Part, vars: seq<TplVar>, value: seq<byte>)
    requires Holds(src, i, PartText(p)) && PartOk(p) && PartValue(p, vars, value)
    ensures Substitute(src, i, vars) == value + Substitute(src, i + |PartText(p)|, vars)
  {
    hide Substitute, PartOk, Means, Holds;
    match p
    case Text(text) => TextRenders(src, i, text, vars);
    case Key(key) => KeyReplaced(src, i, key, vars, value);
  }

  /** The first part and what follows it. */
  lemma PrintedFrom(src: seq<byte>, i: nat, ps: seq<Part>, tail: Tail)
    requires i <= |src| && src[i..] == Printed(ps, tail) && ps != []
    ensures var j := i + |PartText(ps[0])|;
            Holds(src, i, PartText(ps[0])) && j <= |src| && src[j..] == Printed(ps[1..], tail)
  {
    hide PartText;
    var t, rest := PartText(ps[0]), Printed(ps[1..], tail);
    assert src[i..i + |t|] == src[i..][..|t|] == (t + rest)[..|t|] == t;
    assert src[i + |t|..] == src[i..][|t|..] == (t + rest)[|t|..] == rest;
  }

  lemma {:induction false} RendersFrom(src: seq<byte>, i: nat, ps: seq<Part>, tail: Tail, vars: seq<TplVar>,
                                       values: seq<seq<byte>>, last: seq<byte>)
    requires i <= |src| && src[i..] == Printed(ps, tail) && SourceOk(ps, tail)
    requires |values| == |ps| && forall k | 0 <= k < |ps| :: PartValue(ps[k], vars, values[k])
    requires TailValue(tail, vars, last)
    ensures Substitute(src, i, vars) == Flatten(values) + last
    decreases |ps|
  {
    hide Substitute, PartOk, TailOk, TailValue, PartValue, PartText, Holds;
    if ps == [] {
      TailRenders(src, i, tail, vars, last);
      assert Flatten(values) + last == last;
    } else {
      PrintedFrom(src, i, ps, tail);
      hide Printed;
      PartRenders(src, i, ps[0], vars, values[0]);
      RendersFrom(src, i + |PartText(ps[0])|, ps[1..], tail, vars, values[1..], last);
      assert values[0] + (Flatten(values[1..]) + last) == Flatten(values) + last;
    }
  }

  /** A printed source renders to its literals, with each key replaced by the value of the first variable that has it. */
  lemma RenderUndoesPrint(ps: seq<Part>, tail: Tail, vars: seq<TplVar>, values: seq<seq<byte>>, last: seq<byte>)
    requires SourceOk(ps, tail)
    requires |values| == |ps| && forall k | 0 <= k < |ps| :: PartValue(ps[k], vars, values[k])
    requires TailValue(tail, vars, last)
    ensures var src := Printed(ps, tail);
            Substitute(src, 0, vars) == Flatten(values) + last
    ensures var src := Printed(ps, tail);
            AllInSource(src, Fragments(src, 0)) && RenderFragments(src, Fragments(src, 0), vars) == Flatten(values) + last
  {
    var src := Printed(ps, tail);
    assert src[0..] == src;
    RendersFrom(src, 0, ps, tail, vars, values, last);
    PrecompiledMeansDirect(src, vars);
  }

  lemma OneMore(p: Part, q: Part, ps: seq<Part>, tail: Tail)
    requires SourceOk(ps, tail) && PartOk(p) && PartOk(q)
    ensures SourceOk([p, q] + ps, tail)
    ensures Printed([p, q] + ps, tail) == PartText(p) + PartText(q) + Printed(ps, tail)
  {
    hide PartText, PartOk, TailOk;
    var all := [p, q] + ps;
    assert all[1..] == [q] + ps && all[1..][1..] == ps;
    assert Printed(all[1..], tail) == PartText(q) + Printed(ps, tail);
    assert PartText(p) + (PartText(q) + Printed(ps, tail)) == PartText(p) + PartText(q) + Printed(ps, tail);
  }

  /** The next key of a source, and the literal in front of it. */
  lemma NextKey(src: seq<byte>, i: nat)
    requires i <= |src| && NextPair(src, i, OPEN) < |src|
    ensures var open := NextPair(src, i, OPEN);
            var close := NextPair(src, open + 2, CLOSE);
            && i <= open <= open + 2 <= close <= |src|
            && PartOk(Text(src[i..open])) && NoPair(src[open + 2..close], CLOSE)
            && (close < |src| ==> close + 2 <= |src| && PartOk(Key(src[open + 2..close])))
            && src[i..close] == src[i..open] + ([OPEN, OPEN] + src[open + 2..close])
            && (close < |src| ==> src[i..] == src[i..close] + [CLOSE, CLOSE] + src[close + 2..])
  {
    hide PairAt, NextPair, NoPair;
    var open := NextPair(src, i, OPEN);
    var close := NextPair(src, open + 2, CLOSE);
    SliceNoPair(src, i, open, OPEN);
    PairText(src, open, OPEN);
    SliceNoPair(src, open + 2, close, CLOSE);
    Cut(src, i, open, close);
    if close < |src| {
      PairText(src, close, CLOSE);
      CutOnce(src, i, close, [CLOSE, CLOSE]);
    }
  }

  /** Every source is a printed one. */
  lemma {:induction false} EverySourceIsPrinted(src: seq<byte>, i: nat := 0) returns (ps: seq<Part>, tail: Tail)
    requires i <= |src|
    ensures SourceOk(ps, tail) && Printed(ps, tail) == src[i..]
    decreases |src| - i
  {
    hide PairAt, NextPair, NoPair, Printed, SourceOk, PartOk, PartText, TailText;
    var open := NextPair(src, i, OPEN);
    if open == |src| {
      SliceNoPair(src, i, open, OPEN);
      ps, tail := [], Plain(src[i..open]);
      LastPart(tail);
      assert TailText(tail) == src[i..open] by { PlainText(src[i..open]); }
      assert src[i..|src|] == src[i..];
    } else {
      NextKey(src, i);
      var close := NextPair(src, open + 2, CLOSE);
      var text, key := src[i..open], src[open + 2..close];
      if close == |src| {
        ps, tail := [Text(text)], Unclosed(key);
        TwoParts(Text(text), tail);
        LastKey(text, key);
        assert src[i..|src|] == src[i..];
      } else {
        var rest;
        rest, tail := EverySourceIsPrinted(src, close + 2);
        ps := [Text(text), Key(key)] + rest;
        OneMore(Text(text), Key(key), rest, tail);
        Joined(text, key, src[close + 2..]);
      }
    }
  }

  lemma PlainText(text: seq<byte>)
    ensures TailText(Plain(text)) == text
  {
  }

  lemma LastKey(text: seq<byte>, key: seq<byte>)
    ensures PartText(Text(text)) + TailText(Unclosed(key)) == text + ([OPEN, OPEN] + key)
  {
  }

  lemma Joined(text: seq<byte>, key: seq<byte>, rest: seq<byte>)
    ensures PartText(Text(text)) + PartText(Key(key)) + rest == (text + ([OPEN, OPEN] + key)) + [CLOSE, CLOSE] + rest
  {
  }

  lemma Cut(src: seq<byte>, i: nat, open: nat, close: nat)
    requires i <= open <= open + 2 <= close <= |src| && src[open..open + 2] == [OPEN, OPEN]
    ensures src[i..open] + ([OPEN, OPEN] + src[open + 2..close]) == src[i..close]
  {
    assert src[i..close] == src[i..open] + src[open..open + 2] + src[open + 2..close];
  }

  lemma CutOnce(src: seq<byte>, i: nat, j: nat, text: seq<byte>)
    requires i <= j && Holds(src, j, text)
    ensures src[i..j] + text + src[j + |text|..] == src[i..]
  {
  }

  lemma LastPart(tail: Tail)
    requires TailOk(tail)
    ensures SourceOk([], tail) && Printed([], tail) == TailText(tail)
  {
  }

  lemma TwoParts(p: Part, tail: Tail)
    requires PartOk(p) && TailOk(tail)
    ensures SourceOk([p], tail) && Printed([p], tail) == PartText(p) + TailText(tail)
  {
    assert [p][1..] == [];
  }

  lemma PairText(src: seq<byte>, i: nat, b: byte)
    requires PairAt(src, i, b)
    ensures i + 2 <= |src| && src[i..i + 2] == [b, b]
  {
  }

  lemma SliceNoPair(src: seq<byte>, i: nat, j: nat, b: byte)
    requires i <= j <= |src| && forall k | i <= k < j :: !PairAt(src, k, b)
    ensures NoPair(src[i..j], b)
    ensures i < j < |src| && src[j] == b ==> src[j - 1] != b
  {
    forall k | 0 <= k < j - i ensures !PairAt(src[i..j], k, b) {
      assert !PairAt(src, i + k, b);
    }
    assert i < j ==> !PairAt(src, j - 1, b);
  }
}
