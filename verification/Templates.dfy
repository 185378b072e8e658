/**
 The template engine: a source is cut once into fragments, and rendering walks the
 fragments.  The reference is substitution done directly on the source.
 */
module Templates {
  import opened Bytes

  const OPEN: byte := 0x7b
  const CLOSE: byte := 0x7d

  datatype Fragment = Literal(start: nat, len: nat) | Variable(start: nat, len: nat)

  datatype TplVar = TplVar(key: seq<byte>, value: seq<byte>)

  /** The value of the first variable with this key, or nothing. */
  function Lookup(key: seq<byte>, vars: seq<TplVar>): seq<byte> {
    if vars == [] then [] else if vars[0].key == key then vars[0].value else Lookup(key, vars[1..])
  }

  /** `value` is that of the first variable with this key, or nothing if no variable has it. */
  ghost predicate Means(key: seq<byte>, vars: seq<TplVar>, value: seq<byte>) {
    exists i | 0 <= i <= |vars| :: FirstWith(key, vars, i) && value == if i < |vars| then vars[i].value else []
  }

  ghost predicate FirstWith(key: seq<byte>, vars: seq<TplVar>, i: nat) {
    && i <= |vars|
    && (i < |vars| ==> vars[i].key == key)
    && forall j | 0 <= j < i :: vars[j].key != key
  }

  lemma {:induction false} LookupMeans(key: seq<byte>, vars: seq<TplVar>)
    ensures Means(key, vars, Lookup(key, vars))
    decreases |vars|
  {
    if vars == [] || vars[0].key == key {
      assert FirstWith(key, vars, 0);
    } else {
      LookupMeans(key, vars[1..]);
      var i :| 0 <= i < |vars| && FirstWith(key, vars[1..], i)
               && Lookup(key, vars) == if i < |vars| - 1 then vars[1..][i].value else [];
      assert FirstWith(key, vars, i + 1);
    }
  }

  lemma MeansOnce(key: seq<byte>, vars: seq<TplVar>, v: seq<byte>, w: seq<byte>)
    requires Means(key, vars, v) && Means(key, vars, w)
    ensures v == w
  {
    var i :| 0 <= i <= |vars| && FirstWith(key, vars, i) && v == if i < |vars| then vars[i].value else [];
    var j :| 0 <= j <= |vars| && FirstWith(key, vars, j) && w == if j < |vars| then vars[j].value else [];
    assert i == j;
  }

  predicate PairAt(src: seq<byte>, i: nat, b: byte) {
    i + 1 < |src| && src[i] == b && src[i + 1] == b
  }

  /** Where b is next doubled, at i or later; |src| if nowhere. */
  function NextPair(src: seq<byte>, i: nat, b: byte): (k: nat)
    ensures k == |src| || (i <= k < |src| - 1 && PairAt(src, k, b))
    ensures forall j | i <= j < k :: !PairAt(src, j, b)
    decreases |src| - i
  {
    if i + 1 >= |src| then |src| else if PairAt(src, i, b) then i else NextPair(src, i + 1, b)
  }

  /** Past the closing braces; a variable that is never closed runs to the end. */
  function AfterKey(src: seq<byte>, close: nat): nat {
    if close < |src| then close + 2 else |src|
  }

  function Fragments(src: seq<byte>, cur: nat): seq<Fragment>
    decreases |src| - cur
  {
    if cur >= |src| then []
    else
      var open := NextPair(src, cur, OPEN);
      if open == |src| then [Literal(cur, |src| - cur)]
      else
        var close := NextPair(src, open + 2, CLOSE);
        var v := Variable(open + 2, close - (open + 2));
        (if open > cur then [Literal(cur, open - cur), v] else [v]) + Fragments(src, AfterKey(src, close))
  }

  /** Substitution read straight off the source: octet by octet, a doubled brace starting a key. */
  function Substitute(src: seq<byte>, i: nat, vars: seq<TplVar>): seq<byte>
    decreases |src| - i
  {
    if i >= |src| then []
    else if PairAt(src, i, OPEN) then
      var close := NextPair(src, i + 2, CLOSE);
      Lookup(src[i + 2..close], vars) + Substitute(src, AfterKey(src, close), vars)
    else [src[i]] + Substitute(src, i + 1, vars)
  }

  predicate InSource(src: seq<byte>, f: Fragment) {
    f.start + f.len <= |src|
  }

  ghost predicate AllInSource(src: seq<byte>, fs: seq<Fragment>) {
    forall k | 0 <= k < |fs| :: InSource(src, fs[k])
  }

  function Piece(src: seq<byte>, f: Fragment, vars: seq<TplVar>): seq<byte>
    requires InSource(src, f)
  {
    var text := src[f.start..f.start + f.len];
    if f.Literal? then text else Lookup(text, vars)
  }

  function RenderFragments(src: seq<byte>, fs: seq<Fragment>, vars: seq<TplVar>): seq<byte>
    requires AllInSource(src, fs)
  {
    if fs == [] then [] else Piece(src, fs[0], vars) + RenderFragments(src, fs[1..], vars)
  }

  // ----- The fragments mean what the source means -----

  /** The stretch of source a fragment stands for, its braces included. */
  function SpanStart(f: Fragment): int {
    if f.Literal? then f.start else f.start - 2
  }

  function SpanEnd(src: seq<byte>, f: Fragment): nat {
    if f.Literal? then f.start + f.len else AfterKey(src, f.start + f.len)
  }

  /** The fragment starts at i; a literal holds no opening braces, a variable is opened by braces, closed by
      braces or by the end of the source, and its key holds no closing ones. */
  ghost predicate TileOk(src: seq<byte>, f: Fragment, i: nat) {
    && InSource(src, f) && SpanStart(f) == i < SpanEnd(src, f)
    && (if f.Literal? then forall k | i <= k < f.start + f.len :: !PairAt(src, k, OPEN)
        else && PairAt(src, i, OPEN)
             && (forall k | f.start <= k < f.start + f.len :: !PairAt(src, k, CLOSE))
             && (f.start + f.len < |src| ==> PairAt(src, f.start + f.len, CLOSE)))
  }

  /** The fragments lie one after the other from i to the end, none of them empty. */
  ghost predicate Tiles(src: seq<byte>, fs: seq<Fragment>, i: nat) {
    if fs == [] then i >= |src|
    else TileOk(src, fs[0], i) && Tiles(src, fs[1..], SpanEnd(src, fs[0]))
  }

  lemma TilesCons(src: seq<byte>, f: Fragment, rest: seq<Fragment>, i: nat)
    requires TileOk(src, f, i) && Tiles(src, rest, SpanEnd(src, f))
    ensures Tiles(src, [f] + rest, i)
  {
    hide TileOk;
    assert ([f] + rest)[1..] == rest;
  }

  lemma LiteralTile(src: seq<byte>, cur: nat)
    ensures var open := NextPair(src, cur, OPEN);
            cur < open ==> TileOk(src, Literal(cur, open - cur), cur) && SpanEnd(src, Literal(cur, open - cur)) == open
  {
  }

  lemma VariableTile(src: seq<byte>, open: nat)
    requires PairAt(src, open, OPEN)
    ensures var close := NextPair(src, open + 2, CLOSE);
            var v := Variable(open + 2, close - (open + 2));
            TileOk(src, v, open) && SpanEnd(src, v) == AfterKey(src, close)
  {
  }

  lemma {:induction false} FragmentsTile(src: seq<byte>, cur: nat)
    ensures Tiles(src, Fragments(src, cur), cur)
    decreases |src| - cur
  {
    hide Fragments, NextPair, Tiles, TileOk, SpanEnd;
    if cur >= |src| {
      EmptyTiles(src, cur);
    } else {
      var open := NextPair(src, cur, OPEN);
      LiteralTile(src, cur);
      if open < |src| {
        var close := NextPair(src, open + 2, CLOSE);
        var v, rest := Variable(open + 2, close - (open + 2)), Fragments(src, AfterKey(src, close));
        FragmentsTile(src, AfterKey(src, close));
        FragmentsStep(src, cur);
        VariableTile(src, open);
        TilesCons(src, v, rest, open);
        if open > cur {
          TilesCons(src, Literal(cur, open - cur), [v] + rest, cur);
          assert [Literal(cur, open - cur), v] + rest == [Literal(cur, open - cur)] + ([v] + rest);
        }
      } else {
        LastFragment(src, cur);
        EmptyTiles(src, |src|);
        TilesCons(src, Literal(cur, |src| - cur), [], cur);
        assert [Literal(cur, |src| - cur)] + [] == [Literal(cur, |src| - cur)];
      }
    }
  }

  lemma EmptyTiles(src: seq<byte>, cur: nat)
    requires cur >= |src|
    ensures Fragments(src, cur) == [] && Tiles(src, [], cur)
  {
  }

  lemma {:induction false} TilesInside(src: seq<byte>, fs: seq<Fragment>, i: nat)
    requires Tiles(src, fs, i)
    ensures AllInSource(src, fs)
    decreases |fs|
  {
    if fs != [] {
      TilesInside(src, fs[1..], SpanEnd(src, fs[0]));
      assert forall k | 1 <= k < |fs| :: fs[k] == fs[1..][k - 1];
    }
  }

  lemma {:induction false} SubstituteLiteral(src: seq<byte>, i: nat, j: nat, vars: seq<TplVar>)
    requires i <= j <= |src| && forall k | i <= k < j :: !PairAt(src, k, OPEN)
    ensures Substitute(src, i, vars) == src[i..j] + Substitute(src, j, vars)
    decreases j - i
  {
    hide Substitute;
    var rest := Substitute(src, j, vars);
    if i < j {
      SubstituteOctet(src, i, vars);
      SubstituteLiteral(src, i + 1, j, vars);
      assert src[i..j] == [src[i]] + src[i + 1..j];
      assert ([src[i]] + src[i + 1..j]) + rest == [src[i]] + (src[i + 1..j] + rest);
    } else {
      assert src[i..j] + rest == rest;
    }
  }

  lemma SubstituteOctet(src: seq<byte>, i: nat, vars: seq<TplVar>)
    requires i < |src| && !PairAt(src, i, OPEN)
    ensures Substitute(src, i, vars) == [src[i]] + Substitute(src, i + 1, vars)
  {
  }

  lemma {:induction false} TileRenders(src: seq<byte>, f: Fragment, i: nat, vars: seq<TplVar>)
    requires TileOk(src, f, i)
    ensures Substitute(src, i, vars) == Piece(src, f, vars) + Substitute(src, SpanEnd(src, f), vars)
  {
    hide NextPair, PairAt, Lookup;
    if f.Literal? {
      SubstituteLiteral(src, i, SpanEnd(src, f), vars);
    } else {
      NextPairFound(src, f.start, f.start + f.len, CLOSE);
    }
  }

  /** Any fragments that tile the source render to what direct substitution gives. */
  lemma {:induction false} TilesRender(src: seq<byte>, fs: seq<Fragment>, i: nat, vars: seq<TplVar>)
    requires Tiles(src, fs, i) && AllInSource(src, fs)
    ensures RenderFragments(src, fs, vars) == Substitute(src, i, vars)
    decreases |fs|
  {
    if fs != [] {
      TileRenders(src, fs[0], i, vars);
      TilesRender(src, fs[1..], SpanEnd(src, fs[0]), vars);
      hide TileOk, Substitute, Piece, SpanEnd;
    }
  }

  lemma {:induction false} NextPairFound(src: seq<byte>, i: nat, j: nat, b: byte)
    requires i <= j <= |src| && forall k | i <= k < j :: !PairAt(src, k, b)
    requires j == |src| || PairAt(src, j, b)
    ensures NextPair(src, i, b) == j
    decreases j - i
  {
    if i < j && i + 1 < |src| { NextPairFound(src, i + 1, j, b); }
  }

  /** Rendering the precompiled fragments is substituting directly, whatever the source and the variables. */
  lemma PrecompiledMeansDirect(src: seq<byte>, vars: seq<TplVar>)
    ensures AllInSource(src, Fragments(src, 0))
    ensures RenderFragments(src, Fragments(src, 0), vars) == Substitute(src, 0, vars)
  {
    FragmentsTile(src, 0);
    TilesInside(src, Fragments(src, 0), 0);
    TilesRender(src, Fragments(src, 0), 0, vars);
  }

  /** A source without doubled braces is rendered as it stands. */
  lemma PlainSource(src: seq<byte>, vars: seq<TplVar>)
    requires forall k | 0 <= k < |src| :: !PairAt(src, k, OPEN)
    ensures Substitute(src, 0, vars) == src
  {
    SubstituteLiteral(src, 0, |src|, vars);
    assert src[0..|src|] == src;
  }

  // ----- Loading -----

  method MemChr(src: seq<byte>, cur: nat, b: byte) returns (k: nat)
    requires cur <= |src|
    ensures cur <= k <= |src| && (k < |src| ==> src[k] == b) && forall j | cur <= j < k :: src[j] != b
  {
    k := cur;
    while k < |src| && src[k] != b
      invariant cur <= k <= |src| && forall j | cur <= j < k :: src[j] != b
    {
      k := k + 1;
    }
  }

  /** find_open and find_close: the same scan for '{' and for '}'.  The octet after the source is a NUL. */
  method FindPair(src: seq<byte>, start: nat, b: byte) returns (k: nat)
    requires start <= |src|
    ensures k == NextPair(src, start, b)
  {
    var cur := start;
    while cur + 1 < |src|
      invariant start <= cur <= |src| && forall j | start <= j < cur :: !PairAt(src, j, b)
      decreases |src| - cur
    {
      cur := MemChr(src, cur, b);
      if cur == |src| { break; }
      if cur + 1 < |src| && src[cur + 1] == b {
        NextPairFound(src, start, cur, b);
        return cur;
      }
      cur := cur + 1;
    }
    assert forall j | start <= j < |src| :: !PairAt(src, j, b);
    NextPairFound(src, start, |src|, b);
    k := |src|;
  }

  method CountFragments(src: seq<byte>) returns (count: nat)
    ensures count == |Fragments(src, 0)|
  {
    hide Fragments, PairAt;
    count := 0;
    var cur := 0;
    while cur < |src|
      invariant cur <= |src| && count + |Fragments(src, cur)| == |Fragments(src, 0)|
      decreases |src| - cur
    {
      var open := FindPair(src, cur, OPEN);
      if open == |src| {
        LastFragment(src, cur);
        count := count + 1;
        return;
      }
      FragmentsStep(src, cur);
      if open > cur { count := count + 1; }
      count := count + 1;
      var close := FindPair(src, open + 2, CLOSE);
      cur := if close < |src| then close + 2 else |src|;
    }
    EmptyTiles(src, cur);
  }

  lemma {:induction false} FragmentsStep(src: seq<byte>, cur: nat)
    requires cur < |src| && NextPair(src, cur, OPEN) < |src|
    ensures var open := NextPair(src, cur, OPEN);
            var close := NextPair(src, open + 2, CLOSE);
            var v := Variable(open + 2, close - (open + 2));
            Fragments(src, cur) ==
            (if open > cur then [Literal(cur, open - cur), v] else [v]) + Fragments(src, AfterKey(src, close))
  {
    hide NextPair, PairAt;
  }

  method Put(fragments: array<Fragment>, n: nat, f: Fragment, ghost all: seq<Fragment>)
    requires n < fragments.Length == |all| && fragments[..n] == all[..n] && all[n..][0] == f
    modifies fragments
    ensures fragments[..n + 1] == all[..n + 1] && all[n + 1..] == all[n..][1..]
  {
    fragments[n] := f;
  }

  /** Two passes over the source: the first counts, the second fills an array of exactly that size. */
  method ParseFragments(src: seq<byte>) returns (fragments: array<Fragment>)
    ensures fragments[..] == Fragments(src, 0)
  {
    hide Fragments, PairAt, NextPair;
    var count := CountFragments(src);
    fragments := new Fragment[count](_ => Literal(0, 0));
    var cur, n := 0, 0;
    ghost var all := Fragments(src, 0);
    while cur < |src|
      invariant cur <= |src| && n <= count == |all| == fragments.Length
      invariant fragments[..n] == all[..n] && all[n..] == Fragments(src, cur)
      decreases |src| - cur
    {
      var open := FindPair(src, cur, OPEN);
      if open == |src| {
        LastFragment(src, cur);
        Put(fragments, n, Literal(cur, |src| - cur), all);
        cur, n := |src|, n + 1;
        EmptyTiles(src, |src|);
        break;
      }
      FragmentsStep(src, cur);
      if open > cur {
        Put(fragments, n, Literal(cur, open - cur), all);
        n := n + 1;
      }
      var close := FindPair(src, open + 2, CLOSE);
      Put(fragments, n, Variable(open + 2, close - (open + 2)), all);
      n := n + 1;
      cur := AfterKey(src, close);
    }
    EmptyTiles(src, cur);
    assert all[..n] == all && fragments[..n] == fragments[..];
  }

  lemma LastFragment(src: seq<byte>, cur: nat)
    requires cur < |src| && NextPair(src, cur, OPEN) == |src|
    ensures Fragments(src, cur) == [Literal(cur, |src| - cur)]
  {
  }

  // ----- Rendering -----

  method Find(key: seq<byte>, vars: seq<TplVar>) returns (value: seq<byte>)
    ensures Means(key, vars, value) && value == Lookup(key, vars)
  {
    LookupMeans(key, vars);
    assert vars[0..] == vars;
    for i := 0 to |vars|
      invariant Lookup(key, vars) == Lookup(key, vars[i..])
    {
      assert vars[i..][1..] == vars[i + 1..];
      if vars[i].key == key { return vars[i].value; }
    }
    value := [];
  }

  lemma {:induction false} RenderAppend(src: seq<byte>, fs: seq<Fragment>, n: nat, vars: seq<TplVar>)
    requires n < |fs| && AllInSource(src, fs)
    ensures RenderFragments(src, fs[..n + 1], vars) == RenderFragments(src, fs[..n], vars) + Piece(src, fs[n], vars)
    decreases n
  {
    if n == 0 {
      assert fs[..1] == [fs[0]];
    } else {
      assert fs[..n + 1][1..] == fs[1..][..n] && fs[..n][1..] == fs[1..][..n - 1];
      RenderAppend(src, fs[1..], n - 1, vars);
    }
  }

  lemma {:induction false} RenderPrefix(src: seq<byte>, fs: seq<Fragment>, n: nat, vars: seq<TplVar>)
    requires n <= |fs| && AllInSource(src, fs)
    ensures RenderFragments(src, fs[..n], vars) <= RenderFragments(src, fs, vars)
    decreases |fs| - n
  {
    if n == |fs| {
      assert fs[..n] == fs;
    } else {
      RenderAppend(src, fs, n, vars);
      RenderPrefix(src, fs, n + 1, vars);
    }
  }

  /** -1 exactly when the output and its NUL do not fit; then what is there is a NUL-terminated prefix. */
  method Render(src: seq<byte>, fragments: array<Fragment>, dest: array<byte>, destSize: nat, vars: seq<TplVar>)
    returns (ret: int)
    requires fragments[..] == Fragments(src, 0) && destSize <= dest.Length
    modifies dest
    ensures var out := Substitute(src, 0, vars);
            if |out| + 1 > destSize then
              ret == -1 && (destSize > 0 ==> exists w | 0 <= w < destSize :: dest[..w] <= out && dest[w] == 0)
            else ret == |out| && dest[..ret] == out && dest[ret] == 0
    ensures forall k | destSize <= k < dest.Length :: dest[k] == old(dest[k])
  {
    hide Substitute, Fragments, Piece;
    PrecompiledMeansDirect(src, vars);
    if destSize == 0 { return -1; }
    ghost var fs := fragments[..];
    var written := 0;
    for i := 0 to fragments.Length
      invariant 0 <= written < destSize && dest[..written] == RenderFragments(src, fs[..i], vars)
      invariant forall k | destSize <= k < dest.Length :: dest[k] == old(dest[k])
    {
      var f := fragments[i];
      assert InSource(src, fs[i]);
      var data := GetPiece(src, f, vars);
      RenderAppend(src, fs, i, vars);
      RenderPrefix(src, fs, i + 1, vars);
      RenderPrefix(src, fs, i, vars);
      if written + |data| + 1 > destSize {
        dest[written] := 0;
        return -1;
      }
      ghost var before := dest[..written];
      forall k | 0 <= k < |data| { dest[written + k] := data[k]; }
      assert dest[..written + |data|] == before + data;
      written := written + |data|;
    }
    assert fs[..fragments.Length] == fs;
    dest[written] := 0;
    ret := written;
  }

  method GetPiece(src: seq<byte>, f: Fragment, vars: seq<TplVar>) returns (data: seq<byte>)
    requires InSource(src, f)
    ensures data == Piece(src, f, vars)
  {
    if f.Literal? {
      data := src[f.start..f.start + f.len];
    } else {
      data := Find(src[f.start..f.start + f.len], vars);
    }
  }
}
