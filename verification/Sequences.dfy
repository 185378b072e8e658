/** Sequences without repetition, and taking one element out. */
module Sequences {
  ghost predicate Distinct<T>(s: seq<T>) {
    forall i, j | 0 <= i < j < |s| :: s[i] != s[j]
  }

  lemma DistinctFront<T>(x: T, s: seq<T>)
    requires Distinct(s) && x !in s
    ensures Distinct([x] + s)
  {
    var t := [x] + s;
    assert forall k | 0 < k < |t| :: t[k] == s[k - 1];
  }

  lemma InFront<T>(x: T, s: seq<T>)
    ensures x in [x] + s && (forall y | y in s :: y in [x] + s) && (forall y | y in [x] + s :: y == x || y in s)
  {
    assert ([x] + s)[0] == x && forall k | 0 <= k < |s| :: ([x] + s)[k + 1] == s[k];
  }

  lemma {:induction false} DistinctCardinality<T>(s: seq<T>)
    requires Distinct(s)
    ensures |set x | x in s| == |s|
  {
    if s != [] {
      var t := s[..|s| - 1];
      DistinctCardinality(t);
      assert (set x | x in s) == (set x | x in t) + {s[|s| - 1]};
    }
  }

  lemma SameCardinality<T>(s: seq<T>, m: set<T>)
    requires Distinct(s) && (forall x | x in s :: x in m) && (forall x | x in m :: x in s)
    ensures |s| == |m|
  {
    DistinctCardinality(s);
    assert (set x | x in s) == m;
  }

  lemma {:induction false} SubsetCardinality<T>(a: set<T>, b: set<T>)
    requires a <= b
    ensures |a| <= |b|
    decreases |a|
  {
    if a != {} {
      var x :| x in a;
      SubsetCardinality(a - {x}, b - {x});
    }
  }

  function Without<T>(s: seq<T>, i: nat): (r: seq<T>)
    requires i < |s|
    ensures |r| == |s| - 1
  {
    s[..i] + s[i + 1..]
  }

  function Remove<T(==)>(s: seq<T>, x: T): (r: seq<T>) {
    if s == [] then [] else if s[0] == x then s[1..] else [s[0]] + Remove(s[1..], x)
  }

  lemma {:induction false} RemoveMembers<T>(s: seq<T>, x: T)
    requires Distinct(s) && x in s
    ensures |Remove(s, x)| == |s| - 1
    ensures forall y | y in Remove(s, x) :: y in s && y != x
    ensures forall y | y in s && y != x :: y in Remove(s, x)
  {
    assert s == [s[0]] + s[1..];
    if s[0] == x {
      assert x !in s[1..];
    } else {
      RemoveMembers(s[1..], x);
    }
  }

  lemma {:induction false} RemoveDistinct<T>(s: seq<T>, x: T)
    requires Distinct(s) && x in s
    ensures Distinct(Remove(s, x))
  {
    if s[0] != x {
      RemoveDistinct(s[1..], x);
      RemoveMembers(s[1..], x);
      var rest := Remove(s[1..], x);
      assert s[0] !in s[1..];
      assert forall k | 0 <= k < |rest| :: rest[k] in s[1..];
      hide Remove;
      assert Distinct([s[0]] + rest);
    }
  }

  lemma DistinctWithout<T>(was: seq<T>, i: nat)
    requires Distinct(was) && i < |was|
    ensures Distinct(Without(was, i))
  {
    var now := Without(was, i);
    assert forall k | 0 <= k < |now| :: now[k] == was[if k < i then k else k + 1];
  }

  lemma {:induction false} RemoveAt<T>(s: seq<T>, i: nat)
    requires Distinct(s) && i < |s|
    ensures Remove(s, s[i]) == Without(s, i)
  {
    if i > 0 {
      RemoveAt(s[1..], i - 1);
      assert s[0] != s[i];
      assert [s[0]] + Without(s[1..], i - 1) == Without(s, i);
    }
  }
}
