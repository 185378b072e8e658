/** The number a Content-Length holds: strtol reads back what was printed, and on any text the number it starts with. */
module HttpNumbers {
  import opened Bytes
  import opened HttpGrammar
  import opened HttpRequests
  import opened HttpResponse

  predicate AllDigits(d: seq<byte>) {
    forall k | 0 <= k < |d| :: '0' as int <= d[k] <= '9' as int
  }

  /** The number a row of digits spells in base ten, `acc` standing before them. */
  function ValueAfter(acc: nat, d: seq<byte>): nat
    requires AllDigits(d)
  {
    if d == [] then acc else 10 * ValueAfter(acc, d[..|d| - 1]) + (d[|d| - 1] - '0' as int)
  }

  lemma {:induction false} ValueFirst(acc: nat, d: seq<byte>)
    requires d != [] && AllDigits(d)
    ensures ValueAfter(acc, d) == ValueAfter(10 * acc + (d[0] - '0' as int), d[1..])
    decreases |d|
  {
    var n := |d| - 1;
    if n == 0 {
      assert d[..0] == [] && d[1..] == [];
    } else {
      ValueFirst(acc, d[..n]);
      assert d[..n][1..] == d[1..][..n - 1];
    }
  }

  lemma {:induction false} DigitsRead(d: seq<byte>, rest: seq<byte>, acc: nat)
    requires AllDigits(d) && (rest == [] || !IsDigit(rest[0]))
    ensures Digits(d + rest, acc) == ValueAfter(acc, d)
    decreases |d|
  {
    if d == [] {
      assert d + rest == rest;
    } else {
      assert (d + rest)[1..] == d[1..] + rest;
      DigitsRead(d[1..], rest, 10 * acc + (d[0] - '0' as int));
      ValueFirst(acc, d);
    }
  }

  /** What isspace accepts. */
  const SPACE_CHARS: seq<byte> := [SP, HT, LF, 11, 12, CR]

  predicate AllSpace(w: seq<byte>) {
    forall k | 0 <= k < |w| :: w[k] in SPACE_CHARS
  }

  lemma {:induction false} SpaceSkipped(w: seq<byte>, v: seq<byte>)
    requires AllSpace(w)
    ensures Strtol(w + v) == Strtol(v)
    decreases |w|
  {
    if w == [] {
      assert w + v == v;
    } else {
      assert (w + v)[1..] == w[1..] + v;
      SpaceSkipped(w[1..], v);
    }
  }

  /** Within the range of a long. */
  function Saturated(n: int): int {
    if n < -0x8000_0000_0000_0000 then -0x8000_0000_0000_0000 else if n > 0x7fff_ffff_ffff_ffff then 0x7fff_ffff_ffff_ffff else n
  }

  /** White space, perhaps a sign, digits, anything that is no digit: the number of the digits is read. */
  lemma StrtolReads(w: seq<byte>, sign: seq<byte>, d: seq<byte>, rest: seq<byte>)
    requires AllSpace(w) && AllDigits(d) && (rest == [] || !AllDigits(rest[..1]))
    requires sign == [] || sign == Ascii("+") || sign == Ascii("-")
    requires sign + d == [] && rest != [] ==> rest[0] !in SPACE_CHARS && rest[0] != '+' as int && rest[0] != '-' as int
    ensures var n: int := ValueAfter(0, d);
            Strtol(w + (sign + (d + rest))) == Saturated(if sign == Ascii("-") then -n else n)
  {
    SpaceSkipped(w, sign + (d + rest));
    DigitsRead(d, rest, 0);
    var v := sign + (d + rest);
    if sign == [] {
      assert v == d + rest;
    } else {
      assert v[1..] == d + rest;
    }
  }

  lemma {:induction false} DecimalValue(n: nat)
    ensures AllDigits(Decimal(n)) && ValueAfter(0, Decimal(n)) == n
  {
    if n < 10 {
      assert Decimal(n)[..0] == [];
    } else {
      DecimalValue(n / 10);
      var d := Decimal(n);
      assert d[..|d| - 1] == Decimal(n / 10);
    }
  }

  function Pow10(k: nat): nat {
    if k == 0 then 1 else 10 * Pow10(k - 1)
  }

  lemma {:induction false} DecimalShort(n: nat, k: nat)
    requires n < Pow10(k) && k > 0
    ensures |Decimal(n)| <= k
  {
    if n >= 10 {
      assert Pow10(1) == 10;
      DecimalShort(n / 10, k - 1);
    }
  }

  /** A printed length that a long can hold fits the reading buffer and is read back. */
  lemma PrintedIsRead(n: nat)
    requires n <= LONG_MAX
    ensures |Decimal(n)| <= 19 < MAX_NUMBER_LEN && Strtol(Decimal(n)) == n
  {
    DecimalValue(n);
    StrtolReads([], [], Decimal(n), []);
    assert [] + ([] + (Decimal(n) + [])) == Decimal(n);
    assert Pow10(5) == 100000;
    assert Pow10(10) == 100000 * 100000;
    assert Pow10(15) == 100000 * 100000 * 100000;
    assert Pow10(19) == 10000 * 100000 * 100000 * 100000;
    DecimalShort(n, 19);
  }
}
