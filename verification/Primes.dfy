/** The primality test and the search for the next prime that size the hash table. */
module Primes {
  predicate Divides(d: nat, n: nat)
    requires d > 0
  {
    n % d == 0
  }

  ghost predicate IsPrime(n: nat) {
    n >= 2 && forall d | 2 <= d < n :: !Divides(d, n)
  }

  // ----- Divisibility -----

  lemma MulMonotone(d: nat, a: nat, b: nat)
    ensures a <= b ==> d * a <= d * b
  {
    if a <= b { assert d * b == d * a + d * (b - a); }
  }

  lemma UniqueQuotient(d: nat, q: nat, r: nat, n: nat)
    requires d > 0 && r < d && n == d * q + r
    ensures n / d == q && n % d == r
  {
    var k := n / d;
    assert n == d * k + n % d;
    MulMonotone(d, q + 1, k);
    MulMonotone(d, k + 1, q);
  }

  lemma MultipleDivides(d: nat, q: nat, n: nat)
    requires d > 0 && n == d * q
    ensures Divides(d, n)
  {
    UniqueQuotient(d, q, 0, n);
  }

  lemma Quotient(d: nat, n: nat) returns (q: nat)
    requires d > 0 && Divides(d, n)
    ensures n == d * q
  {
    q := n / d;
  }

  /** A divisor of a divisor is a divisor. */
  lemma DividesTransitive(e: nat, d: nat, n: nat)
    requires e > 0 && d > 0 && Divides(e, d) && Divides(d, n)
    ensures Divides(e, n)
  {
    hide Divides;
    var q := Quotient(e, d);
    var k := Quotient(d, n);
    assert n == (e * q) * k == e * (q * k);
    MultipleDivides(e, q * k, n);
  }

  lemma NotBothDivide(d: nat, a: nat)
    requires d >= 2 && Divides(d, a)
    ensures !Divides(d, a + 1)
  {
    var q := Quotient(d, a);
    UniqueQuotient(d, q, 1, a + 1);
  }

  // ----- There is always a larger prime -----

  function Factorial(n: nat): (f: nat)
    ensures f >= 1
  {
    if n == 0 then 1 else n * Factorial(n - 1)
  }

  lemma {:induction false} FactorialDivisible(n: nat, d: nat)
    requires 1 <= d <= n
    ensures Divides(d, Factorial(n))
  {
    hide Divides;
    if d == n {
      MultipleDivides(n, Factorial(n - 1), Factorial(n));
    } else {
      FactorialDivisible(n - 1, d);
      MultipleDivides(Factorial(n - 1), n, Factorial(n));
      DividesTransitive(d, Factorial(n - 1), Factorial(n));
    }
  }

  lemma {:induction false} PrimeDivisor(n: nat) returns (p: nat)
    requires n >= 2
    ensures IsPrime(p) && p <= n && Divides(p, n)
    decreases n
  {
    hide Divides;
    if IsPrime(n) {
      p := n;
      MultipleDivides(n, 1, n);
    } else {
      var d :| 2 <= d < n && Divides(d, n);
      p := PrimeDivisor(d);
      DividesTransitive(p, d, n);
    }
  }

  /** Primes are unbounded. */
  lemma PrimeAbove(n: nat) returns (p: nat)
    ensures IsPrime(p) && p > n
  {
    hide Divides, Factorial;
    p := PrimeDivisor(Factorial(n) + 1);
    if p <= n {
      FactorialDivisible(n, p);
      NotBothDivide(p, Factorial(n));
      assert false;
    }
  }

  // ----- The test -----

  lemma NotDivisibleBy(e: nat, d: nat, n: nat)
    requires e > 0 && d > 0 && Divides(e, d) && !Divides(e, n)
    ensures !Divides(d, n)
  {
    if Divides(d, n) { DividesTransitive(e, d, n); }
  }

  lemma SixResidues(i: nat)
    requires i % 6 == 5
    ensures Divides(2, i + 1) && Divides(2, i + 3) && Divides(3, i + 4) && Divides(2, i + 5)
  {
  }

  /** Between one 6k-1 and the next only two numbers are divisible by neither 2 nor 3. */
  lemma SixStep(n: nat, i: nat)
    requires i % 6 == 5 && !Divides(2, n) && !Divides(3, n) && !Divides(i, n) && !Divides(i + 2, n)
    ensures forall d | i <= d < i + 6 :: !Divides(d, n)
  {
    hide Divides;
    SixResidues(i);
    forall d | i <= d < i + 6 ensures !Divides(d, n) {
      if d == i + 1 || d == i + 3 || d == i + 5 { NotDivisibleBy(2, d, n); }
      if d == i + 4 { NotDivisibleBy(3, d, n); }
    }
  }

  lemma Cofactor(n: nat, d: nat) returns (q: nat)
    requires 2 <= d < n && Divides(d, n)
    ensures 2 <= q < n && n == d * q && Divides(q, n)
  {
    hide Divides;
    q := Quotient(d, n);
    MulMonotone(d, q, 1);
    MulMonotone(q, 2, d);
    assert q * d == n;
    MultipleDivides(q, d, n);
  }

  /** Trial division up to the square root is enough. */
  lemma NoSmallDivisor(n: nat, i: nat)
    requires n >= 2 && i * i > n && forall d | 2 <= d < i :: !Divides(d, n)
    ensures IsPrime(n)
  {
    hide Divides;
    forall d | 2 <= d < n ensures !Divides(d, n) {
      if Divides(d, n) {
        var q := Cofactor(n, d);
        MulMonotone(i, i, q);
        MulMonotone(q, i, d);
      }
    }
  }

  method TestPrime(n: nat) returns (prime: bool)
    ensures prime <==> IsPrime(n)
  {
    if n < 2 { return false; }
    if n == 2 || n == 3 { return true; }
    if n % 2 == 0 || n % 3 == 0 {
      assert Divides(2, n) || Divides(3, n);
      return false;
    }
    var i := 5;
    NotDivisibleBy(2, 4, n);
    while i * i <= n
      invariant i % 6 == 5 && forall d | 2 <= d < i :: !Divides(d, n)
      decreases n - i * i
    {
      MulMonotone(i, 5, i);
      if n % i == 0 || n % (i + 2) == 0 {
        assert Divides(i, n) || Divides(i + 2, n);
        return false;
      }
      SixStep(n, i);
      assert (i + 6) * (i + 6) == i * i + 12 * i + 36;
      i := i + 6;
    }
    NoSmallDivisor(n, i);
    prime := true;
  }

  /** What the search returns: the least prime not below n, except that it passes over 2. */
  ghost predicate IsNextPrime(n: nat, p: nat) {
    IsPrime(p) && n <= p && (if n == 2 then p == 3 else forall q | n <= q < p :: !IsPrime(q))
  }

  lemma EvenNotPrime(n: nat)
    requires n > 2 && n % 2 == 0
    ensures !IsPrime(n)
  {
    assert Divides(2, n);
  }

  lemma ThreeIsPrime()
    ensures IsPrime(3)
  {
  }

  method NextPrime(n: nat) returns (p: nat)
    ensures IsNextPrime(n, p)
  {
    hide Divides;
    if n < 2 { return 2; }
    p := if n % 2 == 0 then n + 1 else n;
    ghost var bound := PrimeAbove(n + 1);
    if n % 2 == 0 && n > 2 { EvenNotPrime(n); }
    ThreeIsPrime();
    var prime := TestPrime(p);
    while !prime
      invariant n <= p <= bound && p % 2 == 1 && (prime <==> IsPrime(p)) && IsPrime(bound)
      invariant n == 2 ==> p == 3
      invariant forall q | n <= q < p && q != 2 :: !IsPrime(q)
      decreases bound - p
    {
      EvenNotPrime(p + 1);
      p := p + 2;
      prime := TestPrime(p);
    }
  }

  /** The search is a function of where it starts. */
  lemma NextPrimeUnique(n: nat, p: nat, q: nat)
    requires IsNextPrime(n, p) && IsNextPrime(n, q)
    ensures p == q
  {
  }
}
