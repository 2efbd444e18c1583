/**
 * The prime-sized resize policy shared by both tables: `isPrime` tries the
 * divisors 2, 3, ... up to the square root of its argument and
 * `findNextPrime` counts upwards until `isPrime` accepts.
 */
module Primes {

  /** d divides n (named so that quantifiers over d have a trigger). */
  predicate Divides(d: nat, n: nat)
    requires d > 0
  {
    n % d == 0
  }

  /** What isPrime accepts: no divisor i with 2 <= i and i*i <= n. */
  ghost predicate PassesTrialDivision(n: nat)
  {
    forall i: nat :: 2 <= i && i * i <= n ==> !Divides(i, n)
  }

  /** Primality in the textbook sense. */
  ghost predicate Prime(n: nat)
  {
    n >= 2 && forall d: nat :: 2 <= d < n ==> !Divides(d, n)
  }

  /** p is what findNextPrime(n) returns: the least m >= n that passes trial division. */
  ghost predicate IsNextPrime(n: nat, p: nat)
  {
    n <= p && PassesTrialDivision(p) && forall k: nat :: n <= k < p ==> !PassesTrialDivision(k)
  }

  // ---------------------------------------------------------------------
  // Arithmetic helpers

  lemma MulAtLeast(k: int, m: int)
    requires k >= 1 && m > 0
    ensures k * m >= m
  {
    assert k * m == (k - 1) * m + m;
    assert (k - 1) * m >= 0;
  }

  lemma ModUnique(a: int, q: int, r: int, m: int)
    requires m > 0 && 0 <= r < m && a == q * m + r
    ensures a % m == r && a / m == q
  {
    var q0, r0 := a / m, a % m;
    assert a == q0 * m + r0;
    assert (q - q0) * m == q * m - q0 * m;
    if q > q0 {
      MulAtLeast(q - q0, m);
    } else if q < q0 {
      assert (q0 - q) * m == q0 * m - q * m;
      MulAtLeast(q0 - q, m);
    }
  }

  lemma MulMono(a: nat, b: nat)
    requires a <= b
    ensures a * a <= b * b
  {
    assert a * a <= a * b <= b * b;
  }

  lemma DividesTrans(p: nat, d: nat, m: nat)
    requires p > 0 && d > 0 && Divides(p, d) && Divides(d, m)
    ensures Divides(p, m)
  {
    var a, b := m / d, d / p;
    assert m == d * a;
    assert d == p * b;
    assert m == (b * a) * p + 0;
    ModUnique(m, b * a, 0, p);
  }

  // ---------------------------------------------------------------------
  // Trial division up to the square root decides primality

  lemma MulLeft(d: nat, a: nat, b: nat)
    ensures a <= b ==> d * a <= d * b
  {
    if a <= b {
      assert d * b == d * a + d * (b - a);
    }
  }

  /** A proper divisor d of n has a cofactor e with d * e == n, and one of the two is at most the square root. */
  lemma SmallDivisor(n: nat, d: nat) returns (s: nat)
    requires 2 <= d < n && Divides(d, n)
    ensures 2 <= s && s * s <= n && Divides(s, n)
  {
    var e: nat := n / d;
    assert n == d * e;
    MulLeft(d, e, 1);
    ModUnique(n, d, 0, e);
    if d * d <= n {
      s := d;
    } else {
      MulLeft(d, d, e);
      MulLeft(e, e, d);
      s := e;
    }
  }

  lemma {:induction false} TrialDivisionDecidesPrimality(n: nat)
    requires n >= 2
    ensures PassesTrialDivision(n) <==> Prime(n)
  {
    if Prime(n) {
      forall i: nat | 2 <= i && i * i <= n
        ensures !Divides(i, n)
      {
        MulLeft(i, 2, i);
      }
    } else {
      var d: nat :| 2 <= d < n && Divides(d, n);
      var s := SmallDivisor(n, d);
    }
  }

  // ---------------------------------------------------------------------
  // A prime above every bound (Euclid), so findNextPrime terminates

  function Fact(n: nat): (r: nat)
    ensures r >= 1
  {
    if n == 0 then 1 else n * Fact(n - 1)
  }

  lemma {:induction false} FactDivisible(n: nat, d: nat)
    requires 1 <= d <= n
    ensures Divides(d, Fact(n))
  {
    if d == n {
      ModUnique(Fact(n), Fact(n - 1), 0, d);
    } else {
      FactDivisible(n - 1, d);
      var q := Fact(n - 1) / d;
      assert Fact(n - 1) == q * d;
      assert Fact(n) == (n * q) * d + 0;
      ModUnique(Fact(n), n * q, 0, d);
    }
  }

  lemma {:induction false} PrimeDivisor(m: nat) returns (p: nat)
    requires m >= 2
    ensures 2 <= p <= m && Divides(p, m) && Prime(p)
    decreases m
  {
    if Prime(m) {
      p := m;
      ModUnique(m, 1, 0, m);
    } else {
      var d: nat :| 2 <= d < m && Divides(d, m);
      p := PrimeDivisor(d);
      DividesTrans(p, d, m);
    }
  }

  lemma PrimeAbove(n: nat) returns (p: nat)
    ensures p > n && Prime(p) && PassesTrialDivision(p)
  {
    var m := Fact(n) + 1;
    if n <= 1 {
      p := 2;
      assert forall i: nat :: 2 <= i ==> i * i > 2 by {
        forall i: nat | 2 <= i ensures i * i > 2 { MulMono(2, i); }
      }
    } else {
      FactDivisible(n, 2);
      p := PrimeDivisor(m);
      if p <= n {
        FactDivisible(n, p);
        var q := Fact(n) / p;
        assert Fact(n) == q * p;
        ModUnique(m, q, 1, p);
        assert false;
      }
      TrialDivisionDecidesPrimality(p);
    }
  }

  lemma ExistsPrimeAbove(n: nat)
    ensures exists p: nat :: p > n && PassesTrialDivision(p)
  {
    var p := PrimeAbove(n);
  }

  ghost function NextPrimeFrom(n: nat, m: nat, w: nat): (p: nat)
    requires n <= m <= w && PassesTrialDivision(w)
    requires forall k: nat :: n <= k < m ==> !PassesTrialDivision(k)
    ensures IsNextPrime(n, p)
    decreases w - m
  {
    if PassesTrialDivision(m) then m else NextPrimeFrom(n, m + 1, w)
  }

  /** The value findNextPrime(n) returns; it exists and is unique. */
  ghost function NextPrime(n: nat): (p: nat)
    ensures IsNextPrime(n, p)
    ensures forall q: nat :: IsNextPrime(n, q) ==> q == p
  {
    ExistsPrimeAbove(n);
    var w: nat :| w >= n && PassesTrialDivision(w);
    NextPrimeFrom(n, n, w)
  }

  // ---------------------------------------------------------------------
  // The two routines

  /** isPrime(n): trial division by 2, 3, ... while i*i <= n. */
  method IsPrime(n: nat) returns (b: bool)
    ensures b == PassesTrialDivision(n)
    ensures n >= 2 ==> (b <==> Prime(n))
  {
    var i: nat := 2;
    while i * i <= n
      invariant 2 <= i
      invariant forall d: nat :: 2 <= d < i ==> !Divides(d, n)
      decreases n + 1 - i
    {
      if n % i == 0 {
        assert Divides(i, n);
        if n >= 2 { TrialDivisionDecidesPrimality(n); }
        return false;
      }
      assert i <= i * i;
      i := i + 1;
    }
    forall d: nat | 2 <= d && d * d <= n
      ensures !Divides(d, n)
    {
      if d >= i { MulMono(i, d); }
    }
    if n >= 2 { TrialDivisionDecidesPrimality(n); }
    return true;
  }

  /** findNextPrime(n): increments n until isPrime accepts it. */
  method FindNextPrime(n: nat) returns (r: nat)
    ensures IsNextPrime(n, r)
    ensures n >= 2 ==> Prime(r) && forall k: nat :: n <= k < r ==> !Prime(k)
  {
    ghost var w := PrimeAbove(n);
    r := n;
    var p := IsPrime(r);
    while !p
      invariant n <= r <= w
      invariant p == PassesTrialDivision(r)
      invariant forall k: nat :: n <= k < r ==> !PassesTrialDivision(k)
      decreases w - r
    {
      r := r + 1;
      p := IsPrime(r);
    }
    if n >= 2 {
      TrialDivisionDecidesPrimality(r);
      forall k: nat | n <= k < r ensures !Prime(k) {
        TrialDivisionDecidesPrimality(k);
      }
    }
  }
}
