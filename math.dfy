/**
 * The number-theory kernel of MPI/src/math.c: a Sieve of Eratosthenes that
 * fills a fixed boolean prime table, a greatest-common-factor routine with a
 * prime shortcut in front of Euclid's algorithm, and Euler's totient counted
 * by repeated calls to that routine.
 *
 * The C globals `primeCache` / `nPrimeCache` become an `array<bool>` passed to
 * each method; `nPrimeCache` is that array's `Length`.
 */
module NumberTheory {

  /** Size of the prime table the source allocates (PRIME_CACHE_KB * 1024). */
  const PrimeCacheSize: nat := 100 * 1024

  // ---------------------------------------------------------------------
  // Specification: divisibility, primality, gcd, totient
  // ---------------------------------------------------------------------

  /** d divides n; zero divides only zero. */
  predicate Divides(d: nat, n: nat) {
    if d == 0 then n == 0 else n % d == 0
  }

  /** n is prime: at least 2 and without a divisor strictly between 1 and n. */
  predicate IsPrime(n: nat) {
    n >= 2 && forall d: nat :: 2 <= d < n ==> !Divides(d, n)
  }

  /** The table classifies every index it holds correctly. */
  predicate IsPrimeTable(table: seq<bool>) {
    forall i :: 0 <= i < |table| ==> table[i] == IsPrime(i)
  }

  /** The greatest common divisor, by Euclid's recurrence (Gcd(0, 0) == 0). */
  function Gcd(a: nat, b: nat): nat
    decreases b
  {
    if b == 0 then a else Gcd(b, a % b)
  }

  /** Number of i in [1, k) with Gcd(n, i) == 1. */
  function CoprimeCount(n: nat, k: nat): (c: nat)
    ensures k <= 1 ==> c == 0
    ensures k >= 1 ==> c <= k - 1
  {
    if k <= 1 then 0
    else CoprimeCount(n, k - 1) + (if Gcd(n, k - 1) == 1 then 1 else 0)
  }

  /** Euler's totient as the source defines it: the i in [1, n) coprime to n. */
  function Totient(n: int): (t: nat)
    ensures n <= 1 ==> t == 0
    ensures n >= 1 ==> t <= n - 1
  {
    if n <= 1 then 0 else CoprimeCount(n, n)
  }

  /** The set the totient counts. */
  ghost function CoprimesBelow(n: nat, k: nat): set<nat> {
    set i: nat | 1 <= i < k && Gcd(n, i) == 1
  }

  // ---------------------------------------------------------------------
  // Arithmetic facts
  // ---------------------------------------------------------------------

  /** Euclidean division has a unique quotient and remainder. */
  lemma DivModUnique(n: int, d: int, q: int, r: int)
    requires d > 0 && n == d * q + r && 0 <= r < d
    ensures n / d == q && n % d == r
  {
    var k := q - n / d;
    assert d * k == n % d - r;
    assert k >= 1 ==> d * k >= d;
    assert k <= -1 ==> d * k <= -d;
  }

  /** A positive number has no divisor other than those in [1, n]. */
  lemma DivisorIsAtMost(d: nat, n: nat)
    requires n > 0 && Divides(d, n)
    ensures 1 <= d <= n
  {
  }

  /** If g divides both the divisor and the remainder of a division, it divides the dividend. */
  lemma FactorCommon(a: int, b: int, q: int, r: int, g: int, x: int, y: int)
    requires a == b * q + r && b == g * x && r == g * y
    ensures a == g * (x * q + y)
  {
    calc {
      a;
      b * q + r;
      (g * x) * q + g * y;
      g * (x * q + y);
    }
  }

  // ---------------------------------------------------------------------
  // Gcd is the greatest common divisor
  // ---------------------------------------------------------------------

  lemma {:induction false} GcdDividesBoth(a: nat, b: nat)
    ensures Divides(Gcd(a, b), a) && Divides(Gcd(a, b), b)
    decreases b
  {
    if b == 0 {
      if a != 0 { DivModUnique(a, a, 1, 0); }
    } else {
      var r := a % b;
      var g := Gcd(b, r);
      GcdDividesBoth(b, r);
      assert g != 0;
      var x, y, q := b / g, r / g, a / b;
      assert b == g * x && r == g * y;
      FactorCommon(a, b, q, r, g, x, y);
      DivModUnique(a, g, x * q + y, 0);
    }
  }

  lemma {:induction false} CommonDivisorDividesGcd(a: nat, b: nat, d: nat)
    requires Divides(d, a) && Divides(d, b)
    ensures Divides(d, Gcd(a, b))
    decreases b
  {
    if b != 0 {
      var r := a % b;
      assert d != 0;
      var x, y, q := a / d, b / d, a / b;
      assert a == d * x && b == d * y;
      calc {
        r;
        a - b * q;
        d * x - (d * y) * q;
        d * (x - y * q);
      }
      DivModUnique(r, d, x - y * q, 0);
      CommonDivisorDividesGcd(b, r, d);
    }
  }

  lemma GcdCommutes(a: nat, b: nat)
    ensures Gcd(a, b) == Gcd(b, a)
  {
    if a < b {
      DivModUnique(a, b, 0, a);
    } else if b < a {
      DivModUnique(b, a, 0, b);
    }
  }

  /** A prime shares no factor but 1 with any smaller positive number. */
  lemma GcdWithSmallerThanPrime(p: nat, b: nat)
    requires IsPrime(p) && 1 <= b < p
    ensures Gcd(p, b) == 1 && Gcd(b, p) == 1
  {
    var g := Gcd(p, b);
    GcdDividesBoth(p, b);
    DivisorIsAtMost(g, b);
    GcdCommutes(p, b);
  }

  // ---------------------------------------------------------------------
  // gcf: the prime shortcut, then Euclid
  // ---------------------------------------------------------------------

  /** The shortcut test of gcf: the operands differ and the larger one is a cached prime. */
  function TakesShortcut(table: seq<bool>, a: nat, b: nat): (t: bool)
    ensures t <==> a != b && (if a > b then a else b) < |table| && table[if a > b then a else b]
  {
    (a > b && a < |table| && table[a]) || (b > a && b < |table| && table[b])
  }

  /** With a correct table and positive operands, the shortcut answers 1 only when 1 is the gcd. */
  lemma ShortcutAnswersGcd(table: seq<bool>, a: nat, b: nat)
    ensures IsPrimeTable(table) && a >= 1 && b >= 1 && TakesShortcut(table, a, b) ==> Gcd(a, b) == 1
  {
    if IsPrimeTable(table) && a >= 1 && b >= 1 {
      if a > b && a < |table| && table[a] {
        GcdWithSmallerThanPrime(a, b);
      } else if b > a && b < |table| && table[b] {
        GcdWithSmallerThanPrime(b, a);
      }
    }
  }

  lemma GcdOfSelf(n: nat)
    ensures Gcd(n, n) == n
  {
    if n != 0 {
      DivModUnique(n, n, 1, 0);
      assert Gcd(n, n) == Gcd(n, 0);
    }
  }

  /**
   * What gcf returns for a table and two operands. The comparisons are strict, so equal
   * operands skip the shortcut; with a correct table the shortcut never changes the result
   * on positive operands.
   */
  function GcfValue(table: seq<bool>, a: nat, b: nat): (r: nat)
    ensures IsPrimeTable(table) && a >= 1 && b >= 1 ==> r == Gcd(a, b)
    ensures a == b ==> r == a
    ensures a >= 1 && b == 1 ==> r == 1
  {
    ShortcutAnswersGcd(table, a, b);
    GcdOfSelf(a);
    if TakesShortcut(table, a, b) then 1 else Gcd(a, b)
  }

  /** As written, a cached prime paired with 0, in either order, takes the shortcut and gives 1, not p. */
  lemma GcfOfPrimeAndZero(table: seq<bool>, p: nat)
    requires IsPrimeTable(table) && p < |table| && IsPrime(p)
    ensures GcfValue(table, p, 0) == 1 && Gcd(p, 0) == p
    ensures GcfValue(table, 0, p) == 1 && Gcd(0, p) == p
  {
  }

  method Gcf(cache: array<bool>, a: nat, b: nat) returns (r: nat)
    ensures r == GcfValue(cache[..], a, b)
    ensures IsPrimeTable(cache[..]) && a >= 1 && b >= 1 ==> r == Gcd(a, b)
  {
    if (a > b && a < cache.Length && cache[a]) || (b > a && b < cache.Length && cache[b]) {
      r := 1;
    } else {
      var x, y := a, b;
      while y != 0
        invariant Gcd(x, y) == Gcd(a, b)
        decreases y
      {
        var temp := x % y;
        x := y;
        y := temp;
      }
      r := x;
    }
  }

  // ---------------------------------------------------------------------
  // eulerTotient
  // ---------------------------------------------------------------------

  lemma {:induction false} CoprimeCountIsCardinality(n: nat, k: nat)
    ensures CoprimeCount(n, k) == |CoprimesBelow(n, k)|
  {
    if k <= 1 {
      assert CoprimesBelow(n, k) == {};
    } else {
      CoprimeCountIsCardinality(n, k - 1);
      var below := CoprimesBelow(n, k - 1);
      assert k - 1 !in below;
      if Gcd(n, k - 1) == 1 {
        assert CoprimesBelow(n, k) == below + {k - 1};
      } else {
        assert CoprimesBelow(n, k) == below;
      }
    }
  }

  /** The totient counts exactly the i in [1, n) with Gcd(n, i) == 1. */
  lemma TotientCountsCoprimes(n: nat)
    ensures Totient(n) == |CoprimesBelow(n, n)|
  {
    CoprimeCountIsCardinality(n, n);
  }

  lemma {:induction false} AllBelowPrimeAreCoprime(p: nat, k: nat)
    requires IsPrime(p) && 1 <= k <= p
    ensures CoprimeCount(p, k) == k - 1
  {
    if k > 1 {
      AllBelowPrimeAreCoprime(p, k - 1);
      GcdWithSmallerThanPrime(p, k - 1);
    }
  }

  lemma TotientOfPrime(p: nat)
    requires IsPrime(p)
    ensures Totient(p) == p - 1
  {
    AllBelowPrimeAreCoprime(p, p);
  }

  method EulerTotient(cache: array<bool>, n: int) returns (count: int)
    requires IsPrimeTable(cache[..])
    ensures count == Totient(n)
  {
    count := 0;
    var i := 1;
    while i < n
      invariant 1 <= i
      invariant n >= 1 ==> i <= n && count == CoprimeCount(n, i)
      invariant n < 1 ==> i == 1 && count == 0
    {
      var g := Gcf(cache, n, i);
      if g == 1 {
        count := count + 1;
      }
      i := i + 1;
    }
  }

  // ---------------------------------------------------------------------
  // initPrimeCache: the Sieve of Eratosthenes
  // ---------------------------------------------------------------------

  /** k strikes out j: j is a multiple of k that is at least 2 * k. */
  predicate StruckBy(j: nat, k: nat) {
    2 * k <= j && Divides(k, j)
  }

  /** Some k in [2, i) has struck out j. */
  ghost predicate Struck(j: nat, i: nat) {
    exists k: nat :: 2 <= k < i && StruckBy(j, k)
  }

  lemma StruckStep(j: nat, i: nat)
    requires i >= 2
    ensures Struck(j, i + 1) <==> Struck(j, i) || StruckBy(j, i)
  {
  }

  /** Once every k below n has struck its multiples, exactly the primes in [2, n) survive. */
  lemma SurvivorsArePrimes(j: nat, n: nat)
    requires 2 <= j < n
    ensures !Struck(j, n) <==> IsPrime(j)
  {
    if Struck(j, n) {
      var k: nat :| 2 <= k < n && StruckBy(j, k);
      assert 2 <= k < j && Divides(k, j);
    }
    if !IsPrime(j) {
      var d: nat :| 2 <= d < j && Divides(d, j);
      if 2 * d > j {
        DivModUnique(j, d, 1, j - d);
        assert false;
      }
      assert StruckBy(j, d);
    }
  }

  method InitPrimeCache(cache: array<bool>)
    requires cache.Length >= 2
    modifies cache
    ensures IsPrimeTable(cache[..])
  {
    var n := cache.Length;
    for i := 0 to n
      invariant forall j :: 0 <= j < i ==> cache[j]
    {
      cache[i] := true;
    }
    for i := 2 to n
      invariant forall j :: 0 <= j < n ==> cache[j] == !Struck(j, i)
    {
      var d := i * 2;
      DivModUnique(d, i, 2, 0);
      while d < n
        invariant 2 * i <= d && d % i == 0
        invariant forall j :: 0 <= j < n ==> cache[j] == !(Struck(j, i) || (j < d && StruckBy(j, i)))
        decreases n - d
      {
        forall j | d < j < d + i
          ensures !Divides(i, j)
        {
          DivModUnique(j, i, d / i, j - d);
        }
        cache[d] := false;
        DivModUnique(d + i, i, d / i + 1, 0);
        d := d + i;
      }
      forall j | 0 <= j < n
        ensures cache[j] == !Struck(j, i + 1)
      {
        StruckStep(j, i);
      }
    }
    cache[0] := false;
    cache[1] := false;
    forall j | 2 <= j < n
      ensures cache[j] == IsPrime(j)
    {
      SurvivorsArePrimes(j, n);
    }
  }

  /** Allocates the table of PrimeCacheSize entries and runs the sieve over it. */
  method NewPrimeCache() returns (cache: array<bool>)
    ensures fresh(cache) && cache.Length == PrimeCacheSize
    ensures IsPrimeTable(cache[..])
  {
    cache := new bool[PrimeCacheSize];
    InitPrimeCache(cache);
  }

  // ---------------------------------------------------------------------
  // The table for a bound of 30
  // ---------------------------------------------------------------------

  /** Some d in [lo, hi) divides n (a recursive check that literal arguments evaluate). */
  predicate HasDivisorIn(n: nat, lo: nat, hi: nat)
    decreases hi - lo
  {
    lo < hi && (Divides(lo, n) || HasDivisorIn(n, lo + 1, hi))
  }

  lemma {:induction false} HasDivisorInMeans(n: nat, lo: nat, hi: nat)
    ensures HasDivisorIn(n, lo, hi) <==> exists d: nat :: lo <= d < hi && Divides(d, n)
    decreases hi - lo
  {
    if lo < hi {
      HasDivisorInMeans(n, lo + 1, hi);
      if exists d: nat :: lo <= d < hi && Divides(d, n) {
        var d: nat :| lo <= d < hi && Divides(d, n);
        assert d == lo || (lo + 1 <= d < hi && Divides(d, n));
      }
    }
  }

  /** The primes below n, collected one index at a time. */
  function PrimesBelow(n: nat): set<nat> {
    if n == 0 then {}
    else PrimesBelow(n - 1) + (if n - 1 >= 2 && !HasDivisorIn(n - 1, 2, n - 1) then {n - 1} else {})
  }

  lemma {:induction false} PrimesBelowMeans(n: nat)
    ensures PrimesBelow(n) == set i: nat | i < n && IsPrime(i)
  {
    if n > 0 {
      PrimesBelowMeans(n - 1);
      HasDivisorInMeans(n - 1, 2, n - 1);
      assert (set i: nat | i < n && IsPrime(i))
          == (set i: nat | i < n - 1 && IsPrime(i)) + (if IsPrime(n - 1) then {n - 1} else {});
    }
  }

  lemma {:induction false} HasDivisorInSplit(n: nat, lo: nat, mid: nat, hi: nat)
    requires lo <= mid <= hi
    ensures HasDivisorIn(n, lo, hi) <==> HasDivisorIn(n, lo, mid) || HasDivisorIn(n, mid, hi)
    decreases mid - lo
  {
    if lo < mid { HasDivisorInSplit(n, lo + 1, mid, hi); }
  }

  lemma PrimesBelowSixteen()
    ensures PrimesBelow(16) == {2, 3, 5, 7, 11, 13}
  {
    assert PrimesBelow(4) == {2, 3};
    assert PrimesBelow(8) == {2, 3, 5, 7};
    assert PrimesBelow(10) == {2, 3, 5, 7};
    assert PrimesBelow(12) == {2, 3, 5, 7, 11};
    assert PrimesBelow(14) == {2, 3, 5, 7, 11, 13};
  }

  // Each search below is evaluated on its own, split in two halves.
  lemma SeventeenHasNoDivisor() ensures !HasDivisorIn(17, 2, 17) { HasDivisorInSplit(17, 2, 10, 17); }
  lemma NineteenHasNoDivisor() ensures !HasDivisorIn(19, 2, 19) { HasDivisorInSplit(19, 2, 12, 19); }
  lemma TwentyThreeHasNoDivisor() ensures !HasDivisorIn(23, 2, 23) { HasDivisorInSplit(23, 2, 12, 23); }
  lemma TwentyNineHasNoDivisor() ensures !HasDivisorIn(29, 2, 29) { HasDivisorInSplit(29, 2, 15, 29); }

  lemma PrimesBelowTwenty()
    ensures PrimesBelow(20) == {2, 3, 5, 7, 11, 13, 17, 19}
  {
    PrimesBelowSixteen();
    SeventeenHasNoDivisor();
    NineteenHasNoDivisor();
    assert PrimesBelow(18) == {2, 3, 5, 7, 11, 13, 17};
  }

  lemma PrimesBelowThirty()
    ensures (set i: nat | i < 30 && IsPrime(i)) == {2, 3, 5, 7, 11, 13, 17, 19, 23, 29}
  {
    PrimesBelowMeans(30);
    PrimesBelowTwenty();
    TwentyThreeHasNoDivisor();
    TwentyNineHasNoDivisor();
    assert HasDivisorIn(25, 2, 25) by { assert Divides(5, 25); }
    assert PrimesBelow(24) == {2, 3, 5, 7, 11, 13, 17, 19, 23};
    assert PrimesBelow(30) == {2, 3, 5, 7, 11, 13, 17, 19, 23, 29};
  }

  /** The sieve run with a bound of 30 marks exactly the ten primes below 30. */
  method MarkedBelowThirty() returns (marked: set<nat>)
    ensures marked == {2, 3, 5, 7, 11, 13, 17, 19, 23, 29}
  {
    var cache := new bool[30];
    InitPrimeCache(cache);
    marked := set i: nat | i < 30 && cache[i];
    assert marked == set i: nat | i < 30 && IsPrime(i);
    PrimesBelowThirty();
  }
}
