/** Divisibility, primality and counting facts that the generators rest on. */
module Arith {

  predicate Divides(d: int, n: int)
    requires d > 0
  {
    n % d == 0
  }

  ghost predicate IsPrime(p: int) {
    p > 1 && forall g :: 1 < g < p ==> !Divides(g, p)
  }

  lemma {:induction false} MultipleIsAtLeast(d: int, k: int)
    requires d > 0 && k >= 1
    ensures d * k >= d
  {
    if k > 1 {
      MultipleIsAtLeast(d, k - 1);
      assert d * k == d * (k - 1) + d;
    }
  }

  lemma QuotientIsUnique(d: int, k: int, s: int, q: int, r: int)
    requires d > 0 && 0 <= r < d && 0 <= s < d && d * k + s == d * q + r
    ensures k == q && s == r
  {
    assert d * (k - q) == d * k - d * q;
    assert d * (q - k) == d * q - d * k;
    if k > q { MultipleIsAtLeast(d, k - q); }
    if k < q { MultipleIsAtLeast(d, q - k); }
  }

  lemma DivMod(n: int, d: int, q: int, r: int)
    requires d > 0 && 0 <= r < d && n == d * q + r
    ensures n / d == q && n % d == r
  {
    var k, s := n / d, n % d;
    QuotientIsUnique(d, k, s, q, r);
  }

  lemma MultipleIsDivisible(d: int, q: int)
    requires d > 0
    ensures Divides(d, d * q)
  {
    DivMod(d * q, d, q, 0);
  }

  lemma Quotient(d: int, n: int) returns (q: int)
    requires d > 0 && Divides(d, n)
    ensures n == d * q
  {
    q := n / d;
  }

  lemma DividesCombination(d: int, a: int, b: int, u: int, v: int)
    requires d > 0 && Divides(d, a) && Divides(d, b)
    ensures Divides(d, u * a + v * b)
  {
    var x := Quotient(d, a);
    var y := Quotient(d, b);
    assert u * a + v * b == d * (u * x + v * y);
    MultipleIsDivisible(d, u * x + v * y);
  }

  /** Two numbers are congruent exactly when they have the same remainder. */
  lemma CongruentIffDivides(a: int, b: int, m: int)
    requires m > 0
    ensures a % m == b % m <==> Divides(m, a - b)
  {
    var qa, ra, qb, rb := a / m, a % m, b / m, b % m;
    assert a == m * qa + ra && b == m * qb + rb;
    if ra == rb {
      assert a - b == m * (qa - qb);
      MultipleIsDivisible(m, qa - qb);
    }
    if Divides(m, a - b) {
      var q := Quotient(m, a - b);
      assert a == m * (q + qb) + rb;
      DivMod(a, m, q + qb, rb);
    }
  }

  // ---------- Bezout and primes ----------

  lemma Bezout(a: nat, b: nat) returns (g: int, u: int, v: int)
    requires a > 0 || b > 0
    ensures g > 0 && Divides(g, a) && Divides(g, b) && g == u * a + v * b
    decreases b
  {
    if b == 0 {
      g, u, v := a, 1, 0;
    } else {
      var q, r := a / b, a % b;
      var u', v';
      g, u', v' := Bezout(b, r);
      u, v := v', u' - q * v';
      assert a == q * b + r;
      DividesCombination(g, b, r, q, 1);
      assert u * a + v * b == v' * (a - q * b) + u' * b;
    }
  }

  lemma DivisorIsAtMost(d: int, n: int)
    requires d > 0 && n > 0 && Divides(d, n)
    ensures d <= n
  {
    var q := Quotient(d, n);
    if q >= 1 { MultipleIsAtLeast(d, q); }
  }

  lemma PrimeBezout(p: int, n: nat) returns (u: int, v: int)
    requires IsPrime(p) && !Divides(p, n)
    ensures 1 == u * n + v * p
  {
    var g;
    g, u, v := Bezout(n, p);
    DivisorIsAtMost(g, p);
    assert !(1 < g < p);
  }

  /** A divisor d of p * m that does not divide m carries the prime p. */
  lemma PrimeDividesOrder(d: nat, p: int, m: nat)
    requires d > 0 && IsPrime(p) && Divides(d, p * m) && !Divides(d, m)
    ensures Divides(p, d)
  {
    if !Divides(p, d) {
      var u, v := PrimeBezout(p, d);
      EuclidStep(d, p, m, u, v);
    }
  }

  lemma EuclidStep(d: nat, p: int, m: nat, u: int, v: int)
    requires d > 0 && Divides(d, p * m) && u * d + v * p == 1
    ensures Divides(d, m)
  {
    MultipleIsDivisible(d, 1);
    DividesCombination(d, d, p * m, m * u, v);
    assert (m * u) * d + v * (p * m) == m * (u * d + v * p);
  }

  lemma Distribute(a: int, b: int, c: int)
    ensures a * (b + c) == a * b + a * c
  {
  }

  lemma NotNegative(a: nat, b: nat)
    ensures a * b >= 0
  {
  }

  lemma MulOrder(s: nat, a: nat, b: nat)
    ensures s * a < s * b ==> a < b
    ensures a < b ==> s * a + s <= s * b
  {
    if b <= a {
      Distribute(s, b, a - b);
      NotNegative(s, a - b);
    } else {
      Distribute(s, b - 1, 1);
      Distribute(s, a, b - 1 - a);
      NotNegative(s, b - 1 - a);
    }
  }

  lemma CoprimeProduct(m: nat, p: int, d: nat)
    requires m > 0 && IsPrime(p) && Divides(m, d) && Divides(p, d) && !Divides(p, m)
    ensures p * m > 0 && Divides(p * m, d)
  {
    var u, v := PrimeBezout(p, m);
    var x := Quotient(m, d);
    var y := Quotient(p, d);
    assert d == d * (u * m + v * p);
    assert d * (u * m) == (p * y) * (u * m) == (p * m) * (u * y);
    assert d * (v * p) == (m * x) * (v * p) == (p * m) * (v * x);
    Distribute(d, u * m, v * p);
    Distribute(p * m, u * y, v * x);
    MultipleIsDivisible(p * m, u * y + v * x);
  }

  // ---------- Trial division ----------

  ghost predicate NoOddDivisor(p: int, hi: int) {
    forall g :: 3 <= g < hi && g % 2 == 1 ==> !Divides(g, p)
  }

  // None of the eight odd numbers from lo divides p.
  predicate EightFree(p: int, lo: int)
    requires lo > 0
  {
    && p % lo != 0 && p % (lo + 2) != 0 && p % (lo + 4) != 0 && p % (lo + 6) != 0
    && p % (lo + 8) != 0 && p % (lo + 10) != 0 && p % (lo + 12) != 0 && p % (lo + 14) != 0
  }

  // The same for 32 odd numbers, written flat so that it evaluates cheaply.
  predicate BlockFree(p: int, lo: int)
    requires lo > 0
  {
    && p % lo != 0 && p % (lo + 2) != 0 && p % (lo + 4) != 0 && p % (lo + 6) != 0
    && p % (lo + 8) != 0 && p % (lo + 10) != 0 && p % (lo + 12) != 0 && p % (lo + 14) != 0
    && p % (lo + 16) != 0 && p % (lo + 18) != 0 && p % (lo + 20) != 0 && p % (lo + 22) != 0
    && p % (lo + 24) != 0 && p % (lo + 26) != 0 && p % (lo + 28) != 0 && p % (lo + 30) != 0
    && p % (lo + 32) != 0 && p % (lo + 34) != 0 && p % (lo + 36) != 0 && p % (lo + 38) != 0
    && p % (lo + 40) != 0 && p % (lo + 42) != 0 && p % (lo + 44) != 0 && p % (lo + 46) != 0
    && p % (lo + 48) != 0 && p % (lo + 50) != 0 && p % (lo + 52) != 0 && p % (lo + 54) != 0
    && p % (lo + 56) != 0 && p % (lo + 58) != 0 && p % (lo + 60) != 0 && p % (lo + 62) != 0
  }

  lemma EightMember(p: int, lo: int, i: int)
    requires lo > 0 && EightFree(p, lo) && 0 <= i < 8
    ensures !Divides(lo + 2 * i, p)
  {
    if i < 4 {
      assert i == 0 || i == 1 || i == 2 || i == 3;
    } else {
      assert i == 4 || i == 5 || i == 6 || i == 7;
    }
  }

  lemma BlockMember(p: int, lo: int, i: int)
    requires lo > 0 && BlockFree(p, lo) && 0 <= i < 32
    ensures !Divides(lo + 2 * i, p)
  {
    if i < 8 {
      EightMember(p, lo, i);
    } else if i < 16 {
      EightMember(p, lo + 16, i - 8);
    } else if i < 24 {
      EightMember(p, lo + 32, i - 16);
    } else {
      EightMember(p, lo + 48, i - 24);
    }
  }

  function NthOdd(lo: int, i: nat): int { lo + 2 * i }

  lemma BlockIsFree(p: int, lo: int)
    requires lo > 0 && BlockFree(p, lo)
    ensures forall i: nat :: i < 32 ==> !Divides(NthOdd(lo, i), p)
  {
    forall i: nat | i < 32 ensures !Divides(NthOdd(lo, i), p) { BlockMember(p, lo, i); }
  }

  lemma Extend(p: int, lo: int)
    requires lo >= 3 && lo % 2 == 1 && NoOddDivisor(p, lo)
    requires forall i: nat :: i < 32 ==> !Divides(NthOdd(lo, i), p)
    ensures NoOddDivisor(p, lo + 64)
  {
    forall g | lo <= g < lo + 64 && g % 2 == 1 ensures !Divides(g, p) {
      assert g == NthOdd(lo, (g - lo) / 2);
    }
  }

  lemma ExtendSieve(p: int, lo: int)
    requires lo >= 3 && lo % 2 == 1 && NoOddDivisor(p, lo) && BlockFree(p, lo)
    ensures NoOddDivisor(p, lo + 64)
  {
    BlockIsFree(p, lo);
    Extend(p, lo);
  }

  /** An odd number without odd divisors up to its square root is prime. */
  lemma TrialDivision(p: int, hi: int)
    requires p > 1 && p % 2 == 1 && hi >= 3 && hi * hi > p && NoOddDivisor(p, hi)
    ensures IsPrime(p)
  {
    forall g | 1 < g < p
      ensures !Divides(g, p)
    {
      if Divides(g, p) {
        var q := Quotient(g, p);
        OddFactor(g, q);
        OddFactor(q, g);
        SmallFactor(g, q, hi);
        MultipleIsDivisible(q, g);
        assert false;
      }
    }
  }

  lemma OddFactor(g: int, q: int)
    requires g * q % 2 == 1
    ensures g % 2 == 1
  {
    var h := g / 2;
    assert g * q == 2 * (h * q) + (g % 2) * q;
    DivMod(g * q - (g % 2) * q, 2, h * q, 0);
  }

  lemma SmallFactor(g: int, q: int, hi: int)
    requires 1 < g < g * q < hi * hi && hi >= 3
    ensures q > 1 && (g < hi || q < hi) && q * g == g * q
  {
    if g >= hi && q >= hi {
      ProductIsMonotone(g, q, hi);
    }
  }

  lemma ProductIsMonotone(g: int, q: int, hi: int)
    requires g >= hi && q >= hi >= 0
    ensures g * q >= hi * hi
  {
    assert (g - hi) * q >= 0 && hi * (q - hi) >= 0;
  }

  lemma SmallFermatPrimes()
    ensures IsPrime(3) && IsPrime(5) && IsPrime(17)
  {
    assert forall g :: 1 < g < 17 ==> !Divides(g, 17);
  }

  lemma Prime257And641()
    ensures IsPrime(257) && IsPrime(641)
  {
    ExtendSieve(257, 3);
    TrialDivision(257, 67);
    ExtendSieve(641, 3);
    TrialDivision(641, 67);
  }

  lemma Prime65537()
    ensures IsPrime(65537)
  {
    var p := 65537;
    ExtendSieve(p, 3);
    ExtendSieve(p, 67);
    ExtendSieve(p, 131);
    ExtendSieve(p, 195);
    TrialDivision(p, 259);
  }

  lemma SieveTo1347()
    ensures NoOddDivisor(6700417, 1347)
  {
    var p := 6700417;
    ExtendSieve(p, 3); ExtendSieve(p, 67); ExtendSieve(p, 131); ExtendSieve(p, 195);
    ExtendSieve(p, 259); ExtendSieve(p, 323); ExtendSieve(p, 387); ExtendSieve(p, 451);
    ExtendSieve(p, 515); ExtendSieve(p, 579); ExtendSieve(p, 643); ExtendSieve(p, 707);
    ExtendSieve(p, 771); ExtendSieve(p, 835); ExtendSieve(p, 899); ExtendSieve(p, 963);
    ExtendSieve(p, 1027); ExtendSieve(p, 1091); ExtendSieve(p, 1155); ExtendSieve(p, 1219);
    ExtendSieve(p, 1283);
  }

  lemma SieveTo1987()
    ensures NoOddDivisor(6700417, 1987)
  {
    var p := 6700417;
    SieveTo1347();
    ExtendSieve(p, 1347); ExtendSieve(p, 1411); ExtendSieve(p, 1475); ExtendSieve(p, 1539);
    ExtendSieve(p, 1603); ExtendSieve(p, 1667); ExtendSieve(p, 1731); ExtendSieve(p, 1795);
    ExtendSieve(p, 1859); ExtendSieve(p, 1923);
  }

  lemma Prime6700417()
    ensures IsPrime(6700417)
  {
    var p := 6700417;
    SieveTo1987();
    ExtendSieve(p, 1987); ExtendSieve(p, 2051);
    ExtendSieve(p, 2115); ExtendSieve(p, 2179); ExtendSieve(p, 2243); ExtendSieve(p, 2307);
    ExtendSieve(p, 2371); ExtendSieve(p, 2435); ExtendSieve(p, 2499); ExtendSieve(p, 2563);
    TrialDivision(p, 2627);
  }

  // ---------- Pigeonhole ----------

  lemma {:induction false} RangeSize(s: set<int>, lo: int, n: nat)
    requires forall x :: x in s ==> lo <= x < lo + n
    ensures |s| <= n
    ensures |s| == n ==> forall x :: lo <= x < lo + n ==> x in s
  {
    if n == 0 {
      assert forall x :: x !in s;
      assert s == {};
    } else {
      var t := s - {lo + n - 1};
      RangeSize(t, lo, n - 1);
      if lo + n - 1 in s { assert s == t + {lo + n - 1}; } else { assert s == t; }
    }
  }

  ghost function Image(f: nat -> int, n: nat): set<int> {
    set i: nat | i < n :: f(i)
  }

  lemma {:induction false} InjectiveImageSize(f: nat -> int, n: nat)
    requires forall i: nat, j: nat :: i < j < n ==> f(i) != f(j)
    ensures |Image(f, n)| == n
  {
    if n > 0 {
      InjectiveImageSize(f, n - 1);
      var prev := Image(f, n - 1);
      assert f(n - 1) !in prev;
      assert Image(f, n) == prev + {f(n - 1)};
    }
  }

  /** n distinct values among n candidates hit every candidate. */
  lemma Pigeonhole(f: nat -> int, n: nat, lo: int, x: int) returns (i: nat)
    requires forall i: nat, j: nat :: i < j < n ==> f(i) != f(j)
    requires forall i: nat :: i < n ==> lo <= f(i) < lo + n
    requires lo <= x < lo + n
    ensures i < n && f(i) == x
  {
    InjectiveImageSize(f, n);
    RangeSize(Image(f, n), lo, n);
    assert x in Image(f, n);
    i :| 0 <= i < n && f(i) == x;
  }
}
