/** The linear congruential generator inside rand_r_32, and its full period. */
module Lcg {
  import opened Arith

  const MULTIPLIER: nat := 1103515245
  const INCREMENT: nat := 12345

  // ---------- x -> a * x + c modulo m, for any a and c ----------

  function Next(a: nat, c: nat, m: nat, x: nat): (y: nat)
    requires m > 0
    ensures y < m
  {
    (a * x + c) % m
  }

  function Run(a: nat, c: nat, m: nat, x: nat, n: nat): (y: nat)
    requires m > 0
    ensures x < m ==> y < m
  {
    if n == 0 then x else Next(a, c, m, Run(a, c, m, x, n - 1))
  }

  function Pow(a: nat, n: nat): nat {
    if n == 0 then 1 else a * Pow(a, n - 1)
  }

  // 1 + a + ... + a^(n-1)
  function Geometric(a: nat, n: nat): nat {
    if n == 0 then 0 else a * Geometric(a, n - 1) + 1
  }

  lemma {:induction false} GeometricAdd(a: nat, i: nat, j: nat)
    ensures Geometric(a, i + j) == Pow(a, i) * Geometric(a, j) + Geometric(a, i)
  {
    if i > 0 {
      GeometricAdd(a, i - 1, j);
      ScaleSum(a, Pow(a, i - 1), Geometric(a, j), Geometric(a, i - 1));
    }
  }

  lemma ScaleSum(a: nat, p: nat, g: nat, h: nat)
    ensures a * (p * g + h) + 1 == (a * p) * g + (a * h + 1)
  {
    Distribute(a, p * g, h);
    assert a * (p * g) == (a * p) * g;
  }

  lemma {:induction false} PowFromGeometric(a: nat, n: nat)
    requires a > 0
    ensures Pow(a, n) == (a - 1) * Geometric(a, n) + 1
  {
    if n > 0 {
      PowFromGeometric(a, n - 1);
      var g := Geometric(a, n - 1);
      assert a * ((a - 1) * g + 1) == (a - 1) * (a * g + 1) + 1;
    }
  }

  lemma ModOfAffine(a: nat, c: nat, m: nat, u: nat)
    requires m > 0
    ensures (a * (u % m) + c) % m == (a * u + c) % m
  {
    var q, r := u / m, u % m;
    assert u == m * q + r;
    assert (a * u + c) - (a * r + c) == m * (a * q) by {
      assert a * u == a * (m * q + r) == m * (a * q) + a * r;
    }
    MultipleIsDivisible(m, a * q);
    CongruentIffDivides(a * u + c, a * r + c, m);
  }

  function ClosedForm(a: nat, c: nat, x: nat, n: nat): nat {
    Pow(a, n) * x + c * Geometric(a, n)
  }

  lemma ClosedFormStep(a: nat, c: nat, m: nat, x: nat, n: nat)
    requires m > 0 && n > 0
    ensures Next(a, c, m, ClosedForm(a, c, x, n - 1) % m) == ClosedForm(a, c, x, n) % m
  {
    NextOfClosedForm(a, c, m, Pow(a, n - 1), x, Geometric(a, n - 1));
  }

  /** The closed form of n steps. */
  lemma {:induction false} RunClosedForm(a: nat, c: nat, m: nat, x: nat, n: nat)
    requires x < m
    ensures Run(a, c, m, x, n) == ClosedForm(a, c, x, n) % m
  {
    if n == 0 {
      DivMod(x, m, 0, x);
    } else {
      RunClosedForm(a, c, m, x, n - 1);
      ClosedFormStep(a, c, m, x, n);
    }
  }

  lemma NextOfClosedForm(a: nat, c: nat, m: nat, p: nat, x: nat, g: nat)
    requires m > 0
    ensures Next(a, c, m, (p * x + c * g) % m) == ((a * p) * x + c * (a * g + 1)) % m
  {
    ModOfAffine(a, c, m, p * x + c * g);
    ComposeAffine(a, c, p, x, g);
  }

  lemma ComposeAffine(a: nat, c: nat, p: nat, x: nat, g: nat)
    ensures a * (p * x + c * g) + c == (a * p) * x + c * (a * g + 1)
  {
    assert a * (p * x) == (a * p) * x;
    assert a * (c * g) == c * (a * g);
    assert c * (a * g + 1) == c * (a * g) + c;
    assert a * (p * x + c * g) == a * (p * x) + a * (c * g);
  }

  // ---------- How many factors of two the geometric sum has ----------

  function TwoTo(k: nat): (p: nat)
    ensures p > 0
  {
    if k == 0 then 1 else 2 * TwoTo(k - 1)
  }

  lemma {:induction false} PowMod4(a: nat, n: nat)
    requires a % 4 == 1
    ensures Pow(a, n) % 4 == 1
  {
    if n > 0 {
      PowMod4(a, n - 1);
      var u, v := a / 4, Pow(a, n - 1) / 4;
      var p := Pow(a, n - 1);
      assert a == 4 * u + 1 && p == 4 * v + 1;
      assert a * p == 4 * (4 * (u * v) + u + v) + 1;
      DivMod(a * p, 4, 4 * (u * v) + u + v, 1);
    }
  }

  lemma {:induction false} GeometricParity(a: nat, n: nat)
    requires a % 2 == 1
    ensures Geometric(a, n) % 2 == n % 2
  {
    if n > 0 {
      GeometricParity(a, n - 1);
      ParityStep(a, Geometric(a, n - 1), n - 1, Geometric(a, n));
    }
  }

  lemma ParityStep(a: nat, g: nat, n: nat, s: nat)
    requires a % 2 == 1 && g % 2 == n % 2 && s == a * g + 1
    ensures s % 2 == (n + 1) % 2
  {
    var u := a / 2;
    assert s == 2 * (u * g) + (g + 1) by {
      assert a == 2 * u + 1;
    }
    EvenShift(u * g, g + 1);
  }

  lemma EvenShift(w: int, b: int)
    ensures (2 * w + b) % 2 == b % 2
  {
  }

  lemma GeometricOfDouble(a: nat, m: nat) returns (h: nat)
    requires a % 4 == 1
    ensures h % 2 == 1 && Geometric(a, m + m) == 2 * (Geometric(a, m) * h)
  {
    GeometricAdd(a, m, m);
    PowMod4(a, m);
    h := DoubleProduct(Pow(a, m), Geometric(a, m), Geometric(a, m + m));
  }

  lemma DoubleProduct(p: nat, g: nat, s: nat) returns (h: nat)
    requires p % 4 == 1 && s == p * g + g
    ensures h % 2 == 1 && s == 2 * (g * h)
  {
    h := (p + 1) / 2;
    assert p + 1 == 2 * h;
    assert (p + 1) * g == p * g + g;
    assert (2 * h) * g == 2 * (g * h);
  }

  /** 2^k divides 1 + a + ... + a^(n-1) exactly when it divides n. */
  lemma {:induction false} GeometricDivisible(a: nat, k: nat, n: nat)
    requires a % 4 == 1
    ensures Divides(TwoTo(k), Geometric(a, n)) <==> Divides(TwoTo(k), n)
  {
    if k > 0 {
      if n % 2 == 1 {
        GeometricOddCount(a, k, n);
      } else {
        var m := n / 2;
        assert n == m + m;
        GeometricDivisible(a, k - 1, m);
        GeometricDivisibleEven(a, k, m);
      }
    }
  }

  lemma GeometricOddCount(a: nat, k: nat, n: nat)
    requires a % 4 == 1 && k > 0 && n % 2 == 1
    ensures !Divides(TwoTo(k), Geometric(a, n)) && !Divides(TwoTo(k), n)
  {
    GeometricParity(a, n);
    OddIsNotDivisible(k, n);
    OddIsNotDivisible(k, Geometric(a, n));
  }

  lemma GeometricDivisibleEven(a: nat, k: nat, m: nat)
    requires a % 4 == 1 && k > 0
    requires Divides(TwoTo(k - 1), Geometric(a, m)) <==> Divides(TwoTo(k - 1), m)
    ensures Divides(TwoTo(k), Geometric(a, m + m)) <==> Divides(TwoTo(k), m + m)
  {
    var h := GeometricOfDouble(a, m);
    DividesDouble(k, Geometric(a, m), h, m, Geometric(a, m + m));
  }

  lemma DividesDouble(k: nat, g: nat, h: nat, m: nat, s: nat)
    requires k > 0 && h % 2 == 1 && s == 2 * (g * h)
    requires Divides(TwoTo(k - 1), g) <==> Divides(TwoTo(k - 1), m)
    ensures Divides(TwoTo(k), s) <==> Divides(TwoTo(k), m + m)
  {
    HalveDivisor(k, g * h);
    HalveDivisor(k, m);
    OddFactorIsFree(k - 1, g, h);
  }

  lemma OddIsNotDivisible(k: nat, n: nat)
    requires k > 0 && n % 2 == 1
    ensures !Divides(TwoTo(k), n)
  {
    if Divides(TwoTo(k), n) {
      var q := Quotient(TwoTo(k), n);
      EvenProduct(n, TwoTo(k - 1), q);
    }
  }

  lemma EvenProduct(n: int, t: int, q: int)
    requires n == (2 * t) * q
    ensures n % 2 == 0
  {
    assert n == 2 * (t * q);
    DivMod(n, 2, t * q, 0);
  }

  lemma HalveDivisor(k: nat, n: int)
    requires k > 0
    ensures Divides(TwoTo(k), 2 * n) <==> Divides(TwoTo(k - 1), n)
  {
    var t := TwoTo(k - 1);
    if Divides(2 * t, 2 * n) {
      var q := Quotient(2 * t, 2 * n);
      assert n == t * q;
      MultipleIsDivisible(t, q);
    }
    if Divides(t, n) {
      var q := Quotient(t, n);
      assert 2 * n == (2 * t) * q;
      MultipleIsDivisible(2 * t, q);
    }
  }

  lemma {:induction false} OddFactorIsFree(k: nat, g: int, h: int)
    requires h % 2 == 1
    ensures Divides(TwoTo(k), g * h) <==> Divides(TwoTo(k), g)
  {
    if Divides(TwoTo(k), g) {
      var q := Quotient(TwoTo(k), g);
      assert g * h == TwoTo(k) * (q * h);
      MultipleIsDivisible(TwoTo(k), q * h);
    }
    if Divides(TwoTo(k), g * h) && k > 0 {
      var q := Quotient(TwoTo(k), g * h);
      EvenProduct(g * h, TwoTo(k - 1), q);
      EvenFactor(g, h);
      var f := g / 2;
      assert g * h == 2 * (f * h);
      HalveDivisor(k, f * h);
      OddFactorIsFree(k - 1, f, h);
      HalveDivisor(k, f);
    }
  }

  lemma EvenFactor(g: int, h: int)
    requires g * h % 2 == 0 && h % 2 == 1
    ensures g % 2 == 0
  {
    var f := h / 2;
    assert g * h == 2 * (g * f) + g;
  }

  // ---------- Full period ----------

  /** n steps return to x exactly when 2^k divides n. */
  lemma ReturnsIff(a: nat, c: nat, k: nat, x: nat, n: nat)
    requires a % 4 == 1 && c % 2 == 1 && x < TwoTo(k)
    ensures Run(a, c, TwoTo(k), x, n) == x <==> Divides(TwoTo(k), n)
  {
    var m, g := TwoTo(k), Geometric(a, n);
    RunClosedForm(a, c, m, x, n);
    PowFromGeometric(a, n);
    var y, h := ClosedForm(a, c, x, n), (a - 1) * x + c;
    Displacement(a, c, x, g);
    assert y - x == g * h;
    DivMod(x, m, 0, x);
    CongruentIffDivides(y, x, m);
    OddCoefficient(a, c, x);
    OddFactorIsFree(k, g, h);
    GeometricDivisible(a, k, n);
  }

  lemma Displacement(a: nat, c: nat, x: nat, g: nat)
    requires a > 0
    ensures ((a - 1) * g + 1) * x + c * g - x == g * ((a - 1) * x + c)
  {
    assert ((a - 1) * g + 1) * x == (a - 1) * g * x + x;
    assert g * ((a - 1) * x + c) == g * ((a - 1) * x) + g * c;
    assert (a - 1) * g * x == g * ((a - 1) * x);
  }

  lemma OddCoefficient(a: nat, c: nat, x: nat)
    requires a % 4 == 1 && c % 2 == 1
    ensures ((a - 1) * x + c) % 2 == 1
  {
    var u := a / 4;
    assert (a - 1) * x + c == 2 * (2 * u * x) + c;
  }

  lemma {:induction false} RunAdd(a: nat, c: nat, m: nat, x: nat, i: nat, j: nat)
    requires m > 0
    ensures Run(a, c, m, x, i + j) == Run(a, c, m, Run(a, c, m, x, i), j)
  {
    if j > 0 {
      RunAdd(a, c, m, x, i, j - 1);
    }
  }

  lemma RunsDiffer(a: nat, c: nat, k: nat, x: nat, i: nat, j: nat)
    requires a % 4 == 1 && c % 2 == 1 && x < TwoTo(k) && i < j < TwoTo(k)
    ensures Run(a, c, TwoTo(k), x, i) != Run(a, c, TwoTo(k), x, j)
  {
    var y := Run(a, c, TwoTo(k), x, i);
    RunAdd(a, c, TwoTo(k), x, i, j - i);
    ReturnsIff(a, c, k, y, j - i);
    if Divides(TwoTo(k), j - i) {
      DivisorIsAtMost(TwoTo(k), j - i);
    }
  }

  /** One run visits every residue: from x any y is met within the first 2^k values. */
  lemma VisitsAll(a: nat, c: nat, k: nat, x: nat, y: nat) returns (n: nat)
    requires a % 4 == 1 && c % 2 == 1 && x < TwoTo(k) && y < TwoTo(k)
    ensures n < TwoTo(k) && Run(a, c, TwoTo(k), x, n) == y
  {
    var m := TwoTo(k);
    forall i: nat, j: nat | i < j < m ensures Run(a, c, m, x, i) != Run(a, c, m, x, j) { RunsDiffer(a, c, k, x, i, j); }
    n := RunHits(a, c, m, x, y);
  }

  lemma RunHits(a: nat, c: nat, m: nat, x: nat, y: nat) returns (n: nat)
    requires x < m && y < m
    requires forall i: nat, j: nat :: i < j < m ==> Run(a, c, m, x, i) != Run(a, c, m, x, j)
    ensures n < m && Run(a, c, m, x, n) == y
  {
    var f := (i: nat) => Run(a, c, m, x, i);
    assert forall i: nat, j: nat :: i < j < m ==> f(i) != f(j);
    n := Pigeonhole(f, m, 0, y);
  }

  // ---------- The 32-bit generator ----------

  type uint32 = x: nat | x < 0x1_0000_0000

  lemma {:induction false} TwoToAdd(i: nat, j: nat)
    ensures TwoTo(i + j) == TwoTo(i) * TwoTo(j)
  {
    if i > 0 {
      TwoToAdd(i - 1, j);
      assert 2 * (TwoTo(i - 1) * TwoTo(j)) == (2 * TwoTo(i - 1)) * TwoTo(j);
    }
  }

  lemma WordSize()
    ensures TwoTo(32) == 0x1_0000_0000
  {
    assert TwoTo(8) == 256;
    TwoToAdd(8, 8);
    TwoToAdd(16, 16);
  }

  // One multiply-and-add, with the wrap-around of unsigned int after each operation
  function Advance(next: uint32): uint32 {
    (next * 1103515245 % 0x1_0000_0000 + 12345) % 0x1_0000_0000
  }

  function AdvanceThrice(seed: uint32): uint32 { Advance(Advance(Advance(seed))) }

  function SeedAfter(seed: uint32, calls: nat): uint32 {
    if calls == 0 then seed else AdvanceThrice(SeedAfter(seed, calls - 1))
  }

  lemma AdvanceIsNext(x: uint32)
    ensures Advance(x) == Next(MULTIPLIER, INCREMENT, 0x1_0000_0000, x)
  {
    var p := x * 1103515245;
    assert p % 0x1_0000_0000 + 12345 - (p + 12345) == 0x1_0000_0000 * -(p / 0x1_0000_0000);
    MultipleIsDivisible(0x1_0000_0000, -(p / 0x1_0000_0000));
    CongruentIffDivides(p % 0x1_0000_0000 + 12345, p + 12345, 0x1_0000_0000);
  }

  lemma AdvanceThriceIsRun(x: uint32)
    ensures AdvanceThrice(x) == Run(MULTIPLIER, INCREMENT, 0x1_0000_0000, x, 3)
  {
    AdvanceIsNext(x);
    AdvanceIsNext(Advance(x));
    AdvanceIsNext(Advance(Advance(x)));
    var m := 0x1_0000_0000;
    assert Run(MULTIPLIER, INCREMENT, m, x, 1) == Advance(x);
    assert Run(MULTIPLIER, INCREMENT, m, x, 2) == Advance(Advance(x));
  }

  lemma {:induction false} SeedAfterIsRun(seed: uint32, calls: nat)
    ensures SeedAfter(seed, calls) == Run(MULTIPLIER, INCREMENT, 0x1_0000_0000, seed, 3 * calls)
  {
    if calls > 0 {
      SeedAfterIsRun(seed, calls - 1);
      AdvanceThriceIsRun(SeedAfter(seed, calls - 1));
      RunAdd(MULTIPLIER, INCREMENT, 0x1_0000_0000, seed, 3 * (calls - 1), 3);
    }
  }

  lemma ThreeIsFree(k: nat, n: nat)
    ensures Divides(TwoTo(k), 3 * n) <==> Divides(TwoTo(k), n)
  {
    OddFactorIsFree(k, n, 3);
    assert 3 * n == n * 3;
  }

  lemma RunReturnsIff(m: nat, k: nat, x: nat, n: nat)
    requires TwoTo(k) == m && x < m
    ensures Run(MULTIPLIER, INCREMENT, m, x, n) == x <==> Divides(m, n)
  {
    ReturnsIff(MULTIPLIER, INCREMENT, k, x, n);
  }

  lemma SeedReturnsIff(seed: uint32, n: nat, k: nat)
    requires TwoTo(k) == 0x1_0000_0000
    ensures SeedAfter(seed, n) == seed <==> Divides(0x1_0000_0000, n)
  {
    SeedAfterIsRun(seed, n);
    RunReturnsIff(0x1_0000_0000, k, seed, 3 * n);
    ThreeIsFree(k, n);
  }

  /** The seed comes back after n calls exactly when 2^32 divides n. */
  lemma SeedPeriodIsMaximal(seed: uint32, n: nat)
    ensures SeedAfter(seed, n) == seed <==> Divides(0x1_0000_0000, n)
  {
    WordSize();
    SeedReturnsIff(seed, n, 32);
  }

  lemma {:induction false} SeedAfterAdd(seed: uint32, i: nat, j: nat)
    ensures SeedAfter(seed, i + j) == SeedAfter(SeedAfter(seed, i), j)
  {
    if j > 0 {
      SeedAfterAdd(seed, i, j - 1);
    }
  }

  lemma SeedsDiffer(seed: uint32, i: nat, j: nat)
    requires i < j < 0x1_0000_0000
    ensures SeedAfter(seed, i) != SeedAfter(seed, j)
  {
    SeedAfterAdd(seed, i, j - i);
    SeedPeriodIsMaximal(SeedAfter(seed, i), j - i);
    if Divides(0x1_0000_0000, j - i) {
      DivisorIsAtMost(0x1_0000_0000, j - i);
    }
  }

  /** All 2^32 seeds lie on one cycle of calls. */
  lemma AllSeedsOnOneCycle(a: uint32, b: uint32) returns (n: nat)
    ensures n < 0x1_0000_0000 && SeedAfter(a, n) == b
  {
    var f := (i: nat) => SeedAfter(a, i) as int;
    forall i: nat, j: nat | i < j < 0x1_0000_0000 ensures f(i) != f(j) { SeedsDiffer(a, i, j); }
    n := Pigeonhole(f, 0x1_0000_0000, 0, b);
  }

  // ---------- The value rand_r_32 returns ----------

  function Xor(a: nat, b: nat): nat {
    if a == 0 && b == 0 then 0
    else 2 * Xor(a / 2, b / 2) + (if a % 2 != b % 2 then 1 else 0)
  }

  /** Where the low k bits of one operand are clear and the other has no more, xor adds. */
  lemma {:induction false} XorOfDisjoint(r: nat, f: nat, k: nat)
    requires f < TwoTo(k)
    ensures Xor(r * TwoTo(k), f) == r * TwoTo(k) + f
  {
    if k == 0 {
      XorWithZero(r);
    } else {
      var t := r * TwoTo(k - 1);
      assert r * TwoTo(k) == 2 * t;
      XorOfDisjoint(r, f / 2, k - 1);
    }
  }

  lemma {:induction false} XorWithZero(a: nat)
    ensures Xor(a, 0) == a
  {
    if a > 0 {
      XorWithZero(a / 2);
    }
  }

  function BitOf(a: nat, k: nat): nat { a / TwoTo(k) % 2 }

  lemma HalvedBit(a: nat, k: nat)
    ensures BitOf(a, k + 1) == BitOf(a / 2, k)
  {
    QuotientOfHalf(a, TwoTo(k));
  }

  lemma QuotientOfHalf(a: nat, p: nat)
    requires p > 0
    ensures a / (2 * p) == a / 2 / p
  {
    var h := a / 2;
    var q, r := h / p, h % p;
    assert h == p * q + r;
    assert a == (2 * p) * q + (2 * r + a % 2);
    DivMod(a, 2 * p, q, 2 * r + a % 2);
  }

  /** Each bit of an xor is set exactly when the two bits differ. */
  lemma {:induction false} XorBits(a: nat, b: nat, k: nat)
    ensures BitOf(Xor(a, b), k) == if BitOf(a, k) != BitOf(b, k) then 1 else 0
    decreases k
  {
    XorHalf(a, b);
    if k > 0 {
      XorBits(a / 2, b / 2, k - 1);
      HalvedBit(a, k - 1);
      HalvedBit(b, k - 1);
      HalvedBit(Xor(a, b), k - 1);
    } else {
      LowBit(a);
      LowBit(b);
      LowBit(Xor(a, b));
    }
  }

  lemma LowBit(a: nat)
    ensures BitOf(a, 0) == a % 2
  {
  }

  lemma XorHalf(a: nat, b: nat)
    ensures Xor(a, b) / 2 == Xor(a / 2, b / 2)
    ensures Xor(a, b) % 2 == if a % 2 != b % 2 then 1 else 0
  {
  }

  lemma TenBits()
    ensures TwoTo(10) == 1024
  {
    assert TwoTo(5) == 32;
    TwoToAdd(5, 5);
  }

  // The bits of a state that the generator hands out
  function Field(state: uint32, size: nat): nat
    requires size > 0
  {
    state / 65536 % size
  }

  // f is the size values from bit 16 of the state up: what is above them is hi, what is below lo.
  predicate Split(state: nat, size: nat, hi: nat, f: int, lo: nat) {
    0 <= f < size && lo < 65536 && state == (hi * size + f) * 65536 + lo
  }

  ghost predicate IsField(state: nat, size: nat, f: int) {
    exists hi: nat, lo: nat :: Split(state, size, hi, f, lo)
  }

  lemma FieldIsSplit(state: uint32, size: nat)
    requires size > 0
    ensures IsField(state, size, Field(state, size))
  {
    var q := state / 65536;
    assert q == size * (q / size) + q % size;
    assert Split(state, size, q / size, Field(state, size), state % 65536);
  }

  predicate IsNextState(x: nat, y: nat) {
    y == (x * 1103515245 + 12345) % 4294967296
  }

  lemma AdvanceIs(x: uint32)
    ensures IsNextState(x, Advance(x))
  {
    AdvanceIsNext(x);
  }

  // Three states after x, and the result that their fields make
  ghost predicate IsDraw(x: nat, first: nat, second: nat, third: nat, result: int) {
    && IsNextState(x, first) && IsNextState(first, second) && IsNextState(second, third)
    && IsField(first, 2048, result / 0x10_0000)
    && IsField(second, 1024, result / 1024 % 1024)
    && IsField(third, 1024, result % 1024)
  }

  lemma FieldsMakeDraw(x: uint32, result: int)
    requires result / 0x10_0000 == Field(Advance(x), 2048)
    requires result / 1024 % 1024 == Field(Advance(Advance(x)), 1024)
    requires result % 1024 == Field(AdvanceThrice(x), 1024)
    ensures IsDraw(x, Advance(x), Advance(Advance(x)), AdvanceThrice(x), result)
  {
    AdvanceIs(x);
    AdvanceIs(Advance(x));
    AdvanceIs(Advance(Advance(x)));
    FieldIsSplit(Advance(x), 2048);
    FieldIsSplit(Advance(Advance(x)), 1024);
    FieldIsSplit(AdvanceThrice(x), 1024);
  }

  class Seed {
    var value: uint32

    constructor (v: uint32)
      ensures value == v
    {
      value := v;
    }
  }

  lemma MergeField(r: nat, f: nat)
    requires f < 1024
    ensures Xor(r * 1024, f) == r * 1024 + f
  {
    TenBits();
    XorOfDisjoint(r, f, 10);
  }

  lemma SplitFields(high: nat, middle: nat, low: nat, result: nat)
    requires high < 2048 && middle < 1024 && low < 1024
    requires result == (high * 1024 + middle) * 1024 + low
    ensures 0 <= result < 0x8000_0000
    ensures result / 0x10_0000 == high && result / 1024 % 1024 == middle && result % 1024 == low
  {
    DivMod(result, 0x10_0000, high, middle * 1024 + low);
    DivMod(result, 1024, high * 1024 + middle, low);
    DivMod(high * 1024 + middle, 1024, high, middle);
  }

  method RandR32(seed: Seed) returns (result: int)
    modifies seed
    ensures seed.value == AdvanceThrice(old(seed.value))
    ensures IsDraw(old(seed.value), Advance(old(seed.value)), Advance(Advance(old(seed.value))), seed.value, result)
    ensures 0 <= result < 0x8000_0000
    ensures result / 0x10_0000 == Field(Advance(old(seed.value)), 2048)
    ensures result / 1024 % 1024 == Field(Advance(Advance(old(seed.value))), 1024)
    ensures result % 1024 == Field(AdvanceThrice(old(seed.value)), 1024)
  {
    var next: uint32 := seed.value;

    next := next * 1103515245 % 0x1_0000_0000;
    next := (next + 12345) % 0x1_0000_0000;
    assert next == Advance(seed.value);
    result := Field(next, 2048);
    ghost var high := result;

    next := next * 1103515245 % 0x1_0000_0000;
    next := (next + 12345) % 0x1_0000_0000;
    assert next == Advance(Advance(seed.value));
    assert result * 1024 < 0x8000_0000;
    MergeField(result, Field(next, 1024));
    result := result * 1024;
    result := Xor(result, Field(next, 1024));
    ghost var middle := Field(next, 1024);

    next := next * 1103515245 % 0x1_0000_0000;
    next := (next + 12345) % 0x1_0000_0000;
    assert next == AdvanceThrice(seed.value);
    assert result * 1024 < 0x8000_0000;
    MergeField(result, Field(next, 1024));
    result := result * 1024;
    result := Xor(result, Field(next, 1024));

    SplitFields(high, middle, Field(next, 1024), result);
    FieldsMakeDraw(seed.value, result);
    seed.value := next;
  }
}
