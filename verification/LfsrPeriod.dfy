/** The register's period, by arithmetic in GF(2)[x] / (x^64 + x^4 + x^3 + x + 1). */
module LfsrPeriod {
  import opened Arith
  import opened Lfsr

  // Bit 63 - i of a word is the coefficient of x^i, so Step multiplies by x.
  function Power(k: nat): Word { Iterate(ONE, k) }

  // The top half of v with a zero bit after each bit
  function Spread(v: bv64): bv64 {
    var a := v & 0xffff_ffff_0000_0000;
    var b := (a | (a >> 16)) & 0xffff_0000_ffff_0000;
    var c := (b | (b >> 8)) & 0xff00_ff00_ff00_ff00;
    var d := (c | (c >> 4)) & 0xf0f0_f0f0_f0f0_f0f0;
    var e := (d | (d >> 2)) & 0xcccc_cccc_cccc_cccc;
    (e | (e >> 1)) & 0xaaaa_aaaa_aaaa_aaaa
  }

  // h times x^64, which is 1 + x + x^3 + x^4
  function Fold(h: Word): Word {
    Add(Add(h, Step(h)), Add(Step(Step(Step(h))), Step(Step(Step(Step(h))))))
  }

  function Low(w: Word): Word { Word(Spread(w.bits)) }

  function High(w: Word): Word { Word(Spread(Upper(w.bits))) }

  function Square(w: Word): Word { Add(Low(w), Fold(High(w))) }

  // ---------- Squaring ----------

  lemma FoldIsLinear(g: Word, h: Word)
    ensures Fold(Add(g, h)) == Add(Fold(g), Fold(h))
  {
    StepIsLinear(g, h);
    StepIsLinear(Step(g), Step(h));
    var g2, h2 := Step(Step(g)), Step(Step(h));
    StepIsLinear(g2, h2);
    StepIsLinear(Step(g2), Step(h2));
    Regroup(g, h, Step(g), Step(h));
    var g3, h3 := Step(g2), Step(h2);
    Regroup(g3, h3, Step(g3), Step(h3));
    Regroup(Add(g, Step(g)), Add(h, Step(h)), Add(g3, Step(g3)), Add(h3, Step(h3)));
  }

  lemma FoldCommutes(h: Word)
    ensures Fold(Step(h)) == Step(Fold(h))
  {
    var h3 := Step(Step(Step(h)));
    StepIsLinear(Add(h, Step(h)), Add(h3, Step(h3)));
    StepIsLinear(h, Step(h));
    StepIsLinear(h3, Step(h3));
  }

  lemma SpreadIsLinear(v: bv64, w: bv64)
    ensures Spread(Xor(v, w)) == Xor(Spread(v), Spread(w))
  {
  }

  lemma SpreadShift(v: bv64)
    ensures Spread(v >> 1) == Spread(v) >> 2
  {
  }

  lemma SpreadShiftLow(v: bv64)
    ensures Spread(Upper(Shift(v))) == Xor(Spread(Upper(v)) >> 2, if v & 0x1_0000_0000 != 0 then 0x8000_0000_0000_0000 else 0)
  {
  }

  lemma ClearBitStep(s: bv64)
    requires s & 1 == 0
    ensures StepBits(s) == s >> 1
  {
    StepEven(s, (s >> 1) ^ 0);
  }

  lemma AnyBitStep(s: bv64)
    ensures StepBits(s) == Xor(s >> 1, if s & 1 == 1 then 0xd800_0000_0000_0000 else 0)
  {
  }

  lemma StepTwice(s: bv64, carry: bool)
    requires s & 1 == 0 && (carry <==> (s >> 1) & 1 == 1)
    ensures StepBits(StepBits(s)) == Xor((s >> 1) >> 1, if carry then 0xd800_0000_0000_0000 else 0)
  {
    ClearBitStep(s);
    AnyBitStep(s >> 1);
  }

  lemma SpreadBits(v: bv64)
    ensures Spread(v) & 1 == 0 && ((Spread(v) >> 1) & 1 == 1 <==> v & 0x1_0000_0000 != 0)
    ensures (Spread(v) >> 1) >> 1 == Spread(v) >> 2
  {
  }

  lemma UpperBit(v: bv64)
    ensures Upper(v) & 0x1_0000_0000 != 0 <==> v & 1 == 1
  {
  }

  lemma StepTwiceLow(v: bv64)
    ensures StepBits(StepBits(Spread(v))) == Xor(Spread(v) >> 2, if v & 0x1_0000_0000 != 0 then 0xd800_0000_0000_0000 else 0)
  {
    SpreadBits(v);
    StepTwice(Spread(v), v & 0x1_0000_0000 != 0);
  }

  lemma StepTwiceHigh(v: bv64)
    ensures StepBits(StepBits(Spread(Upper(v)))) == Xor(Spread(Upper(v)) >> 2, if v & 1 == 1 then 0xd800_0000_0000_0000 else 0)
  {
    StepTwiceLow(Upper(v));
    UpperBit(v);
  }

  function Upper(v: bv64): bv64 { v << 32 }

  lemma UpperIsLinear(v: bv64, w: bv64)
    ensures Upper(Xor(v, w)) == Xor(Upper(v), Upper(w))
  {
  }

  lemma UpperOfFeedback(v: bv64)
    ensures Upper(Feedback(v)) == 0
  {
  }

  lemma XorZero(v: bv64)
    ensures Xor(v, 0) == v
  {
  }

  // The tap mask lives in the top half.
  lemma FeedbackStaysHigh(v: bv64)
    ensures Upper(StepBits(v)) == Upper(Shift(v))
  {
    UpperIsLinear(Shift(v), Feedback(v));
    UpperOfFeedback(v);
    XorZero(Upper(Shift(v)));
  }

  lemma LowOfStep(v: bv64)
    ensures Spread(StepBits(v)) == Xor(Spread(v) >> 2, if v & 1 == 1 then 0xa280_0000_0000_0000 else 0)
  {
    SpreadIsLinear(Shift(v), Feedback(v));
    SpreadShift(v);
    assert Spread(0xd800_0000_0000_0000) == 0xa280_0000_0000_0000 && Spread(0) == 0;
  }

  lemma HighOfStep(v: bv64)
    ensures Spread(Upper(StepBits(v))) == Xor(Spread(Upper(v)) >> 2,
            if v & 0x1_0000_0000 != 0 then 0x8000_0000_0000_0000 else 0)
  {
    FeedbackStaysHigh(v);
    SpreadShiftLow(v);
  }

  lemma FoldConstants()
    ensures Fold(ONE) == Word(0xd800_0000_0000_0000)
    ensures Fold(Word(0xd800_0000_0000_0000)) == Word(0xa280_0000_0000_0000)
    ensures Fold(ZERO) == ZERO
  {
  }

  lemma SquareOfOne()
    ensures Square(ONE) == ONE
  {
  }

  function Scaled(bit: bool, c: bv64): Word { Word(if bit then c else 0) }

  function Shifted(v: bv64): Word { Word(Spread(v) >> 2) }

  lemma LowOfNext(v: bv64)
    ensures Low(Step(Word(v))) == Add(Shifted(v), Scaled(v & 1 == 1, 0xa280_0000_0000_0000))
  {
    LowOfStep(v);
  }

  lemma HighOfNext(v: bv64)
    ensures High(Step(Word(v))) == Add(Shifted(Upper(v)), Scaled(v & 0x1_0000_0000 != 0, 0x8000_0000_0000_0000))
  {
    HighOfStep(v);
  }

  lemma NextOfLow(v: bv64)
    ensures Step(Step(Low(Word(v)))) == Add(Shifted(v), Scaled(v & 0x1_0000_0000 != 0, 0xd800_0000_0000_0000))
  {
    StepTwiceLow(v);
  }

  lemma NextOfHigh(v: bv64)
    ensures Step(Step(High(Word(v)))) == Add(Shifted(Upper(v)), Scaled(v & 1 == 1, 0xd800_0000_0000_0000))
  {
    StepTwiceHigh(v);
  }

  lemma NextOfSum(l: Word, h: Word)
    ensures Step(Step(Add(l, Fold(h)))) == Add(Step(Step(l)), Fold(Step(Step(h))))
  {
    StepIsLinear(l, Fold(h));
    StepIsLinear(Step(l), Step(Fold(h)));
    FoldCommutes(h);
    FoldCommutes(Step(h));
  }

  // The two sides, once the four halves are known
  lemma SquareOfStepFrom(w: Word, low: Word, high: Word, low2: Word, high2: Word)
    requires Low(Step(w)) == low && High(Step(w)) == high
    requires Step(Step(Low(w))) == low2 && Step(Step(High(w))) == high2
    requires Add(low, Fold(high)) == Add(low2, Fold(high2))
    ensures Square(Step(w)) == Step(Step(Square(w)))
  {
    NextOfSum(Low(w), High(w));
  }

  /** Squaring turns one step into two: (x * w)^2 is x^2 * w^2. */
  lemma SquareOfStep(w: Word)
    ensures Square(Step(w)) == Step(Step(Square(w)))
  {
    var a, b := Shifted(w.bits), Shifted(Upper(w.bits));
    var mid, last := w.bits & 0x1_0000_0000 != 0, w.bits & 1 == 1;
    LowOfNext(w.bits);
    HighOfNext(w.bits);
    NextOfLow(w.bits);
    NextOfHigh(w.bits);
    SidesAgree(a, b, mid, last);
    SquareOfStepFrom(w,
                     Add(a, Scaled(last, 0xa280_0000_0000_0000)), Add(b, Scaled(mid, 0x8000_0000_0000_0000)),
                     Add(a, Scaled(mid, 0xd800_0000_0000_0000)), Add(b, Scaled(last, 0xd800_0000_0000_0000)));
  }

  lemma FoldScaled(bit: bool, c: bv64, d: bv64)
    requires Fold(Word(c)) == Word(d) && Fold(ZERO) == ZERO
    ensures Fold(Scaled(bit, c)) == Scaled(bit, d)
  {
  }

  lemma SidesFrom(a: Word, b: Word, low: Word, high: Word, low2: Word, high2: Word)
    requires Fold(high) == low2 && Fold(high2) == low
    ensures Add(Add(a, low), Fold(Add(b, high))) == Add(Add(a, low2), Fold(Add(b, high2)))
  {
    FoldIsLinear(b, high);
    FoldIsLinear(b, high2);
    Exchange(a, low, Fold(b), low2);
  }

  lemma SidesAgree(a: Word, b: Word, mid: bool, last: bool)
    ensures Add(Add(a, Scaled(last, 0xa280_0000_0000_0000)), Fold(Add(b, Scaled(mid, 0x8000_0000_0000_0000))))
         == Add(Add(a, Scaled(mid, 0xd800_0000_0000_0000)), Fold(Add(b, Scaled(last, 0xd800_0000_0000_0000))))
  {
    FoldConstants();
    FoldScaled(mid, 0x8000_0000_0000_0000, 0xd800_0000_0000_0000);
    FoldScaled(last, 0xd800_0000_0000_0000, 0xa280_0000_0000_0000);
    SidesFrom(a, b, Scaled(last, 0xa280_0000_0000_0000), Scaled(mid, 0x8000_0000_0000_0000),
              Scaled(mid, 0xd800_0000_0000_0000), Scaled(last, 0xd800_0000_0000_0000));
  }

  lemma Exchange(a: Word, s: Word, f: Word, m: Word)
    ensures Add(Add(a, s), Add(f, m)) == Add(Add(a, m), Add(f, s))
  {
    AddCommutes(f, m);
    Regroup(a, s, m, f);
    AddCommutes(s, f);
  }

  lemma TwoMore(n: nat)
    ensures Power(n + 2) == Step(Step(Power(n)))
  {
    assert Power(n + 1) == Step(Power(n));
  }

  lemma {:induction false} PowerOfDouble(k: nat)
    ensures Power(2 * k) == Square(Power(k))
  {
    if k == 0 {
      SquareOfOne();
    } else {
      PowerOfDouble(k - 1);
      NextDouble(k - 1, Power(k - 1));
    }
  }

  lemma NextDouble(k: nat, w: Word)
    requires Power(k) == w && Power(2 * k) == Square(w)
    ensures Power(2 * k + 2) == Square(Power(k + 1))
  {
    SquareOfStep(w);
    TwoMore(2 * k);
  }

  // ---------- Fast powers ----------

  function Digit(r: Word, bit: bool): Word {
    if bit then Step(Square(r)) else Square(r)
  }

  function Bit(b: bool): nat { if b then 1 else 0 }

  lemma AppendDigit(k: nat, b: bool)
    ensures Power(2 * k + Bit(b)) == Digit(Power(k), b)
  {
    PowerOfDouble(k);
  }

  // The same digit step on plain bits, written flat so that it evaluates cheaply
  function FlatStep(s: bv64): bv64 {
    (s >> 1) ^ (if s & 1 == 1 then 0xd800_0000_0000_0000 else 0)
  }

  function Sum4(a: bv64, b: bv64, c: bv64, d: bv64): bv64 { (a ^ b) ^ (c ^ d) }

  function FlatFold(h: bv64): bv64 {
    Sum4(h, FlatStep(h), FlatStep(FlatStep(FlatStep(h))), FlatStep(FlatStep(FlatStep(FlatStep(h)))))
  }

  function FlatSquare(v: bv64): bv64 { Xor(Spread(v), FlatFold(Spread(v << 32))) }

  function FlatDigit(v: bv64, bit: bool): bv64 {
    if bit then FlatStep(FlatSquare(v)) else FlatSquare(v)
  }

  lemma XorIs(a: bv64, b: bv64, r: bv64)
    requires r == a ^ b
    ensures Xor(a, b) == r
  {
  }

  lemma XorOfPairs(a: bv64, b: bv64, c: bv64, d: bv64, x: bv64, y: bv64, r: bv64)
    requires x == a ^ b && y == c ^ d && r == x ^ y
    ensures Xor(Xor(a, b), Xor(c, d)) == r
  {
    XorIs(a, b, x);
    XorIs(c, d, y);
    XorIs(x, y, r);
  }

  lemma Sum4IsXor(a: bv64, b: bv64, c: bv64, d: bv64)
    ensures Xor(Xor(a, b), Xor(c, d)) == Sum4(a, b, c, d)
  {
    XorOfPairs(a, b, c, d, a ^ b, c ^ d, (a ^ b) ^ (c ^ d));
  }

  lemma FlatStepIsStep(v: bv64)
    ensures StepBits(v) == FlatStep(v)
  {
    XorIs(Shift(v), Feedback(v), FlatStep(v));
  }

  lemma FlatFoldIsFold(h: bv64)
    ensures Fold(Word(h)) == Word(FlatFold(h))
  {
    var h1 := FlatStep(h);
    var h2 := FlatStep(h1);
    var h3 := FlatStep(h2);
    FlatStepIsStep(h);
    FlatStepIsStep(h1);
    FlatStepIsStep(h2);
    FlatStepIsStep(h3);
    Sum4IsXor(h, h1, h3, FlatStep(h3));
  }

  /** The flat digit step computes the same word. */
  lemma FlatDigitIsDigit(v: bv64, bit: bool)
    ensures Digit(Word(v), bit) == Word(FlatDigit(v, bit))
  {
    FlatFoldIsFold(Spread(v << 32));
    FlatStepIsStep(FlatSquare(v));
  }

  lemma AppendFlat(k: nat, v: bv64, b: bool)
    requires Power(k) == Word(v)
    ensures Power(2 * k + Bit(b)) == Word(FlatDigit(v, b))
  {
    AppendDigit(k, b);
    FlatDigitIsDigit(v, b);
  }

  function FlatNibble(v: bv64, b3: bool, b2: bool, b1: bool, b0: bool): bv64 {
    FlatDigit(FlatDigit(FlatDigit(FlatDigit(v, b3), b2), b1), b0)
  }

  function Nibble(b3: bool, b2: bool, b1: bool, b0: bool): nat {
    8 * Bit(b3) + 4 * Bit(b2) + 2 * Bit(b1) + Bit(b0)
  }

  lemma AppendNibble(k: nat, v: bv64, b3: bool, b2: bool, b1: bool, b0: bool) returns (n: nat)
    requires Power(k) == Word(v)
    ensures n == 16 * k + Nibble(b3, b2, b1, b0)
    ensures Power(n) == Word(FlatNibble(v, b3, b2, b1, b0))
  {
    AppendFlat(k, v, b3);
    var k2, v2 := 2 * k + Bit(b3), FlatDigit(v, b3);
    AppendFlat(k2, v2, b2);
    var k1, v1 := 2 * k2 + Bit(b2), FlatDigit(v2, b2);
    AppendFlat(k1, v1, b1);
    var k0, v0 := 2 * k1 + Bit(b1), FlatDigit(v1, b1);
    AppendFlat(k0, v0, b0);
    n := 2 * k0 + Bit(b0);
  }

  // ---------- The eight powers that decide the order of x ----------

  lemma PowerFullUpper() returns (n: nat)
    ensures n == 0xffff_ffff && Power(n) == Word(0xf142_81dd_cd88_8c75)
  {
    n := 0;
    n := AppendNibble(n, 0x8000_0000_0000_0000, true, true, true, true);
    n := AppendNibble(n, 0x0001_0000_0000_0000, true, true, true, true);
    n := AppendNibble(n, 0xa011_0000_0000_0001, true, true, true, true);
    n := AppendNibble(n, 0x7b61_0000_0000_0000, true, true, true, true);
    n := AppendNibble(n, 0x5510_b000_4501_f501, true, true, true, true);
    n := AppendNibble(n, 0x816a_4eb0_fafb_1eba, true, true, true, true);
    n := AppendNibble(n, 0x8ded_1085_4759_56da, true, true, true, true);
    n := AppendNibble(n, 0xc705_16f9_52c3_6030, true, true, true, true);
  }

  lemma PowerFull() returns (n: nat)
    ensures n == 0xffff_ffff_ffff_ffff && Power(n) == Word(0x8000_0000_0000_0000)
  {
    n := PowerFullUpper();
    n := AppendNibble(n, 0xf142_81dd_cd88_8c75, true, true, true, true);
    n := AppendNibble(n, 0x2ffa_b948_d904_4c9a, true, true, true, true);
    n := AppendNibble(n, 0xfb5c_6886_ccac_4390, true, true, true, true);
    n := AppendNibble(n, 0xb12c_07da_db2c_c664, true, true, true, true);
    n := AppendNibble(n, 0xfd37_6096_3246_b4be, true, true, true, true);
    n := AppendNibble(n, 0x8ac3_2a40_6c1a_7100, true, true, true, true);
    n := AppendNibble(n, 0x6b0f_0e3e_cb14_a100, true, true, true, true);
    n := AppendNibble(n, 0x1e0f_1e01_ebeb_ffff, true, true, true, true);
  }

  lemma PowerOver3Upper() returns (n: nat)
    ensures n == 0x5555_5555 && Power(n) == Word(0xba47_b8c6_f3e2_853e)
  {
    n := 0;
    n := AppendNibble(n, 0x8000_0000_0000_0000, false, true, false, true);
    n := AppendNibble(n, 0x0400_0000_0000_0000, false, true, false, true);
    n := AppendNibble(n, 0x0000_06c0_0000_0000, false, true, false, true);
    n := AppendNibble(n, 0x0545_17bd_7838_6ac0, false, true, false, true);
    n := AppendNibble(n, 0xfeb3_013a_4098_16b2, false, true, false, true);
    n := AppendNibble(n, 0xda12_b0a0_1de0_77c0, false, true, false, true);
    n := AppendNibble(n, 0xaea7_96bc_69ec_eed6, false, true, false, true);
    n := AppendNibble(n, 0x8769_8769_03e9_5d44, false, true, false, true);
  }

  lemma PowerOver3() returns (n: nat)
    ensures n == 0x5555_5555_5555_5555 && Power(n) == Word(0x403b_51e4_f96c_9398)
  {
    n := PowerOver3Upper();
    n := AppendNibble(n, 0xba47_b8c6_f3e2_853e, false, true, false, true);
    n := AppendNibble(n, 0x5ae6_aac8_7d03_3bff, false, true, false, true);
    n := AppendNibble(n, 0x89b3_47a7_9145_eea9, false, true, false, true);
    n := AppendNibble(n, 0xbf81_5575_ea5f_a4a8, false, true, false, true);
    n := AppendNibble(n, 0x4e36_90a4_fae8_e6aa, false, true, false, true);
    n := AppendNibble(n, 0x8b6e_3f22_3d5b_0382, false, true, false, true);
    n := AppendNibble(n, 0x272d_7c3e_0078_df2e, false, true, false, true);
    n := AppendNibble(n, 0x40c3_5227_2423_af54, false, true, false, true);
  }

  lemma PowerOver5Upper() returns (n: nat)
    ensures n == 0x3333_3333 && Power(n) == Word(0xd5ec_e906_f243_9d82)
  {
    n := 0;
    n := AppendNibble(n, 0x8000_0000_0000_0000, false, false, true, true);
    n := AppendNibble(n, 0x1000_0000_0000_0000, false, false, true, true);
    n := AppendNibble(n, 0x0000_0000_0000_1000, false, false, true, true);
    n := AppendNibble(n, 0x1ab1_ab1a_ab00_1110, false, false, true, true);
    n := AppendNibble(n, 0xef9d_0518_c311_1e2f, false, false, true, true);
    n := AppendNibble(n, 0x71f0_48bc_dfcd_4103, false, false, true, true);
    n := AppendNibble(n, 0xc8f0_bf58_b25d_75ef, false, false, true, true);
    n := AppendNibble(n, 0x8074_a55d_6362_e256, false, false, true, true);
  }

  lemma PowerOver5() returns (n: nat)
    ensures n == 0x3333_3333_3333_3333 && Power(n) == Word(0x90ba_1e73_eac2_1dba)
  {
    n := PowerOver5Upper();
    n := AppendNibble(n, 0xd5ec_e906_f243_9d82, false, false, true, true);
    n := AppendNibble(n, 0xfd03_158e_af80_9816, false, false, true, true);
    n := AppendNibble(n, 0x2245_ef1f_fe8d_7977, false, false, true, true);
    n := AppendNibble(n, 0x9590_6ddd_bf75_6e82, false, false, true, true);
    n := AppendNibble(n, 0x6745_5c18_58ee_7a03, false, false, true, true);
    n := AppendNibble(n, 0x4216_fb97_adc1_7df1, false, false, true, true);
    n := AppendNibble(n, 0xca4d_26d6_d39f_446f, false, false, true, true);
    n := AppendNibble(n, 0x9ff5_ec4b_3573_b56a, false, false, true, true);
  }

  lemma PowerOver17Upper() returns (n: nat)
    ensures n == 0xf0f_0f0f && Power(n) == Word(0x24df_acdd_705e_043e)
  {
    n := 0;
    n := AppendNibble(n, 0x8000_0000_0000_0000, false, false, false, false);
    n := AppendNibble(n, 0x8000_0000_0000_0000, true, true, true, true);
    n := AppendNibble(n, 0x0001_0000_0000_0000, false, false, false, false);
    n := AppendNibble(n, 0x0000_0000_0000_edb8, true, true, true, true);
    n := AppendNibble(n, 0xf643_b23a_32b2_3a32, false, false, false, false);
    n := AppendNibble(n, 0x1f64_2699_8eec_65df, true, true, true, true);
    n := AppendNibble(n, 0xc00a_f28d_a1aa_debf, false, false, false, false);
    n := AppendNibble(n, 0xa255_3738_9468_040a, true, true, true, true);
  }

  lemma PowerOver17() returns (n: nat)
    ensures n == 0xf0f_0f0f_0f0f_0f0f && Power(n) == Word(0xdb03_0e4f_141d_ef30)
  {
    n := PowerOver17Upper();
    n := AppendNibble(n, 0x24df_acdd_705e_043e, false, false, false, false);
    n := AppendNibble(n, 0xb69a_c238_7c2d_d2f3, true, true, true, true);
    n := AppendNibble(n, 0xfa4f_cc42_b22c_7bac, false, false, false, false);
    n := AppendNibble(n, 0x55dd_ac2e_036b_4c56, true, true, true, true);
    n := AppendNibble(n, 0xc7fb_6224_045b_e8c6, false, false, false, false);
    n := AppendNibble(n, 0xa93f_e8e1_2e0c_f53c, true, true, true, true);
    n := AppendNibble(n, 0xd276_fda0_9a0f_889d, false, false, false, false);
    n := AppendNibble(n, 0x1543_364a_5eb1_d43a, true, true, true, true);
  }

  lemma PowerOver257Upper() returns (n: nat)
    ensures n == 0xff_00ff && Power(n) == Word(0xe605_3bdc_abfa_7ea3)
  {
    n := 0;
    n := AppendNibble(n, 0x8000_0000_0000_0000, false, false, false, false);
    n := AppendNibble(n, 0x8000_0000_0000_0000, false, false, false, false);
    n := AppendNibble(n, 0x8000_0000_0000_0000, true, true, true, true);
    n := AppendNibble(n, 0x0001_0000_0000_0000, true, true, true, true);
    n := AppendNibble(n, 0xa011_0000_0000_0001, false, false, false, false);
    n := AppendNibble(n, 0x2000_0000_0000_2cb6, false, false, false, false);
    n := AppendNibble(n, 0x12b1_ab1a_9121_6f43, true, true, true, true);
    n := AppendNibble(n, 0xead7_1c4a_d88f_fedd, true, true, true, true);
  }

  lemma PowerOver257() returns (n: nat)
    ensures n == 0xff_00ff_00ff_00ff && Power(n) == Word(0x830b_9804_e1f3_fb6a)
  {
    n := PowerOver257Upper();
    n := AppendNibble(n, 0xe605_3bdc_abfa_7ea3, false, false, false, false);
    n := AppendNibble(n, 0xb453_5358_40ac_6f6b, false, false, false, false);
    n := AppendNibble(n, 0x7bf0_942a_5837_abd4, true, true, true, true);
    n := AppendNibble(n, 0x6b4b_5dd1_e3b0_7d1f, true, true, true, true);
    n := AppendNibble(n, 0x610d_0776_fc5a_c024, false, false, false, false);
    n := AppendNibble(n, 0xd2eb_51b3_e18a_5291, false, false, false, false);
    n := AppendNibble(n, 0xc0bd_fe6b_47da_bb7e, true, true, true, true);
    n := AppendNibble(n, 0xc14b_1cd4_6cb1_e750, true, true, true, true);
  }

  lemma PowerOver65537Upper() returns (n: nat)
    ensures n == 0xffff && Power(n) == Word(0x5510_b000_4501_f501)
  {
    n := 0;
    n := AppendNibble(n, 0x8000_0000_0000_0000, false, false, false, false);
    n := AppendNibble(n, 0x8000_0000_0000_0000, false, false, false, false);
    n := AppendNibble(n, 0x8000_0000_0000_0000, false, false, false, false);
    n := AppendNibble(n, 0x8000_0000_0000_0000, false, false, false, false);
    n := AppendNibble(n, 0x8000_0000_0000_0000, true, true, true, true);
    n := AppendNibble(n, 0x0001_0000_0000_0000, true, true, true, true);
    n := AppendNibble(n, 0xa011_0000_0000_0001, true, true, true, true);
    n := AppendNibble(n, 0x7b61_0000_0000_0000, true, true, true, true);
  }

  lemma PowerOver65537() returns (n: nat)
    ensures n == 0xffff_0000_ffff && Power(n) == Word(0x73e5_a9d9_669e_7838)
  {
    n := PowerOver65537Upper();
    n := AppendNibble(n, 0x5510_b000_4501_f501, false, false, false, false);
    n := AppendNibble(n, 0x8758_7d7d_8f5d_7106, false, false, false, false);
    n := AppendNibble(n, 0xb550_3bab_9b0e_66eb, false, false, false, false);
    n := AppendNibble(n, 0xe827_ebfd_491a_0e0c, false, false, false, false);
    n := AppendNibble(n, 0x6946_b7fc_d37c_8ed6, true, true, true, true);
    n := AppendNibble(n, 0xb39a_fa54_c580_4ee7, true, true, true, true);
    n := AppendNibble(n, 0x8156_8739_1dec_286c, true, true, true, true);
    n := AppendNibble(n, 0x1fa6_87a0_d4d3_80a2, true, true, true, true);
  }

  lemma PowerOver641Upper() returns (n: nat)
    ensures n == 0x66_3d80 && Power(n) == Word(0x169a_681f_189b_70ed)
  {
    n := 0;
    n := AppendNibble(n, 0x8000_0000_0000_0000, false, false, false, false);
    n := AppendNibble(n, 0x8000_0000_0000_0000, false, false, false, false);
    n := AppendNibble(n, 0x8000_0000_0000_0000, false, true, true, false);
    n := AppendNibble(n, 0x0200_0000_0000_0000, false, true, true, false);
    n := AppendNibble(n, 0x0000_0000_0360_0000, false, false, true, true);
    n := AppendNibble(n, 0x7ef3_5014_5f4b_0f44, true, true, false, true);
    n := AppendNibble(n, 0x331f_c12b_12d9_c405, true, false, false, false);
    n := AppendNibble(n, 0xb08b_17f2_8b57_557d, false, false, false, false);
  }

  lemma PowerOver641() returns (n: nat)
    ensures n == 0x66_3d80_ff99_c27f && Power(n) == Word(0x4541_4241_ef10_1fd6)
  {
    n := PowerOver641Upper();
    n := AppendNibble(n, 0x169a_681f_189b_70ed, true, true, true, true);
    n := AppendNibble(n, 0xf0bc_9c8a_adb8_2a6c, true, true, true, true);
    n := AppendNibble(n, 0x6edc_fec5_a54c_f979, true, false, false, true);
    n := AppendNibble(n, 0x4697_e565_661f_4606, true, false, false, true);
    n := AppendNibble(n, 0xed2f_cc27_fa0c_ca74, true, true, false, false);
    n := AppendNibble(n, 0x855c_b967_2d25_7b28, false, false, true, false);
    n := AppendNibble(n, 0x120a_26e3_ff2f_0fa2, false, true, true, true);
    n := AppendNibble(n, 0x4169_ac4d_f180_f9fc, true, true, true, true);
  }

  lemma PowerOver6700417Upper() returns (n: nat)
    ensures n == 0x280 && Power(n) == Word(0xa222_80a2_2280_0000)
  {
    n := 0;
    n := AppendNibble(n, 0x8000_0000_0000_0000, false, false, false, false);
    n := AppendNibble(n, 0x8000_0000_0000_0000, false, false, false, false);
    n := AppendNibble(n, 0x8000_0000_0000_0000, false, false, false, false);
    n := AppendNibble(n, 0x8000_0000_0000_0000, false, false, false, false);
    n := AppendNibble(n, 0x8000_0000_0000_0000, false, false, false, false);
    n := AppendNibble(n, 0x8000_0000_0000_0000, false, false, true, false);
    n := AppendNibble(n, 0x2000_0000_0000_0000, true, false, false, false);
    n := AppendNibble(n, 0x0000_0000_0080_0000, false, false, false, false);
  }

  lemma PowerOver6700417() returns (n: nat)
    ensures n == 0x280_ffff_fd7f && Power(n) == Word(0x899f_c0e8_0642_af00)
  {
    n := PowerOver6700417Upper();
    n := AppendNibble(n, 0xa222_80a2_2280_0000, true, true, true, true);
    n := AppendNibble(n, 0x4d84_f011_1444_4c5e, true, true, true, true);
    n := AppendNibble(n, 0x8d41_5bd7_b8f1_3adb, true, true, true, true);
    n := AppendNibble(n, 0x5ea1_9422_edd3_ec64, true, true, true, true);
    n := AppendNibble(n, 0x36c8_aea6_3ab8_50fa, true, true, true, true);
    n := AppendNibble(n, 0x295e_3e75_3178_e9ab, true, true, false, true);
    n := AppendNibble(n, 0x1a2e_f03a_32bd_75ed, false, true, true, true);
    n := AppendNibble(n, 0xccc9_15d5_e803_c7f0, true, true, true, true);
  }

  // ---------- The order of x is 2^64 - 1 ----------

  const PERIOD: nat := 0xffff_ffff_ffff_ffff

  ghost predicate IsOrder(d: nat) {
    d > 0 && Power(d) == ONE && forall k: nat :: 0 < k < d ==> Power(k) != ONE
  }

  lemma {:induction false} LeastReturn(n: nat) returns (d: nat)
    requires n > 0 && Power(n) == ONE
    ensures IsOrder(d)
    decreases n
  {
    if k: nat :| 0 < k < n && Power(k) == ONE {
      d := LeastReturn(k);
    } else {
      d := n;
    }
  }

  lemma {:induction false} PowerOfMultiple(d: nat, q: nat)
    requires Power(d) == ONE
    ensures Power(d * q) == ONE
  {
    if q > 0 {
      PowerOfMultiple(d, q - 1);
      IterateAdd(ONE, d * (q - 1), d);
      assert d * q == d * (q - 1) + d;
    }
  }

  lemma PowerAfterMultiple(d: nat, q: nat, r: nat)
    requires Power(d) == ONE
    ensures Power(d * q + r) == Power(r)
  {
    PowerOfMultiple(d, q);
    IterateAdd(ONE, d * q, r);
  }

  lemma ReturnsAreMultiples(d: nat, n: nat)
    requires IsOrder(d) && Power(n) == ONE
    ensures Divides(d, n)
  {
    var q, r := n / d, n % d;
    assert n == d * q + r;
    PowerAfterMultiple(d, q, r);
    assert !(0 < r < d);
  }

  lemma NotBelow(d: nat, m: nat)
    requires IsOrder(d) && Power(m) != ONE
    ensures !Divides(d, m)
  {
    if Divides(d, m) {
      var q := Quotient(d, m);
      QuotientIsNatural(d, q);
      PowerOfMultiple(d, q);
    }
  }

  lemma QuotientIsNatural(d: nat, q: int)
    requires d > 0 && d * q >= 0
    ensures q >= 0
  {
  }

  lemma PrimeInOrder(d: nat, p: int, m: nat)
    requires IsOrder(d) && IsPrime(p) && p * m == PERIOD && Power(m) != ONE && Divides(d, PERIOD)
    ensures Divides(p, d)
  {
    NotBelow(d, m);
    PrimeDividesOrder(d, p, m);
  }

  lemma SmallPrimesInOrder(d: nat)
    requires IsOrder(d) && Divides(d, PERIOD)
    ensures Divides(3, d) && Divides(5, d) && Divides(17, d)
  {
    SmallFermatPrimes();
    var m3 := PowerOver3();
    PrimeInOrder(d, 3, m3);
    var m5 := PowerOver5();
    PrimeInOrder(d, 5, m5);
    var m17 := PowerOver17();
    PrimeInOrder(d, 17, m17);
  }

  lemma LargePrimesInOrder(d: nat)
    requires IsOrder(d) && Divides(d, PERIOD)
    ensures Divides(257, d) && Divides(65537, d) && Divides(641, d) && Divides(6700417, d)
  {
    Prime257And641();
    var m257 := PowerOver257();
    PrimeInOrder(d, 257, m257);
    Prime65537();
    var m65537 := PowerOver65537();
    PrimeInOrder(d, 65537, m65537);
    var m641 := PowerOver641();
    PrimeInOrder(d, 641, m641);
    Prime6700417();
    var m6700417 := PowerOver6700417();
    PrimeInOrder(d, 6700417, m6700417);
  }

  lemma AllPrimesDivide(d: nat)
    requires Divides(3, d) && Divides(5, d) && Divides(17, d)
    requires Divides(257, d) && Divides(65537, d) && Divides(641, d) && Divides(6700417, d)
    ensures Divides(PERIOD, d)
  {
    SmallFermatPrimes();
    Prime257And641();
    Prime65537();
    Prime6700417();
    CoprimeProduct(3, 5, d);
    CoprimeProduct(15, 17, d);
    CoprimeProduct(255, 257, d);
    CoprimeProduct(65535, 65537, d);
    CoprimeProduct(0xffff_ffff, 641, d);
    CoprimeProduct(0xffff_ffff * 641, 6700417, d);
  }

  lemma OrderIsFull() returns (d: nat)
    ensures IsOrder(d) && d == PERIOD
  {
    var n := PowerFull();
    d := LeastReturn(n);
    ReturnsAreMultiples(d, PERIOD);
    SmallPrimesInOrder(d);
    LargePrimesInOrder(d);
    AllPrimesDivide(d);
    DivisorIsAtMost(PERIOD, d);
    DivisorIsAtMost(d, PERIOD);
  }

  // ---------- Every nonzero state lies on one cycle ----------

  lemma BitsAsInt(w: Word)
    ensures 0 <= w.bits as int <= PERIOD
    ensures w.bits as int as bv64 == w.bits
  {
  }

  lemma NonzeroAsInt(w: Word)
    requires w != ZERO
    ensures 1 <= w.bits as int <= PERIOD
  {
    BitsAsInt(w);
    BitsAsInt(ZERO);
  }

  lemma EqualPowersReturn(i: nat, j: nat)
    requires i <= j && Power(i) == Power(j)
    ensures Power(j - i) == ONE
  {
    IterateAdd(ONE, j - i, i);
    IterateIsInjective(ONE, Power(j - i), i);
  }

  lemma PowersDiffer(d: nat, i: nat, j: nat)
    requires IsOrder(d) && i < j < d
    ensures PowerInt(i) != PowerInt(j)
  {
    if PowerInt(i) == PowerInt(j) {
      SameInt(Power(i), Power(j));
      EqualPowersReturn(i, j);
    }
  }

  ghost function PowerInt(k: nat): int { Power(k).bits as int }

  lemma PowerAsInt(k: nat)
    ensures 1 <= PowerInt(k) <= PERIOD
  {
    IterateZero(ONE, k);
    NonzeroAsInt(Power(k));
  }

  lemma SameInt(a: Word, b: Word)
    requires a.bits as int == b.bits as int
    ensures a == b
  {
    BitsAsInt(a);
    BitsAsInt(b);
  }

  /** Every nonzero word is a power of x. */
  lemma EveryWordIsPower(w: Word) returns (k: nat)
    requires w != ZERO
    ensures k < PERIOD && Power(k) == w
  {
    var d := OrderIsFull();
    forall i: nat, j: nat | i < j < d ensures PowerInt(i) != PowerInt(j) { PowersDiffer(d, i, j); }
    forall i: nat | i < d ensures 1 <= PowerInt(i) < 1 + d { PowerAsInt(i); }
    NonzeroAsInt(w);
    var f := (i: nat) => PowerInt(i);
    assert forall i: nat, j: nat :: i < j < d ==> f(i) != f(j);
    k := Pigeonhole(f, d, 1, w.bits as int);
    SameInt(Power(k), w);
  }

  /** A nonzero state returns to itself after n steps exactly when 2^64 - 1 divides n. */
  lemma PeriodIsMaximal(w: Word, n: nat)
    requires w != ZERO
    ensures Iterate(w, n) == w <==> Divides(PERIOD, n)
  {
    var k := EveryWordIsPower(w);
    var d := OrderIsFull();
    IterateAdd(ONE, k, n);
    IterateAdd(ONE, n, k);
    if Iterate(w, n) == w {
      IterateIsInjective(Power(n), ONE, k);
      ReturnsAreMultiples(d, n);
    }
    if Divides(PERIOD, n) {
      var q := Quotient(PERIOD, n);
      PowerOfMultiple(PERIOD, q);
    }
  }

  /** From any nonzero state the register reaches every nonzero state. */
  lemma AllStatesOnOneCycle(a: Word, b: Word) returns (k: nat)
    requires a != ZERO && b != ZERO
    ensures k < PERIOD && Iterate(a, k) == b
  {
    var i := EveryWordIsPower(a);
    var j := EveryWordIsPower(b);
    if i <= j {
      k := j - i;
      IterateAdd(ONE, i, k);
    } else {
      k := PERIOD - i + j;
      var n := PowerFull();
      IterateAdd(ONE, i, k);
      IterateAdd(ONE, PERIOD, j);
    }
  }
}
