/** The 64-bit Galois shift register that draws the random block offsets. */
module Lfsr {
  import opened Arith

  // A register state. Keeping the bits behind a constructor lets proofs about
  // whole words go by congruence, and only the base facts by bit-blasting.
  datatype Word = Word(bits: bv64)

  const ZERO := Word(0)
  const ONE := Word(0x8000_0000_0000_0000)

  function Xor(a: bv64, b: bv64): (r: bv64)
    ensures a ^ r == b
  {
    a ^ b
  }

  function Shift(s: bv64): bv64 { s >> 1 }

  // The tap mask, when the bit that drops out is set
  function Feedback(s: bv64): bv64 {
    if s & 1 == 1 then 0xd800_0000_0000_0000 else 0
  }

  function StepBits(s: bv64): bv64 { Xor(Shift(s), Feedback(s)) }

  // The mask's top bit survives the shift, so it tells the dropped bit.
  function UnstepBits(t: bv64): bv64 {
    if t & 0x8000_0000_0000_0000 != 0 then ((t ^ 0xd800_0000_0000_0000) << 1) | 1 else t << 1
  }

  function Step(w: Word): Word { Word(StepBits(w.bits)) }

  function Unstep(w: Word): Word { Word(UnstepBits(w.bits)) }

  function Add(a: Word, b: Word): Word { Word(Xor(a.bits, b.bits)) }

  function Iterate(w: Word, k: nat): Word {
    if k == 0 then w else Step(Iterate(w, k - 1))
  }

  // ---------- Facts about single bits ----------

  lemma StepOdd(u: bv64, t: bv64)
    requires u & 1 == 1 && (u >> 1) ^ 0xd800_0000_0000_0000 == t
    ensures StepBits(u) == t
  {
  }

  lemma StepEven(u: bv64, t: bv64)
    requires u & 1 != 1 && (u >> 1) ^ 0 == t
    ensures StepBits(u) == t
  {
  }

  lemma DroppedOne(s: bv64, t: bv64)
    requires s & 1 == 1 && t == (s >> 1) ^ 0xd800_0000_0000_0000
    ensures t & 0x8000_0000_0000_0000 != 0 && ((t ^ 0xd800_0000_0000_0000) << 1) | 1 == s
  {
  }

  lemma DroppedZero(s: bv64, t: bv64)
    requires s & 1 != 1 && t == (s >> 1) ^ 0
    ensures t & 0x8000_0000_0000_0000 == 0 && t << 1 == s
  {
  }

  lemma DropOne(s: bv64, t: bv64)
    requires s & 1 == 1 && t == (s >> 1) ^ 0xd800_0000_0000_0000
    ensures UnstepBits(t) == s
  {
    DroppedOne(s, t);
  }

  lemma DropZero(s: bv64, t: bv64)
    requires s & 1 != 1 && t == (s >> 1) ^ 0
    ensures UnstepBits(t) == s
  {
    DroppedZero(s, t);
  }

  lemma UnstepStepBits(s: bv64)
    ensures UnstepBits(StepBits(s)) == s
  {
    if s & 1 == 1 {
      StepOdd(s, (s >> 1) ^ 0xd800_0000_0000_0000);
      DropOne(s, (s >> 1) ^ 0xd800_0000_0000_0000);
    } else {
      StepEven(s, (s >> 1) ^ 0);
      DropZero(s, (s >> 1) ^ 0);
    }
  }

  lemma RestoreOne(t: bv64, u: bv64)
    requires t & 0x8000_0000_0000_0000 != 0 && u == ((t ^ 0xd800_0000_0000_0000) << 1) | 1
    ensures StepBits(u) == t
  {
    RestoredOne(t, u);
    StepOdd(u, t);
  }

  lemma RestoreZero(t: bv64, u: bv64)
    requires t & 0x8000_0000_0000_0000 == 0 && u == t << 1
    ensures StepBits(u) == t
  {
    RestoredZero(t, u);
    StepEven(u, t);
  }

  lemma RestoredOne(t: bv64, u: bv64)
    requires t & 0x8000_0000_0000_0000 != 0 && u == ((t ^ 0xd800_0000_0000_0000) << 1) | 1
    ensures u & 1 == 1 && (u >> 1) ^ 0xd800_0000_0000_0000 == t
  {
  }

  lemma RestoredZero(t: bv64, u: bv64)
    requires t & 0x8000_0000_0000_0000 == 0 && u == t << 1
    ensures u & 1 != 1 && (u >> 1) ^ 0 == t
  {
  }

  lemma RestoreBits(t: bv64)
    ensures StepBits(UnstepBits(t)) == t
  {
    if t & 0x8000_0000_0000_0000 != 0 {
      RestoreOne(t, UnstepBits(t));
    } else {
      RestoreZero(t, UnstepBits(t));
    }
  }

  lemma ShiftIsLinear(a: bv64, b: bv64)
    ensures Shift(Xor(a, b)) == Xor(Shift(a), Shift(b))
  {
  }

  lemma FeedbackIsLinear(a: bv64, b: bv64)
    ensures Feedback(Xor(a, b)) == Xor(Feedback(a), Feedback(b))
  {
  }

  lemma XorCommutes(a: bv64, b: bv64)
    ensures Xor(a, b) == Xor(b, a)
  {
  }

  lemma XorAssociates(a: bv64, b: bv64, c: bv64)
    ensures Xor(Xor(a, b), c) == Xor(a, Xor(b, c))
  {
  }

  /** A step shifts right, and then flips the tap bits if the bit shifted out was set. */
  lemma StepIs(w: Word)
    ensures w.bits & 1 == 1 ==> Step(w).bits == (w.bits >> 1) ^ 0xd800_0000_0000_0000
    ensures w.bits & 1 != 1 ==> Step(w).bits == w.bits >> 1
  {
    if w.bits & 1 == 1 {
      StepOdd(w.bits, (w.bits >> 1) ^ 0xd800_0000_0000_0000);
    } else {
      StepEven(w.bits, (w.bits >> 1) ^ 0);
    }
  }

  // ---------- One step is a linear bijection that fixes only zero ----------

  lemma UnstepStep(w: Word)
    ensures Unstep(Step(w)) == w
  {
    UnstepStepBits(w.bits);
  }

  lemma StepUnstep(w: Word)
    ensures Step(Unstep(w)) == w
  {
    RestoreBits(w.bits);
  }

  lemma StepIsBijective(w: Word)
    ensures Unstep(Step(w)) == w && Step(Unstep(w)) == w
  {
    UnstepStep(w);
    StepUnstep(w);
  }

  lemma StepFixesOnlyZero(w: Word)
    ensures Step(w) == ZERO <==> w == ZERO
  {
    assert UnstepBits(0) == 0 && StepBits(0) == 0;
    StepIsBijective(w);
  }

  lemma AddCommutes(a: Word, b: Word)
    ensures Add(a, b) == Add(b, a)
  {
    XorCommutes(a.bits, b.bits);
  }

  lemma AddAssociates(a: Word, b: Word, c: Word)
    ensures Add(Add(a, b), c) == Add(a, Add(b, c))
  {
    XorAssociates(a.bits, b.bits, c.bits);
  }

  lemma Regroup(a: Word, b: Word, c: Word, d: Word)
    ensures Add(Add(a, b), Add(c, d)) == Add(Add(a, c), Add(b, d))
  {
    AddAssociates(a, b, Add(c, d));
    AddAssociates(b, c, d);
    AddCommutes(b, c);
    AddAssociates(c, b, d);
    AddAssociates(a, c, Add(b, d));
  }

  lemma StepIsLinear(a: Word, b: Word)
    ensures Step(Add(a, b)) == Add(Step(a), Step(b))
  {
    ShiftIsLinear(a.bits, b.bits);
    FeedbackIsLinear(a.bits, b.bits);
    Regroup(Word(Shift(a.bits)), Word(Shift(b.bits)), Word(Feedback(a.bits)), Word(Feedback(b.bits)));
  }

  // ---------- Runs of the register ----------

  lemma {:induction false} IterateAdd(w: Word, j: nat, k: nat)
    ensures Iterate(w, j + k) == Iterate(Iterate(w, j), k)
  {
    if k > 0 {
      IterateAdd(w, j, k - 1);
    }
  }

  lemma {:induction false} IterateIsLinear(a: Word, b: Word, k: nat)
    ensures Iterate(Add(a, b), k) == Add(Iterate(a, k), Iterate(b, k))
  {
    if k > 0 {
      IterateIsLinear(a, b, k - 1);
      StepIsLinear(Iterate(a, k - 1), Iterate(b, k - 1));
    }
  }

  lemma {:induction false} IterateIsInjective(a: Word, b: Word, k: nat)
    requires Iterate(a, k) == Iterate(b, k)
    ensures a == b
  {
    if k > 0 {
      StepIsBijective(Iterate(a, k - 1));
      StepIsBijective(Iterate(b, k - 1));
      IterateIsInjective(a, b, k - 1);
    }
  }

  lemma {:induction false} IterateZero(w: Word, k: nat)
    ensures Iterate(w, k) == ZERO <==> w == ZERO
  {
    if k > 0 {
      IterateZero(w, k - 1);
      StepFixesOnlyZero(Iterate(w, k - 1));
    }
  }
}
