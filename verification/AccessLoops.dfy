/** The unrolled access loops: strided, and at offsets drawn from the shift register. */
module AccessLoops {
  import opened Arith
  import opened Loops
  import opened Lfsr
  import opened Persistence

  // The three entries of the function tables: loads, non-temporal stores, stores with
  // a write-back of each line
  datatype Op = OpLoad | OpNt | OpStoreClwb

  // ---------- The simple walk ----------

  function TouchTo(h: History, op: Op, a: int): History {
    match op
    case OpLoad => Then(h, Persistence.Load(a))
    case OpNt => Then(h, NtStore(a))
    case OpStoreClwb => Then(Then(h, Store(a)), Clwb(a))
  }

  // n lines, one after the other
  function WalkTo(h: History, op: Op, base: int, n: nat): History {
    if n == 0 then h else TouchTo(WalkTo(h, op, base, n - 1), op, base + 64 * (n - 1))
  }

  lemma {:induction false} WalkAdd(h: History, op: Op, base: int, i: nat, j: nat)
    ensures WalkTo(WalkTo(h, op, base, i), op, base + 64 * i, j) == WalkTo(h, op, base, i + j)
  {
    if j > 0 {
      WalkAdd(h, op, base, i, j - 1);
    }
  }

  // ---------- The unrolled blocks ----------

  method Touch(cpu: Cpu, op: Op, a: int)
    requires cpu.Valid()
    modifies cpu
    ensures cpu.Valid() && cpu.history == TouchTo(old(cpu.history), op, a)
  {
    match op {
      case OpLoad =>
        cpu.Issue(Persistence.Load(a));
      case OpNt =>
        cpu.Issue(NtStore(a));
      case OpStoreClwb =>
        cpu.Issue(Store(a));
        cpu.Issue(Clwb(a));
    }
  }

  lemma WalkFour(h: History, op: Op, a: int)
    ensures WalkTo(h, op, a, 4) == TouchTo(TouchTo(TouchTo(TouchTo(h, op, a), op, a + 0x40), op, a + 0x80), op, a + 0xc0)
  {
    assert WalkTo(h, op, a, 1) == TouchTo(h, op, a);
    assert WalkTo(h, op, a, 2) == TouchTo(TouchTo(h, op, a), op, a + 0x40);
  }

  // The 256-byte block: four lines
  method Block256(cpu: Cpu, op: Op, r9: int, r10in: int) returns (r10: int)
    requires cpu.Valid()
    modifies cpu
    ensures cpu.Valid() && cpu.history == WalkTo(old(cpu.history), op, r9 + r10in, 4) && r10 == r10in + 0x100
  {
    Touch(cpu, op, r9 + r10in);
    Touch(cpu, op, 0x40 + r9 + r10in);
    Touch(cpu, op, 0x80 + r9 + r10in);
    Touch(cpu, op, 0xc0 + r9 + r10in);
    r10 := r10in + 0x100;
    WalkFour(old(cpu.history), op, r9 + r10in);
  }

  // The 512-byte block: eight lines
  method Block512(cpu: Cpu, op: Op, r9: int, r10in: int) returns (r10: int)
    requires cpu.Valid()
    modifies cpu
    ensures cpu.Valid() && cpu.history == WalkTo(old(cpu.history), op, r9 + r10in, 8) && r10 == r10in + 0x200
  {
    ghost var h := cpu.history;
    Touch(cpu, op, r9 + r10in);
    Touch(cpu, op, 0x40 + r9 + r10in);
    Touch(cpu, op, 0x80 + r9 + r10in);
    Touch(cpu, op, 0xc0 + r9 + r10in);
    WalkFour(h, op, r9 + r10in);
    ghost var h4 := cpu.history;
    Touch(cpu, op, 0x100 + r9 + r10in);
    Touch(cpu, op, 0x140 + r9 + r10in);
    Touch(cpu, op, 0x180 + r9 + r10in);
    Touch(cpu, op, 0x1c0 + r9 + r10in);
    WalkFour(h4, op, r9 + r10in + 0x100);
    WalkAdd(h, op, r9 + r10in, 4, 4);
    r10 := r10in + 0x200;
  }

  // ---------- Strided access ----------

  // count accesses of the same number of lines, skip bytes apart
  function StrideTo(h: History, op: Op, start: int, skip: int, lines: nat, count: nat): History {
    if count == 0 then h
    else WalkTo(StrideTo(h, op, start, skip, lines, count - 1), op, Base(start, skip, count - 1), lines)
  }

  // INNER: blocks of 256 bytes until size is covered
  method Access256(cpu: Cpu, op: Op, r9: int, size: int)
    requires cpu.Valid()
    modifies cpu
    ensures cpu.Valid() && cpu.history == WalkTo(old(cpu.history), op, r9, 4 * Trips(size, 256))
  {
    ghost var k: nat := 0;
    var r10 := 0;
    while true
      invariant k < Trips(size, 256) && r10 == k * 256
      invariant cpu.Valid() && cpu.history == WalkTo(old(cpu.history), op, r9, 4 * k)
      decreases Trips(size, 256) - k
    {
      r10 := Block256(cpu, op, r9, r10);
      WalkAdd(old(cpu.history), op, r9, 4 * k, 4);
      k := k + 1;
      TripsGuard(size, 256, k);
      if !(r10 < size) {
        break;
      }
    }
  }

  method Delay(delay: int) returns (r10: int)
    ensures r10 == if delay > 1 then delay else 1
  {
    r10 := 0;
    while true
      invariant 0 <= r10 && (r10 == 0 || r10 < delay)
      decreases delay - r10
    {
      r10 := r10 + 1;
      if !(r10 < delay) {
        break;
      }
    }
  }

  method Stride(cpu: Cpu, op: Op, start: int, size: int, skip: int, delay: int, count: int)
    requires cpu.Valid()
    modifies cpu
    ensures cpu.Valid()
    ensures cpu.history == StrideTo(old(cpu.history), op, start, skip, 4 * Trips(size, 256), Trips(count, 1))
  {
    ghost var lines := 4 * Trips(size, 256);
    var r8, r11 := 0, 0;
    while true
      invariant 0 <= r11 < Trips(count, 1) && start + r8 == Base(start, skip, r11)
      invariant cpu.Valid() && cpu.history == StrideTo(old(cpu.history), op, start, skip, lines, r11)
      decreases Trips(count, 1) - r11
    {
      var r9 := start + r8;
      Access256(cpu, op, r9, size);
      var r10 := Delay(delay);
      r8 := r8 + skip;
      r11 := r11 + 1;
      TripsGuard(count, 1, r11);
      if !(r11 < count) {
        break;
      }
    }
  }

  /** Accesses that abut make one contiguous walk. */
  lemma {:induction false} StrideIsWalk(h: History, op: Op, start: int, lines: nat, count: nat)
    ensures StrideTo(h, op, start, 64 * lines, lines, count) == WalkTo(h, op, start, lines * count)
  {
    if count > 0 {
      StrideIsWalk(h, op, start, lines, count - 1);
      BaseIsLinear(start, 64 * lines, count - 1);
      assert (count - 1) * (64 * lines) == 64 * (lines * (count - 1));
      WalkAdd(h, op, start, lines * (count - 1), lines);
      assert lines * count == lines * (count - 1) + lines;
    }
  }

  // ---------- Sequential access ----------

  // LOOP_SEQ..2: single lines until size is covered
  method AccessLines(cpu: Cpu, op: Op, r9: int, size: int)
    requires cpu.Valid()
    modifies cpu
    ensures cpu.Valid() && cpu.history == WalkTo(old(cpu.history), op, r9, Trips(size, 64))
  {
    ghost var k: nat := 0;
    var r8 := 0;
    while true
      invariant k < Trips(size, 64) && r8 == k * 64
      invariant cpu.Valid() && cpu.history == WalkTo(old(cpu.history), op, r9, k)
      decreases Trips(size, 64) - k
    {
      Touch(cpu, op, r9 + r8);
      r8 := r8 + 0x40;
      k := k + 1;
      TripsGuard(size, 64, k);
      if !(r8 < size) {
        break;
      }
    }
  }

  function SeqRounds(length: int, size: int): nat { if size <= 0 then 1 else Trips(length, size) }

  // seq_load, seq_nt, seq_store and seq_clwb. With a size of zero or less, the loop only
  // ends when its first round reaches the end address.
  method Seq(cpu: Cpu, op: Op, start: int, end: int, size: int)
    requires cpu.Valid() && (size > 0 || start + size >= end)
    modifies cpu
    ensures cpu.Valid()
    ensures cpu.history == StrideTo(old(cpu.history), op, start, size, Trips(size, 64), SeqRounds(end - start, size))
  {
    ghost var k: nat := 0;
    var r9 := start;
    while true
      invariant k < SeqRounds(end - start, size) && r9 == Base(start, size, k)
      invariant cpu.Valid() && cpu.history == StrideTo(old(cpu.history), op, start, size, Trips(size, 64), k)
      decreases SeqRounds(end - start, size) - k
    {
      AccessLines(cpu, op, r9, size);
      r9 := r9 + size;
      k := k + 1;
      SeqGuard(start, end, size, k);
      if !(r9 < end) {
        break;
      }
    }
  }

  lemma SeqGuard(start: int, end: int, size: int, k: nat)
    requires 1 <= k && (size > 0 || (start + size >= end && k == 1))
    ensures Base(start, size, k) < end <==> k < SeqRounds(end - start, size)
  {
    BaseIsLinear(start, size, k);
    if size > 0 {
      TripsGuard(end - start, size, k);
    }
  }

  /** Whole blocks that fill the range: one walk from start to end. */
  lemma SeqIsWalk(h: History, op: Op, start: int, end: int, size: nat)
    requires size > 0 && size % 64 == 0 && start < end && Divides(size, end - start)
    ensures StrideTo(h, op, start, size, Trips(size, 64), SeqRounds(end - start, size)) == WalkTo(h, op, start,
            (end - start) / 64)
  {
    var lines, rounds := Trips(size, 64), Trips(end - start, size);
    TripsExact(size, 64);
    TripsExact(end - start, size);
    assert size == 64 * lines;
    StrideIsWalk(h, op, start, lines, rounds);
    SeqLines(lines, rounds, end - start);
  }

  lemma SeqLines(lines: nat, rounds: nat, length: int)
    requires rounds * (64 * lines) == length
    ensures length / 64 == lines * rounds
  {
    assert length == 64 * (lines * rounds);
  }

  // ---------- Random access ----------

  function Offset(w: Word, mask: bv64): int { (w.bits & mask) as int }

  // n accesses, at the masked values that the register takes after seed
  function RandomTo(h: History, op: Op, start: int, lines: nat, seed: Word, mask: bv64, n: nat): History {
    if n == 0 then h
    else WalkTo(RandomTo(h, op, start, lines, seed, mask, n - 1), op, start + Offset(Iterate(seed, n), mask), lines)
  }

  // The word in memory that holds the register between accesses
  class SeedWord {
    var value: Word

    constructor (w: Word)
      ensures value == w
    {
      value := w;
    }
  }

  lemma NegatedBit(s: bv64)
    ensures ((0 - (s & 1)) & 0xd800_0000_0000_0000) ^ (s >> 1) == StepBits(s)
  {
    if s & 1 == 1 {
      StepOdd(s, (s >> 1) ^ 0xd800_0000_0000_0000);
      MaskOfOne(s);
    } else {
      StepEven(s, (s >> 1) ^ 0);
      MaskOfZero(s);
    }
  }

  lemma MaskOfOne(s: bv64)
    requires s & 1 == 1
    ensures ((0 - (s & 1)) & 0xd800_0000_0000_0000) ^ (s >> 1) == (s >> 1) ^ 0xd800_0000_0000_0000
  {
  }

  lemma MaskOfZero(s: bv64)
    requires s & 1 != 1
    ensures ((0 - (s & 1)) & 0xd800_0000_0000_0000) ^ (s >> 1) == (s >> 1) ^ 0
  {
  }

  // RandLFSR64, register by register
  method RandLfsr64(random: SeedWord, accessmask: bv64) returns (r8: bv64)
    modifies random
    ensures random.value == Step(old(random.value)) && r8 == random.value.bits & accessmask
    ensures r8 as int == Offset(random.value, accessmask)
  {
    var rcx: bv64 := 0xd800_0000_0000_0000;
    var r9 := random.value.bits;
    var r12 := r9;
    NegatedBit(r9);
    r9 := r9 >> 1;
    r12 := r12 & 1;
    r12 := 0 - r12;
    r12 := r12 & rcx;
    r12 := r12 ^ r9;
    random.value := Word(r12);
    r8 := random.value.bits & accessmask;
  }

  // ONE1 .. ONE4: blocks of 512 bytes until size is covered
  method Access512(cpu: Cpu, op: Op, r9: int, size: int)
    requires cpu.Valid()
    modifies cpu
    ensures cpu.Valid() && cpu.history == WalkTo(old(cpu.history), op, r9, 8 * Trips(size, 512))
  {
    ghost var k: nat := 0;
    var r10 := 0;
    while true
      invariant k < Trips(size, 512) && r10 == k * 512
      invariant cpu.Valid() && cpu.history == WalkTo(old(cpu.history), op, r9, 8 * k)
      decreases Trips(size, 512) - k
    {
      r10 := Block512(cpu, op, r9, r10);
      WalkAdd(old(cpu.history), op, r9, 8 * k, 8);
      k := k + 1;
      TripsGuard(size, 512, k);
      if !(r10 < size) {
        break;
      }
    }
  }

  // One draw and the access at its offset; the loop body holds four of them. It is
  // draw number n + 1 after the state h and the seed first given.
  method RandomAccess(cpu: Cpu, op: Op, start: int, size: int, random: SeedWord, mask: bv64, ghost h: History,
      ghost seed: Word, ghost n: nat)
    requires cpu.Valid() && random.value == Iterate(seed, n)
    requires cpu.history == RandomTo(h, op, start, 8 * Trips(size, 512), seed, mask, n)
    modifies cpu, random
    ensures cpu.Valid() && random.value == Iterate(seed, n + 1)
    ensures cpu.history == RandomTo(h, op, start, 8 * Trips(size, 512), seed, mask, n + 1)
  {
    var r8 := RandLfsr64(random, mask);
    var r9 := start + r8 as int;
    Access512(cpu, op, r9, size);
  }

  // Accesses made for a count: whole rounds of four
  function Draws(count: int): nat { 4 * Trips(count, 4) }

  /** Drawing i and then j more from the saved seed is drawing i + j. */
  lemma {:induction false} RandomAdd(h: History, op: Op, start: int, lines: nat, seed: Word, mask: bv64, i: nat, j: nat)
    ensures RandomTo(RandomTo(h, op, start, lines, seed, mask, i), op, start, lines, Iterate(seed, i), mask, j)
         == RandomTo(h, op, start, lines, seed, mask, i + j)
  {
    if j > 0 {
      RandomAdd(h, op, start, lines, seed, mask, i, j - 1);
      IterateAdd(seed, i, j);
    }
  }

  method SizeBw(cpu: Cpu, op: Op, start: int, size: int, count: int, random: SeedWord, mask: bv64)
    requires cpu.Valid()
    modifies cpu, random
    ensures cpu.Valid() && random.value == Iterate(old(random.value), Draws(count))
    ensures cpu.history == RandomTo(old(cpu.history), op, start, 8 * Trips(size, 512), old(random.value), mask, Draws(count))
  {
    ghost var h, seed, lines, t: nat := cpu.history, random.value, 8 * Trips(size, 512), 0;
    var r11 := 0;
    while true
      invariant t < Trips(count, 4) && r11 == t * 4
      invariant cpu.Valid() && random.value == Iterate(seed, r11)
      invariant cpu.history == RandomTo(h, op, start, lines, seed, mask, r11)
      decreases Trips(count, 4) - t
    {
      RandomAccess(cpu, op, start, size, random, mask, h, seed, r11);
      RandomAccess(cpu, op, start, size, random, mask, h, seed, r11 + 1);
      RandomAccess(cpu, op, start, size, random, mask, h, seed, r11 + 2);
      RandomAccess(cpu, op, start, size, random, mask, h, seed, r11 + 3);
      r11 := r11 + 4;
      t := t + 1;
      TripsGuard(count, 4, t);
      if !(r11 < count) {
        break;
      }
    }
  }

  lemma DrawsExact(count: int)
    requires count > 0 && count % 4 == 0
    ensures Draws(count) == count
  {
    TripsExact(count, 4);
  }

  /** For positive counts divisible by four, two calls are one call with the sum of the counts. */
  lemma CallsCompose(h: History, op: Op, start: int, lines: nat, seed: Word, mask: bv64, a: int, b: int)
    requires a > 0 && b > 0 && a % 4 == 0 && b % 4 == 0
    ensures RandomTo(RandomTo(h, op, start, lines, seed, mask, Draws(a)), op, start, lines, Iterate(seed, Draws(a)),
            mask, Draws(b))
         == RandomTo(h, op, start, lines, seed, mask, Draws(a + b))
    ensures Iterate(Iterate(seed, Draws(a)), Draws(b)) == Iterate(seed, Draws(a + b))
  {
    DrawsExact(a);
    DrawsExact(b);
    DrawsExact(a + b);
    RandomAdd(h, op, start, lines, seed, mask, a, b);
    IterateAdd(seed, a, b);
  }
}
