/** Durability of the bandwidth jobs, and where random accesses land. */
module JobSafety {
  import opened Arith
  import opened Loops
  import opened Lfsr
  import opened Persistence
  import opened AccessLoops
  import opened BandwidthJobs
  import LfsrPeriod

  // ---------- What the calls issue ----------

  // n line accesses of one kind, and some fences
  predicate Effect(before: Machine, after: Machine, op: Op, n: nat, fences: nat) {
    && after.fences == before.fences + fences
    && match op
       case OpLoad =>
         && after.stores == before.stores && after.clwbs == before.clwbs
         && after.lines.Keys == before.lines.Keys && (fences == 0 ==> after.lines == before.lines)
       case OpNt => after.stores == before.stores + n && after.clwbs == before.clwbs
       case OpStoreClwb => after.stores == before.stores + n && after.clwbs == before.clwbs + n
  }

  lemma EffectsAdd(a: Machine, b: Machine, c: Machine, op: Op, m: nat, n: nat, f: nat, g: nat)
    requires Effect(a, b, op, m, f) && Effect(b, c, op, n, g)
    ensures Effect(a, c, op, m + n, f + g)
  {
  }

  lemma TouchEffect(h: History, op: Op, a: int)
    ensures Effect(Run(h), Run(TouchTo(h, op, a)), op, 1, 0)
  {
    if op == OpStoreClwb {
      assert Run(TouchTo(h, op, a)) == Execute(Execute(Run(h), Store(a)), Clwb(a));
    }
  }

  lemma {:induction false} WalkEffect(h: History, op: Op, base: int, n: nat)
    ensures Effect(Run(h), Run(WalkTo(h, op, base, n)), op, n, 0)
  {
    if n > 0 {
      var before := WalkTo(h, op, base, n - 1);
      WalkEffect(h, op, base, n - 1);
      TouchEffect(before, op, base + 64 * (n - 1));
      EffectsAdd(Run(h), Run(before), Run(WalkTo(h, op, base, n)), op, n - 1, 1, 0, 0);
    }
  }

  /** A strided call of loads changes nothing; one of stores stores count times its lines, and
      writes each back if it is not non-temporal. */
  lemma {:induction false} StrideEffect(h: History, op: Op, start: int, skip: int, lines: nat, count: nat)
    ensures Effect(Run(h), Run(StrideTo(h, op, start, skip, lines, count)), op, lines * count, 0)
  {
    if count > 0 {
      var before := StrideTo(h, op, start, skip, lines, count - 1);
      StrideEffect(h, op, start, skip, lines, count - 1);
      WalkEffect(before, op, Base(start, skip, count - 1), lines);
      EffectsAdd(Run(h), Run(before), Run(StrideTo(h, op, start, skip, lines, count)), op, lines * (count - 1), lines, 0, 0);
      Distribute(lines, count - 1, 1);
    }
  }

  /** The same for a random call. */
  lemma {:induction false} RandomEffect(h: History, op: Op, start: int, lines: nat, seed: Word, mask: bv64, n: nat)
    ensures Effect(Run(h), Run(RandomTo(h, op, start, lines, seed, mask, n)), op, lines * n, 0)
  {
    if n > 0 {
      var before := RandomTo(h, op, start, lines, seed, mask, n - 1);
      RandomEffect(h, op, start, lines, seed, mask, n - 1);
      WalkEffect(before, op, start + Offset(Iterate(seed, n), mask), lines);
      EffectsAdd(Run(h), Run(before), Run(RandomTo(h, op, start, lines, seed, mask, n)), op, lines * (n - 1), lines, 0, 0);
      Distribute(lines, n - 1, 1);
    }
  }

  lemma FenceEffect(h: History, op: Op)
    ensures Effect(Run(h), Run(Then(h, Fence)), op, 0, 1)
  {
  }

  lemma PassEffect(h: History, op: Op, buf: int, access: nat)
    requires access > 0
    ensures Effect(Run(h), Run(Then(PassTo(h, op, buf, access), Fence)), op, 4 * Trips(access, 256) * Trips(WORKSET / access, 1), 1)
  {
    var pass, n := PassTo(h, op, buf, access), 4 * Trips(access, 256) * Trips(WORKSET / access, 1);
    StrideEffect(h, op, buf, access, 4 * Trips(access, 256), Trips(WORKSET / access, 1));
    FenceEffect(pass, op);
    EffectsAdd(Run(h), Run(pass), Run(Then(pass, Fence)), op, n, 0, 0, 1);
  }

  lemma OnePassMore(a: Machine, b: Machine, c: Machine, op: Op, per: nat, n: nat)
    requires n > 0 && Effect(a, b, op, per * (n - 1), n - 1) && Effect(b, c, op, per, 1)
    ensures Effect(a, c, op, per * n, n)
  {
    EffectsAdd(a, b, c, op, per * (n - 1), per, n - 1, 1);
    Distribute(per, n - 1, 1);
  }

  /** n strided passes: n fences, and for stores n times the lines of a pass. */
  lemma {:induction false} PassesEffect(h: History, op: Op, buf: int, access: nat, n: nat)
    requires access > 0
    ensures Effect(Run(h), Run(PassesTo(h, op, buf, access, n)), op, 4 * Trips(access, 256) * Trips(WORKSET / access, 1) * n, n)
  {
    if n > 0 {
      var before := PassesTo(h, op, buf, access, n - 1);
      PassesEffect(h, op, buf, access, n - 1);
      PassEffect(before, op, buf, access);
      OnePassMore(Run(h), Run(before), Run(PassesTo(h, op, buf, access, n)), op, 4 * Trips(access, 256) * Trips(WORKSET / access, 1), n);
    }
  }

  lemma RandomPassEffect(h: History, op: Op, buf: int, access: nat, seed: Word, draws: nat)
    ensures Effect(Run(h), Run(Then(RandomTo(h, op, buf, 8 * Trips(access, 512), seed, LINE_MASK, draws), Fence)), op,
                   8 * Trips(access, 512) * draws, 1)
  {
    var lines := 8 * Trips(access, 512);
    var pass := RandomTo(h, op, buf, lines, seed, LINE_MASK, draws);
    RandomEffect(h, op, buf, lines, seed, LINE_MASK, draws);
    FenceEffect(pass, op);
    EffectsAdd(Run(h), Run(pass), Run(Then(pass, Fence)), op, lines * draws, 0, 0, 1);
  }

  /** The same for n random passes. */
  lemma {:induction false} RandomPassesEffect(h: History, op: Op, buf: int, access: nat, seed: Word, n: nat)
    requires access > 0
    ensures Effect(Run(h), Run(RandomPassesTo(h, op, buf, access, seed, n)), op, 8 * Trips(access, 512) * DrawsPerPass(access) * n, n)
  {
    if n > 0 {
      var before, draws := RandomPassesTo(h, op, buf, access, seed, n - 1), DrawsPerPass(access);
      RandomPassesEffect(h, op, buf, access, seed, n - 1);
      RandomPassEffect(before, op, buf, access, SeedAfter(seed, draws, n - 1), draws);
      OnePassMore(Run(h), Run(before), Run(RandomPassesTo(h, op, buf, access, seed, n)), op, 8 * Trips(access, 512) * draws, n);
    }
  }

  // Line r of the k-th of n accesses
  predicate HasLine(s: seq<int>, lines: nat, n: nat, k: nat, r: nat, line: int) {
    |s| == lines * n && lines * k + r < |s| && s[lines * k + r] == line
  }

  lemma LastHasLine(a: seq<int>, base: int, lines: nat, n: nat, r: nat)
    requires |a| == lines * n && r < lines
    ensures HasLine(a + WalkLines(base, lines), lines, n + 1, n, r, base + 64 * r)
  {
    Distribute(lines, n, 1);
  }

  lemma EarlierHasLine(a: seq<int>, base: int, lines: nat, n: nat, k: nat, r: nat, line: int)
    requires HasLine(a, lines, n, k, r, line)
    ensures HasLine(a + WalkLines(base, lines), lines, n + 1, k, r, line)
  {
    Distribute(lines, n, 1);
  }

  /** Line r of access k of a strided call lies k skips and r lines from the start. */
  lemma {:induction false} StrideTouches(op: Op, start: int, skip: int, lines: nat, count: nat, k: nat, r: nat)
    requires k < count && r < lines
    ensures HasLine(TouchedBy(StrideTo(Start, op, start, skip, lines, count)), lines, count, k, r, start + k * skip + 64 * r)
  {
    var before, base := StrideTo(Start, op, start, skip, lines, count - 1), Base(start, skip, count - 1);
    TouchedByStride(Start, op, start, skip, lines, count - 1);
    StrideLinesSize(start, skip, lines, count - 1);
    TouchedByWalk(before, op, base, lines);
    BaseIsLinear(start, skip, count - 1);
    if k < count - 1 {
      StrideTouches(op, start, skip, lines, count - 1, k, r);
      EarlierHasLine(TouchedBy(before), base, lines, count - 1, k, r, start + k * skip + 64 * r);
    } else {
      LastHasLine(TouchedBy(before), base, lines, count - 1, r);
    }
  }

  // The lines of n draws
  function RandomLines(start: int, lines: nat, seed: Word, mask: bv64, n: nat): seq<int> {
    if n == 0 then []
    else RandomLines(start, lines, seed, mask, n - 1) + WalkLines(start + Offset(Iterate(seed, n), mask), lines)
  }

  lemma {:induction false} TouchedByDraws(op: Op, start: int, lines: nat, seed: Word, mask: bv64, n: nat)
    ensures TouchedBy(RandomTo(Start, op, start, lines, seed, mask, n)) == RandomLines(start, lines, seed, mask, n)
    ensures |RandomLines(start, lines, seed, mask, n)| == lines * n
  {
    if n > 0 {
      TouchedByDraws(op, start, lines, seed, mask, n - 1);
      TouchedByWalk(RandomTo(Start, op, start, lines, seed, mask, n - 1), op, start + Offset(Iterate(seed, n), mask), lines);
      Distribute(lines, n - 1, 1);
    }
  }

  lemma {:induction false} RandomLinesHave(op: Op, start: int, lines: nat, seed: Word, mask: bv64, n: nat, k: nat, r: nat, line: int)
    requires k < n && r < lines && line == start + Offset(Iterate(seed, k + 1), mask) + 64 * r
    ensures HasLine(RandomLines(start, lines, seed, mask, n), lines, n, k, r, line)
  {
    var before := RandomLines(start, lines, seed, mask, n - 1);
    if k < n - 1 {
      RandomLinesHave(op, start, lines, seed, mask, n - 1, k, r, line);
      EarlierHasLine(before, start + Offset(Iterate(seed, n), mask), lines, n - 1, k, r, line);
    } else {
      TouchedByDraws(op, start, lines, seed, mask, n - 1);
      LastHasLine(before, start + Offset(Iterate(seed, n), mask), lines, n - 1, r);
    }
  }

  /** Line r of the access of draw k + 1 lies at the masked state that many steps on. */
  lemma RandomTouches(op: Op, start: int, lines: nat, seed: Word, mask: bv64, n: nat, k: nat, r: nat)
    requires k < n && r < lines
    ensures HasLine(TouchedBy(RandomTo(Start, op, start, lines, seed, mask, n)), lines, n, k, r,
                    start + Offset(Iterate(seed, k + 1), mask) + 64 * r)
  {
    TouchedByDraws(op, start, lines, seed, mask, n);
    RandomLinesHave(op, start, lines, seed, mask, n, k, r, start + Offset(Iterate(seed, k + 1), mask) + 64 * r);
  }

  // ---------- Durability ----------

  // No line waits for a write-back.
  predicate NoDirty(m: Machine) {
    forall a :: a in m.lines ==> m.lines[a] != Dirty
  }

  predicate AllDurable(m: Machine) {
    forall a :: a in m.lines ==> m.lines[a] == Durable
  }

  predicate Stored(lines: seq<int>, m: Machine) {
    forall x :: x in lines ==> x in m.lines
  }

  lemma TouchKeepsClean(h: History, op: Op, a: int)
    requires NoDirty(Run(h))
    ensures NoDirty(Run(TouchTo(h, op, a)))
    ensures Run(h).lines.Keys <= Run(TouchTo(h, op, a)).lines.Keys
    ensures op != OpLoad ==> a in Run(TouchTo(h, op, a)).lines
  {
    if op == OpStoreClwb {
      var m := Execute(Run(h), Store(a));
      assert Run(TouchTo(h, op, a)) == Execute(m, Clwb(a));
    }
  }

  lemma {:induction false} WalkKeepsClean(h: History, op: Op, base: int, n: nat)
    requires NoDirty(Run(h))
    ensures NoDirty(Run(WalkTo(h, op, base, n)))
    ensures Run(h).lines.Keys <= Run(WalkTo(h, op, base, n)).lines.Keys
    ensures op != OpLoad ==> Stored(WalkLines(base, n), Run(WalkTo(h, op, base, n)))
  {
    if n > 0 {
      WalkKeepsClean(h, op, base, n - 1);
      TouchKeepsClean(WalkTo(h, op, base, n - 1), op, base + 64 * (n - 1));
      assert WalkLines(base, n) == WalkLines(base, n - 1) + [base + 64 * (n - 1)];
    }
  }

  lemma {:induction false} StrideKeepsClean(h: History, op: Op, start: int, skip: int, lines: nat, count: nat)
    requires NoDirty(Run(h))
    ensures NoDirty(Run(StrideTo(h, op, start, skip, lines, count)))
    ensures Run(h).lines.Keys <= Run(StrideTo(h, op, start, skip, lines, count)).lines.Keys
    ensures op != OpLoad ==> Stored(StrideLines(start, skip, lines, count), Run(StrideTo(h, op, start, skip, lines, count)))
  {
    if count > 0 {
      StrideKeepsClean(h, op, start, skip, lines, count - 1);
      WalkKeepsClean(StrideTo(h, op, start, skip, lines, count - 1), op, Base(start, skip, count - 1), lines);
    }
  }

  lemma {:induction false} RandomKeepsClean(h: History, op: Op, start: int, lines: nat, seed: Word, mask: bv64, n: nat)
    requires NoDirty(Run(h))
    ensures NoDirty(Run(RandomTo(h, op, start, lines, seed, mask, n)))
    ensures Run(h).lines.Keys <= Run(RandomTo(h, op, start, lines, seed, mask, n)).lines.Keys
    ensures op != OpLoad ==>
              forall d: nat :: 0 < d <= n ==>
                Stored(WalkLines(start + Offset(Iterate(seed, d), mask), lines), Run(RandomTo(h, op, start, lines,
                    seed, mask, n)))
  {
    if n > 0 {
      RandomKeepsClean(h, op, start, lines, seed, mask, n - 1);
      WalkKeepsClean(RandomTo(h, op, start, lines, seed, mask, n - 1), op, start + Offset(Iterate(seed, n), mask), lines);
    }
  }

  lemma FenceMakesDurable(h: History)
    requires NoDirty(Run(h))
    ensures AllDurable(Run(Then(h, Fence))) && NoDirty(Run(Then(h, Fence)))
    ensures Run(Then(h, Fence)).lines.Keys == Run(h).lines.Keys
  {
  }

  /** After the fence of any strided pass of the job, every line stored so far is durable,
      and these include every line of the pass. */
  lemma {:induction false} StridedJobIsDurable(h: History, op: Op, buf: int, access: nat, n: nat)
    requires access > 0 && n > 0 && NoDirty(Run(h))
    ensures AllDurable(Run(PassesTo(h, op, buf, access, n)))
    ensures op != OpLoad ==>
              Stored(StrideLines(buf, access, 4 * Trips(access, 256), Trips(WORKSET / access, 1)), Run(PassesTo(h,
                  op, buf, access, n)))
  {
    var before := PassesTo(h, op, buf, access, n - 1);
    if n > 1 {
      StridedJobIsDurable(h, op, buf, access, n - 1);
    }
    StrideKeepsClean(before, op, buf, access, 4 * Trips(access, 256), Trips(WORKSET / access, 1));
    FenceMakesDurable(PassTo(before, op, buf, access));
  }

  lemma {:induction false} RandomPassesKeepClean(h: History, op: Op, buf: int, access: nat, seed: Word, n: nat)
    requires access > 0 && NoDirty(Run(h))
    ensures NoDirty(Run(RandomPassesTo(h, op, buf, access, seed, n)))
    ensures n > 0 ==> AllDurable(Run(RandomPassesTo(h, op, buf, access, seed, n)))
  {
    if n > 0 {
      RandomPassesKeepClean(h, op, buf, access, seed, n - 1);
      var before := RandomPassesTo(h, op, buf, access, seed, n - 1);
      RandomKeepsClean(before, op, buf, 8 * Trips(access, 512), SeedAfter(seed, DrawsPerPass(access), n - 1),
          LINE_MASK, DrawsPerPass(access));
      FenceMakesDurable(RandomTo(before, op, buf, 8 * Trips(access, 512), SeedAfter(seed, DrawsPerPass(access),
          n - 1), LINE_MASK, DrawsPerPass(access)));
    }
  }

  /** After the fence of pass n + 1 of the random job, every line stored so far is durable,
      and these include every line of every access of that pass. */
  lemma RandomJobIsDurable(h: History, op: Op, buf: int, access: nat, seed: Word, n: nat)
    requires access > 0 && NoDirty(Run(h))
    ensures var m := Run(RandomPassesTo(h, op, buf, access, seed, n + 1));
            && AllDurable(m)
            && (op != OpLoad ==>
                  forall d: nat :: 0 < d <= DrawsPerPass(access) ==>
                    Stored(WalkLines(buf + Offset(Iterate(SeedAfter(seed, DrawsPerPass(access), n), d), LINE_MASK),
                        8 * Trips(access, 512)), m))
  {
    RandomPassesKeepClean(h, op, buf, access, seed, n);
    var before, s := RandomPassesTo(h, op, buf, access, seed, n), SeedAfter(seed, DrawsPerPass(access), n);
    RandomKeepsClean(before, op, buf, 8 * Trips(access, 512), s, LINE_MASK, DrawsPerPass(access));
    FenceMakesDurable(RandomTo(before, op, buf, 8 * Trips(access, 512), s, LINE_MASK, DrawsPerPass(access)));
  }

  // ---------- Traffic of the random job ----------

  lemma {:induction false} TouchedByRandom(h: History, op: Op, start: int, lines: nat, seed: Word, mask: bv64, n: nat)
    ensures |TouchedBy(RandomTo(h, op, start, lines, seed, mask, n))| == |TouchedBy(h)| + n * lines
  {
    if n > 0 {
      TouchedByRandom(h, op, start, lines, seed, mask, n - 1);
      TouchedByWalk(RandomTo(h, op, start, lines, seed, mask, n - 1), op, start + Offset(Iterate(seed, n), mask), lines);
      assert n * lines == (n - 1) * lines + lines;
    }
  }

  lemma {:induction false} TouchedByRandomPasses(h: History, op: Op, buf: int, access: nat, seed: Word, n: nat)
    requires access > 0
    ensures |TouchedBy(RandomPassesTo(h, op, buf, access, seed, n))|
            == |TouchedBy(h)| + n * (DrawsPerPass(access) * (8 * Trips(access, 512)))
  {
    if n > 0 {
      TouchedByRandomPasses(h, op, buf, access, seed, n - 1);
      TouchedByRandom(RandomPassesTo(h, op, buf, access, seed, n - 1), op, buf, 8 * Trips(access, 512),
                      SeedAfter(seed, DrawsPerPass(access), n - 1), LINE_MASK, DrawsPerPass(access));
      var per := DrawsPerPass(access) * (8 * Trips(access, 512));
      assert n * per == (n - 1) * per + per;
    }
  }

  /** With the access size of 256 that the benchmark launches, each random pass moves twice
      the work set, because every access is rounded up to a 512-byte block. */
  lemma RandomTrafficIsDoubled(h: History, op: Op, buf: int, seed: Word, n: nat)
    ensures 64 * |TouchedBy(RandomPassesTo(h, op, buf, 256, seed, n))| == 64 * |TouchedBy(h)| + n * (2 * WORKSET)
  {
    TouchedByRandomPasses(h, op, buf, 256, seed, n);
    DrawsExact(0x80_0000);
  }

  // The bytes of one random access: whole blocks of 512
  function Rounded(access: nat): nat { 512 * Trips(access, 512) }

  lemma ProductGrows(a: nat, r: nat, q: nat)
    requires a <= r
    ensures a * q <= r * q
  {
    assert r * q == a * q + (r - a) * q;
  }

  lemma QuotientFalls(w: nat, a: nat, r: nat)
    requires 0 < a <= r
    ensures w / r <= w / a
  {
    ProductGrows(a, r, w / r);
    Distribute(a, w / a, 1);
    MulOrder(a, w / r, w / a + 1);
  }

  lemma WholeRounds(w: nat, a: nat, r: nat, t: nat)
    requires 0 < a <= r && w == 4 * r * t && w / a <= 4 * t
    ensures w % (4 * r) == 0 && w / a == w / r
  {
    DivMod(w, 4 * r, t, 0);
    assert w == r * (4 * t);
    DivMod(w, r, 4 * t, 0);
    QuotientFalls(w, a, r);
  }

  lemma RoundsAreWhole(w: nat, a: nat, r: nat, t: nat)
    requires 0 < a <= r && 0 < w && w % (4 * r) == 0 && w / a == w / r
    requires w / a > 0 ==> w / a <= 4 * t < w / a + 4
    ensures w == 4 * r * t
  {
    var q := w / (4 * r);
    assert w == 4 * r * q;
    assert w == r * (4 * q);
    DivMod(w, r, 4 * q, 0);
    MulOrder(4 * r, 0, q);
  }

  /** A random pass moves exactly the work set if and only if its rounded accesses fill it in
      whole rounds of four and rounding up does not lower their number. */
  lemma RandomPassMovesWorksetIff(access: nat)
    requires access > 0
    ensures 64 * (DrawsPerPass(access) * (8 * Trips(access, 512))) == WORKSET
       <==> WORKSET % (4 * Rounded(access)) == 0 && WORKSET / access == WORKSET / Rounded(access)
  {
    var r, t := Rounded(access), Trips(WORKSET / access, 4);
    TripsCover(access, 512);
    TripsCover(WORKSET / access, 4);
    PassBytes(t, Trips(access, 512));
    if 4 * r * t == WORKSET {
      WholeRounds(WORKSET, access, r, t);
    }
    if WORKSET % (4 * r) == 0 && WORKSET / access == WORKSET / r {
      RoundsAreWhole(WORKSET, access, r, t);
    }
  }

  lemma PassBytes(t: nat, blocks: nat)
    ensures 64 * (4 * t * (8 * blocks)) == 4 * (512 * blocks) * t
  {
    assert 4 * t * (8 * blocks) == 32 * (t * blocks);
    assert 4 * (512 * blocks) * t == 2048 * (blocks * t);
  }

  /** So n random passes move the n work sets of the bandwidth formula exactly for the access
      sizes of that condition. */
  lemma RandomTrafficIff(h: History, op: Op, buf: int, access: nat, seed: Word, n: nat)
    requires access > 0 && n > 0
    ensures 64 * |TouchedBy(RandomPassesTo(h, op, buf, access, seed, n))| == 64 * |TouchedBy(h)| + n * WORKSET
       <==> WORKSET % (4 * Rounded(access)) == 0 && WORKSET / access == WORKSET / Rounded(access)
  {
    TouchedByRandomPasses(h, op, buf, access, seed, n);
    RandomPassMovesWorksetIff(access);
    SameMultiple(n, DrawsPerPass(access) * (8 * Trips(access, 512)), WORKSET);
  }

  lemma SameMultiple(n: nat, p: nat, w: nat)
    requires n > 0
    ensures 64 * (n * p) == n * w <==> 64 * p == w
  {
    assert 64 * (n * p) == n * (64 * p);
    MulOrder(n, 64 * p, w);
    MulOrder(n, w, 64 * p);
    if n * (64 * p) == n * w {
      CancelLess(n, 64 * p, w);
      CancelLess(n, w, 64 * p);
    }
  }

  lemma CancelLess(n: nat, a: nat, b: nat)
    requires n > 0
    ensures a < b ==> n * a < n * b
  {
    if a < b {
      assert n * b == n * a + n * (b - a);
      MultipleIsAtLeast(n, b - a);
    }
  }

  // ---------- Where random accesses land ----------

  predicate IsLine(offset: int) { 0 <= offset < 0x8000_0000 && offset % 64 == 0 }

  lemma MaskedBits(w: bv64)
    ensures IsLine((w & 0x7fff_ffc0) as int)
  {
    var x := (w & 0x7fff_ffc0) as bv31;
    assert x as int < 0x8000_0000;
  }

  lemma SameInt(b: bv64, c: bv64)
    requires b == c
    ensures b as int == c as int
  {
  }

  lemma OffsetIsMasked(w: Word, mask: bv64)
    requires mask == 0x7fff_ffc0
    ensures Offset(w, mask) == (w.bits & 0x7fff_ffc0) as int
  {
    SameInt(w.bits & mask, w.bits & 0x7fff_ffc0);
  }

  lemma OffsetIsLine(w: Word, mask: bv64)
    requires mask == 0x7fff_ffc0
    ensures IsLine(Offset(w, mask))
  {
    MaskedBits(w.bits);
    OffsetIsMasked(w, mask);
  }

  /** Every offset is a line of the work set. */
  lemma OffsetBounds(w: Word)
    ensures 0 <= Offset(w, LINE_MASK) <= WORKSET - 64 && Offset(w, LINE_MASK) % 64 == 0
  {
    OffsetIsLine(w, LINE_MASK);
    LastLine(Offset(w, LINE_MASK));
  }

  lemma LastLine(offset: int)
    requires 0 <= offset < WORKSET && offset % 64 == 0
    ensures offset <= WORKSET - 64
  {
  }

  // (2^p - 1) ^ (2^a - 1): bits a to p - 1
  function MaskOf(p: bv7, a: bv7): bv64
    requires a <= p < 64
  {
    (((1 as bv64) << p) - 1) ^ (((1 as bv64) << a) - 1)
  }

  /** The same for every mask of that form: a masked value is a multiple of 2^a, */
  lemma MaskedIsAligned(w: bv64, p: bv7, a: bv7)
    requires a <= p < 64
    ensures (w & MaskOf(p, a)) & (((1 as bv64) << a) - 1) == 0
  {
  }

  /** and at most 2^p - 2^a. */
  lemma MaskedIsAtMost(w: bv64, p: bv7, a: bv7)
    requires a <= p < 64
    ensures w & MaskOf(p, a) <= ((1 as bv64) << p) - ((1 as bv64) << a)
  {
  }

  // All the lines lie in the size bytes from buf on.
  predicate Within(buf: int, size: int, lines: seq<int>) {
    forall i :: 0 <= i < |lines| ==> buf <= lines[i] && lines[i] + 64 <= buf + size
  }

  lemma WithinParts(buf: int, size: int, a: seq<int>, b: seq<int>)
    ensures Within(buf, size, a + b) <==> Within(buf, size, a) && Within(buf, size, b)
  {
    if Within(buf, size, a + b) {
      assert forall i :: 0 <= i < |a| ==> a[i] == (a + b)[i];
      assert forall i :: 0 <= i < |b| ==> b[i] == (a + b)[|a| + i];
    }
  }

  lemma WalkWithinIff(buf: int, size: int, offset: int, lines: nat)
    requires lines > 0 && offset >= 0
    ensures Within(buf, size, WalkLines(buf + offset, lines)) <==> offset + 64 * lines <= size
  {
    var s := WalkLines(buf + offset, lines);
    assert s[lines - 1] == buf + offset + 64 * (lines - 1);
  }

  // The access of draw d ends within size bytes.
  predicate AccessFits(seed: Word, access: nat, size: int, d: nat) {
    Offset(Iterate(seed, d), LINE_MASK) + Rounded(access) <= size
  }

  predicate DrawsFit(seed: Word, access: nat, size: int, n: nat) {
    forall d: nat :: 0 < d <= n ==> AccessFits(seed, access, size, d)
  }

  lemma OneWalkIff(before: History, op: Op, buf: int, size: int, offset: int, lines: nat)
    requires lines > 0 && offset >= 0
    ensures Within(buf, size, TouchedBy(WalkTo(before, op, buf + offset, lines)))
       <==> Within(buf, size, TouchedBy(before)) && offset + 64 * lines <= size
  {
    TouchedByWalk(before, op, buf + offset, lines);
    WithinParts(buf, size, TouchedBy(before), WalkLines(buf + offset, lines));
    WalkWithinIff(buf, size, offset, lines);
  }

  lemma OneAccessIff(before: History, op: Op, buf: int, size: int, access: nat, w: Word)
    ensures Within(buf, size, TouchedBy(WalkTo(before, op, buf + Offset(w, LINE_MASK), 8 * Trips(access, 512))))
       <==> Within(buf, size, TouchedBy(before)) && Offset(w, LINE_MASK) + Rounded(access) <= size
  {
    OffsetBounds(w);
    OneWalkIff(before, op, buf, size, Offset(w, LINE_MASK), 8 * Trips(access, 512));
  }

  lemma {:induction false} RandomWithinIff(h: History, op: Op, buf: int, size: int, access: nat, seed: Word, n: nat)
    ensures Within(buf, size, TouchedBy(RandomTo(h, op, buf, 8 * Trips(access, 512), seed, LINE_MASK, n)))
       <==> Within(buf, size, TouchedBy(h)) && DrawsFit(seed, access, size, n)
  {
    if n > 0 {
      RandomWithinIff(h, op, buf, size, access, seed, n - 1);
      OneAccessIff(RandomTo(h, op, buf, 8 * Trips(access, 512), seed, LINE_MASK, n - 1), op, buf, size, access, Iterate(seed, n));
      DrawsFitLast(seed, access, size, n);
    }
  }

  lemma DrawsFitLast(seed: Word, access: nat, size: int, n: nat)
    requires n > 0
    ensures DrawsFit(seed, access, size, n) <==> DrawsFit(seed, access, size, n - 1) && AccessFits(seed, access, size, n)
  {
  }

  lemma {:induction false} DrawsFitAdd(seed: Word, access: nat, size: int, m: nat, n: nat)
    ensures DrawsFit(seed, access, size, m + n)
       <==> DrawsFit(seed, access, size, m) && DrawsFit(Iterate(seed, m), access, size, n)
  {
    if n > 0 {
      DrawsFitAdd(seed, access, size, m, n - 1);
      DrawsFitLast(seed, access, size, m + n);
      DrawsFitLast(Iterate(seed, m), access, size, n);
      IterateAdd(seed, m, n);
    }
  }

  lemma PassDrawsFit(seed: Word, access: nat, size: int, per: nat, n: nat)
    requires n > 0
    ensures DrawsFit(seed, access, size, per * n)
       <==> DrawsFit(seed, access, size, per * (n - 1)) && DrawsFit(SeedAfter(seed, per, n - 1), access, size, per)
  {
    SeedAfterIsIterate(seed, per, n - 1);
    DrawsFitAdd(seed, access, size, per * (n - 1), per);
    Distribute(per, n - 1, 1);
  }

  /** The passes of the random job touch only the size bytes from buf on exactly when every draw
      of the run, from the seed given, leaves room for a rounded access. */
  lemma {:induction false} RandomPassesWithinIff(h: History, op: Op, buf: int, size: int, access: nat, seed: Word, n: nat)
    requires access > 0
    ensures Within(buf, size, TouchedBy(RandomPassesTo(h, op, buf, access, seed, n)))
       <==> Within(buf, size, TouchedBy(h)) && DrawsFit(seed, access, size, DrawsPerPass(access) * n)
  {
    if n > 0 {
      var per := DrawsPerPass(access);
      RandomPassesWithinIff(h, op, buf, size, access, seed, n - 1);
      RandomWithinIff(RandomPassesTo(h, op, buf, access, seed, n - 1), op, buf, size, access, SeedAfter(seed, per, n - 1), per);
      PassDrawsFit(seed, access, size, per, n);
    }
  }

  /** Whatever the seed, no run reaches further than one rounded access past the last line. */
  lemma RandomRunEnds(h: History, op: Op, buf: int, access: nat, seed: Word, n: nat)
    requires access > 0 && Within(buf, WORKSET - 64 + Rounded(access), TouchedBy(h))
    ensures Within(buf, WORKSET - 64 + Rounded(access), TouchedBy(RandomPassesTo(h, op, buf, access, seed, n)))
  {
    var size, draws := WORKSET - 64 + Rounded(access), DrawsPerPass(access) * n;
    RandomPassesWithinIff(h, op, buf, size, access, seed, n);
    forall d: nat | 0 < d <= draws
      ensures AccessFits(seed, access, size, d)
    {
      OffsetBounds(Iterate(seed, d));
    }
  }

  // Where the last access of a strided pass ends
  function PassEnd(access: nat): nat
    requires access > 0
  {
    (Trips(WORKSET / access, 1) - 1) * access + 256 * Trips(access, 256)
  }

  lemma {:induction false} StrideWithinIff(buf: int, size: int, skip: nat, lines: nat, count: nat)
    requires lines > 0 && count > 0
    ensures Within(buf, size, StrideLines(buf, skip, lines, count)) <==> (count - 1) * skip + 64 * lines <= size
  {
    BaseIsLinear(buf, skip, count - 1);
    WithinParts(buf, size, StrideLines(buf, skip, lines, count - 1), WalkLines(Base(buf, skip, count - 1), lines));
    assert (count - 1) * skip >= 0;
    WalkWithinIff(buf, size, (count - 1) * skip, lines);
    if count > 1 {
      StrideWithinIff(buf, size, skip, lines, count - 1);
      assert (count - 1) * skip == (count - 2) * skip + skip;
    }
  }

  lemma WarmUpWithinIff(op: Op, buf: int, size: int, access: nat)
    requires access > 0
    ensures Within(buf, size, TouchedBy(PassesTo(Start, op, buf, access, 1))) <==> PassEnd(access) <= size
  {
    var lines, count := 4 * Trips(access, 256), Trips(WORKSET / access, 1);
    TouchedByStride(Start, op, buf, access, lines, count);
    assert TouchedBy(Start) + StrideLines(buf, access, lines, count) == StrideLines(buf, access, lines, count);
    assert PassesTo(Start, op, buf, access, 1) == Then(PassTo(Start, op, buf, access), Fence);
    StrideWithinIff(buf, size, access, lines, count);
  }

  // What size_bwjob does from an idle processor: the warm-up and a hundred random passes
  function RandomJob(op: Op, buf: int, access: nat, seed: Word): History
    requires access > 0
  {
    RandomPassesTo(PassesTo(Start, op, buf, access, 1), op, buf, access, seed, 100)
  }

  /** The whole random job stays in its work set exactly when its warm-up pass and each of its
      draws leave room for a rounded access. */
  lemma RandomJobStaysInsideIff(op: Op, buf: int, access: nat, seed: Word)
    requires access > 0
    ensures Within(buf, WORKSET, TouchedBy(RandomJob(op, buf, access, seed)))
       <==> PassEnd(access) <= WORKSET && DrawsFit(seed, access, WORKSET, DrawsPerPass(access) * 100)
  {
    WarmUpWithinIff(op, buf, WORKSET, access);
    RandomPassesWithinIff(PassesTo(Start, op, buf, access, 1), op, buf, WORKSET, access, seed, 100);
  }

  lemma LaunchedSizes()
    ensures DrawsPerPass(256) == 0x80_0000 && PassEnd(256) == WORKSET && Rounded(256) == 512
  {
    DrawsExact(0x80_0000);
    TripsExact(0x80_0000, 1);
  }

  predicate DrawsBelow(seed: Word, limit: int, n: nat) {
    forall d: nat :: 0 < d <= n ==> OffsetAtMost(Iterate(seed, d), limit)
  }

  predicate OffsetAtMost(w: Word, limit: int) { Offset(w, LINE_MASK) <= limit }

  lemma LaunchedDraws(seed: Word, n: nat)
    ensures DrawsFit(seed, 256, WORKSET, n) <==> DrawsBelow(seed, WORKSET - 512, n)
  {
    forall d: nat
      ensures AccessFits(seed, 256, WORKSET, d) <==> OffsetAtMost(Iterate(seed, d), WORKSET - 512)
    {
    }
  }

  /** At the launched access size these are 838,860,800 draws, none of which may come within
      the last 448 bytes of the work set. */
  lemma LaunchedJobStaysInsideIff(op: Op, buf: int, seed: Word)
    ensures Within(buf, WORKSET, TouchedBy(RandomJob(op, buf, 256, seed)))
       <==> DrawsBelow(seed, WORKSET - 512, 838_860_800)
  {
    RandomJobStaysInsideIff(op, buf, 256, seed);
    LaunchedSizes();
    LaunchedDraws(seed, 838_860_800);
  }

  const LAST_LINE := Word(0x7fff_ffc0)

  lemma LastLineOverruns(seed: Word, access: nat, d: nat)
    requires Iterate(seed, d) == LAST_LINE
    ensures !AccessFits(seed, access, WORKSET, d)
  {
    assert Offset(LAST_LINE, LINE_MASK) == WORKSET - 64;
  }

  /** No access size is safe for all seeds: the state before the last line draws it first, and
      every run of passes from there leaves the work set. */
  lemma NoAccessSizeIsSafe(h: History, op: Op, buf: int, access: nat, n: nat)
    requires access > 0 && n > 0
    ensures !Within(buf, WORKSET, TouchedBy(RandomPassesTo(h, op, buf, access, Unstep(LAST_LINE), n)))
  {
    var seed := Unstep(LAST_LINE);
    StepUnstep(LAST_LINE);
    assert Iterate(seed, 1) == Step(Iterate(seed, 0));
    LastLineOverruns(seed, access, 1);
    MultipleIsAtLeast(DrawsPerPass(access), n);
    RandomPassesWithinIff(h, op, buf, WORKSET, access, seed, n);
  }

  /** Every nonzero seed leaves the work set if enough passes are run. */
  lemma LongRunsOverrun(h: History, op: Op, buf: int, access: nat, seed: Word) returns (n: nat)
    requires access > 0 && seed != ZERO
    ensures 0 < n <= LfsrPeriod.PERIOD
    ensures !Within(buf, WORKSET, TouchedBy(RandomPassesTo(h, op, buf, access, seed, n)))
  {
    StepFixesOnlyZero(seed);
    var k := LfsrPeriod.AllStatesOnOneCycle(Step(seed), LAST_LINE);
    n := k + 1;
    IterateAdd(seed, 1, k);
    assert Iterate(seed, 1) == Step(Iterate(seed, 0));
    LastLineOverruns(seed, access, n);
    MultipleIsAtLeast(n, DrawsPerPass(access));
    RandomPassesWithinIff(h, op, buf, WORKSET, access, seed, n);
  }

  /** A zero seed draws offset 0 for ever. */
  lemma ZeroSeedNeverMoves(n: nat)
    ensures Offset(Iterate(ZERO, n), LINE_MASK) == 0
  {
    IterateZero(ZERO, n);
  }

  // ---------- The random latency test ----------

  // loc[j] & BASIC_OP_MASK: a signed char, widened to int
  function LatencyOffset(c: bv8): bv32 {
    (if c & 0x80 != 0 then 0xffff_ff00 | (c as bv32) else c as bv32) & 0x3fff_ffc0
  }

  /** Widening a char leaves only four offsets, at the two ends of a gigabyte. */
  lemma FourOffsets(c: bv8)
    ensures LatencyOffset(c) == if c < 0x40 then 0 else if c < 0x80 then 0x40 else if c < 0xc0 then 0x3fff_ff80 else 0x3fff_ffc0
  {
  }

  lemma FourIntegers(c: bv8)
    ensures LatencyOffset(c) in {0, 0x40, 0x3fff_ff80, 0x3fff_ffc0}
  {
  }

  lemma LatencyBounds(c: bv8)
    ensures LatencyOffset(c) as int % 64 == 0 && 0 <= LatencyOffset(c) as int <= 0x3fff_ffc0
  {
    FourIntegers(c);
  }

  /** Every access of the test is a line counted from the base, and ends within a gigabyte
      and 64 megabytes of it. */
  lemma LatencyStaysNear(base: int, j: nat, c: bv8)
    requires j < 0x10_0000
    ensures (base + 64 * j + LatencyOffset(c) as int - base) % 64 == 0
    ensures base <= base + 64 * j + LatencyOffset(c) as int <= base + 0x4000_0000 + 0x400_0000 - 128
  {
    LatencyBounds(c);
  }

  // The addresses that random_lat passes to the latency kernel
  method RandomLatency(base: int, loc: seq<bv8>, ops: nat) returns (accessed: seq<int>)
    requires ops <= |loc|
    ensures |accessed| == ops
    ensures forall j :: 0 <= j < ops ==> accessed[j] == base + 64 * j + LatencyOffset(loc[j]) as int
  {
    var buf := base;
    accessed := [];
    for j := 0 to ops
      invariant buf == base + 64 * j && |accessed| == j
      invariant forall i :: 0 <= i < j ==> accessed[i] == base + 64 * i + LatencyOffset(loc[i]) as int
    {
      accessed := accessed + [buf + LatencyOffset(loc[j]) as int];
      buf := buf + 64;
    }
  }
}
