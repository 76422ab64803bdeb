/** The per-thread bandwidth jobs: passes, fences, tiling and traffic. */
module BandwidthJobs {
  import opened Arith
  import opened Loops
  import opened Lfsr
  import opened Persistence
  import opened AccessLoops

  const WORKSET: nat := 0x8000_0000

  // ---------- The jobs ----------

  // One strided pass over the work set of a thread
  function PassTo(h: History, op: Op, buf: int, access: nat): History
    requires access > 0
  {
    StrideTo(h, op, buf, access, 4 * Trips(access, 256), Trips(WORKSET / access, 1))
  }

  function PassesTo(h: History, op: Op, buf: int, access: nat, n: nat): History
    requires access > 0
  {
    if n == 0 then h else Then(PassTo(PassesTo(h, op, buf, access, n - 1), op, buf, access), Fence)
  }

  // strided_bwjob: one warm-up pass and ten times ten measured passes, each fenced
  method StridedBwJob(cpu: Cpu, op: Op, buf: int, access_size: nat)
    requires cpu.Valid() && access_size > 0
    modifies cpu
    ensures cpu.Valid() && cpu.history == PassesTo(old(cpu.history), op, buf, access_size, 1 + 100)
  {
    ghost var h := cpu.history;
    var count := WORKSET / access_size;
    Stride(cpu, op, buf, access_size, access_size, 0, count);
    cpu.Issue(Fence);
    assert cpu.history == PassesTo(h, op, buf, access_size, 1);
    for i := 0 to 10
      invariant cpu.Valid() && cpu.history == PassesTo(h, op, buf, access_size, 1 + 10 * i)
    {
      for k := 0 to 10
        invariant cpu.Valid() && cpu.history == PassesTo(h, op, buf, access_size, 1 + 10 * i + k)
      {
        Stride(cpu, op, buf, access_size, access_size, 0, count);
        cpu.Issue(Fence);
      }
    }
  }

  // The offset mask of size_bwjob: line-aligned offsets below the work set
  const LINE_MASK: bv64 := 0x7fff_ffc0

  function DrawsPerPass(access: nat): nat
    requires access > 0
  {
    Draws(WORKSET / access)
  }

  // The saved seed after n passes
  function SeedAfter(seed: Word, per: nat, n: nat): Word {
    if n == 0 then seed else Iterate(SeedAfter(seed, per, n - 1), per)
  }

  lemma {:induction false} SeedAfterIsIterate(seed: Word, per: nat, n: nat)
    ensures SeedAfter(seed, per, n) == Iterate(seed, per * n)
  {
    if n > 0 {
      SeedAfterIsIterate(seed, per, n - 1);
      IterateAdd(seed, per * (n - 1), per);
      assert per * (n - 1) + per == per * n;
    }
  }

  function RandomPassesTo(h: History, op: Op, buf: int, access: nat, seed: Word, n: nat): History
    requires access > 0
  {
    if n == 0 then h
    else
      Then(RandomTo(RandomPassesTo(h, op, buf, access, seed, n - 1), op, buf, 8 * Trips(access, 512),
                    SeedAfter(seed, DrawsPerPass(access), n - 1), LINE_MASK, DrawsPerPass(access)), Fence)
  }

  method RandomPass(cpu: Cpu, op: Op, buf: int, access_size: nat, random: SeedWord, bitmask: bv64, ghost h: History,
      ghost seed: Word, ghost n: nat)
    requires cpu.Valid() && access_size > 0 && bitmask == LINE_MASK
    requires cpu.history == RandomPassesTo(h, op, buf, access_size, seed, n)
    requires random.value == SeedAfter(seed, DrawsPerPass(access_size), n)
    modifies cpu, random
    ensures cpu.Valid() && cpu.history == RandomPassesTo(h, op, buf, access_size, seed, n + 1)
    ensures random.value == SeedAfter(seed, DrawsPerPass(access_size), n + 1)
  {
    SizeBw(cpu, op, buf, access_size, WORKSET / access_size, random, bitmask);
    cpu.Issue(Fence);
  }

  // size_bwjob: a strided warm-up pass and ten times ten random passes, each fenced
  method SizeBwJob(cpu: Cpu, op: Op, buf: int, access_size: nat, random: SeedWord)
    requires cpu.Valid() && access_size > 0
    modifies cpu, random
    ensures cpu.Valid()
    ensures cpu.history == RandomPassesTo(PassesTo(old(cpu.history), op, buf, access_size, 1), op, buf, access_size,
            old(random.value), 100)
    ensures random.value == SeedAfter(old(random.value), DrawsPerPass(access_size), 100)
  {
    ghost var seed := random.value;
    var bitmask: bv64 := (0x8000_0000 - 1) ^ (64 - 1);
    assert bitmask == LINE_MASK;
    Stride(cpu, op, buf, access_size, access_size, 0, WORKSET / access_size);
    cpu.Issue(Fence);
    ghost var h := cpu.history;
    assert h == PassesTo(old(cpu.history), op, buf, access_size, 1);
    for i := 0 to 10
      invariant cpu.Valid() && cpu.history == RandomPassesTo(h, op, buf, access_size, seed, 10 * i)
      invariant random.value == SeedAfter(seed, DrawsPerPass(access_size), 10 * i)
    {
      for k := 0 to 10
        invariant cpu.Valid() && cpu.history == RandomPassesTo(h, op, buf, access_size, seed, 10 * i + k)
        invariant random.value == SeedAfter(seed, DrawsPerPass(access_size), 10 * i + k)
      {
        RandomPass(cpu, op, buf, access_size, random, bitmask, h, seed, 10 * i + k);
      }
    }
  }

  // ---------- Which lines a history touches ----------

  function TouchedBy(h: History): seq<int> {
    match h
    case Start => []
    case Then(before, Load(a)) => TouchedBy(before) + [a]
    case Then(before, Store(a)) => TouchedBy(before) + [a]
    case Then(before, NtStore(a)) => TouchedBy(before) + [a]
    case Then(before, _) => TouchedBy(before)
  }

  function WalkLines(base: int, n: nat): (s: seq<int>)
    ensures |s| == n && forall i :: 0 <= i < n ==> s[i] == base + 64 * i
  {
    seq(n, i => base + 64 * i)
  }

  function StrideLines(start: int, skip: int, lines: nat, count: nat): seq<int> {
    if count == 0 then []
    else StrideLines(start, skip, lines, count - 1) + WalkLines(Base(start, skip, count - 1), lines)
  }

  lemma {:induction false} TouchedByWalk(h: History, op: Op, base: int, n: nat)
    ensures TouchedBy(WalkTo(h, op, base, n)) == TouchedBy(h) + WalkLines(base, n)
  {
    if n > 0 {
      TouchedByWalk(h, op, base, n - 1);
      assert WalkLines(base, n) == WalkLines(base, n - 1) + [base + 64 * (n - 1)];
    }
  }

  lemma {:induction false} TouchedByStride(h: History, op: Op, start: int, skip: int, lines: nat, count: nat)
    ensures TouchedBy(StrideTo(h, op, start, skip, lines, count)) == TouchedBy(h) + StrideLines(start, skip, lines, count)
  {
    if count > 0 {
      TouchedByStride(h, op, start, skip, lines, count - 1);
      TouchedByWalk(StrideTo(h, op, start, skip, lines, count - 1), op, Base(start, skip, count - 1), lines);
    }
  }

  lemma {:induction false} StrideLinesSize(start: int, skip: int, lines: nat, count: nat)
    ensures |StrideLines(start, skip, lines, count)| == lines * count
  {
    if count > 0 {
      StrideLinesSize(start, skip, lines, count - 1);
      assert lines * count == lines * (count - 1) + lines;
    }
  }

  lemma {:induction false} SecondAccess(start: int, skip: int, lines: nat, count: nat)
    requires lines >= 1 && count >= 2
    ensures |StrideLines(start, skip, lines, count)| > lines && StrideLines(start, skip, lines, count)[lines] == start + skip
  {
    if count > 2 {
      SecondAccess(start, skip, lines, count - 1);
    } else {
      assert Base(start, skip, 1) == start + skip;
      assert StrideLines(start, skip, lines, 1) == WalkLines(start, lines);
    }
  }

  lemma {:induction false} StrideLinesAbut(start: int, lines: nat, count: nat)
    ensures StrideLines(start, 64 * lines, lines, count) == WalkLines(start, lines * count)
  {
    if count > 0 {
      StrideLinesAbut(start, lines, count - 1);
      BaseIsLinear(start, 64 * lines, count - 1);
      assert (count - 1) * (64 * lines) == 64 * (lines * (count - 1));
      assert lines * count == lines * (count - 1) + lines;
    }
  }

  // ---------- Exact tiling ----------

  // One pass touches every line of the work set once, in order, and nothing else.
  predicate TilesExactly(buf: int, access: nat)
    requires access > 0
  {
    StrideLines(buf, access, 4 * Trips(access, 256), Trips(WORKSET / access, 1)) == WalkLines(buf, WORKSET / 64)
  }

  lemma TripsOne(count: nat)
    ensures Trips(count, 1) == if count == 0 then 1 else count
  {
    if count > 0 { TripsExact(count, 1); }
  }

  lemma DividingAccessTiles(buf: int, access: nat)
    requires access > 0 && access % 256 == 0 && WORKSET % access == 0
    ensures TilesExactly(buf, access)
  {
    var count, lines := WORKSET / access, 4 * Trips(access, 256);
    TripsExact(access, 256);
    assert access == 64 * lines;
    assert access * count == WORKSET;
    assert count > 0;
    TripsOne(count);
    StrideLinesAbut(buf, lines, count);
    assert lines * count == WORKSET / 64 by {
      assert 64 * (lines * count) == (64 * lines) * count;
    }
  }

  lemma SingleAccessTiles(buf: int, access: nat)
    requires WORKSET - 256 < access <= WORKSET
    ensures TilesExactly(buf, access)
  {
    DivMod(WORKSET, access, 1, WORKSET - access);
    TripsOne(1);
    TripsCover(access, 256);
    var lines := 4 * Trips(access, 256);
    assert 64 * lines == WORKSET;
    assert StrideLines(buf, access, lines, 1) == WalkLines(buf, lines);
  }

  lemma TilingAccess(buf: int, access: nat)
    requires access > 0 && TilesExactly(buf, access)
    ensures (access % 256 == 0 && WORKSET % access == 0) || WORKSET - 256 < access <= WORKSET
  {
    var lines, count := 4 * Trips(access, 256), Trips(WORKSET / access, 1);
    TripsCover(access, 256);
    TripsOne(WORKSET / access);
    StrideLinesSize(buf, access, lines, count);
    assert lines * count == WORKSET / 64;
    if count >= 2 {
      SecondAccess(buf, access, lines, count);
      AbuttingAccess(access, Trips(access, 256), count);
    }
  }

  lemma AbuttingAccess(access: nat, blocks: nat, count: nat)
    requires access == 256 * blocks && count > 0 && access > 0 && (4 * blocks) * count == WORKSET / 64
    ensures access % 256 == 0 && WORKSET % access == 0
  {
    assert access * count == 64 * ((4 * blocks) * count);
    DivMod(WORKSET, access, count, 0);
  }

  /** A pass tiles the work set exactly when the access size is a multiple of the block that
      divides the work set, or one access is the whole work set up to its last block. */
  lemma TilesIff(buf: int, access: nat)
    requires access > 0
    ensures TilesExactly(buf, access) <==> (access % 256 == 0 && WORKSET % access == 0) || WORKSET - 256 < access <= WORKSET
  {
    if access % 256 == 0 && WORKSET % access == 0 { DividingAccessTiles(buf, access); }
    if WORKSET - 256 < access <= WORKSET { SingleAccessTiles(buf, access); }
    if TilesExactly(buf, access) { TilingAccess(buf, access); }
  }

  /** n tiling passes touch n times the bytes of the work set: the 100 measured passes move
      the 100 times 2 GB that the bandwidth formula divides by. */
  lemma {:induction false} PassTraffic(h: History, op: Op, buf: int, access: nat, n: nat)
    requires access > 0 && TilesExactly(buf, access)
    ensures 64 * |TouchedBy(PassesTo(h, op, buf, access, n))| == 64 * |TouchedBy(h)| + n * WORKSET
  {
    if n > 0 {
      PassTraffic(h, op, buf, access, n - 1);
      TouchedByStride(PassesTo(h, op, buf, access, n - 1), op, buf, access, 4 * Trips(access, 256), Trips(WORKSET / access, 1));
    }
  }
}
