/** The bandwidth threads: the partition of memory among them, and every interleaving of them. */
module Threads {
  import opened Loops
  import opened Lfsr
  import opened Persistence
  import opened AccessLoops
  import opened BandwidthJobs
  import JobSafety

  // ---------- Launch ----------

  datatype WorkerCtx = WorkerCtx(addr: int, accessSize: nat, op: Op, tid: nat)

  // benchmark_bw_seq and benchmark_bw_random fill their contexts alike.
  method Launch(numThreads: nat, accessSize: nat, start: int, readBench: bool, nt: bool) returns (ctxs: seq<WorkerCtx>)
    ensures |ctxs| == numThreads
    ensures forall i :: 0 <= i < numThreads ==>
                          && ctxs[i].tid == i && ctxs[i].accessSize == accessSize
                          && InRegion(start, i, ctxs[i].addr) && InRegion(start, i, ctxs[i].addr + (WORKSET - 1))
                          && (ctxs[i].op == OpLoad <==> readBench) && (ctxs[i].op == OpNt <==> !readBench && nt)
  {
    ctxs := [];
    for i := 0 to numThreads
      invariant |ctxs| == i
      invariant forall j :: 0 <= j < i ==> ctxs[j] == WorkerCtx(RegionStart(start, j), accessSize,
          if readBench then OpLoad else if nt then OpNt else OpStoreClwb, j)
    {
      var addr := start + i * 0x8000_0000;
      var op := OpStoreClwb;
      if readBench {
        op := OpLoad;
      } else if nt {
        op := OpNt;
      }
      ctxs := ctxs + [WorkerCtx(addr, accessSize, op, i)];
    }
  }

  // PERTHREAD_WORKSET is written out here, which keeps the arithmetic linear.
  function RegionStart(start: int, t: int): int { start + t * 0x8000_0000 }

  predicate InRegion(start: int, t: int, a: int) {
    RegionStart(start, t) <= a < RegionStart(start, t + 1)
  }

  /** The regions are disjoint, and the first n of them are the n work sets after start. */
  lemma RegionsPartition(start: int, n: nat, t: int, a: int)
    ensures InRegion(start, t, a) <==> t == (a - start) / WORKSET
    ensures start <= a < RegionStart(start, n) <==> 0 <= (a - start) / WORKSET < n
  {
  }

  // DRAM_ADDR: the allocation, rounded up to a page
  function AlignUp(addr: bv64): bv64 { (addr + 4095) & !4095 }

  /** Rounding up stays inside the extra page that was allocated, and is page aligned. */
  lemma AlignedRegionFits(addr: bv64)
    requires addr <= 0xffff_ffff_ffff_ffff - 4095
    ensures AlignUp(addr) & 4095 == 0 && addr <= AlignUp(addr) <= addr + 4095
  {
  }

  const REGION_SIZE: nat := 58_719_476_736

  /** The mapped region holds the work sets of at most 27 threads. */
  lemma RegionFitsIff(start: int, n: nat)
    ensures RegionStart(start, n) <= start + REGION_SIZE <==> n <= 27
  {
  }

  // ---------- Interleavings ----------

  // A line written by some thread; a write-back waits for a fence of the core that issued it.
  datatype SharedTag = Cached | Draining(core: nat) | Persisted

  datatype Interleaving = Idle | Turn(before: Interleaving, core: nat, event: Event)

  function DrainOf(core: nat, lines: map<int, SharedTag>): map<int, SharedTag> {
    map a | a in lines :: if lines[a] == Draining(core) then Persisted else lines[a]
  }

  function ExecuteOn(core: nat, lines: map<int, SharedTag>, e: Event): map<int, SharedTag> {
    match e
    case Load(_) => lines
    case Store(a) => lines[a := Cached]
    case NtStore(a) => lines[a := Draining(core)]
    case Clwb(a) => if a in lines && lines[a] == Cached then lines[a := Draining(core)] else lines
    case Fence => DrainOf(core, lines)
  }

  function SharedMemory(il: Interleaving): map<int, SharedTag> {
    match il
    case Idle => map[]
    case Turn(before, core, e) => ExecuteOn(core, SharedMemory(before), e)
  }

  // What one core did
  function Project(il: Interleaving, core: nat): History {
    match il
    case Idle => Start
    case Turn(before, c, e) => if c == core then Then(Project(before, core), e) else Project(before, core)
  }

  // A line of region t
  predicate LineOf(start: int, t: int, a: int) {
    InRegion(start, t, a) && (a - start) % 64 == 0
  }

  predicate EventIn(start: int, t: int, e: Event) {
    e.Fence? || LineOf(start, t, e.addr)
  }

  predicate Confined(start: int, t: int, h: History) {
    h.Then? ==> Confined(start, t, h.before) && EventIn(start, t, h.event)
  }

  // Every core stays in its own region.
  predicate Respects(start: int, il: Interleaving) {
    il.Turn? ==> Respects(start, il.before) && EventIn(start, il.core, il.event)
  }

  lemma {:induction false} ConfinedThreadsRespect(start: int, il: Interleaving)
    requires forall t: nat :: Confined(start, t, Project(il, t))
    ensures Respects(start, il)
  {
    if il.Turn? {
      forall t: nat
        ensures Confined(start, t, Project(il.before, t))
      {
        assert Confined(start, t, Project(il, t));
      }
      ConfinedThreadsRespect(start, il.before);
      assert Confined(start, il.core, Project(il, il.core));
    }
  }

  function Shared(core: nat, tag: Tag): SharedTag {
    match tag
    case Dirty => Cached
    case Pending => Draining(core)
    case Durable => Persisted
  }

  // What memory says of a line is what the core alone would have made of it.
  predicate Agrees(start: int, il: Interleaving, core: nat, a: int) {
    var own := Run(Project(il, core)).lines;
    && (a in SharedMemory(il) <==> a in own)
    && (a in own ==> SharedMemory(il)[a] == Shared(core, own[a]))
  }

  /** Non-interference: however the threads interleave, as long as each stays in its region,
      the state of every line is the one its own thread gives it when it runs alone. */
  lemma {:induction false} RegionsDoNotInterfere(start: int, il: Interleaving, core: nat, a: int)
    requires Respects(start, il) && InRegion(start, core, a)
    ensures Agrees(start, il, core, a)
  {
    if il.Turn? {
      RegionsDoNotInterfere(start, il.before, core, a);
      if il.core == core {
        OwnTurn(start, il, a);
      } else {
        OtherTurn(start, il, core, a);
      }
    }
  }

  lemma OwnTurn(start: int, il: Interleaving, a: int)
    requires il.Turn? && Agrees(start, il.before, il.core, a)
    ensures Agrees(start, il, il.core, a)
  {
    assert Project(il, il.core) == Then(Project(il.before, il.core), il.event);
  }

  lemma OtherTurn(start: int, il: Interleaving, core: nat, a: int)
    requires il.Turn? && il.core != core && EventIn(start, il.core, il.event) && InRegion(start, core, a)
    requires Agrees(start, il.before, core, a)
    ensures Agrees(start, il, core, a)
  {
    if il.event != Fence {
      RegionsPartition(start, 0, core, a);
      RegionsPartition(start, 0, il.core, il.event.addr);
      assert il.event.addr != a;
    }
  }

  lemma {:induction false} OnlyLinesOfRegions(start: int, il: Interleaving, a: int)
    requires Respects(start, il) && a in SharedMemory(il)
    ensures start <= a && (a - start) % 64 == 0
  {
    if il.Turn? && a in SharedMemory(il.before) {
      OnlyLinesOfRegions(start, il.before, a);
    }
  }

  // ---------- The strided job keeps to its region ----------

  predicate LinesOf(start: int, t: int, lines: seq<int>) {
    forall i :: 0 <= i < |lines| ==> LineOf(start, t, lines[i])
  }

  lemma LinesOfParts(start: int, t: int, a: seq<int>, b: seq<int>)
    requires LinesOf(start, t, a + b)
    ensures LinesOf(start, t, a) && LinesOf(start, t, b)
  {
    forall i | 0 <= i < |a|
      ensures LineOf(start, t, a[i])
    {
      assert (a + b)[i] == a[i];
    }
    forall i | 0 <= i < |b|
      ensures LineOf(start, t, b[i])
    {
      assert (a + b)[|a| + i] == b[i];
    }
  }

  lemma {:induction false} WalkConfined(start: int, t: int, h: History, op: Op, base: int, n: nat)
    requires Confined(start, t, h) && LinesOf(start, t, WalkLines(base, n))
    ensures Confined(start, t, WalkTo(h, op, base, n))
  {
    if n > 0 {
      assert LineOf(start, t, WalkLines(base, n)[n - 1]);
      assert WalkLines(base, n) == WalkLines(base, n - 1) + [base + 64 * (n - 1)];
      LinesOfParts(start, t, WalkLines(base, n - 1), [base + 64 * (n - 1)]);
      WalkConfined(start, t, h, op, base, n - 1);
    }
  }

  lemma {:induction false} StrideConfined(start: int, t: int, h: History, op: Op, base: int, skip: int, lines: nat, count: nat)
    requires Confined(start, t, h) && LinesOf(start, t, StrideLines(base, skip, lines, count))
    ensures Confined(start, t, StrideTo(h, op, base, skip, lines, count))
  {
    if count > 0 {
      LinesOfParts(start, t, StrideLines(base, skip, lines, count - 1), WalkLines(Base(base, skip, count - 1), lines));
      StrideConfined(start, t, h, op, base, skip, lines, count - 1);
      WalkConfined(start, t, StrideTo(h, op, base, skip, lines, count - 1), op, Base(base, skip, count - 1), lines);
    }
  }

  // The access sizes that make every pass cover the work set exactly
  predicate Tiling(access: nat) {
    access > 0 && access % 256 == 0 && WORKSET % access == 0
  }

  lemma LineAt(start: int, t: int, i: nat)
    requires i < WORKSET / 64
    ensures LineOf(start, t, RegionStart(start, t) + 64 * i)
  {
  }

  lemma RegionIsWalk(start: int, t: int)
    ensures LinesOf(start, t, WalkLines(RegionStart(start, t), WORKSET / 64))
  {
    var lines := WalkLines(RegionStart(start, t), WORKSET / 64);
    forall i | 0 <= i < |lines|
      ensures LineOf(start, t, lines[i])
    {
      LineAt(start, t, i);
    }
  }

  lemma {:induction false} JobConfined(start: int, t: int, op: Op, access: nat, n: nat)
    requires Tiling(access)
    ensures Confined(start, t, PassesTo(Start, op, RegionStart(start, t), access, n))
  {
    if n > 0 {
      JobConfined(start, t, op, access, n - 1);
      TilesIff(RegionStart(start, t), access);
      RegionIsWalk(start, t);
      StrideConfined(start, t, PassesTo(Start, op, RegionStart(start, t), access, n - 1), op, RegionStart(start, t), access,
                     4 * Trips(access, 256), Trips(WORKSET / access, 1));
    }
  }

  lemma LineIsWalked(start: int, t: int, a: int)
    requires LineOf(start, t, a)
    ensures a in WalkLines(RegionStart(start, t), WORKSET / 64)
  {
    var i := (a - RegionStart(start, t)) / 64;
    assert WalkLines(RegionStart(start, t), WORKSET / 64)[i] == a;
  }

  /** As soon as a storing thread has fenced a pass, every line of its region is durable,
      whatever the other threads have done, and stays so as long as the thread does nothing. */
  lemma FencedRegionIsDurable(start: int, il: Interleaving, t: nat, op: Op, access: nat, n: nat, a: int)
    requires Respects(start, il) && Tiling(access) && op != OpLoad && n > 0
    requires Project(il, t) == PassesTo(Start, op, RegionStart(start, t), access, n)
    requires LineOf(start, t, a)
    ensures a in SharedMemory(il) && SharedMemory(il)[a] == Persisted
  {
    JobSafety.StridedJobIsDurable(Start, op, RegionStart(start, t), access, n);
    TilesIff(RegionStart(start, t), access);
    LineIsWalked(start, t, a);
    RegionsDoNotInterfere(start, il, t, a);
  }

  // Each of n threads has run its whole job, and nothing else has run.
  ghost predicate AllFinished(start: int, il: Interleaving, n: nat, op: Op, access: nat)
    requires access > 0
  {
    forall t: nat :: Project(il, t) == if t < n then PassesTo(Start, op, RegionStart(start, t), access, 101) else Start
  }

  /** When all threads of a write benchmark have finished, exactly the lines of the n work sets
      have been written, and all of them are durable: in every interleaving. */
  lemma AllRegionsDurable(start: int, il: Interleaving, n: nat, op: Op, access: nat, a: int)
    requires Tiling(access) && op != OpLoad && AllFinished(start, il, n, op, access)
    ensures a in SharedMemory(il) <==> start <= a < RegionStart(start, n) && (a - start) % 64 == 0
    ensures a in SharedMemory(il) ==> SharedMemory(il)[a] == Persisted
  {
    forall t: nat
      ensures Confined(start, t, Project(il, t))
    {
      JobConfined(start, t, op, access, 101);
    }
    ConfinedThreadsRespect(start, il);
    if a in SharedMemory(il) {
      OnlyLinesOfRegions(start, il, a);
    }
    if start <= a && (a - start) % 64 == 0 {
      var t := (a - start) / WORKSET;
      RegionsPartition(start, n, t, a);
      if t < n {
        FencedRegionIsDurable(start, il, t, op, access, 101, a);
      } else {
        RegionsDoNotInterfere(start, il, t, a);
      }
    }
  }

  // ---------- Threads whose accesses overlap ----------

  // Every store so far has been followed at once by a write-back of its line.
  predicate Paired(h: History) {
    h.Then? ==> Paired(h.before) && (Stores(h.before) ==> h.event == Clwb(h.before.event.addr))
  }

  // A cached store is the last instruction.
  predicate Stores(h: History) { h.Then? && h.event.Store? }

  // No instruction has been issued since the last fence.
  predicate Settled(h: History) { h.Then? ==> h.event.Fence? }

  predicate JustStored(il: Interleaving, core: nat, a: int) {
    Stores(Project(il, core)) && Project(il, core).event.addr == a
  }

  // What is not yet durable has someone to make it so: a core about to write the line back,
  // or one that has still to fence.
  ghost predicate Accounted(il: Interleaving, a: int) {
    a in SharedMemory(il) ==>
      match SharedMemory(il)[a]
      case Cached => exists core: nat :: JustStored(il, core, a)
      case Draining(core) => !Settled(Project(il, core))
      case Persisted => true
  }

  lemma TurnKeepsAccount(il: Interleaving, a: int)
    requires il.Turn? && Paired(Project(il, il.core)) && Accounted(il.before, a)
    ensures Accounted(il, a)
  {
    assert Project(il, il.core) == Then(Project(il.before, il.core), il.event);
    if a in SharedMemory(il) {
      if SharedMemory(il)[a] == Cached {
        CachedKeepsAccount(il, a);
      } else if SharedMemory(il)[a].Draining? {
        DrainingKeepsAccount(il, a);
      }
    }
  }

  lemma CachedKeepsAccount(il: Interleaving, a: int)
    requires il.Turn? && Paired(Project(il, il.core)) && Accounted(il.before, a)
    requires a in SharedMemory(il) && SharedMemory(il)[a] == Cached
    ensures Accounted(il, a)
  {
    if il.event == Store(a) {
      assert JustStored(il, il.core, a);
    } else {
      assert a in SharedMemory(il.before) && SharedMemory(il.before)[a] == Cached;
      var core: nat :| JustStored(il.before, core, a);
      assert core != il.core;
      assert JustStored(il, core, a);
    }
  }

  lemma DrainingKeepsAccount(il: Interleaving, a: int)
    requires il.Turn? && Accounted(il.before, a)
    requires a in SharedMemory(il) && SharedMemory(il)[a].Draining?
    ensures Accounted(il, a)
  {
    var core := SharedMemory(il)[a].core;
    if core != il.core {
      assert a in SharedMemory(il.before) && SharedMemory(il.before)[a] == Draining(core);
    }
  }

  ghost predicate AllPaired(il: Interleaving) {
    forall t: nat :: Paired(Project(il, t))
  }

  lemma {:induction false} EveryLineIsAccounted(il: Interleaving, a: int)
    requires AllPaired(il)
    ensures Accounted(il, a)
  {
    if il.Turn? {
      forall t: nat
        ensures Paired(Project(il.before, t))
      {
        assert Paired(Project(il, t));
      }
      EveryLineIsAccounted(il.before, a);
      assert Paired(Project(il, il.core));
      TurnKeepsAccount(il, a);
    }
  }

  /** If every core pairs its stores with write-backs and has fenced last, then every line that
      any of them has written is durable, however they interleave and wherever they overlap. */
  lemma PairedThreadsEndDurable(il: Interleaving, a: int)
    requires AllPaired(il) && forall t: nat :: Settled(Project(il, t))
    requires a in SharedMemory(il)
    ensures SharedMemory(il)[a] == Persisted
  {
    EveryLineIsAccounted(il, a);
  }

  ghost predicate WrittenBySome(il: Interleaving, a: int) {
    exists t: nat :: a in Run(Project(il, t)).lines
  }

  /** Memory holds a line exactly when some core has written it. */
  lemma {:induction false} WrittenIff(il: Interleaving, a: int)
    ensures a in SharedMemory(il) <==> WrittenBySome(il, a)
  {
    match il
    case Idle =>
      assert forall t: nat :: Project(Idle, t) == Start;
    case Turn(before, core, e) =>
      WrittenIff(before, a);
      assert forall t: nat :: t != core ==> Project(il, t) == Project(before, t);
      assert Project(il, core) == Then(Project(before, core), e);
      assert a in Run(Project(il, core)).lines <==> a in Run(Project(before, core)).lines || e == Store(a) || e == NtStore(a);
      if t: nat :| a in Run(Project(before, t)).lines {
        assert a in Run(Project(il, t)).lines;
      }
      if t: nat :| a in Run(Project(il, t)).lines {
        assert t != core ==> a in Run(Project(before, t)).lines;
      }
  }

  // ---------- The jobs pair their stores ----------

  lemma TouchPaired(h: History, op: Op, a: int)
    requires Paired(h) && !Stores(h)
    ensures Paired(TouchTo(h, op, a)) && !Stores(TouchTo(h, op, a))
  {
    if op == OpStoreClwb {
      assert Paired(Then(h, Store(a)));
    }
  }

  lemma {:induction false} WalkPaired(h: History, op: Op, base: int, n: nat)
    requires Paired(h) && !Stores(h)
    ensures Paired(WalkTo(h, op, base, n)) && !Stores(WalkTo(h, op, base, n))
  {
    if n > 0 {
      WalkPaired(h, op, base, n - 1);
      TouchPaired(WalkTo(h, op, base, n - 1), op, base + 64 * (n - 1));
    }
  }

  lemma {:induction false} StridePaired(h: History, op: Op, start: int, skip: int, lines: nat, count: nat)
    requires Paired(h) && !Stores(h)
    ensures Paired(StrideTo(h, op, start, skip, lines, count)) && !Stores(StrideTo(h, op, start, skip, lines, count))
  {
    if count > 0 {
      StridePaired(h, op, start, skip, lines, count - 1);
      WalkPaired(StrideTo(h, op, start, skip, lines, count - 1), op, Base(start, skip, count - 1), lines);
    }
  }

  lemma {:induction false} RandomPaired(h: History, op: Op, start: int, lines: nat, seed: Word, mask: bv64, n: nat)
    requires Paired(h) && !Stores(h)
    ensures Paired(RandomTo(h, op, start, lines, seed, mask, n)) && !Stores(RandomTo(h, op, start, lines, seed, mask, n))
  {
    if n > 0 {
      RandomPaired(h, op, start, lines, seed, mask, n - 1);
      WalkPaired(RandomTo(h, op, start, lines, seed, mask, n - 1), op, start + Offset(Iterate(seed, n), mask), lines);
    }
  }

  lemma {:induction false} RandomPassesPaired(h: History, op: Op, buf: int, access: nat, seed: Word, n: nat)
    requires access > 0 && Paired(h) && Settled(h)
    ensures Paired(RandomPassesTo(h, op, buf, access, seed, n)) && Settled(RandomPassesTo(h, op, buf, access, seed, n))
  {
    if n > 0 {
      RandomPassesPaired(h, op, buf, access, seed, n - 1);
      RandomPaired(RandomPassesTo(h, op, buf, access, seed, n - 1), op, buf, 8 * Trips(access, 512),
                   SeedAfter(seed, DrawsPerPass(access), n - 1), LINE_MASK, DrawsPerPass(access));
    }
  }

  lemma RandomJobPaired(op: Op, buf: int, access: nat, seed: Word)
    requires access > 0
    ensures Paired(JobSafety.RandomJob(op, buf, access, seed)) && Settled(JobSafety.RandomJob(op, buf, access, seed))
  {
    StridePaired(Start, op, buf, access, 4 * Trips(access, 256), Trips(WORKSET / access, 1));
    assert PassesTo(Start, op, buf, access, 1) == Then(PassTo(Start, op, buf, access), Fence);
    RandomPassesPaired(PassesTo(Start, op, buf, access, 1), op, buf, access, seed, 100);
  }

  // Each of n threads has run its whole random job from a seed of its own.
  ghost predicate AllRandomFinished(start: int, il: Interleaving, n: nat, op: Op, access: nat, seeds: nat -> Word)
    requires access > 0
  {
    forall t: nat ::
      Project(il, t) == if t < n then JobSafety.RandomJob(op, RegionStart(start, t), access, seeds(t)) else Start
  }

  /** When all random threads have finished, every line written is durable, for every access
      size, all seeds and every interleaving, although threads may write into each other's
      regions; and the lines written are those that some thread's job writes. */
  lemma AllRandomLinesDurable(start: int, il: Interleaving, n: nat, op: Op, access: nat, seeds: nat -> Word, a: int)
    requires access > 0 && AllRandomFinished(start, il, n, op, access, seeds)
    ensures a in SharedMemory(il) <==>
            exists t: nat :: t < n && a in Run(JobSafety.RandomJob(op, RegionStart(start, t), access, seeds(t))).lines
    ensures a in SharedMemory(il) ==> SharedMemory(il)[a] == Persisted
  {
    forall t: nat
      ensures Paired(Project(il, t)) && Settled(Project(il, t))
    {
      RandomJobPaired(op, RegionStart(start, t), access, seeds(t));
    }
    WrittenIff(il, a);
    if t: nat :| a in Run(Project(il, t)).lines {
      assert t < n;
    }
    if a in SharedMemory(il) {
      PairedThreadsEndDurable(il, a);
    }
  }
}
