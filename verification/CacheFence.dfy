/** The write, write-back and fence loop nest of cachefence. */
module CacheFence {
  import opened Arith
  import opened Loops
  import opened Persistence

  function Line(start: int, i: nat): int { start + 64 * i }

  // Lines in j runs of g lines
  function Lines(g: nat, j: nat): nat {
    if j == 0 then 0 else Lines(g, j - 1) + g
  }

  lemma {:induction false} LinesIsProduct(g: nat, j: nat)
    ensures Lines(g, j) == g * j
  {
    if j > 0 {
      LinesIsProduct(g, j - 1);
      assert g * j == g * (j - 1) + g;
    }
  }

  // ---------- The instruction sequence ----------

  function StoresTo(prior: History, start: int, first: nat, n: nat): History {
    if n == 0 then prior else Then(StoresTo(prior, start, first, n - 1), Store(Line(start, first + n - 1)))
  }

  function ClwbsTo(prior: History, start: int, first: nat, n: nat): History {
    if n == 0 then prior else Then(ClwbsTo(prior, start, first, n - 1), Clwb(Line(start, first + n - 1)))
  }

  // j flush groups: each stores g lines and then writes the same lines back.
  function GroupsTo(prior: History, start: int, first: nat, g: nat, j: nat): History {
    if j == 0 then prior
    else
      var i := first + Lines(g, j - 1);
      ClwbsTo(StoresTo(GroupsTo(prior, start, first, g, j - 1), start, i, g), start, i, g)
  }

  // n fence epochs of m flush groups, each closed by a fence
  function EpochsTo(prior: History, start: int, g: nat, m: nat, n: nat): History {
    if n == 0 then prior
    else Then(GroupsTo(EpochsTo(prior, start, g, m, n - 1), start, Lines(Lines(g, m), n - 1), g, m), Fence)
  }

  // Lines in a flush group, flush groups in an epoch, and epochs in the call
  function GroupLines(cache: int): nat { Trips(cache, 64) }

  function EpochGroups(cache: int, fence: int): nat { Trips(fence, 64 * GroupLines(cache)) }

  function EpochLines(cache: int, fence: int): (n: nat)
    ensures n > 0
  {
    LinesIsProduct(GroupLines(cache), EpochGroups(cache, fence));
    MultipleIsAtLeast(GroupLines(cache), EpochGroups(cache, fence));
    Lines(GroupLines(cache), EpochGroups(cache, fence))
  }

  function Epochs(size: int, cache: int, fence: int): nat { Trips(size, 64 * EpochLines(cache, fence)) }

  function Trace(prior: History, start: int, size: int, cache: int, fence: int): History {
    EpochsTo(prior, start, GroupLines(cache), EpochGroups(cache, fence), Epochs(size, cache, fence))
  }

  lemma {:induction false} LinesScaled(g: nat, j: nat)
    ensures j * (64 * g) == 64 * Lines(g, j)
  {
    if j > 0 {
      LinesScaled(g, j - 1);
      assert j * (64 * g) == (j - 1) * (64 * g) + 64 * g;
    }
  }

  lemma GroupGuard(cache: int, fence: int, j: nat)
    requires j >= 1
    ensures 64 * Lines(GroupLines(cache), j) < fence <==> j < EpochGroups(cache, fence)
  {
    var g := GroupLines(cache);
    LinesScaled(g, j);
    TripsGuard(fence, 64 * g, j);
  }

  lemma EpochGuard(size: int, cache: int, fence: int, e: nat)
    requires e >= 1
    ensures 64 * Lines(EpochLines(cache, fence), e) < size <==> e < Epochs(size, cache, fence)
  {
    var span := EpochLines(cache, fence);
    LinesScaled(span, e);
    TripsGuard(size, 64 * span, e);
  }

  // WRITEONE: the stores of one flush group, from offset in
  method WriteGroup(cpu: Cpu, start: int, cache: int, r9in: int, r11in: int, ghost first: nat) returns (r9: int, r11: int)
    requires cpu.Valid() && r9in == 64 * first
    modifies cpu
    ensures cpu.Valid() && cpu.history == StoresTo(old(cpu.history), start, first, GroupLines(cache))
    ensures r9 == r9in + 64 * GroupLines(cache) && r11 == r11in + 64 * GroupLines(cache)
  {
    ghost var k: nat := 0;
    var r10 := 0;
    r9, r11 := r9in, r11in;
    while true
      invariant k < GroupLines(cache) && r10 == 64 * k && r9 == r9in + 64 * k && r11 == r11in + 64 * k
      invariant cpu.Valid() && cpu.history == StoresTo(old(cpu.history), start, first, k)
      decreases GroupLines(cache) - k
    {
      cpu.Issue(Store(start + r9));
      r9 := r9 + 64;
      r10 := r10 + 64;
      r11 := r11 + 64;
      k := k + 1;
      TripsGuard(cache, 64, k);
      if !(r10 < cache) {
        break;
      }
    }
  }

  // FLUSHONE: the write-backs from rdx up to rcx
  method FlushGroup(cpu: Cpu, rdxIn: int, rcx: int, ghost start: int, ghost first: nat, ghost g: nat)
    requires cpu.Valid() && g >= 1 && rdxIn == Line(start, first) && rcx == Line(start, first + g)
    modifies cpu
    ensures cpu.Valid() && cpu.history == ClwbsTo(old(cpu.history), start, first, g)
  {
    ghost var k: nat := 0;
    var rdx := rdxIn;
    while true
      invariant k < g && rdx == Line(start, first + k)
      invariant cpu.Valid() && cpu.history == ClwbsTo(old(cpu.history), start, first, k)
      decreases g - k
    {
      cpu.Issue(Clwb(rdx));
      rdx := rdx + 64;
      k := k + 1;
      if !(rdx < rcx) {
        break;
      }
    }
  }

  // FLUSHBEGIN: the flush groups of one epoch
  method FenceEpoch(cpu: Cpu, start: int, cache: int, fence: int, r9in: int, ghost first: nat) returns (r9: int)
    requires cpu.Valid() && r9in == 64 * first
    modifies cpu
    ensures cpu.Valid() && cpu.history == GroupsTo(old(cpu.history), start, first, GroupLines(cache), EpochGroups(cache, fence))
    ensures r9 == r9in + 64 * EpochLines(cache, fence)
  {
    ghost var g, m, j: nat := GroupLines(cache), EpochGroups(cache, fence), 0;
    var r11 := 0;
    r9 := r9in;
    while true
      invariant j < m && r11 == 64 * Lines(g, j) && r9 == 64 * (first + Lines(g, j))
      invariant cpu.Valid() && cpu.history == GroupsTo(old(cpu.history), start, first, g, j)
      decreases m - j
    {
      ghost var i := first + Lines(g, j);
      var rdx := start + r9;
      r9, r11 := WriteGroup(cpu, start, cache, r9, r11, i);
      var rcx := start + r9;
      FlushGroup(cpu, rdx, rcx, start, i, g);
      j := j + 1;
      GroupGuard(cache, fence, j);
      if !(r11 < fence) {
        break;
      }
    }
  }

  method CacheFence(cpu: Cpu, start: int, size: int, cache: int, fence: int)
    requires cpu.Valid()
    modifies cpu
    ensures cpu.Valid() && cpu.history == Trace(old(cpu.history), start, size, cache, fence)
  {
    ghost var g, m, n := GroupLines(cache), EpochGroups(cache, fence), Epochs(size, cache, fence);
    ghost var span, e: nat := EpochLines(cache, fence), 0;
    var r9 := 0;
    while true
      invariant e < n && r9 == 64 * Lines(span, e)
      invariant cpu.Valid() && cpu.history == EpochsTo(old(cpu.history), start, g, m, e)
      decreases n - e
    {
      r9 := FenceEpoch(cpu, start, cache, fence, r9, Lines(span, e));
      cpu.Issue(Fence);
      e := e + 1;
      EpochGuard(size, cache, fence, e);
      if !(r9 < size) {
        break;
      }
    }
  }
}
