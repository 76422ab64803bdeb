/** Crash safety of cachefence at every instruction. */
module CacheFenceSafety {
  import opened Arith
  import opened Loops
  import opened Persistence
  import opened CacheFence

  // ---------- The frontier ----------

  function TagAt(i: nat, d: nat, f: nat): Tag {
    if i < d then Durable else if i < f then Pending else Dirty
  }

  // The first w lines, of which the first d are durable and the first f written back
  function Frontier(start: int, d: nat, f: nat, w: nat): map<int, Tag> {
    if w == 0 then map[]
    else Frontier(start, d, f, w - 1)[Line(start, w - 1) := TagAt(w - 1, d, f)]
  }

  lemma {:induction false} FrontierTag(start: int, d: nat, f: nat, w: nat, i: nat)
    ensures Line(start, i) in Frontier(start, d, f, w) <==> i < w
    ensures i < w ==> Frontier(start, d, f, w)[Line(start, i)] == TagAt(i, d, f)
  {
    if w > 0 {
      FrontierTag(start, d, f, w - 1, i);
    }
  }

  lemma {:induction false} FrontierLine(start: int, d: nat, f: nat, w: nat, a: int) returns (i: nat)
    requires a in Frontier(start, d, f, w)
    ensures i < w && a == Line(start, i)
  {
    if a == Line(start, w - 1) {
      i := w - 1;
    } else {
      i := FrontierLine(start, d, f, w - 1, a);
    }
  }

  lemma {:induction false} FrontierBelow(start: int, d: nat, f: nat, w: nat)
    requires d <= w <= f
    ensures Frontier(start, d, f, w) == Frontier(start, d, f + 1, w)
  {
    if w > d {
      FrontierBelow(start, d, f, w - 1);
    } else if w > 0 {
      FrontierDurable(start, d, f, f + 1, w);
    }
  }

  lemma {:induction false} FrontierDurable(start: int, d: nat, f: nat, f': nat, w: nat)
    requires w <= d
    ensures Frontier(start, d, f, w) == Frontier(start, d, f', w)
  {
    if w > 0 {
      FrontierDurable(start, d, f, f', w - 1);
    }
  }

  /** Writing back line f moves the flush frontier by one. */
  lemma {:induction false} ClwbMoves(start: int, d: nat, f: nat, w: nat)
    requires d <= f < w
    ensures Frontier(start, d, f, w)[Line(start, f) := Pending] == Frontier(start, d, f + 1, w)
  {
    if w - 1 == f {
      FrontierBelow(start, d, f, f);
    } else {
      ClwbMoves(start, d, f, w - 1);
      var inner := Frontier(start, d, f, w - 1);
      assert inner[Line(start, w - 1) := Dirty][Line(start, f) := Pending] == inner[Line(start,
          f) := Pending][Line(start, w - 1) := Dirty];
    }
  }

  /** A fence makes every line durable once all are written back. */
  lemma {:induction false} FenceMoves(start: int, d: nat, f: nat, w: nat)
    requires w <= f
    ensures Drain(Frontier(start, d, f, w)) == Frontier(start, f, f, w)
  {
    if w > 0 {
      FenceMoves(start, d, f, w - 1);
      var inner, a, tag := Frontier(start, d, f, w - 1), Line(start, w - 1), TagAt(w - 1, d, f);
      assert Drain(inner[a := tag]) == Drain(inner)[a := Durable];
    }
  }

  // g bounds the lines stored but not written back, span the lines not yet fenced.
  predicate Safe(m: Machine, start: int, g: nat, span: nat) {
    && m.lines == Frontier(start, Lines(span, m.fences), m.clwbs, m.stores)
    && Lines(span, m.fences) <= m.clwbs <= m.stores <= m.clwbs + g
    && m.stores <= Lines(span, m.fences) + span
  }

  // The machine is safe after every instruction of h.
  predicate AlwaysSafe(h: History, start: int, g: nat, span: nat) {
    Safe(Run(h), start, g, span) && (h.Then? ==> AlwaysSafe(h.before, start, g, span))
  }

  lemma {:induction false} MomentIsSafe(p: History, h: History, start: int, g: nat, span: nat)
    requires AlwaysSafe(h, start, g, span) && IsMoment(p, h)
    ensures Safe(Run(p), start, g, span)
  {
    if p != h {
      MomentIsSafe(p, h.before, start, g, span);
    }
  }

  // ---------- Each instruction keeps it ----------

  lemma StoreKeeps(h: History, start: int, g: nat, span: nat, a: int)
    requires AlwaysSafe(h, start, g, span) && a == Line(start, Run(h).stores)
    requires Run(h).stores < Run(h).clwbs + g && Run(h).stores < Lines(span, Run(h).fences) + span
    ensures AlwaysSafe(Then(h, Store(a)), start, g, span)
  {
  }

  lemma ClwbKeeps(h: History, start: int, g: nat, span: nat, a: int)
    requires AlwaysSafe(h, start, g, span) && a == Line(start, Run(h).clwbs) && Run(h).clwbs < Run(h).stores
    ensures AlwaysSafe(Then(h, Clwb(a)), start, g, span)
  {
    var m := Run(h);
    var d := Lines(span, m.fences);
    FrontierTag(start, d, m.clwbs, m.stores, m.clwbs);
    ClwbMoves(start, d, m.clwbs, m.stores);
  }

  lemma FenceKeeps(h: History, start: int, g: nat, span: nat)
    requires AlwaysSafe(h, start, g, span) && Run(h).clwbs == Run(h).stores == Lines(span, Run(h).fences) + span
    ensures AlwaysSafe(Then(h, Fence), start, g, span)
  {
    var m := Run(h);
    FenceMoves(start, Lines(span, m.fences), m.clwbs, m.clwbs);
  }

  // ---------- The loops keep it ----------

  lemma {:induction false} StoresKeepSafe(h: History, start: int, g: nat, span: nat, first: nat, n: nat)
    requires AlwaysSafe(h, start, g, span) && n <= g
    requires Run(h).stores == first == Run(h).clwbs && first + n <= Lines(span, Run(h).fences) + span
    ensures AlwaysSafe(StoresTo(h, start, first, n), start, g, span)
    ensures var m := Run(StoresTo(h, start, first, n));
            m.stores == first + n && m.clwbs == first && m.fences == Run(h).fences
  {
    if n > 0 {
      StoresKeepSafe(h, start, g, span, first, n - 1);
      StoreKeeps(StoresTo(h, start, first, n - 1), start, g, span, Line(start, first + n - 1));
    }
  }

  lemma {:induction false} ClwbsCount(h: History, start: int, first: nat, n: nat)
    ensures var m := Run(ClwbsTo(h, start, first, n));
            m.stores == Run(h).stores && m.clwbs == Run(h).clwbs + n && m.fences == Run(h).fences
  {
    if n > 0 {
      ClwbsCount(h, start, first, n - 1);
    }
  }

  lemma {:induction false} ClwbsAreSafe(h: History, start: int, g: nat, span: nat, first: nat, n: nat)
    requires AlwaysSafe(h, start, g, span) && Run(h).clwbs == first && first + n <= Run(h).stores
    ensures AlwaysSafe(ClwbsTo(h, start, first, n), start, g, span)
  {
    if n > 0 {
      ClwbsAreSafe(h, start, g, span, first, n - 1);
      ClwbsCount(h, start, first, n - 1);
      ClwbKeeps(ClwbsTo(h, start, first, n - 1), start, g, span, Line(start, first + n - 1));
    }
  }

  lemma ClwbsKeepSafe(h: History, start: int, g: nat, span: nat, first: nat, n: nat)
    requires AlwaysSafe(h, start, g, span) && Run(h).clwbs == first && first + n <= Run(h).stores
    ensures AlwaysSafe(ClwbsTo(h, start, first, n), start, g, span)
    ensures var m := Run(ClwbsTo(h, start, first, n));
            m.stores == Run(h).stores && m.clwbs == first + n && m.fences == Run(h).fences
  {
    ClwbsAreSafe(h, start, g, span, first, n);
    ClwbsCount(h, start, first, n);
  }

  lemma {:induction false} LinesGrow(g: nat, j: nat, m: nat)
    requires j <= m
    ensures Lines(g, j) <= Lines(g, m)
  {
    if j < m {
      LinesGrow(g, j, m - 1);
    }
  }

  lemma {:induction false} GroupsKeepSafe(h: History, start: int, g: nat, m: nat, first: nat, j: nat)
    requires AlwaysSafe(h, start, g, Lines(g, m)) && j <= m
    requires Run(h).stores == first == Run(h).clwbs && first == Lines(Lines(g, m), Run(h).fences)
    ensures AlwaysSafe(GroupsTo(h, start, first, g, j), start, g, Lines(g, m))
    ensures var r := Run(GroupsTo(h, start, first, g, j));
            r.stores == first + Lines(g, j) == r.clwbs && r.fences == Run(h).fences
  {
    if j > 0 {
      GroupsKeepSafe(h, start, g, m, first, j - 1);
      LinesGrow(g, j, m);
      var u, i := GroupsTo(h, start, first, g, j - 1), first + Lines(g, j - 1);
      StoresKeepSafe(u, start, g, Lines(g, m), i, g);
      ClwbsKeepSafe(StoresTo(u, start, i, g), start, g, Lines(g, m), i, g);
    }
  }

  lemma {:induction false} EpochsKeepSafe(start: int, g: nat, m: nat, n: nat)
    ensures AlwaysSafe(EpochsTo(Start, start, g, m, n), start, g, Lines(g, m))
    ensures var r := Run(EpochsTo(Start, start, g, m, n));
            r.stores == Lines(Lines(g, m), n) == r.clwbs && r.fences == n
  {
    if n == 0 {
      NothingYet(start, g, Lines(g, m));
    } else {
      EpochsKeepSafe(start, g, m, n - 1);
      EpochKeepsSafe(EpochsTo(Start, start, g, m, n - 1), start, g, m, n - 1);
    }
  }

  lemma NothingYet(start: int, g: nat, span: nat)
    ensures AlwaysSafe(Start, start, g, span)
  {
  }

  lemma EpochKeepsSafe(h: History, start: int, g: nat, m: nat, e: nat)
    requires AlwaysSafe(h, start, g, Lines(g, m))
    requires Run(h).stores == Lines(Lines(g, m), e) == Run(h).clwbs && Run(h).fences == e
    ensures var u := Then(GroupsTo(h, start, Lines(Lines(g, m), e), g, m), Fence);
            && AlwaysSafe(u, start, g, Lines(g, m))
            && Run(u).stores == Lines(Lines(g, m), e + 1) == Run(u).clwbs && Run(u).fences == e + 1
  {
    var first := Lines(Lines(g, m), e);
    GroupsKeepSafe(h, start, g, m, first, m);
    FenceKeeps(GroupsTo(h, start, first, g, m), start, g, Lines(g, m));
  }

  // ---------- Crash safety ----------

  /** At every moment of the call: every line of a completed epoch is durable, lines stored
      but not written back fit in one flush group, lines not fenced in one epoch. */
  lemma EveryMomentIsSafe(p: History, start: int, size: int, cache: int, fence: int)
    requires IsMoment(p, Trace(Start, start, size, cache, fence))
    ensures Safe(Run(p), start, GroupLines(cache), EpochLines(cache, fence))
  {
    EpochsKeepSafe(start, GroupLines(cache), EpochGroups(cache, fence), Epochs(size, cache, fence));
    MomentIsSafe(p, Trace(Start, start, size, cache, fence), start, GroupLines(cache), EpochLines(cache, fence));
  }

  /** At the end one fence has been issued per epoch, and every line stored is durable. */
  lemma EndIsDurable(start: int, size: int, cache: int, fence: int)
    ensures var end := Run(Trace(Start, start, size, cache, fence));
            && end.fences == Epochs(size, cache, fence)
            && end.stores == end.clwbs == EpochLines(cache, fence) * end.fences
            && (forall a :: a in end.lines ==> end.lines[a] == Durable)
  {
    var g, m, n, span := GroupLines(cache), EpochGroups(cache, fence), Epochs(size, cache, fence), EpochLines(cache, fence);
    EpochsKeepSafe(start, g, m, n);
    LinesIsProduct(span, n);
    var end := Run(Trace(Start, start, size, cache, fence));
    forall a | a in end.lines ensures end.lines[a] == Durable {
      var i := FrontierLine(start, end.stores, end.stores, end.stores, a);
      FrontierTag(start, end.stores, end.stores, end.stores, i);
    }
  }

  // n lines from line lo
  function LineSet(start: int, lo: nat, n: nat): (s: set<int>)
    ensures |s| <= n
  {
    if n == 0 then {} else LineSet(start, lo, n - 1) + {Line(start, lo + n - 1)}
  }

  lemma {:induction false} LineSetHas(start: int, lo: nat, n: nat, i: nat)
    requires lo <= i < lo + n
    ensures Line(start, i) in LineSet(start, lo, n)
  {
    if i < lo + n - 1 {
      LineSetHas(start, lo, n - 1, i);
    }
  }

  /** A crash at any moment keeps all lines of the completed epochs, keeps nothing that was
      not stored, and loses at most one epoch of lines. */
  lemma CrashSafety(p: History, start: int, size: int, cache: int, fence: int, survived: set<int>)
    requires IsMoment(p, Trace(Start, start, size, cache, fence)) && MaySurvive(Run(p), survived)
    ensures var m := Run(p); var span := EpochLines(cache, fence);
            && (forall i: nat :: i < Lines(span, m.fences) ==> Line(start, i) in survived)
            && (forall a :: a in survived ==> exists i: nat :: i < m.stores && a == Line(start, i))
            && |m.lines.Keys - survived| <= span
  {
    EveryMomentIsSafe(p, start, size, cache, fence);
    CrashKeepsEpochs(Run(p), start, GroupLines(cache), EpochLines(cache, fence), survived);
  }

  lemma CrashKeepsEpochs(m: Machine, start: int, g: nat, span: nat, survived: set<int>)
    requires Safe(m, start, g, span) && MaySurvive(m, survived)
    ensures forall i: nat :: i < Lines(span, m.fences) ==> Line(start, i) in survived
    ensures forall a :: a in survived ==> exists i: nat :: i < m.stores && a == Line(start, i)
    ensures |m.lines.Keys - survived| <= span
  {
    var d := Lines(span, m.fences);
    forall i: nat | i < d ensures Line(start, i) in survived {
      FrontierTag(start, d, m.clwbs, m.stores, i);
    }
    forall a | a in survived ensures exists i: nat :: i < m.stores && a == Line(start, i) {
      var i := FrontierLine(start, d, m.clwbs, m.stores, a);
    }
    var lost, recent := m.lines.Keys - survived, LineSet(start, d, m.stores - d);
    forall a | a in lost ensures a in recent {
      var i := FrontierLine(start, d, m.clwbs, m.stores, a);
      FrontierTag(start, d, m.clwbs, m.stores, i);
      LineSetHas(start, d, m.stores - d, i);
    }
    SubsetSize(lost, recent);
  }

  lemma {:induction false} SubsetSize<T>(a: set<T>, b: set<T>)
    requires a <= b
    ensures |a| <= |b|
  {
    if a != {} {
      var x :| x in a;
      SubsetSize(a - {x}, b - {x});
    }
  }

  // ---------- Each line once, in order ----------

  function StoredBy(h: History): seq<int> {
    match h
    case Start => []
    case Then(before, e) => StoredBy(before) + (if e.Store? then [e.addr] else [])
  }

  function WrittenBackBy(h: History): seq<int> {
    match h
    case Start => []
    case Then(before, e) => WrittenBackBy(before) + (if e.Clwb? then [e.addr] else [])
  }

  // The first n lines in address order
  function InOrder(start: int, n: nat): seq<int> {
    if n == 0 then [] else InOrder(start, n - 1) + [Line(start, n - 1)]
  }

  /** Line number i of them begins 64 * i bytes from the start. */
  lemma {:induction false} InOrderAt(start: int, n: nat, i: nat)
    requires i < n
    ensures |InOrder(start, n)| == n && InOrder(start, n)[i] == start + 64 * i
  {
    if i < n - 1 {
      InOrderAt(start, n - 1, i);
    } else if i > 0 {
      InOrderAt(start, n - 1, i - 1);
    }
  }

  lemma {:induction false} StoresInOrder(h: History, start: int, first: nat, n: nat)
    requires StoredBy(h) == InOrder(start, first)
    ensures StoredBy(StoresTo(h, start, first, n)) == InOrder(start, first + n)
    ensures WrittenBackBy(StoresTo(h, start, first, n)) == WrittenBackBy(h)
  {
    if n > 0 {
      StoresInOrder(h, start, first, n - 1);
    }
  }

  lemma {:induction false} ClwbsInOrder(h: History, start: int, first: nat, n: nat)
    requires WrittenBackBy(h) == InOrder(start, first)
    ensures WrittenBackBy(ClwbsTo(h, start, first, n)) == InOrder(start, first + n)
    ensures StoredBy(ClwbsTo(h, start, first, n)) == StoredBy(h)
  {
    if n > 0 {
      ClwbsInOrder(h, start, first, n - 1);
    }
  }

  lemma {:induction false} GroupsInOrder(h: History, start: int, first: nat, g: nat, j: nat)
    requires StoredBy(h) == InOrder(start, first) == WrittenBackBy(h)
    ensures StoredBy(GroupsTo(h, start, first, g, j)) == InOrder(start, first + Lines(g, j))
            == WrittenBackBy(GroupsTo(h, start, first, g, j))
  {
    if j > 0 {
      GroupsInOrder(h, start, first, g, j - 1);
      var u, i := GroupsTo(h, start, first, g, j - 1), first + Lines(g, j - 1);
      StoresInOrder(u, start, i, g);
      ClwbsInOrder(StoresTo(u, start, i, g), start, i, g);
    }
  }

  lemma {:induction false} EpochsInOrder(start: int, g: nat, m: nat, n: nat)
    ensures StoredBy(EpochsTo(Start, start, g, m, n)) == InOrder(start, Lines(Lines(g, m), n))
            == WrittenBackBy(EpochsTo(Start, start, g, m, n))
  {
    if n > 0 {
      EpochsInOrder(start, g, m, n - 1);
      var h, first := EpochsTo(Start, start, g, m, n - 1), Lines(Lines(g, m), n - 1);
      GroupsInOrder(h, start, first, g, m);
    }
  }

  /** The call stores the lines of [0, T) once each in address order and writes them back in
      the same order, where T lines are the least whole number of epochs that covers size. */
  lemma EachLineOnceInOrder(start: int, size: int, cache: int, fence: int)
    ensures var h := Trace(Start, start, size, cache, fence); var span := EpochLines(cache, fence);
            var n := Epochs(size, cache, fence);
            && StoredBy(h) == InOrder(start, span * n) == WrittenBackBy(h)
            && 64 * (span * n) >= size
            && (size > 0 ==> 64 * (span * n) < size + 64 * span)
            && span == GroupLines(cache) * EpochGroups(cache, fence)
  {
    var g, m, n, span := GroupLines(cache), EpochGroups(cache, fence), Epochs(size, cache, fence), EpochLines(cache, fence);
    EpochsInOrder(start, g, m, n);
    LinesIsProduct(g, m);
    LinesIsProduct(span, n);
    TripsCover(size, 64 * span);
    LinesScaled(span, n);
  }

  // ---------- Group by group, epoch by epoch ----------

  // A group of g lines is stored whole before its first write-back, and written back whole
  // before the first store of the next group.
  predicate PhasedAt(m: Machine, g: nat, j: nat) {
    && (m.clwbs > Lines(g, j) ==> m.stores >= Lines(g, j + 1))
    && (m.stores > Lines(g, j) ==> m.clwbs >= Lines(g, j))
  }

  ghost predicate Phased(m: Machine, g: nat) {
    forall j: nat :: PhasedAt(m, g, j)
  }

  ghost predicate AlwaysPhased(h: History, g: nat) {
    Phased(Run(h), g) && (h.Then? ==> AlwaysPhased(h.before, g))
  }

  lemma {:induction false} MomentIsPhased(p: History, h: History, g: nat)
    requires AlwaysPhased(h, g) && IsMoment(p, h)
    ensures Phased(Run(p), g)
  {
    if p != h {
      MomentIsPhased(p, h.before, g);
    }
  }

  lemma StoringIsPhased(m: Machine, g: nat, n: nat)
    requires m.clwbs == Lines(g, n) <= m.stores <= Lines(g, n + 1)
    ensures Phased(m, g)
  {
    forall j: nat
      ensures PhasedAt(m, g, j)
    {
      if j < n { LinesGrow(g, j + 1, n); } else { LinesGrow(g, n, j); }
      if j > n { LinesGrow(g, n + 1, j); }
    }
  }

  lemma FlushingIsPhased(m: Machine, g: nat, n: nat)
    requires Lines(g, n) <= m.clwbs <= Lines(g, n + 1) == m.stores
    ensures Phased(m, g)
  {
    forall j: nat
      ensures PhasedAt(m, g, j)
    {
      if j <= n { LinesGrow(g, j + 1, n + 1); LinesGrow(g, j, n); } else { LinesGrow(g, n + 1, j); }
    }
  }

  lemma {:induction false} StoresStayPhased(h: History, start: int, first: nat, g: nat, n: nat, k: nat)
    requires AlwaysPhased(h, g) && Run(h).stores == Run(h).clwbs == Lines(g, n) && k <= g
    ensures AlwaysPhased(StoresTo(h, start, first, k), g)
    ensures Run(StoresTo(h, start, first, k)).stores == Lines(g, n) + k && Run(StoresTo(h, start, first, k)).clwbs == Lines(g, n)
  {
    if k > 0 {
      StoresStayPhased(h, start, first, g, n, k - 1);
      StoringIsPhased(Run(StoresTo(h, start, first, k)), g, n);
    }
  }

  lemma {:induction false} ClwbsStayPhased(h: History, start: int, first: nat, g: nat, n: nat, k: nat)
    requires AlwaysPhased(h, g) && Run(h).stores == Lines(g, n + 1) && Run(h).clwbs == Lines(g, n) && k <= g
    ensures AlwaysPhased(ClwbsTo(h, start, first, k), g)
    ensures Run(ClwbsTo(h, start, first, k)).stores == Lines(g, n + 1) && Run(ClwbsTo(h, start, first, k)).clwbs == Lines(g, n) + k
  {
    if k > 0 {
      ClwbsStayPhased(h, start, first, g, n, k - 1);
      FlushingIsPhased(Run(ClwbsTo(h, start, first, k)), g, n);
    }
  }

  lemma {:induction false} GroupsStayPhased(h: History, start: int, first: nat, g: nat, n: nat, j: nat)
    requires AlwaysPhased(h, g) && Run(h).stores == Run(h).clwbs == Lines(g, n)
    ensures AlwaysPhased(GroupsTo(h, start, first, g, j), g)
    ensures Run(GroupsTo(h, start, first, g, j)).stores == Run(GroupsTo(h, start, first, g, j)).clwbs == Lines(g, n + j)
  {
    if j > 0 {
      GroupsStayPhased(h, start, first, g, n, j - 1);
      var u, i := GroupsTo(h, start, first, g, j - 1), first + Lines(g, j - 1);
      StoresStayPhased(u, start, i, g, n + j - 1, g);
      ClwbsStayPhased(StoresTo(u, start, i, g), start, i, g, n + j - 1, g);
    }
  }

  lemma {:induction false} EpochsStayPhased(start: int, g: nat, m: nat, n: nat)
    ensures AlwaysPhased(EpochsTo(Start, start, g, m, n), g)
    ensures Run(EpochsTo(Start, start, g, m, n)).stores == Run(EpochsTo(Start, start, g, m, n)).clwbs == Lines(g, Lines(m, n))
  {
    if n == 0 {
      StoringIsPhased(IDLE, g, 0);
    } else {
      EpochsStayPhased(start, g, m, n - 1);
      var h := EpochsTo(Start, start, g, m, n - 1);
      GroupsStayPhased(h, start, Lines(Lines(g, m), n - 1), g, Lines(m, n - 1), m);
      FencePhased(GroupsTo(h, start, Lines(Lines(g, m), n - 1), g, m), g);
    }
  }

  lemma FencePhased(h: History, g: nat)
    requires AlwaysPhased(h, g)
    ensures AlwaysPhased(Then(h, Fence), g)
  {
    forall j: nat
      ensures PhasedAt(Run(Then(h, Fence)), g, j)
    {
      assert PhasedAt(Run(h), g, j);
    }
  }

  /** At every moment of the call, no line of a flush group has been written back before the
      whole group was stored, and no line of a group has been stored before all earlier groups
      were written back. */
  lemma EveryMomentIsPhased(p: History, start: int, size: int, cache: int, fence: int)
    requires IsMoment(p, Trace(Start, start, size, cache, fence))
    ensures Phased(Run(p), GroupLines(cache))
  {
    EpochsStayPhased(start, GroupLines(cache), EpochGroups(cache, fence), Epochs(size, cache, fence));
    MomentIsPhased(p, Trace(Start, start, size, cache, fence), GroupLines(cache));
  }

  // n units are the least positive number that covers limit.
  predicate LeastCover(n: nat, unit: nat, limit: int) {
    n >= 1 && n * unit >= limit && (n == 1 || (n - 1) * unit < limit)
  }

  lemma TripsAreLeast(limit: int, step: nat)
    requires step > 0
    ensures LeastCover(Trips(limit, step), step, limit)
  {
    TripsCover(limit, step);
    var n := Trips(limit, step);
    if n > 1 {
      TripsGuard(limit, step, n - 1);
    }
  }

  /** A flush group is the fewest lines that cover cache bytes, an epoch the fewest groups that
      cover fence bytes, and the call the fewest epochs that cover size bytes; at least one each. */
  lemma SizesAreLeast(size: int, cache: int, fence: int)
    ensures LeastCover(GroupLines(cache), 64, cache)
    ensures LeastCover(EpochGroups(cache, fence), 64 * GroupLines(cache), fence)
    ensures LeastCover(Epochs(size, cache, fence), 64 * EpochLines(cache, fence), size)
    ensures EpochLines(cache, fence) == GroupLines(cache) * EpochGroups(cache, fence)
  {
    TripsAreLeast(cache, 64);
    TripsAreLeast(fence, 64 * GroupLines(cache));
    TripsAreLeast(size, 64 * EpochLines(cache, fence));
    LinesIsProduct(GroupLines(cache), EpochGroups(cache, fence));
  }
}
