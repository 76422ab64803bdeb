/** The builder of the pointer-chase permutation. */
module ChaseIndex {
  import opened Arith

  // ---------- The random source ----------

  // One rdrand instruction: the carry flag says whether a value was ready.
  datatype Rdrand = Ready(value: nat) | NotReady

  // What get_rand has done with the outcomes seen so far. Waiting means that the
  // hardware outcomes given do not yet decide the call.
  datatype Draw = Value(v: nat) | GaveUp | Waiting

  const RDRAND_MAX_RETRY: nat := 32

  class Rng {
    var stream: seq<Rdrand>

    constructor (outcomes: seq<Rdrand>)
      ensures stream == outcomes
    {
      stream := outcomes;
    }
  }

  function NextDraw(stream: seq<Rdrand>, range: nat, tries: nat): (r: (Draw, seq<Rdrand>))
    requires range > 0
    ensures |r.1| <= |stream|
    ensures r.0.Value? ==> r.0.v < range && |r.1| < |stream|
    decreases tries
  {
    if tries == 0 then (GaveUp, stream)
    else if stream == [] then (Waiting, [])
    else if stream[0].Ready? then (Value(stream[0].value % range), stream[1..])
    else NextDraw(stream[1..], range, tries - 1)
  }

  // How many outcomes fail before the first that is ready
  function Failures(stream: seq<Rdrand>): (j: nat)
    ensures j <= |stream| && (j < |stream| ==> stream[j].Ready?)
    ensures forall i :: 0 <= i < j ==> stream[i] == NotReady
  {
    if stream == [] || stream[0].Ready? then 0 else 1 + Failures(stream[1..])
  }

  // v is the remainder of w.
  predicate IsRemainder(v: nat, w: nat, range: nat)
    requires range > 0
  {
    v < range && w == range * (w / range) + v
  }

  // The first ready one of at most 32 outcomes is taken and reduced; 32 failures give up.
  predicate DrawnRight(before: seq<Rdrand>, range: nat, draw: Draw, after: seq<Rdrand>)
    requires range > 0
  {
    var j := Failures(before);
    if j >= 32 then draw == GaveUp && after == before[32..]
    else if j == |before| then draw == Waiting && after == []
    else draw.Value? && IsRemainder(draw.v, before[j].value, range) && after == before[j + 1..]
  }

  lemma {:induction false} NextDrawIs(stream: seq<Rdrand>, range: nat, tries: nat)
    requires range > 0
    ensures Failures(stream) >= tries ==> NextDraw(stream, range, tries) == (GaveUp, stream[tries..])
    ensures Failures(stream) == |stream| < tries ==> NextDraw(stream, range, tries) == (Waiting, [])
    ensures Failures(stream) < tries && Failures(stream) < |stream| ==>
              NextDraw(stream, range, tries) == (Value(stream[Failures(stream)].value % range), stream[Failures(stream) + 1..])
  {
    if tries > 0 && stream != [] && !stream[0].Ready? {
      NextDrawIs(stream[1..], range, tries - 1);
      var j := Failures(stream);
      if j >= tries {
        assert stream[1..][tries - 1..] == stream[tries..];
      } else if j < |stream| {
        assert stream[1..][j..] == stream[j + 1..];
      }
    }
  }

  lemma NextDrawIsRight(stream: seq<Rdrand>, range: nat, tries: nat)
    requires range > 0 && tries == 32
    ensures DrawnRight(stream, range, NextDraw(stream, range, tries).0, NextDraw(stream, range, tries).1)
  {
    NextDrawIs(stream, range, tries);
  }

  method GetRand(rng: Rng, range: nat) returns (draw: Draw)
    requires range > 0
    modifies rng
    ensures DrawnRight(old(rng.stream), range, draw, rng.stream)
    ensures (draw, rng.stream) == NextDraw(old(rng.stream), range, RDRAND_MAX_RETRY)
  {
    ghost var start := rng.stream;
    NextDrawIsRight(start, range, RDRAND_MAX_RETRY);
    for i := 0 to RDRAND_MAX_RETRY
      invariant NextDraw(start, range, RDRAND_MAX_RETRY) == NextDraw(rng.stream, range, RDRAND_MAX_RETRY - i)
    {
      if rng.stream == [] {
        return Waiting;
      }
      var outcome := rng.stream[0];
      rng.stream := rng.stream[1..];
      if outcome.Ready? {
        return Value(outcome.value % range);
      }
    }
    return GaveUp;
  }

  // ---------- Paths from node 0 and the array that stores them ----------

  ghost predicate IsPath(n: nat, path: seq<nat>) {
    && 0 < |path| <= n
    && path[0] == 0
    && (forall i :: 0 <= i < |path| ==> path[i] < n)
    && (forall i, j :: 0 <= i < j < |path| ==> path[i] != path[j])
  }

  // The array after the edges of path have been written into zeroed memory
  function Links(n: nat, path: seq<nat>): (c: seq<nat>)
    ensures |c| == n
  {
    if |path| <= 1 then seq(n, _ => 0)
    else
      var c := Links(n, path[..|path| - 1]);
      var from := path[|path| - 2];
      if from < n then c[from := path[|path| - 1]] else c
  }

  lemma {:induction false} LinksEdge(n: nat, path: seq<nat>, i: nat)
    requires IsPath(n, path) && i < |path| - 1
    ensures Links(n, path)[path[i]] == path[i + 1]
  {
    if i < |path| - 2 {
      LinksEdge(n, path[..|path| - 1], i);
    }
  }

  lemma {:induction false} LinksElsewhere(n: nat, path: seq<nat>, v: nat)
    requires IsPath(n, path) && v < n && v !in path[..|path| - 1]
    ensures Links(n, path)[v] == 0
  {
    if |path| > 1 {
      var p := path[..|path| - 1];
      assert v !in p[..|p| - 1];
      LinksElsewhere(n, p, v);
    }
  }

  /** Links stores each edge of a path, and zero everywhere else. */
  lemma LinksOfPath(n: nat, path: seq<nat>)
    requires IsPath(n, path)
    ensures forall i :: 0 <= i < |path| - 1 ==> Links(n, path)[path[i]] == path[i + 1]
    ensures forall v :: 0 <= v < n && v !in path[..|path| - 1] ==> Links(n, path)[v] == 0
  {
    forall i | 0 <= i < |path| - 1 ensures Links(n, path)[path[i]] == path[i + 1] {
      LinksEdge(n, path, i);
    }
    forall v | 0 <= v < n && v !in path[..|path| - 1] ensures Links(n, path)[v] == 0 {
      LinksElsewhere(n, path, v);
    }
  }

  /** The retry test of the loop accepts exactly the nodes not on the path. */
  lemma AcceptedIffFresh(n: nat, path: seq<nat>, v: nat)
    requires IsPath(n, path) && v < n
    ensures (Links(n, path)[v] == 0 && v != path[|path| - 1]) <==> v !in path
  {
    LinksOfPath(n, path);
    if v in path {
      var i :| 0 <= i < |path| && path[i] == v;
      if i < |path| - 1 {
        assert Links(n, path)[path[i]] == path[i + 1] && path[0] != path[i + 1];
      }
    }
  }

  function Nodes(n: nat): (s: set<nat>)
    ensures forall v: int :: v in s <==> 0 <= v < n
    ensures |s| == n
  {
    if n == 0 then {} else Nodes(n - 1) + {n - 1}
  }

  function Elements(path: seq<nat>): (s: set<nat>)
    ensures forall v: int :: v in s <==> v in path
  {
    if path == [] then {}
    else
      assert path == path[..|path| - 1] + [path[|path| - 1]];
      Elements(path[..|path| - 1]) + {path[|path| - 1]}
  }

  lemma {:induction false} PathSize(path: seq<nat>)
    requires forall i, j :: 0 <= i < j < |path| ==> path[i] != path[j]
    ensures |Elements(path)| == |path|
  {
    if path != [] {
      PathSize(path[..|path| - 1]);
    }
  }

  // The values that end the retry loop
  function Acceptable(n: nat, path: seq<nat>): set<nat>
    requires path != []
  {
    set v | v in Nodes(n) && Links(n, path)[v] == 0 && v != path[|path| - 1]
  }

  /** After |path| - 1 accepted draws, n - |path| values are acceptable, and 0 is not one of them. */
  lemma AcceptableCount(n: nat, path: seq<nat>)
    requires IsPath(n, path)
    ensures Acceptable(n, path) == Nodes(n) - Elements(path)
    ensures |Acceptable(n, path)| == n - |path| && 0 !in Acceptable(n, path)
  {
    forall v: nat | v < n ensures v in Acceptable(n, path) <==> v !in path {
      AcceptedIffFresh(n, path, v);
    }
    PathSize(path);
    assert path[0] in Elements(path) && Elements(path) <= Nodes(n);
  }

  // ---------- The builder ----------

  datatype Status = Returned0 | Returned1 | Running

  datatype Progress = Progress(status: Status, path: seq<nat>, rest: seq<Rdrand>)

  // What the builder has done once it has consumed the stream: each value drawn
  // either extends the path or, when already on it, is drawn again.
  function Build(stream: seq<Rdrand>, n: nat, path: seq<nat>): Progress
    requires n > 0
    decreases |stream|
  {
    if |path| >= n then Progress(Returned0, path, stream)
    else
      var (draw, rest) := NextDraw(stream, n, RDRAND_MAX_RETRY);
      match draw
      case GaveUp => Progress(Returned1, path, rest)
      case Waiting => Progress(Running, path, rest)
      case Value(v) => Build(rest, n, if v in path then path else path + [v])
  }

  // The state at the head of either loop: path is what the array c stores, and the
  // rest of the run depends only on path and on the outcomes still to come.
  ghost predicate Reached(start: seq<Rdrand>, n: nat, stream: seq<Rdrand>, path: seq<nat>, curr: nat, c: seq<nat>) {
    && IsPath(n, path)
    && curr == path[|path| - 1]
    && c == Links(n, path)
    && Build(start, n, [0]) == Build(stream, n, path)
  }

  lemma Retry(start: seq<Rdrand>, n: nat, stream: seq<Rdrand>, path: seq<nat>, curr: nat, c: seq<nat>, v: nat,
      rest: seq<Rdrand>)
    requires 0 < n && Reached(start, n, stream, path, curr, c) && |path| < n
    requires NextDraw(stream, n, RDRAND_MAX_RETRY) == (Value(v), rest)
    requires c[v] != 0 || v == curr
    ensures Reached(start, n, rest, path, curr, c)
  {
    AcceptedIffFresh(n, path, v);
  }

  lemma Accept(start: seq<Rdrand>, n: nat, stream: seq<Rdrand>, path: seq<nat>, curr: nat, c: seq<nat>, v: nat,
      rest: seq<Rdrand>)
    requires 0 < n && Reached(start, n, stream, path, curr, c) && |path| < n
    requires NextDraw(stream, n, RDRAND_MAX_RETRY) == (Value(v), rest)
    requires c[v] == 0 && v != curr
    ensures Reached(start, n, rest, path + [v], v, c[curr := v])
  {
    AcceptedIffFresh(n, path, v);
    assert (path + [v])[..|path|] == path;
  }

  lemma Start(start: seq<Rdrand>, n: nat)
    requires 0 < n
    ensures Reached(start, n, start, [0], 0, seq(n, _ => 0))
  {
  }

  lemma Stop(start: seq<Rdrand>, n: nat, stream: seq<Rdrand>, path: seq<nat>, curr: nat, c: seq<nat>)
    requires 0 < n && Reached(start, n, stream, path, curr, c)
    ensures var p := Build(start, n, [0]); var (draw, rest) := NextDraw(stream, n, RDRAND_MAX_RETRY);
            && (|path| == n ==> p == Progress(Returned0, path, stream))
            && (|path| < n && draw.GaveUp? ==> p == Progress(Returned1, path, rest))
            && (|path| < n && draw.Waiting? ==> p == Progress(Running, path, rest))
            && c == Links(n, path)
  {
  }

  // memset to zero
  method ClearMemory(a: array<nat>)
    modifies a
    ensures a[..] == seq(a.Length, _ => 0)
  {
    for j := 0 to a.Length
      invariant forall k :: 0 <= k < j ==> a[k] == 0
    {
      a[j] := 0;
    }
  }

  // The inner do-while loop: draws until a value is acceptable
  method DrawFresh(cindex: array<nat>, csize: nat, curr_pos: nat, rng: Rng, ghost start: seq<Rdrand>, ghost path: seq<nat>)
    returns (draw: Draw)
    requires 0 < csize == cindex.Length && |path| < csize
    requires Reached(start, csize, rng.stream, path, curr_pos, cindex[..])
    modifies rng
    ensures draw.GaveUp? ==> Build(start, csize, [0]) == Progress(Returned1, path, rng.stream)
    ensures draw.Waiting? ==> Build(start, csize, [0]) == Progress(Running, path, rng.stream)
    ensures draw.Value? ==> draw.v < csize && Reached(start, csize, rng.stream, path + [draw.v], draw.v,
            cindex[..][curr_pos := draw.v])
  {
    ghost var c := cindex[..];
    while true
      invariant Reached(start, csize, rng.stream, path, curr_pos, c)
      decreases |rng.stream|
    {
      ghost var stream := rng.stream;
      draw := GetRand(rng, csize);
      Stop(start, csize, stream, path, curr_pos, c);
      if !draw.Value? {
        return;
      }
      assert cindex[draw.v] == c[draw.v];
      if !(cindex[draw.v] != 0 || draw.v == curr_pos) {
        Accept(start, csize, stream, path, curr_pos, c, draw.v, rng.stream);
        break;
      }
      Retry(start, csize, stream, path, curr_pos, c, draw.v, rng.stream);
    }
  }

  method InitChasingIndex(cindex: array<nat>, csize: nat, rng: Rng) returns (ret: Status)
    requires 0 < csize == cindex.Length
    modifies cindex, rng
    ensures var p := Build(old(rng.stream), csize, [0]);
            ret == p.status && rng.stream == p.rest && cindex[..] == Links(csize, p.path)
  {
    ghost var start, path: seq<nat> := rng.stream, [0];
    var curr_pos: nat := 0;
    ClearMemory(cindex);
    Start(start, csize);
    var i := 0;
    while i < csize - 1
      invariant i == |path| - 1 <= csize - 1 && curr_pos < csize
      invariant Reached(start, csize, rng.stream, path, curr_pos, cindex[..])
    {
      ghost var c := cindex[..];
      var draw := DrawFresh(cindex, csize, curr_pos, rng, start, path);
      if draw.GaveUp? {
        return Returned1;
      }
      if draw.Waiting? {
        return Running;
      }
      cindex[curr_pos] := draw.v;
      assert cindex[..] == c[curr_pos := draw.v];
      curr_pos := draw.v;
      path := path + [draw.v];
      i := i + 1;
    }
    Stop(start, csize, rng.stream, path, curr_pos, cindex[..]);
    return Returned0;
  }

  // ---------- Following the array ----------

  ghost predicate Closed(c: seq<nat>) {
    |c| > 0 && forall v :: 0 <= v < |c| ==> c[v] < |c|
  }

  // The node reached from 0 after k links
  ghost function Follow(c: seq<nat>, k: nat): (v: nat)
    requires Closed(c)
    ensures v < |c|
  {
    if k == 0 then 0 else c[Follow(c, k - 1)]
  }

  // Following c from 0 meets |c| distinct nodes and then is back at 0.
  ghost predicate IsCycle(c: seq<nat>) {
    && Closed(c)
    && (forall i, j :: 0 <= i < j < |c| ==> Follow(c, i) != Follow(c, j))
    && Follow(c, |c|) == 0
  }

  lemma FollowIsInjective(c: seq<nat>, i: nat, j: nat)
    requires IsCycle(c) && i < |c| && j < |c| && Follow(c, i) == Follow(c, j)
    ensures i == j
  {
  }

  /** A cycle passes through every node. */
  lemma CycleVisitsAll(c: seq<nat>, v: nat) returns (k: nat)
    requires IsCycle(c) && v < |c|
    ensures k < |c| && Follow(c, k) == v
  {
    var f := (i: nat) => if Closed(c) then Follow(c, i) as int else 0;
    k := Pigeonhole(f, |c|, 0, v);
  }

  /** Different nodes of a cycle have different successors. */
  lemma CycleIsInjective(c: seq<nat>, u: nat, v: nat)
    requires IsCycle(c) && u < |c| && v < |c| && c[u] == c[v]
    ensures u == v
  {
    var i := CycleVisitsAll(c, u);
    var j := CycleVisitsAll(c, v);
    assert Follow(c, i + 1) == c[u] && Follow(c, j + 1) == c[v];
    if i < j { SuccessorsDiffer(c, i, j); }
    if j < i { SuccessorsDiffer(c, j, i); }
  }

  lemma SuccessorsDiffer(c: seq<nat>, i: nat, j: nat)
    requires IsCycle(c) && i < j < |c|
    ensures Follow(c, i + 1) != Follow(c, j + 1)
  {
    if j + 1 == |c| {
      assert Follow(c, 0) != Follow(c, i + 1);
    }
  }

  // ---------- Complete paths and cycles correspond ----------

  lemma LinksClosed(n: nat, path: seq<nat>)
    requires IsPath(n, path)
    ensures Closed(Links(n, path))
  {
    LinksOfPath(n, path);
    forall v | 0 <= v < n ensures Links(n, path)[v] < n {
      if v in path[..|path| - 1] {
        var i :| 0 <= i < |path| - 1 && path[i] == v;
        assert Links(n, path)[path[i]] == path[i + 1];
      }
    }
  }

  lemma {:induction false} FollowPath(n: nat, path: seq<nat>, k: nat)
    requires IsPath(n, path) && Closed(Links(n, path)) && k < |path|
    ensures Follow(Links(n, path), k) == path[k]
  {
    if k > 0 {
      FollowPath(n, path, k - 1);
      LinksOfPath(n, path);
    }
  }

  /** An unfinished array still holds a simple path from 0: it leads to a node whose entry is unset. */
  lemma PathIsFollowed(n: nat, path: seq<nat>)
    requires IsPath(n, path)
    ensures Closed(Links(n, path))
    ensures forall k :: 0 <= k < |path| ==> Follow(Links(n, path), k) == path[k]
    ensures Links(n, path)[path[|path| - 1]] == 0
  {
    LinksClosed(n, path);
    forall k | 0 <= k < |path| ensures Follow(Links(n, path), k) == path[k] {
      FollowPath(n, path, k);
    }
    LinksOfPath(n, path);
    assert path[|path| - 1] !in path[..|path| - 1];
  }

  /** The zero left in the last node's entry closes a complete path into one cycle. */
  lemma CompletePathIsCycle(n: nat, path: seq<nat>)
    requires IsPath(n, path) && |path| == n
    ensures IsCycle(Links(n, path))
  {
    PathIsFollowed(n, path);
    var c := Links(n, path);
    forall i, j | 0 <= i < j < |c| ensures Follow(c, i) != Follow(c, j) {
      assert Follow(c, i) == path[i] && Follow(c, j) == path[j];
    }
    assert Follow(c, n) == c[Follow(c, n - 1)];
  }

  ghost function PathOf(c: seq<nat>): (path: seq<nat>)
    requires Closed(c)
    ensures |path| == |c|
  {
    seq(|c|, (k: nat) requires Closed(c) => Follow(c, k))
  }

  lemma PathOfCycle(c: seq<nat>)
    requires IsCycle(c)
    ensures IsPath(|c|, PathOf(c))
  {
    var p := PathOf(c);
    forall i, j | 0 <= i < j < |p| ensures p[i] != p[j] {
      assert Follow(c, i) != Follow(c, j);
    }
  }

  lemma LinksAlongCycle(c: seq<nat>, k: nat)
    requires IsCycle(c) && IsPath(|c|, PathOf(c)) && k < |c|
    ensures Links(|c|, PathOf(c))[Follow(c, k)] == c[Follow(c, k)]
  {
    var n, p := |c|, PathOf(c);
    assert p[k] == Follow(c, k) && Follow(c, k + 1) == c[Follow(c, k)];
    if k < n - 1 {
      LinksOfPath(n, p);
      assert p[k + 1] == Follow(c, k + 1);
    } else {
      PathIsFollowed(n, p);
    }
  }

  /** Every cycle is the array of exactly one complete path. */
  lemma CycleHasPath(c: seq<nat>)
    requires IsCycle(c)
    ensures IsPath(|c|, PathOf(c)) && Links(|c|, PathOf(c)) == c
  {
    PathOfCycle(c);
    forall v | 0 <= v < |c| ensures Links(|c|, PathOf(c))[v] == c[v] {
      var k := CycleVisitsAll(c, v);
      LinksAlongCycle(c, k);
    }
  }

  lemma PathIsUnique(n: nat, path: seq<nat>)
    requires IsPath(n, path) && |path| == n
    ensures Closed(Links(n, path)) && PathOf(Links(n, path)) == path
  {
    PathIsFollowed(n, path);
  }

  /** Different accepted draw sequences give different arrays. */
  lemma LinksInjective(n: nat, p: seq<nat>, q: seq<nat>)
    requires IsPath(n, p) && IsPath(n, q) && |p| == n == |q| && Links(n, p) == Links(n, q)
    ensures p == q
  {
    PathIsUnique(n, p);
    PathIsUnique(n, q);
  }

  // ---------- What the builder returns, for every stream ----------

  lemma {:induction false} BuildKeepsPath(stream: seq<Rdrand>, n: nat, path: seq<nat>)
    requires IsPath(n, path)
    ensures var p := Build(stream, n, path);
            IsPath(n, p.path) && path <= p.path && (p.status == Returned0 <==> |p.path| == n)
    decreases |stream|
  {
    if |path| < n {
      var (draw, rest) := NextDraw(stream, n, RDRAND_MAX_RETRY);
      if draw.Value? {
        var next := if draw.v in path then path else path + [draw.v];
        BuildKeepsPath(rest, n, next);
      }
    }
  }

  /** For every size and every stream of hardware outcomes: the builder returns 0 exactly
      when its array is one cycle through all nodes (a single node is always a cycle); in
      every case the array holds a simple path from 0. */
  lemma BuilderIsCorrect(stream: seq<Rdrand>, n: nat)
    requires n > 0
    ensures var p := Build(stream, n, [0]);
            && IsPath(n, p.path)
            && (p.status == Returned0 <==> IsCycle(Links(n, p.path)))
            && (p.status == Returned0 ==> PathOf(Links(n, p.path)) == p.path)
  {
    var p := Build(stream, n, [0]);
    BuildKeepsPath(stream, n, [0]);
    if |p.path| == n {
      CompletePathIsCycle(n, p.path);
      PathIsUnique(n, p.path);
    } else {
      PathIsFollowed(n, p.path);
      var c, k := Links(n, p.path), |p.path|;
      assert Follow(c, k) == c[Follow(c, k - 1)] == 0 == Follow(c, 0);
    }
  }

  // ---------- The path, outcome by outcome ----------

  // Node 0 and the remainders of the ready outcomes, each where it first appears
  function Seen(outcomes: seq<Rdrand>, n: nat): (path: seq<nat>)
    requires n > 0
    ensures |path| > 0
  {
    if outcomes == [] then [0]
    else
      var path, last := Seen(outcomes[..|outcomes| - 1], n), outcomes[|outcomes| - 1];
      if last.Ready? && last.value % n !in path then path + [last.value % n] else path
  }

  function Extend(path: seq<nat>, draw: Draw): seq<nat> {
    if draw.Value? && draw.v !in path then path + [draw.v] else path
  }

  lemma SeenNext(whole: seq<Rdrand>, n: nat, k: nat)
    requires n > 0 && k < |whole|
    ensures Seen(whole[..k + 1], n) == Extend(Seen(whole[..k], n), if whole[k].Ready? then Value(whole[k].value % n) else GaveUp)
  {
    assert whole[..k + 1][..k] == whole[..k];
  }

  // One call of get_rand that starts at outcome k ends at outcome j.
  ghost predicate DrawnTo(whole: seq<Rdrand>, n: nat, k: nat, tries: nat, j: nat)
    requires n > 0 && k <= |whole|
  {
    var (draw, rest) := NextDraw(whole[k..], n, tries);
    && k <= j <= |whole| && rest == whole[j..]
    && Seen(whole[..j], n) == Extend(Seen(whole[..k], n), draw)
    && (draw == GaveUp ==> j == k + tries && forall i :: k <= i < j ==> whole[i] == NotReady)
    && (draw == Waiting ==> j == |whole|)
    && (draw.Value? ==> k < j && Seen(whole[..j - 1], n) == Seen(whole[..k], n))
  }

  lemma DrawAtOnce(whole: seq<Rdrand>, n: nat, k: nat, tries: nat)
    requires n > 0 && k < |whole| && tries > 0 && whole[k].Ready?
    ensures DrawnTo(whole, n, k, tries, k + 1)
  {
    SeenNext(whole, n, k);
    assert whole[k..][0] == whole[k] && whole[k..][1..] == whole[k + 1..];
  }

  lemma DrawAfterFailure(whole: seq<Rdrand>, n: nat, k: nat, tries: nat, j: nat)
    requires n > 0 && k < |whole| && tries > 0 && !whole[k].Ready? && DrawnTo(whole, n, k + 1, tries - 1, j)
    ensures DrawnTo(whole, n, k, tries, j)
  {
    SeenNext(whole, n, k);
    assert whole[k..][0] == whole[k] && whole[k..][1..] == whole[k + 1..];
    assert NextDraw(whole[k..], n, tries) == NextDraw(whole[k + 1..], n, tries - 1);
  }

  lemma {:induction false} DrawSeen(whole: seq<Rdrand>, n: nat, k: nat, tries: nat) returns (j: nat)
    requires n > 0 && k <= |whole|
    ensures DrawnTo(whole, n, k, tries, j)
    decreases tries
  {
    if tries == 0 || k == |whole| {
      j := k;
    } else if whole[k].Ready? {
      j := k + 1;
      DrawAtOnce(whole, n, k, tries);
    } else {
      j := DrawSeen(whole, n, k + 1, tries - 1);
      DrawAfterFailure(whole, n, k, tries, j);
    }
  }

  // What the builder has done when it stops at outcome j
  ghost predicate StoppedAt(whole: seq<Rdrand>, n: nat, p: Progress, j: nat)
    requires n > 0
  {
    && j <= |whole| && p.rest == whole[j..] && p.path == Seen(whole[..j], n)
    && (p.status == Returned0 ==> |p.path| >= n && (j > 0 ==> |Seen(whole[..j - 1], n)| < n))
    && (p.status == Returned1 ==> |p.path| < n && j >= 32 && forall i :: j - 32 <= i < j ==> whole[i] == NotReady)
    && (p.status == Running ==> |p.path| < n && j == |whole|)
  }

  lemma {:induction false} BuildSeen(whole: seq<Rdrand>, n: nat, k: nat) returns (j: nat)
    requires n > 0 && k <= |whole| && (k > 0 ==> |Seen(whole[..k - 1], n)| < n)
    ensures StoppedAt(whole, n, Build(whole[k..], n, Seen(whole[..k], n)), j)
    decreases |whole| - k
  {
    var path := Seen(whole[..k], n);
    if |path| >= n {
      j := k;
    } else {
      j := DrawSeen(whole, n, k, 32);
      var (draw, rest) := NextDraw(whole[k..], n, RDRAND_MAX_RETRY);
      if draw.Value? {
        j := BuildSeen(whole, n, j);
      }
    }
  }

  /** For every stream: the builder's path is node 0 and the remainders of the outcomes it consumed,
      in order of first appearance. It returns 0 at the outcome that completes the nodes, 1 after
      32 failures in a row, and is otherwise still running when the outcomes are used up. */
  lemma BuilderStopsRight(stream: seq<Rdrand>, n: nat) returns (j: nat)
    requires n > 0
    ensures StoppedAt(stream, n, Build(stream, n, [0]), j)
  {
    assert stream[0..] == stream && stream[..0] == [];
    j := BuildSeen(stream, n, 0);
  }

  function Answers(values: seq<nat>): seq<Rdrand> {
    seq(|values|, i requires 0 <= i < |values| => Ready(values[i]))
  }

  lemma FirstReady(stream: seq<Rdrand>, n: nat, tries: nat, v: nat)
    requires v < n && tries > 0 && stream != [] && stream[0] == Ready(v)
    ensures NextDraw(stream, n, tries) == (Value(v), stream[1..])
  {
  }

  lemma {:induction false} BuildFromAnswers(n: nat, whole: seq<nat>, k: nat)
    requires IsPath(n, whole) && |whole| == n && 0 < k <= n
    ensures Build(Answers(whole[k..]), n, whole[..k]) == Progress(Returned0, whole, [])
    decreases n - k
  {
    if k == n {
      assert whole[..k] == whole;
    } else {
      var stream := Answers(whole[k..]);
      FirstReady(stream, n, RDRAND_MAX_RETRY, whole[k]);
      BuildStep(stream, n, whole[..k], whole[k]);
      assert stream[1..] == Answers(whole[k + 1..]);
      assert whole[..k] + [whole[k]] == whole[..k + 1];
      BuildFromAnswers(n, whole, k + 1);
    }
  }

  lemma BuildStep(stream: seq<Rdrand>, n: nat, path: seq<nat>, v: nat)
    requires n > 0 && |path| < n && v !in path && stream != []
    requires NextDraw(stream, n, RDRAND_MAX_RETRY) == (Value(v), stream[1..])
    ensures Build(stream, n, path) == Build(stream[1..], n, path + [v])
  {
  }

  /** Every single-cycle permutation is produced by some stream of outcomes. */
  lemma EveryCycleIsBuilt(c: seq<nat>) returns (stream: seq<Rdrand>)
    requires IsCycle(c)
    ensures var p := Build(stream, |c|, [0]); p.status == Returned0 && Links(|c|, p.path) == c
  {
    var path := PathOf(c);
    CycleHasPath(c);
    assert path[..1] == [0];
    stream := Answers(path[1..]);
    BuildFromAnswers(|c|, path, 1);
  }
}
