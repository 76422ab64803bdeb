/** Memory instructions and what they make durable. */
module Persistence {

  // One instruction on the line at addr, or a fence
  datatype Event =
    | Load(addr: int)
    | Store(addr: int)
    | NtStore(addr: int)
    | Clwb(addr: int)
    | Fence

  // A written line is dirty in the cache, on its way to memory, or durable.
  datatype Tag = Dirty | Pending | Durable

  // The written lines, and how many stores, write-backs and fences were issued
  datatype Machine = Machine(lines: map<int, Tag>, stores: nat, clwbs: nat, fences: nat)

  const IDLE := Machine(map[], 0, 0, 0)

  function Drain(lines: map<int, Tag>): map<int, Tag> {
    map a | a in lines :: if lines[a] == Pending then Durable else lines[a]
  }

  function Execute(m: Machine, e: Event): Machine {
    match e
    case Load(_) => m
    case Store(a) => m.(lines := m.lines[a := Dirty], stores := m.stores + 1)
    case NtStore(a) => m.(lines := m.lines[a := Pending], stores := m.stores + 1)
    case Clwb(a) =>
      m.(lines := if a in m.lines && m.lines[a] == Dirty then m.lines[a := Pending] else m.lines, clwbs := m.clwbs + 1)
    case Fence => m.(lines := Drain(m.lines), fences := m.fences + 1)
  }

  // The instructions issued so far, the latest outermost
  datatype History = Start | Then(before: History, event: Event)

  function Run(h: History): Machine {
    match h
    case Start => IDLE
    case Then(before, e) => Execute(Run(before), e)
  }

  // ---------- What the tags mean ----------

  function Events(h: History): seq<Event> {
    match h
    case Start => []
    case Then(before, e) => Events(before) + [e]
  }

  predicate Writes(e: Event, a: int) { e == Store(a) || e == NtStore(a) }

  // Instruction i is the last that wrote line a.
  predicate LastWrite(s: seq<Event>, a: int, i: int) {
    0 <= i < |s| && Writes(s[i], a) && forall k :: i < k < |s| ==> !Writes(s[k], a)
  }

  // What it wrote has left the cache before instruction k.
  predicate LeftCache(s: seq<Event>, a: int, i: int, k: int)
    requires 0 <= i < |s| && k <= |s|
  {
    s[i] == NtStore(a) || exists j :: i < j < k && s[j] == Clwb(a)
  }

  // A fence has followed.
  predicate Fenced(s: seq<Event>, a: int, i: int)
    requires 0 <= i < |s|
  {
    exists k :: i < k < |s| && s[k] == Fence && LeftCache(s, a, i, k)
  }

  lemma LeftCacheNext(s: seq<Event>, e: Event, a: int, i: int, k: int)
    requires 0 <= i < |s| && k <= |s|
    ensures LeftCache(s + [e], a, i, k) <==> LeftCache(s, a, i, k)
    ensures LeftCache(s + [e], a, i, |s| + 1) <==> LeftCache(s, a, i, |s|) || e == Clwb(a)
  {
    var t := s + [e];
    assert forall j :: 0 <= j < |s| ==> t[j] == s[j];
    assert t[|s|] == e;
  }

  lemma FencedNext(s: seq<Event>, e: Event, a: int, i: int)
    requires 0 <= i < |s|
    ensures Fenced(s + [e], a, i) <==> Fenced(s, a, i) || (e == Fence && LeftCache(s, a, i, |s|))
  {
    var t := s + [e];
    if k :| i < k < |s| && s[k] == Fence && LeftCache(s, a, i, k) {
      LeftCacheNext(s, e, a, i, k);
      assert t[k] == Fence;
    }
    LeftCacheNext(s, e, a, i, |s|);
    if e == Fence && LeftCache(s, a, i, |s|) {
      assert t[|s|] == Fence;
    }
    if k :| i < k < |t| && t[k] == Fence && LeftCache(t, a, i, k) {
      if k < |s| {
        LeftCacheNext(s, e, a, i, k);
        assert s[k] == Fence;
      }
    }
  }

  /** A line is durable exactly when the last write to it has left the cache, by a write-back or
      because it bypassed it, and a fence came after that; it is pending when only the fence
      is missing, and dirty otherwise. */
  lemma {:induction false} TagIff(h: History, a: int, i: int)
    requires LastWrite(Events(h), a, i)
    ensures a in Run(h).lines
    ensures Run(h).lines[a] == if Fenced(Events(h), a, i) then Durable
                               else if LeftCache(Events(h), a, i, |Events(h)|) then Pending else Dirty
  {
    var s, e := Events(h.before), h.event;
    assert forall j :: 0 <= j < |s| ==> Events(h)[j] == s[j];
    if i < |s| {
      TagIff(h.before, a, i);
      FencedNext(s, e, a, i);
      LeftCacheNext(s, e, a, i, |s|);
      assert !Writes(Events(h)[|s|], a);
    }
  }

  /** A line is tracked exactly when some instruction wrote it. */
  lemma {:induction false} TrackedIff(h: History, a: int)
    ensures a in Run(h).lines <==> exists i :: 0 <= i < |Events(h)| && Writes(Events(h)[i], a)
  {
    if h.Then? {
      TrackedIff(h.before, a);
      var s := Events(h.before);
      assert forall j :: 0 <= j < |s| ==> Events(h)[j] == s[j];
      assert Events(h)[|s|] == h.event;
    }
  }

  predicate Stores(e: Event) { e.Store? || e.NtStore? }

  function StoresAt(s: seq<Event>): set<int> { set i | 0 <= i < |s| && Stores(s[i]) }

  function ClwbsAt(s: seq<Event>): set<int> { set i | 0 <= i < |s| && s[i].Clwb? }

  function FencesAt(s: seq<Event>): set<int> { set i | 0 <= i < |s| && s[i].Fence? }

  lemma OneMoreStore(s: seq<Event>, e: Event)
    ensures |StoresAt(s + [e])| == |StoresAt(s)| + if Stores(e) then 1 else 0
  {
    assert StoresAt(s + [e]) == if Stores(e) then StoresAt(s) + {|s|} else StoresAt(s);
  }

  lemma OneMoreClwb(s: seq<Event>, e: Event)
    ensures |ClwbsAt(s + [e])| == |ClwbsAt(s)| + if e.Clwb? then 1 else 0
  {
    assert ClwbsAt(s + [e]) == if e.Clwb? then ClwbsAt(s) + {|s|} else ClwbsAt(s);
  }

  lemma OneMoreFence(s: seq<Event>, e: Event)
    ensures |FencesAt(s + [e])| == |FencesAt(s)| + if e.Fence? then 1 else 0
  {
    assert FencesAt(s + [e]) == if e.Fence? then FencesAt(s) + {|s|} else FencesAt(s);
  }

  /** The counters count the instructions of each kind. */
  lemma {:induction false} CountersCount(h: History)
    ensures Run(h).stores == |StoresAt(Events(h))|
    ensures Run(h).clwbs == |ClwbsAt(Events(h))|
    ensures Run(h).fences == |FencesAt(Events(h))|
  {
    if h.Then? {
      CountersCount(h.before);
      OneMoreStore(Events(h.before), h.event);
      OneMoreClwb(Events(h.before), h.event);
      OneMoreFence(Events(h.before), h.event);
    }
  }

  // ---------- Moments and crashes ----------

  // p is h at some earlier moment, or h itself.
  predicate IsMoment(p: History, h: History) {
    p == h || (h.Then? && IsMoment(p, h.before))
  }

  // After a crash, every durable line has survived, and no line that was never written.
  ghost predicate MaySurvive(m: Machine, survived: set<int>) {
    && survived <= m.lines.Keys
    && (forall a :: a in m.lines && m.lines[a] == Durable ==> a in survived)
  }

  // A processor and what it has done
  class Cpu {
    var history: History
    var machine: Machine

    ghost predicate Valid()
      reads this
    {
      machine == Run(history)
    }

    constructor ()
      ensures Valid() && history == Start
    {
      history := Start;
      machine := IDLE;
    }

    method Issue(e: Event)
      requires Valid()
      modifies this
      ensures Valid() && history == Then(old(history), e)
    {
      history := Then(history, e);
      machine := Execute(machine, e);
    }
  }
}
