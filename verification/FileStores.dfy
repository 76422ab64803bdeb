/** The two store paths of the file benchmark: one positional write, and chunked copies into a mapping. */
module FileStores {
  import opened Arith
  import opened Loops
  import opened BandwidthJobs

  // ---------- Images ----------

  // The image with data written over it from at on
  function Splice(image: seq<bv8>, at: nat, data: seq<bv8>): seq<bv8>
    requires at + |data| <= |image|
  {
    image[..at] + data + image[at + |data|..]
  }

  lemma SpliceByte(image: seq<bv8>, at: nat, data: seq<bv8>, p: nat)
    requires at + |data| <= |image| && p < |image|
    ensures |Splice(image, at, data)| == |image|
    ensures Splice(image, at, data)[p] == if at <= p < at + |data| then data[p - at] else image[p]
  {
  }

  lemma SpliceNext(image: seq<bv8>, at: nat, data: seq<bv8>, i: nat, size: nat)
    requires at + i + size <= |image| && i + size <= |data|
    ensures |Splice(image, at, data[..i])| == |image|
    ensures Splice(Splice(image, at, data[..i]), at + i, data[i..i + size]) == Splice(image, at, data[..i + size])
  {
  }

  lemma SpliceTwice(image: seq<bv8>, at: nat, data: seq<bv8>)
    requires at + |data| <= |image|
    ensures |Splice(image, at, data)| == |image|
    ensures Splice(Splice(image, at, data), at, data) == Splice(image, at, data)
  {
  }

  // ---------- Files ----------

  datatype Write = Write(at: nat, data: seq<bv8>)

  // The writes made so far, the latest outermost
  datatype Log = NoWrites | Wrote(before: Log, write: Write)

  predicate InLog(log: Log, w: Write) {
    log.Wrote? && (log.write == w || InLog(log.before, w))
  }

  class File {
    const bytes: array<bv8>
    var log: Log

    constructor (contents: array<bv8>)
      ensures bytes == contents && log == NoWrites
    {
      bytes := contents;
      log := NoWrites;
    }
  }

  // ---------- The two store functions ----------

  method Copy(file: File, at: nat, buf: array<bv8>, from: nat, size: nat)
    requires file.bytes != buf && at + size <= file.bytes.Length && from + size <= buf.Length
    modifies file`log, file.bytes
    ensures file.bytes[..] == Splice(old(file.bytes[..]), at, buf[from..from + size])
    ensures file.log == Wrote(old(file.log), Write(at, buf[from..from + size]))
  {
    var bytes := file.bytes;
    for k := 0 to size
      invariant forall p :: 0 <= p < bytes.Length ==> bytes[p] == if at <= p < at + k then buf[from + (p - at)] else old(bytes[p])
      invariant file.log == old(file.log)
    {
      bytes[at + k] := buf[from + k];
    }
    file.log := Wrote(file.log, Write(at, buf[from..from + size]));
  }

  // What one pwrite of total bytes writes, when the system takes at most cap bytes a call
  function Kept(total: nat, cap: nat): nat { if total <= cap then total else cap }

  // The count that pwrite returns is compared with -1 only.
  method StrideSsdStore(file: File, buf: array<bv8>, size: nat, offset: nat, count: nat, cap: nat)
    requires file.bytes != buf && offset + count * size <= file.bytes.Length && count * size <= buf.Length
    modifies file`log, file.bytes
    ensures file.bytes[..] == Splice(old(file.bytes[..]), offset, buf[..Kept(count * size, cap)])
    ensures file.log == Wrote(old(file.log), Write(offset, buf[..Kept(count * size, cap)]))
  {
    var total := count * size;
    Copy(file, offset, buf, 0, Kept(total, cap));
    assert buf[0..0 + Kept(total, cap)] == buf[..Kept(total, cap)];
  }

  // data from start on, in chunks of size bytes
  function ChunksTo(log: Log, start: nat, data: seq<bv8>, size: nat): Log
    decreases |data|
  {
    if size == 0 || |data| < size then log
    else
      var i := |data| - size;
      Wrote(ChunksTo(log, start, data[..i], size), Write(start + i, data[i..]))
  }

  // One round of the copy loop: the first from bytes are there already.
  method CopyChunk(file: File, start: nat, add: nat, buf: array<bv8>, from: nat, size: nat, ghost image: seq<bv8>, ghost log: Log)
    requires file.bytes != buf && add == start + from && add + size <= file.bytes.Length && from + size <= buf.Length && size > 0
    requires |image| == file.bytes.Length && file.bytes[..] == Splice(image, start, buf[..from])
    requires file.log == ChunksTo(log, start, buf[..from], size)
    modifies file`log, file.bytes
    ensures file.bytes[..] == Splice(image, start, buf[..from + size])
    ensures file.log == ChunksTo(log, start, buf[..from + size], size)
  {
    SpliceNext(image, start, buf[..], from, size);
    assert buf[..][..from] == buf[..from] && buf[..][..from + size] == buf[..from + size];
    assert buf[..][from..from + size] == buf[from..from + size];
    assert buf[..from + size][..from] == buf[..from] && buf[..from + size][from..] == buf[from..from + size];
    Copy(file, add, buf, from, size);
  }

  method StrideSsdMmapStoreNoDrain(file: File, start: nat, buf: array<bv8>, size: nat, count: nat)
    requires file.bytes != buf && start + count * size <= file.bytes.Length && count * size <= buf.Length
    modifies file`log, file.bytes
    ensures file.bytes[..] == Splice(old(file.bytes[..]), start, buf[..count * size])
    ensures file.log == ChunksTo(old(file.log), start, buf[..count * size], size)
  {
    ghost var image, log := file.bytes[..], file.log;
    var total := size * count;
    BaseIsLinear(0, size, count);
    var add, from, i := start, 0, 0;
    ghost var k: nat := 0;
    assert image == Splice(image, start, buf[..0]);
    while i < total
      invariant i == Base(0, size, k) && from == i && add == start + i && i <= total
      invariant file.bytes[..] == Splice(image, start, buf[..i])
      invariant file.log == ChunksTo(log, start, buf[..i], size)
    {
      NextChunk(size, k, count);
      CopyChunk(file, start, add, buf, from, size, image, log);
      add := add + size;
      i := i + size;
      from := from + size;
      k := k + 1;
    }
  }

  lemma {:induction false} StepsOfZero(k: nat)
    ensures Base(0, 0, k) == 0
  {
    if k > 0 {
      StepsOfZero(k - 1);
    }
  }

  lemma NextChunk(size: nat, k: nat, count: nat)
    requires Base(0, size, k) < Base(0, size, count)
    ensures size > 0 && Base(0, size, k + 1) == Base(0, size, k) + size <= Base(0, size, count)
  {
    BaseIsLinear(0, size, k);
    BaseIsLinear(0, size, count);
    MulOrder(size, k, count);
    if size == 0 {
      StepsOfZero(k);
      StepsOfZero(count);
    }
  }

  // ---------- Dispatch ----------

  datatype Function = StrideLoad | StrideNt | StrideStoreClwb | SsdLoad | SsdMmapLoad | SsdStore | SsdMmapStoreNoDrain

  function Funcs(): seq<Function> { [StrideLoad, StrideNt, StrideStoreClwb, SsdLoad, SsdMmapLoad, SsdStore,
      SsdMmapStoreNoDrain] }

  function OpIndex(op: nat, fd: int): nat {
    var mmap := if fd != 0 then 0 else 1;
    op + mmap + 3
  }

  /** The codes 0 and 2 that the launcher uses pick the load and the store, mapped when fd is 0. */
  lemma DispatchIsRight(read: bool, fd: int)
    ensures OpIndex(if read then 0 else 2, fd) < |Funcs()|
    ensures Funcs()[OpIndex(if read then 0 else 2, fd)]
         == (if fd == 0 then if read then SsdMmapLoad else SsdMmapStoreNoDrain else if read then SsdLoad else SsdStore)
  {
  }

  // ---------- The job ----------

  function TotalBytes(access: nat): (n: nat)
    requires access > 0
    ensures n <= WORKSET
  {
    WORKSET / access * access
  }

  // The bytes of a thread's range that one call writes
  function LandedBytes(access: nat, mapped: bool, cap: nat): (n: nat)
    requires access > 0
    ensures n <= TotalBytes(access)
  {
    if mapped then TotalBytes(access) else Kept(TotalBytes(access), cap)
  }

  // What one call writes of data
  function LandedOf(data: seq<bv8>, mapped: bool, cap: nat): seq<bv8> {
    if mapped then data else data[..Kept(|data|, cap)]
  }

  // One call through the table
  function CallTo(log: Log, at: nat, data: seq<bv8>, access: nat, mapped: bool, cap: nat): Log {
    if mapped then ChunksTo(log, at, data, access) else Wrote(log, Write(at, LandedOf(data, mapped, cap)))
  }

  function CallsTo(log: Log, at: nat, data: seq<bv8>, access: nat, mapped: bool, cap: nat, n: nat): Log {
    if n == 0 then log else CallTo(CallsTo(log, at, data, access, mapped, cap, n - 1), at, data, access, mapped, cap)
  }

  method StoreOnce(file: File, buf: array<bv8>, access: nat, tid: nat, fd: int, cap: nat)
    requires access > 0 && file.bytes != buf && buf.Length == WORKSET && (tid + 1) * WORKSET <= file.bytes.Length
    modifies file`log, file.bytes
    ensures file.bytes[..] == Splice(old(file.bytes[..]), tid * WORKSET, buf[..LandedBytes(access, fd == 0, cap)])
    ensures file.log == CallTo(old(file.log), tid * WORKSET, buf[..TotalBytes(access)], access, fd == 0, cap)
  {
    var count := WORKSET / access;
    var op := OpIndex(2, fd);
    var offset := tid * WORKSET;
    DispatchIsRight(false, fd);
    if Funcs()[op] == SsdMmapStoreNoDrain {
      StrideSsdMmapStoreNoDrain(file, offset, buf, access, count);
    } else {
      StrideSsdStore(file, buf, access, offset, count, cap);
      assert buf[..TotalBytes(access)][..Kept(TotalBytes(access), cap)] == buf[..Kept(TotalBytes(access), cap)];
    }
  }

  // The file that thread tid's job leaves of image
  function JobImage(image: seq<bv8>, buf: seq<bv8>, access: nat, tid: nat, mapped: bool, cap: nat): seq<bv8>
    requires access > 0 && |buf| == WORKSET && (tid + 1) * WORKSET <= |image|
  {
    Splice(image, tid * WORKSET, buf[..LandedBytes(access, mapped, cap)])
  }

  // The writes that the job of thread t makes
  function JobLog(buf: seq<bv8>, t: nat, access: nat, mapped: bool, cap: nat): Log
    requires access > 0 && |buf| == WORKSET
  {
    CallsTo(NoWrites, t * WORKSET, buf[..TotalBytes(access)], access, mapped, cap, 1 + 100)
  }

  // strided_ssd_bwjob for stores: the thread's range holds what one call of the path writes,
  // and no other byte has changed.
  method StridedSsdBwJob(file: File, buf: array<bv8>, access: nat, tid: nat, fd: int, cap: nat)
    requires access > 0 && file.bytes != buf && buf.Length == WORKSET && (tid + 1) * WORKSET <= file.bytes.Length
    modifies file`log, file.bytes
    ensures file.bytes[..] == JobImage(old(file.bytes[..]), buf[..], access, tid, fd == 0, cap)
    ensures old(file.log) == NoWrites ==> file.log == JobLog(buf[..], tid, access, fd == 0, cap)
    ensures file.log == CallsTo(old(file.log), tid * WORKSET, buf[..TotalBytes(access)], access, fd == 0, cap, 1 + 100)
  {
    ghost var image, log, data := file.bytes[..], file.log, buf[..TotalBytes(access)];
    StoreOnce(file, buf, access, tid, fd, cap);
    assert file.log == CallsTo(log, tid * WORKSET, data, access, fd == 0, cap, 1);
    assert buf[..][..TotalBytes(access)] == data;
    assert buf[..][..LandedBytes(access, fd == 0, cap)] == buf[..LandedBytes(access, fd == 0, cap)];
    for i := 0 to 10
      invariant file.bytes[..] == Splice(image, tid * WORKSET, buf[..LandedBytes(access, fd == 0, cap)])
      invariant file.log == CallsTo(log, tid * WORKSET, data, access, fd == 0, cap, 1 + 10 * i)
    {
      for k := 0 to 10
        invariant file.bytes[..] == Splice(image, tid * WORKSET, buf[..LandedBytes(access, fd == 0, cap)])
        invariant file.log == CallsTo(log, tid * WORKSET, data, access, fd == 0, cap, 1 + 10 * i + k)
      {
        SpliceTwice(image, tid * WORKSET, buf[..LandedBytes(access, fd == 0, cap)]);
        StoreOnce(file, buf, access, tid, fd, cap);
      }
    }
  }

  // ---------- The writes of a job, one by one ----------

  function WritesOf(log: Log): seq<Write> {
    match log
    case NoWrites => []
    case Wrote(before, w) => WritesOf(before) + [w]
  }

  // w is chunk j of data, which belongs at at.
  predicate IsChunk(w: Write, at: nat, data: seq<bv8>, access: nat, j: nat) {
    access * j + access <= |data| && w == Write(at + access * j, data[access * j..access * j + access])
  }

  predicate AreChunks(writes: seq<Write>, at: nat, data: seq<bv8>, access: nat) {
    forall j :: 0 <= j < |writes| ==> IsChunk(writes[j], at, data, access, j)
  }

  // The call's writes: count chunks of access bytes each, or one write up to the cap
  predicate IsCall(writes: seq<Write>, at: nat, data: seq<bv8>, access: nat, count: nat, mapped: bool, cap: nat) {
    if mapped then |writes| == count && AreChunks(writes, at, data, access)
    else writes == [Write(at, if |data| <= cap then data else data[..cap])]
  }

  lemma ChunkOfMore(w: Write, at: nat, data: seq<bv8>, access: nat, j: nat, i: nat)
    requires i <= |data| && IsChunk(w, at, data[..i], access, j)
    ensures IsChunk(w, at, data, access, j)
  {
    assert data[..i][access * j..access * j + access] == data[access * j..access * j + access];
  }

  lemma OneMoreChunk(writes: seq<Write>, at: nat, data: seq<bv8>, access: nat)
    requires |data| == access * |writes| + access && AreChunks(writes, at, data[..|data| - access], access)
    ensures AreChunks(writes + [Write(at + (|data| - access), data[|data| - access..])], at, data, access)
  {
    var i := |data| - access;
    var all := writes + [Write(at + i, data[i..])];
    forall j | 0 <= j < |all|
      ensures IsChunk(all[j], at, data, access, j)
    {
      if j < |writes| {
        ChunkOfMore(writes[j], at, data, access, j, i);
      }
    }
  }

  lemma {:induction false} ChunksInOrder(log: Log, at: nat, data: seq<bv8>, access: nat, count: nat) returns (writes: seq<Write>)
    requires access > 0 && |data| == access * count
    ensures WritesOf(ChunksTo(log, at, data, access)) == WritesOf(log) + writes
    ensures |writes| == count && AreChunks(writes, at, data, access)
    decreases count
  {
    writes := [];
    if count > 0 {
      var i := |data| - access;
      Distribute(access, count - 1, 1);
      writes := ChunksInOrder(log, at, data[..i], access, count - 1);
      OneMoreChunk(writes, at, data, access);
      writes := writes + [Write(at + i, data[i..])];
    }
  }

  lemma CallInOrder(log: Log, at: nat, data: seq<bv8>, access: nat, count: nat, mapped: bool, cap: nat) returns (writes: seq<Write>)
    requires access > 0 && |data| == access * count
    ensures WritesOf(CallTo(log, at, data, access, mapped, cap)) == WritesOf(log) + writes
    ensures IsCall(writes, at, data, access, count, mapped, cap)
  {
    if mapped {
      writes := ChunksInOrder(log, at, data, access, count);
    } else {
      writes := [Write(at, LandedOf(data, mapped, cap))];
      assert |data| <= cap ==> data[..|data|] == data;
    }
  }

  // n calls, each with all its writes
  ghost predicate IsJob(writes: seq<Write>, at: nat, data: seq<bv8>, access: nat, count: nat, mapped: bool, cap: nat, n: nat)
    decreases n
  {
    if n == 0 then writes == []
    else exists m :: 0 <= m <= |writes|
                     && IsJob(writes[..m], at, data, access, count, mapped, cap, n - 1)
                     && IsCall(writes[m..], at, data, access, count, mapped, cap)
  }

  lemma OneMoreCall(before: seq<Write>, call: seq<Write>, at: nat, data: seq<bv8>, access: nat, count: nat, mapped: bool,
      cap: nat, n: nat)
    requires n > 0 && IsJob(before, at, data, access, count, mapped, cap, n - 1)
    requires IsCall(call, at, data, access, count, mapped, cap)
    ensures IsJob(before + call, at, data, access, count, mapped, cap, n)
  {
    var m := |before|;
    assert (before + call)[..m] == before && (before + call)[m..] == call;
  }

  lemma {:induction false} CallsInOrder(at: nat, data: seq<bv8>, access: nat, count: nat, mapped: bool, cap: nat, n: nat)
    requires access > 0 && |data| == access * count
    ensures IsJob(WritesOf(CallsTo(NoWrites, at, data, access, mapped, cap, n)), at, data, access, count, mapped, cap, n)
  {
    if n > 0 {
      var before := CallsTo(NoWrites, at, data, access, mapped, cap, n - 1);
      CallsInOrder(at, data, access, count, mapped, cap, n - 1);
      var call := CallInOrder(before, at, data, access, count, mapped, cap);
      OneMoreCall(WritesOf(before), call, at, data, access, count, mapped, cap, n);
    }
  }

  // How many writes a call makes
  function CallSize(count: nat, mapped: bool): nat { if mapped then count else 1 }

  lemma LastCall(writes: seq<Write>, at: nat, data: seq<bv8>, access: nat, count: nat, mapped: bool, cap: nat, n: nat)
    returns (m: nat)
    requires n > 0 && IsJob(writes, at, data, access, count, mapped, cap, n)
    ensures m <= |writes| && IsJob(writes[..m], at, data, access, count, mapped, cap, n - 1)
    ensures |writes| == m + CallSize(count, mapped)
  {
    m :| 0 <= m <= |writes| && IsJob(writes[..m], at, data, access, count, mapped, cap, n - 1)
         && IsCall(writes[m..], at, data, access, count, mapped, cap);
  }

  lemma {:induction false} JobSize(writes: seq<Write>, at: nat, data: seq<bv8>, access: nat, count: nat, mapped: bool,
      cap: nat, n: nat)
    requires IsJob(writes, at, data, access, count, mapped, cap, n)
    ensures |writes| == Base(0, CallSize(count, mapped), n)
    decreases n
  {
    if n > 0 {
      var m := LastCall(writes, at, data, access, count, mapped, cap, n);
      JobSize(writes[..m], at, data, access, count, mapped, cap, n - 1);
    }
  }

  /** The job's writes are those of 101 calls in order: on the mapped path each call writes
      the range in chunks of the access size, from its start on, and on the positional path
      in one piece, as far as the cap. */
  lemma JobWritesInOrder(buf: seq<bv8>, t: nat, access: nat, mapped: bool, cap: nat)
    requires access > 0 && |buf| == WORKSET
    ensures |buf[..TotalBytes(access)]| == access * (WORKSET / access)
    ensures IsJob(WritesOf(JobLog(buf, t, access, mapped, cap)), t * WORKSET, buf[..TotalBytes(access)], access,
                  WORKSET / access, mapped, cap, 101)
    ensures |WritesOf(JobLog(buf, t, access, mapped, cap))| == (if mapped then WORKSET / access else 1) * 101
  {
    CallsInOrder(t * WORKSET, buf[..TotalBytes(access)], access, WORKSET / access, mapped, cap, 101);
    JobSize(WritesOf(JobLog(buf, t, access, mapped, cap)), t * WORKSET, buf[..TotalBytes(access)], access, WORKSET / access,
            mapped, cap, 101);
    BaseIsLinear(0, CallSize(WORKSET / access, mapped), 101);
  }

  // ---------- When the two paths agree ----------

  /** On a given file the paths leave the same image exactly when the cap is not reached, or
      the bytes beyond it are there already. */
  lemma ImagesAgreeIff(image: seq<bv8>, at: nat, data: seq<bv8>, cap: nat)
    requires at + |data| <= |image|
    ensures Splice(image, at, data) == Splice(image, at, data[..Kept(|data|, cap)])
       <==> |data| <= cap || image[at + cap..at + |data|] == data[cap..]
  {
    if cap < |data| {
      CutSplice(image, at, data, cap);
    } else {
      assert data[..|data|] == data;
    }
  }

  lemma CutSplice(image: seq<bv8>, at: nat, data: seq<bv8>, cap: nat)
    requires at + |data| <= |image| && cap < |data|
    ensures Splice(image, at, data) == Splice(image, at, data[..cap]) <==> image[at + cap..at + |data|] == data[cap..]
  {
    var full, cut := Splice(image, at, data), Splice(image, at, data[..cap]);
    assert full[at + cap..at + |data|] == data[cap..];
    assert cut[at + cap..at + |data|] == image[at + cap..at + |data|];
    assert full[..at + cap] == cut[..at + cap] && full[at + |data|..] == cut[at + |data|..];
    assert full == full[..at + cap] + full[at + cap..at + |data|] + full[at + |data|..];
    assert cut == cut[..at + cap] + cut[at + cap..at + |data|] + cut[at + |data|..];
  }

  ghost predicate PathsAgree(image: seq<bv8>, buf: seq<bv8>, access: nat, tid: nat, cap: nat)
    requires access > 0
  {
    |buf| == WORKSET && (tid + 1) * WORKSET <= |image| ==>
      JobImage(image, buf, access, tid, true, cap) == JobImage(image, buf, access, tid, false, cap)
  }

  /** The two paths leave the same image for every file and buffer if and only if the cap
      admits all the bytes of a call. */
  lemma PathsAgreeIff(access: nat, tid: nat, cap: nat)
    requires access > 0
    ensures (forall image: seq<bv8>, buf: seq<bv8> :: PathsAgree(image, buf, access, tid, cap)) <==> TotalBytes(access) <= cap
  {
    if TotalBytes(access) > cap {
      PathsDiffer(access, tid, cap);
    }
  }

  lemma PathsDiffer(access: nat, tid: nat, cap: nat)
    requires access > 0 && cap < TotalBytes(access)
    ensures exists image: seq<bv8>, buf: seq<bv8> :: !PathsAgree(image, buf, access, tid, cap)
  {
    var image, buf: seq<bv8> := seq((tid + 1) * WORKSET, _ => 0), seq(WORKSET, _ => 1);
    var p := tid * WORKSET + cap;
    SpliceByte(image, tid * WORKSET, buf[..TotalBytes(access)], p);
    SpliceByte(image, tid * WORKSET, buf[..cap], p);
    assert !PathsAgree(image, buf, access, tid, cap);
  }

  const LINUX_CAP: nat := 0x7fff_f000

  /** With the 2,147,479,552 bytes that Linux takes in one call, the paths agree if and only if
      the access size leaves at least a page of the work set over: never for a size that divides it. */
  lemma PathsAgreeOnLinuxIff(access: nat, tid: nat)
    requires access > 0
    ensures (forall image: seq<bv8>, buf: seq<bv8> :: PathsAgree(image, buf, access, tid, LINUX_CAP))
       <==> WORKSET % access >= 4096
  {
    PathsAgreeIff(access, tid, LINUX_CAP);
    assert WORKSET == WORKSET / access * access + WORKSET % access;
  }

  // ---------- Threads ----------

  predicate Fits(size: nat, w: Write) { w.at + |w.data| <= size }

  predicate AllFit(size: nat, writes: seq<Write>) {
    forall i :: 0 <= i < |writes| ==> Fits(size, writes[i])
  }

  function ApplyAll(image: seq<bv8>, writes: seq<Write>): (r: seq<bv8>)
    requires AllFit(|image|, writes)
    ensures |r| == |image|
  {
    if writes == [] then image
    else
      var last := writes[|writes| - 1];
      assert Fits(|image|, last);
      Splice(ApplyAll(image, writes[..|writes| - 1]), last.at, last.data)
  }

  predicate Covers(w: Write, p: nat) { w.at <= p < w.at + |w.data| }

  // w writes what target holds.
  predicate Faithful(target: seq<bv8>, w: Write) {
    Fits(|target|, w) && w.data == target[w.at..w.at + |w.data|]
  }

  predicate AllFaithful(target: seq<bv8>, writes: seq<Write>) {
    forall i :: 0 <= i < |writes| ==> Faithful(target, writes[i])
  }

  predicate Written(writes: seq<Write>, p: nat) {
    exists i :: 0 <= i < |writes| && Covers(writes[i], p)
  }

  lemma SpliceFaithful(before: seq<bv8>, target: seq<bv8>, w: Write, p: nat)
    requires |before| == |target| && p < |before| && Faithful(target, w)
    ensures |Splice(before, w.at, w.data)| == |before|
    ensures Splice(before, w.at, w.data)[p] == if Covers(w, p) then target[p] else before[p]
  {
    SpliceByte(before, w.at, w.data, p);
    if Covers(w, p) {
      assert w.data[p - w.at] == target[w.at..w.at + |w.data|][p - w.at];
    }
  }

  lemma ByteAfterLast(image: seq<bv8>, target: seq<bv8>, writes: seq<Write>, p: nat)
    requires |image| == |target| && p < |image| && writes != [] && AllFit(|image|, writes)
    requires Faithful(target, writes[|writes| - 1])
    ensures AllFit(|image|, writes[..|writes| - 1])
    ensures ApplyAll(image, writes)[p]
         == if Covers(writes[|writes| - 1], p) then target[p] else ApplyAll(image, writes[..|writes| - 1])[p]
  {
    assert AllFit(|image|, writes[..|writes| - 1]);
    SpliceFaithful(ApplyAll(image, writes[..|writes| - 1]), target, writes[|writes| - 1], p);
  }

  lemma FaithfulFit(target: seq<bv8>, writes: seq<Write>)
    requires AllFaithful(target, writes)
    ensures AllFit(|target|, writes)
  {
    forall i | 0 <= i < |writes|
      ensures Fits(|target|, writes[i])
    {
      assert Faithful(target, writes[i]);
    }
  }

  /** A byte that faithful writes cover ends as in the target, and any other byte is unchanged. */
  lemma {:induction false} ByteAfter(image: seq<bv8>, target: seq<bv8>, writes: seq<Write>, p: nat)
    requires |image| == |target| && p < |image| && AllFaithful(target, writes)
    ensures AllFit(|image|, writes)
    ensures ApplyAll(image, writes)[p] == if Written(writes, p) then target[p] else image[p]
  {
    FaithfulFit(target, writes);
    if writes != [] {
      ByteAfter(image, target, writes[..|writes| - 1], p);
      ByteAfterLast(image, target, writes, p);
      WrittenLast(writes, p);
    }
  }

  lemma WrittenLast(writes: seq<Write>, p: nat)
    requires writes != []
    ensures Written(writes, p) <==> Written(writes[..|writes| - 1], p) || Covers(writes[|writes| - 1], p)
  {
    var init := writes[..|writes| - 1];
    if i :| 0 <= i < |init| && Covers(init[i], p) {
      assert Covers(writes[i], p);
    }
    if i :| 0 <= i < |writes| && Covers(writes[i], p) {
      assert i < |init| ==> Covers(init[i], p);
    }
  }

  // The file when the first total bytes of each of n threads' ranges hold those of the buffer
  function Filled(image: seq<bv8>, buf: seq<bv8>, n: nat, total: nat): (r: seq<bv8>)
    requires total <= 0x8000_0000 && total <= |buf|
    ensures |r| == |image|
    ensures forall p :: 0 <= p < |image| ==>
                          r[p] == if p / 0x8000_0000 < n && p % 0x8000_0000 < total then buf[p % 0x8000_0000] else image[p]
  {
    seq(|image|, p requires 0 <= p < |image| => if p / 0x8000_0000 < n
        && p % 0x8000_0000 < total then buf[p % 0x8000_0000] else image[p])
  }

  /** Filling one more range is that thread's own write: Filled is the threads run one by one. */
  lemma FilledNext(image: seq<bv8>, buf: seq<bv8>, n: nat, total: nat)
    requires total <= 0x8000_0000 && total <= |buf| && (n + 1) * 0x8000_0000 <= |image|
    ensures Filled(image, buf, 0, total) == image
    ensures Filled(image, buf, n + 1, total) == Splice(Filled(image, buf, n, total), n * 0x8000_0000, buf[..total])
  {
    var one, two := Filled(image, buf, n + 1, total), Splice(Filled(image, buf, n, total), n * 0x8000_0000, buf[..total]);
    forall p: nat | p < |image|
      ensures |two| == |image| && one[p] == two[p]
    {
      SpliceByte(Filled(image, buf, n, total), n * 0x8000_0000, buf[..total], p);
      InRange(n, total, p);
    }
  }

  lemma InRange(n: nat, total: nat, p: nat)
    requires total <= 0x8000_0000
    ensures n * 0x8000_0000 <= p < n * 0x8000_0000 + total <==> p / 0x8000_0000 == n && p % 0x8000_0000 < total
    ensures p / 0x8000_0000 == n ==> p % 0x8000_0000 == p - n * 0x8000_0000
  {
  }

  // w writes part of what v writes.
  predicate PieceOf(w: Write, v: Write) {
    && v.at <= w.at && w.at + |w.data| <= v.at + |v.data|
    && w.data == v.data[w.at - v.at..w.at - v.at + |w.data|]
  }

  ghost predicate IsPiece(buf: seq<bv8>, n: nat, access: nat, mapped: bool, cap: nat, w: Write)
    requires access > 0 && |buf| == WORKSET
  {
    exists t: nat, v :: t < n && InLog(JobLog(buf, t, access, mapped, cap), v) && PieceOf(w, v)
  }

  ghost predicate HasLanded(buf: seq<bv8>, access: nat, mapped: bool, cap: nat, writes: seq<Write>, t: nat, v: Write)
    requires access > 0 && |buf| == WORKSET
  {
    InLog(JobLog(buf, t, access, mapped, cap), v) ==> forall p: nat :: Covers(v, p) ==> Written(writes, p)
  }

  // The writes of n jobs land in pieces of any size, in any order and any number of times:
  // nothing else lands, and no byte of theirs is missing.
  ghost predicate Lands(buf: seq<bv8>, n: nat, access: nat, mapped: bool, cap: nat, writes: seq<Write>)
    requires access > 0 && |buf| == WORKSET
  {
    && (forall i :: 0 <= i < |writes| ==> IsPiece(buf, n, access, mapped, cap, writes[i]))
    && (forall t: nat, v :: t < n ==> HasLanded(buf, access, mapped, cap, writes, t, v))
  }

  // w writes a part of data, which belongs at start.
  predicate IsSlice(start: nat, data: seq<bv8>, w: Write) {
    PieceOf(w, Write(start, data))
  }

  lemma SliceOfSlice(data: seq<bv8>, j: nat, m: nat, i: nat, k: nat)
    requires j + m <= |data| && i + k <= m
    ensures data[j..j + m][i..i + k] == data[j + i..j + i + k]
  {
    var once, twice := data[j + i..j + i + k], data[j..j + m][i..i + k];
    assert |once| == |twice|;
    forall p | 0 <= p < k
      ensures once[p] == twice[p]
    {
      assert once[p] == data[j + i + p];
    }
  }

  lemma PieceOfPiece(u: Write, w: Write, v: Write)
    requires PieceOf(u, w) && PieceOf(w, v)
    ensures PieceOf(u, v)
  {
    SliceOfSlice(v.data, w.at - v.at, |w.data|, u.at - w.at, |u.data|);
  }

  lemma {:induction false} ChunksAreSlices(log: Log, start: nat, data: seq<bv8>, size: nat, w: Write)
    requires InLog(ChunksTo(log, start, data, size), w)
    ensures InLog(log, w) || IsSlice(start, data, w)
    decreases |data|
  {
    if size > 0 && |data| >= size {
      var i := |data| - size;
      if w != Write(start + i, data[i..]) {
        ChunksAreSlices(log, start, data[..i], size, w);
        if !InLog(log, w) {
          PieceOfPiece(w, Write(start, data[..i]), Write(start, data));
        }
      }
    }
  }

  lemma WholeSlice(start: nat, data: seq<bv8>)
    ensures IsSlice(start, data, Write(start, data))
  {
  }

  lemma CallIsSlices(log: Log, at: nat, data: seq<bv8>, access: nat, mapped: bool, cap: nat, w: Write)
    requires InLog(CallTo(log, at, data, access, mapped, cap), w) && !InLog(log, w)
    ensures IsSlice(at, LandedOf(data, mapped, cap), w)
  {
    if mapped {
      ChunksAreSlices(log, at, data, access, w);
    } else {
      WholeSlice(at, LandedOf(data, mapped, cap));
    }
  }

  lemma {:induction false} CallsAreSlices(at: nat, data: seq<bv8>, access: nat, mapped: bool, cap: nat, n: nat, w: Write)
    requires InLog(CallsTo(NoWrites, at, data, access, mapped, cap, n), w)
    ensures IsSlice(at, LandedOf(data, mapped, cap), w)
  {
    if n > 0 {
      var log := CallsTo(NoWrites, at, data, access, mapped, cap, n - 1);
      if InLog(log, w) {
        CallsAreSlices(at, data, access, mapped, cap, n - 1, w);
      } else {
        CallIsSlices(log, at, data, access, mapped, cap, w);
      }
    }
  }

  lemma {:induction false} ChunksCover(log: Log, start: nat, data: seq<bv8>, size: nat, count: nat, off: nat) returns (w: Write)
    requires |data| == size * count && off < |data|
    ensures InLog(ChunksTo(log, start, data, size), w) && Covers(w, start + off)
    decreases count
  {
    MulOrder(size, 0, count);
    Distribute(size, count - 1, 1);
    ChunkIsPositive(size, count);
    var i := |data| - size;
    if off < i {
      w := ChunksCover(log, start, data[..i], size, count - 1, off);
    } else {
      w := Write(start + i, data[i..]);
    }
  }

  lemma ChunkIsPositive(size: nat, count: nat)
    requires size * count > 0
    ensures size > 0
  {
    MulOrder(count, 0, size);
    assert count * size == size * count;
  }

  lemma CallsCover(at: nat, data: seq<bv8>, access: nat, count: nat, mapped: bool, cap: nat, n: nat, off: nat) returns (w: Write)
    requires n > 0 && |data| == access * count && off < |LandedOf(data, mapped, cap)|
    ensures InLog(CallsTo(NoWrites, at, data, access, mapped, cap, n), w) && Covers(w, at + off)
  {
    var log := CallsTo(NoWrites, at, data, access, mapped, cap, n - 1);
    if mapped {
      w := ChunksCover(log, at, data, access, count, off);
    } else {
      w := Write(at, LandedOf(data, mapped, cap));
    }
  }

  lemma FilledAt(image: seq<bv8>, buf: seq<bv8>, n: nat, total: nat, t: nat, off: nat)
    requires total <= 0x8000_0000 && total <= |buf| && n * 0x8000_0000 <= |image| && t < n && off < total
    ensures t * 0x8000_0000 + off < |image|
    ensures Filled(image, buf, n, total)[t * 0x8000_0000 + off] == buf[off]
  {
    var p := t * 0x8000_0000 + off;
    assert p / 0x8000_0000 == t && p % 0x8000_0000 == off;
  }

  lemma SliceIsFaithful(image: seq<bv8>, buf: seq<bv8>, n: nat, total: nat, t: nat, first: nat, w: Write)
    requires total <= 0x8000_0000 && total <= |buf| && n * 0x8000_0000 <= |image| && t < n && first + |w.data| <= total
    requires w.at == t * 0x8000_0000 + first && w.data == buf[first..first + |w.data|]
    ensures Faithful(Filled(image, buf, n, total), w)
  {
    var target := Filled(image, buf, n, total);
    forall k | 0 <= k < |w.data|
      ensures w.at + k < |image| && w.data[k] == target[w.at + k]
    {
      FilledAt(image, buf, n, total, t, first + k);
    }
    assert Fits(|target|, w);
    assert w.data == target[w.at..w.at + |w.data|];
  }

  lemma PieceIsFaithful(image: seq<bv8>, buf: seq<bv8>, n: nat, access: nat, mapped: bool, cap: nat, w: Write)
    requires access > 0 && |buf| == WORKSET && n * 0x8000_0000 <= |image|
    requires IsPiece(buf, n, access, mapped, cap, w)
    ensures Faithful(Filled(image, buf, n, LandedBytes(access, mapped, cap)), w)
  {
    var t: nat, v :| t < n && InLog(JobLog(buf, t, access, mapped, cap), v) && PieceOf(w, v);
    var total, data := LandedBytes(access, mapped, cap), buf[..TotalBytes(access)];
    CallsAreSlices(t * WORKSET, data, access, mapped, cap, 1 + 100, v);
    assert LandedOf(data, mapped, cap) == buf[..total];
    PieceOfPiece(w, v, Write(t * WORKSET, buf[..total]));
    RangePieceIsFaithful(image, buf, n, total, t, w);
  }

  lemma RangePieceIsFaithful(image: seq<bv8>, buf: seq<bv8>, n: nat, total: nat, t: nat, w: Write)
    requires total <= 0x8000_0000 && total <= |buf| && n * 0x8000_0000 <= |image| && t < n
    requires PieceOf(w, Write(t * 0x8000_0000, buf[..total]))
    ensures Faithful(Filled(image, buf, n, total), w)
  {
    var first := w.at - t * 0x8000_0000;
    assert buf[..total][first..first + |w.data|] == buf[first..first + |w.data|];
    SliceIsFaithful(image, buf, n, total, t, first, w);
  }

  lemma RangeIsWritten(buf: seq<bv8>, n: nat, access: nat, mapped: bool, cap: nat, writes: seq<Write>, p: nat)
    requires access > 0 && |buf| == WORKSET && Lands(buf, n, access, mapped, cap, writes)
    requires p / 0x8000_0000 < n && p % 0x8000_0000 < LandedBytes(access, mapped, cap)
    ensures Written(writes, p)
  {
    var t, off := p / 0x8000_0000, p % 0x8000_0000;
    var v := CallsCover(t * WORKSET, buf[..TotalBytes(access)], access, WORKSET / access, mapped, cap, 1 + 100, off);
    assert HasLanded(buf, access, mapped, cap, writes, t, v);
    assert Covers(v, p);
  }

  lemma FilledWhenCovered(image: seq<bv8>, buf: seq<bv8>, n: nat, total: nat, writes: seq<Write>)
    requires total <= 0x8000_0000 && total <= |buf|
    requires AllFaithful(Filled(image, buf, n, total), writes)
    requires forall p: nat :: p < |image| && p / 0x8000_0000 < n && p % 0x8000_0000 < total ==> Written(writes, p)
    ensures AllFit(|image|, writes) && ApplyAll(image, writes) == Filled(image, buf, n, total)
  {
    FaithfulFit(Filled(image, buf, n, total), writes);
    forall p: nat | p < |image|
      ensures ApplyAll(image, writes)[p] == Filled(image, buf, n, total)[p]
    {
      ByteAfter(image, Filled(image, buf, n, total), writes, p);
    }
  }

  /** Whatever the pieces in which the writes of the n jobs land, in whatever order and however
      often, the file ends as the jobs leave it when they run one after another. */
  lemma AnyLandingSameImage(image: seq<bv8>, buf: seq<bv8>, n: nat, access: nat, mapped: bool, cap: nat, writes: seq<Write>)
    requires access > 0 && |buf| == WORKSET && n * 0x8000_0000 <= |image|
    requires Lands(buf, n, access, mapped, cap, writes)
    ensures AllFit(|image|, writes)
    ensures ApplyAll(image, writes) == Filled(image, buf, n, LandedBytes(access, mapped, cap))
  {
    var total := LandedBytes(access, mapped, cap);
    forall i | 0 <= i < |writes|
      ensures Faithful(Filled(image, buf, n, total), writes[i])
    {
      PieceIsFaithful(image, buf, n, access, mapped, cap, writes[i]);
    }
    forall p: nat | p < |image| && p / 0x8000_0000 < n && p % 0x8000_0000 < total
      ensures Written(writes, p)
    {
      RangeIsWritten(buf, n, access, mapped, cap, writes, p);
    }
    FilledWhenCovered(image, buf, n, total, writes);
  }

  /** One after another: thread n's job on the file that the threads before it have filled. */
  lemma JobsFill(image: seq<bv8>, buf: seq<bv8>, n: nat, access: nat, mapped: bool, cap: nat)
    requires access > 0 && |buf| == WORKSET && (n + 1) * 0x8000_0000 <= |image|
    ensures Filled(image, buf, 0, LandedBytes(access, mapped, cap)) == image
    ensures Filled(image, buf, n + 1, LandedBytes(access, mapped, cap))
         == JobImage(Filled(image, buf, n, LandedBytes(access, mapped, cap)), buf, access, n, mapped, cap)
  {
    FilledNext(image, buf, n, LandedBytes(access, mapped, cap));
  }
}
