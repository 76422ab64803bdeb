/** The pointer-chase writer and reader over memory lines. */
module ChaseWalk {
  import opened Arith
  import opened Loops
  import opened ChaseIndex

  // ---------- Memory, by the low word of each line ----------

  // One line access and the low word that it moved
  datatype Access = Access(addr: int, word: nat)

  // A memory: the lines stored so far over whatever was there before
  datatype Image = Image(before: int -> nat, words: map<int, nat>)

  function Load(m: Image, addr: int): nat {
    if addr in m.words then m.words[addr] else m.before(addr)
  }

  function Apply(words: map<int, nat>, stores: seq<Access>): map<int, nat> {
    if stores == [] then words
    else
      var last := stores[|stores| - 1];
      Apply(words, stores[..|stores| - 1])[last.addr := last.word]
  }

  // What a run of stores leaves in memory
  function After(before: int -> nat, stores: seq<Access>): Image {
    Image(before, Apply(map[], stores))
  }

  class Memory {
    var image: Image
    var stores: seq<Access>
    var loads: seq<Access>

    // The contents are what the stores made so far leave behind.
    ghost predicate Valid()
      reads this
    {
      image == After(image.before, stores)
    }

    constructor (initial: int -> nat)
      ensures Valid() && image == Image(initial, map[]) && stores == [] && loads == []
    {
      image := Image(initial, map[]);
      stores := [];
      loads := [];
    }

    method StoreLine(addr: int, word: nat)
      requires Valid()
      modifies this`image, this`stores
      ensures Valid() && image.before == old(image.before)
      ensures stores == old(stores) + [Access(addr, word)]
    {
      image := image.(words := image.words[addr := word]);
      assert (stores + [Access(addr, word)])[..|stores|] == stores;
      stores := stores + [Access(addr, word)];
    }

    method LoadLine(addr: int) returns (word: nat)
      modifies this`loads
      ensures word == Load(image, addr)
      ensures loads == old(loads) + [Access(addr, word)]
    {
      word := Load(image, addr);
      loads := loads + [Access(addr, word)];
    }
  }

  // The 64-bit shift that turns a node number into a line offset
  function Shl6(node: nat): nat { node * 64 % 0x1_0000_0000_0000_0000 }

  // ---------- The writer ----------

  // The first n stores into the block at base: they walk the array c from node 0.
  ghost function BlockStores(base: int, c: seq<nat>, n: nat): (s: seq<Access>)
    requires Closed(c)
    ensures |s| == n
  {
    if n == 0 then []
    else BlockStores(base, c, n - 1) + [Access(base + Shl6(Follow(c, n - 1)), Follow(c, n))]
  }

  ghost function AllStores(start: int, skip: int, c: seq<nat>, n: nat, blocks: nat): seq<Access>
    requires Closed(c)
  {
    if blocks == 0 then []
    else AllStores(start, skip, c, n, blocks - 1) + BlockStores(Base(start, skip, blocks - 1), c, n)
  }

  // The inner loop: the block whose first line is at r9
  method StoreBlock(mem: Memory, r9: int, size: int, cindex: array<nat>)
    requires mem.Valid() && Closed(cindex[..])
    modifies mem`image, mem`stores
    ensures mem.Valid() && mem.image.before == old(mem.image.before)
    ensures mem.stores == old(mem.stores) + BlockStores(r9, cindex[..], Trips(size, 64))
  {
    ghost var c, n, k: nat := cindex[..], Trips(size, 64), 0;
    var r10, r12 := 0, 0;
    while true
      invariant k < n && r10 == k * 64 && r12 == Follow(c, k)
      invariant mem.Valid() && mem.image.before == old(mem.image.before)
      invariant cindex[..] == c
      invariant mem.stores == old(mem.stores) + BlockStores(r9, c, k)
      decreases n - k
    {
      var xmm0 := cindex[r12];
      r12 := Shl6(r12);
      mem.StoreLine(r9 + r12, xmm0);
      r10 := r10 + 64;
      r12 := xmm0;
      k := k + 1;
      TripsGuard(size, 64, k);
      if !(r10 < size) {
        break;
      }
    }
  }

  ghost function StoresAfter(prior: seq<Access>, start: int, skip: int, c: seq<nat>, n: nat, blocks: nat): seq<Access>
    requires Closed(c)
  {
    if blocks == 0 then prior
    else StoresAfter(prior, start, skip, c, n, blocks - 1) + BlockStores(Base(start, skip, blocks - 1), c, n)
  }

  lemma {:induction false} StoresAppend(prior: seq<Access>, start: int, skip: int, c: seq<nat>, n: nat, blocks: nat)
    requires Closed(c)
    ensures StoresAfter(prior, start, skip, c, n, blocks) == prior + AllStores(start, skip, c, n, blocks)
  {
    if blocks > 0 {
      StoresAppend(prior, start, skip, c, n, blocks - 1);
    }
  }

  method ChasingStoreClwb(mem: Memory, start: int, size: int, skip: int, count: int, cindex: array<nat>)
    requires mem.Valid() && Closed(cindex[..])
    modifies mem`image, mem`stores
    ensures mem.Valid() && mem.image.before == old(mem.image.before)
    ensures mem.stores == old(mem.stores) + AllStores(start, skip, cindex[..], Trips(size, 64), Trips(count, 1))
  {
    ghost var c, n, blocks := cindex[..], Trips(size, 64), Trips(count, 1);
    var r8, r11 := 0, 0;
    while true
      invariant 0 <= r11 < blocks && start + r8 == Base(start, skip, r11)
      invariant mem.Valid() && mem.image.before == old(mem.image.before)
      invariant cindex[..] == c
      invariant mem.stores == StoresAfter(old(mem.stores), start, skip, c, n, r11)
      decreases blocks - r11
    {
      var r9 := start + r8;
      StoreBlock(mem, r9, size, cindex);
      r8 := r8 + skip;
      r11 := r11 + 1;
      TripsGuard(count, 1, r11);
      if !(r11 < count) {
        break;
      }
    }
    StoresAppend(old(mem.stores), start, skip, c, n, blocks);
  }

  // ---------- The reader ----------

  // The node number in r12 after k loads from the block at base: memory alone decides it.
  function Chased(m: Image, base: int, k: nat): nat {
    if k == 0 then 0
    else Load(m, base + Shl6(Chased(m, base, k - 1)))
  }

  function BlockLoads(m: Image, base: int, n: nat): (s: seq<Access>)
    ensures |s| == n
  {
    if n == 0 then []
    else BlockLoads(m, base, n - 1)
         + [Access(base + Shl6(Chased(m, base, n - 1)), Chased(m, base, n))]
  }

  function AllLoads(m: Image, start: int, skip: int, n: nat, blocks: nat): seq<Access> {
    if blocks == 0 then []
    else AllLoads(m, start, skip, n, blocks - 1)
         + BlockLoads(m, Base(start, skip, blocks - 1), n)
  }

  // The inner loop: the block whose first line is at r9
  method LoadBlock(mem: Memory, r9: int, size: int)
    modifies mem`loads
    ensures mem.loads == old(mem.loads) + BlockLoads(mem.image, r9, Trips(size, 64))
  {
    ghost var m, n, k: nat := mem.image, Trips(size, 64), 0;
    var r10, r12 := 0, 0;
    while true
      invariant k < n && r10 == k * 64 && r12 == Chased(m, r9, k)
      invariant mem.loads == old(mem.loads) + BlockLoads(m, r9, k)
      decreases n - k
    {
      r12 := Shl6(r12);
      r12 := mem.LoadLine(r9 + r12);
      r10 := r10 + 64;
      k := k + 1;
      TripsGuard(size, 64, k);
      if !(r10 < size) {
        break;
      }
    }
  }

  function LoadsAfter(prior: seq<Access>, m: Image, start: int, skip: int, n: nat, blocks: nat): seq<Access> {
    if blocks == 0 then prior
    else LoadsAfter(prior, m, start, skip, n, blocks - 1) + BlockLoads(m, Base(start, skip, blocks - 1), n)
  }

  lemma {:induction false} LoadsAppend(prior: seq<Access>, m: Image, start: int, skip: int, n: nat, blocks: nat)
    ensures LoadsAfter(prior, m, start, skip, n, blocks) == prior + AllLoads(m, start, skip, n, blocks)
  {
    if blocks > 0 {
      LoadsAppend(prior, m, start, skip, n, blocks - 1);
    }
  }

  method ChasingLoadNt(mem: Memory, start: int, size: int, skip: int, count: int)
    modifies mem`loads
    ensures mem.loads == old(mem.loads) + AllLoads(mem.image, start, skip, Trips(size, 64), Trips(count, 1))
  {
    ghost var m, n, blocks := mem.image, Trips(size, 64), Trips(count, 1);
    var r8, r11 := 0, 0;
    while true
      invariant 0 <= r11 < blocks && start + r8 == Base(start, skip, r11)
      invariant mem.loads == LoadsAfter(old(mem.loads), m, start, skip, n, r11)
      decreases blocks - r11
    {
      var r9 := start + r8;
      LoadBlock(mem, r9, size);
      r8 := r8 + skip;
      r11 := r11 + 1;
      TripsGuard(count, 1, r11);
      if !(r11 < count) {
        break;
      }
    }
    LoadsAppend(old(mem.loads), m, start, skip, n, blocks);
  }

  // ---------- What the stores leave behind ----------

  /** If the recent stores hit a line, and only with words from ok, the line ends with a word from ok. */
  lemma {:induction false} LastStoreIn(before: int -> nat, prior: seq<Access>, recent: seq<Access>, addr: int,
      ok: set<nat>, i: nat)
    requires i < |recent| && recent[i].addr == addr
    requires forall k :: 0 <= k < |recent| && recent[k].addr == addr ==> recent[k].word in ok
    ensures Load(After(before, prior + recent), addr) in ok
  {
    var init, last := recent[..|recent| - 1], recent[|recent| - 1];
    assert prior + recent == (prior + init) + [last];
    assert (prior + recent)[..|prior + recent| - 1] == prior + init;
    if last.addr != addr {
      LastStoreIn(before, prior, init, addr, ok, i);
    }
  }

  /** A line holds the word of the last store to it, and what it held before if there was none. */
  lemma {:induction false} LastStoreWins(before: int -> nat, stores: seq<Access>, addr: int, i: int)
    requires -1 <= i < |stores| && (i >= 0 ==> stores[i].addr == addr)
    requires forall k :: i < k < |stores| ==> stores[k].addr != addr
    ensures Load(After(before, stores), addr) == if i < 0 then before(addr) else stores[i].word
  {
    if stores != [] && i < |stores| - 1 {
      var init := stores[..|stores| - 1];
      assert forall k :: 0 <= k < |init| ==> init[k] == stores[k];
      assert stores[|stores| - 1].addr != addr;
      LastStoreWins(before, init, addr, i);
    }
  }

  lemma {:induction false} BlockEntry(base: int, c: seq<nat>, n: nat, k: nat)
    requires Closed(c) && k < n
    ensures BlockStores(base, c, n)[k] == Access(base + Shl6(Follow(c, k)), Follow(c, k + 1))
  {
    if k < n - 1 {
      BlockEntry(base, c, n - 1, k);
    }
  }

  // Entry i of the whole sequence of stores is entry k of block j.
  lemma {:induction false} EntryOf(start: int, skip: int, c: seq<nat>, n: nat, blocks: nat, i: nat) returns (j: nat, k: nat)
    requires Closed(c) && i < |AllStores(start, skip, c, n, blocks)|
    ensures j < blocks && k < n
    ensures AllStores(start, skip, c, n, blocks)[i] == Access(Base(start, skip, j) + Shl6(Follow(c, k)), Follow(c, k + 1))
  {
    var earlier := AllStores(start, skip, c, n, blocks - 1);
    if i < |earlier| {
      j, k := EntryOf(start, skip, c, n, blocks - 1, i);
    } else {
      j, k := blocks - 1, i - |earlier|;
      BlockEntry(Base(start, skip, j), c, n, k);
    }
  }

  lemma {:induction false} EntryAt(start: int, skip: int, c: seq<nat>, n: nat, blocks: nat, j: nat, k: nat) returns (i: nat)
    requires Closed(c) && j < blocks && k < n
    ensures i < |AllStores(start, skip, c, n, blocks)|
    ensures AllStores(start, skip, c, n, blocks)[i] == Access(Base(start, skip, j) + Shl6(Follow(c, k)), Follow(c, k + 1))
  {
    if j < blocks - 1 {
      i := EntryAt(start, skip, c, n, blocks - 1, j, k);
    } else {
      i := |AllStores(start, skip, c, n, blocks - 1)| + k;
      BlockEntry(Base(start, skip, j), c, n, k);
    }
  }

  // ---------- Where the accesses go ----------

  // Entry n * j + k of a sequence of blocks of n entries
  predicate HasEntry(s: seq<Access>, n: nat, blocks: nat, j: nat, k: nat, a: Access) {
    |s| == n * blocks && n * j + k < |s| && s[n * j + k] == a
  }

  lemma LastHasEntry(s: seq<Access>, block: seq<Access>, n: nat, blocks: nat, k: nat)
    requires |s| == n * blocks && |block| == n && k < n
    ensures HasEntry(s + block, n, blocks + 1, blocks, k, block[k])
  {
    Distribute(n, blocks, 1);
  }

  lemma EarlierHasEntry(s: seq<Access>, block: seq<Access>, n: nat, blocks: nat, j: nat, k: nat, a: Access)
    requires HasEntry(s, n, blocks, j, k, a) && |block| == n
    ensures HasEntry(s + block, n, blocks + 1, j, k, a)
  {
    Distribute(n, blocks, 1);
  }

  lemma {:induction false} StoresSize(start: int, skip: int, c: seq<nat>, n: nat, blocks: nat)
    requires Closed(c)
    ensures |AllStores(start, skip, c, n, blocks)| == n * blocks
  {
    if blocks > 0 {
      StoresSize(start, skip, c, n, blocks - 1);
      Distribute(n, blocks - 1, 1);
    }
  }

  lemma {:induction false} LoadsSize(m: Image, start: int, skip: int, n: nat, blocks: nat)
    ensures |AllLoads(m, start, skip, n, blocks)| == n * blocks
  {
    if blocks > 0 {
      LoadsSize(m, start, skip, n, blocks - 1);
      Distribute(n, blocks - 1, 1);
    }
  }

  /** Step k of block j of the writer stores, in the line of node number k of the walk along the
      array, j skips from the start, the number of the next node. */
  lemma {:induction false} StoreAt(start: int, skip: int, c: seq<nat>, n: nat, blocks: nat, j: nat, k: nat)
    requires Closed(c) && j < blocks && k < n
    ensures HasEntry(AllStores(start, skip, c, n, blocks), n, blocks, j, k,
                     Access(start + j * skip + Follow(c, k) * 64 % 18446744073709551616, c[Follow(c, k)]))
  {
    var before, block := AllStores(start, skip, c, n, blocks - 1), BlockStores(Base(start, skip, blocks - 1), c, n);
    if j < blocks - 1 {
      StoreAt(start, skip, c, n, blocks - 1, j, k);
      EarlierHasEntry(before, block, n, blocks - 1, j, k,
                      Access(start + j * skip + Follow(c, k) * 64 % 18446744073709551616, c[Follow(c, k)]));
    } else {
      StoresSize(start, skip, c, n, blocks - 1);
      BlockEntry(Base(start, skip, j), c, n, k);
      BaseIsLinear(start, skip, j);
      LastHasEntry(before, block, n, blocks - 1, k);
    }
  }

  // The node number that step k of a block has in hand: 0, and then the word just loaded
  function InHand(loads: seq<Access>, first: nat, k: nat): nat
    requires k > 0 ==> first + k - 1 < |loads|
  {
    if k == 0 then 0 else loads[first + k - 1].word
  }

  // Step k of the block of loads from entry first on, whose first line is at base: it loads the
  // line of the node number in hand, and gets what memory holds there.
  predicate LoadsRight(m: Image, loads: seq<Access>, first: nat, k: nat, base: int) {
    && first + k < |loads|
    && loads[first + k].addr == base + InHand(loads, first, k) * 64 % 18446744073709551616
    && loads[first + k].word == Load(m, loads[first + k].addr)
  }

  lemma {:induction false} BlockLoadAt(m: Image, base: int, n: nat, k: nat)
    requires k < n
    ensures LoadsRight(m, BlockLoads(m, base, n), 0, k, base)
  {
    LoadEntry(m, base, n, k);
    if k > 0 {
      LoadEntry(m, base, n, k - 1);
    }
  }

  lemma EarlierLoad(m: Image, s: seq<Access>, block: seq<Access>, first: nat, k: nat, base: int)
    requires LoadsRight(m, s, first, k, base)
    ensures LoadsRight(m, s + block, first, k, base)
  {
    assert (s + block)[first + k] == s[first + k];
    assert k > 0 ==> (s + block)[first + k - 1] == s[first + k - 1];
  }

  lemma LastLoad(m: Image, s: seq<Access>, block: seq<Access>, k: nat, base: int)
    requires LoadsRight(m, block, 0, k, base)
    ensures LoadsRight(m, s + block, |s|, k, base)
  {
    assert (s + block)[|s| + k] == block[k];
    assert k > 0 ==> (s + block)[|s| + k - 1] == block[k - 1];
  }

  /** Step k of block j of the reader loads the line of the node number it has in hand, j skips
      from the start, and then has in hand what memory holds there. */
  lemma {:induction false} LoadAt(m: Image, start: int, skip: int, n: nat, blocks: nat, j: nat, k: nat)
    requires j < blocks && k < n
    ensures |AllLoads(m, start, skip, n, blocks)| == n * blocks
    ensures LoadsRight(m, AllLoads(m, start, skip, n, blocks), n * j, k, start + j * skip)
  {
    var before, block := AllLoads(m, start, skip, n, blocks - 1), BlockLoads(m, Base(start, skip, blocks - 1), n);
    LoadsSize(m, start, skip, n, blocks);
    if j < blocks - 1 {
      LoadAt(m, start, skip, n, blocks - 1, j, k);
      EarlierLoad(m, before, block, n * j, k, start + j * skip);
    } else {
      LoadsSize(m, start, skip, n, blocks - 1);
      BaseIsLinear(start, skip, j);
      BlockLoadAt(m, Base(start, skip, j), n, k);
      LastLoad(m, before, block, k, Base(start, skip, j));
    }
  }

  // ---------- The reader retraces the writer ----------

  // The region of one block is addressable.
  ghost predicate Fits(c: seq<nat>) { 64 * |c| <= 0x1_0000_0000_0000_0000 }

  // Step k of some block hits the line that step i of the block d before it stored,
  // and there belongs to another node.
  ghost predicate Overwrites(c: seq<nat>, skip: int, n: nat, blocks: nat, d: nat, i: nat, k: nat)
    requires Closed(c)
  {
    && 0 < d < blocks && i < n && k < n
    && Follow(c, i) != Follow(c, k)
    && 64 * Follow(c, i) == d * skip + 64 * Follow(c, k)
  }

  ghost predicate Clash(c: seq<nat>, skip: int, n: nat, blocks: nat)
    requires Closed(c)
  {
    exists d: nat, i: nat, k: nat :: Overwrites(c, skip, n, blocks, d, i, k)
  }

  lemma SameNode(start: int, skip: int, c: seq<nat>, n: nat, blocks: nat, j: nat, x: nat, d: nat, y: nat)
    requires Closed(c) && !Clash(c, skip, n, blocks) && j + d < blocks && x < n && y < n
    requires Base(start, skip, j) + 64 * Follow(c, x) == Base(start, skip, j + d) + 64 * Follow(c, y)
    ensures Follow(c, x) == Follow(c, y)
  {
    BaseIsLinear(start, skip, j);
    BaseIsLinear(start, skip, j + d);
    assert (j + d) * skip == j * skip + d * skip;
    assert !Overwrites(c, skip, n, blocks, d, x, y);
  }

  lemma SameSuccessor(start: int, skip: int, c: seq<nat>, n: nat, blocks: nat, j: nat, x: nat, i: nat, y: nat)
    requires Closed(c) && !Clash(c, skip, n, blocks) && i < blocks && j < blocks && x < n && y < n
    requires Base(start, skip, j) + 64 * Follow(c, x) == Base(start, skip, i) + 64 * Follow(c, y)
    ensures Follow(c, x + 1) == Follow(c, y + 1)
  {
    if j <= i {
      SameNode(start, skip, c, n, blocks, j, x, i - j, y);
    } else {
      SameNode(start, skip, c, n, blocks, i, y, j - i, x);
    }
  }

  lemma LinesStoredInBlock(start: int, skip: int, c: seq<nat>, n: nat, blocks: nat, j: nat, k: nat, i: nat)
    requires Closed(c) && Fits(c) && !Clash(c, skip, n, blocks) && j < blocks && k < n
    requires i < |AllStores(start, skip, c, n, blocks)|
    requires AllStores(start, skip, c, n, blocks)[i].addr == Base(start, skip, j) + Shl6(Follow(c, k))
    ensures AllStores(start, skip, c, n, blocks)[i].word == Follow(c, k + 1)
  {
    var j', k' := EntryOf(start, skip, c, n, blocks, i);
    SameSuccessor(start, skip, c, n, blocks, j, k, j', k');
  }

  lemma StoredWord(before: int -> nat, prior: seq<Access>, start: int, skip: int, c: seq<nat>, n: nat, blocks: nat,
      j: nat, k: nat)
    requires Closed(c) && Fits(c) && !Clash(c, skip, n, blocks) && j < blocks && k < n
    ensures Load(After(before, prior + AllStores(start, skip, c, n, blocks)), Base(start, skip, j) + Shl6(Follow(c, k)))
         == Follow(c, k + 1)
  {
    var all, addr := AllStores(start, skip, c, n, blocks), Base(start, skip, j) + Shl6(Follow(c, k));
    forall i | 0 <= i < |all| && all[i].addr == addr ensures all[i].word in {Follow(c, k + 1)} {
      LinesStoredInBlock(start, skip, c, n, blocks, j, k, i);
    }
    var i := EntryAt(start, skip, c, n, blocks, j, k);
    LastStoreIn(before, prior, all, addr, {Follow(c, k + 1)}, i);
  }

  lemma {:induction false} ChasedIsFollow(m: Image, base: int, c: seq<nat>, n: nat, k: nat)
    requires Closed(c) && k <= n
    requires forall i: nat :: i < n ==> Load(m, base + Shl6(Follow(c, i))) == Follow(c, i + 1)
    ensures Chased(m, base, k) == Follow(c, k)
    ensures BlockLoads(m, base, k) == BlockStores(base, c, k)
  {
    if k > 0 {
      ChasedIsFollow(m, base, c, n, k - 1);
    }
  }

  lemma BlockRetraced(before: int -> nat, prior: seq<Access>, start: int, skip: int, c: seq<nat>, n: nat, blocks: nat, j: nat)
    requires Closed(c) && Fits(c) && !Clash(c, skip, n, blocks) && j < blocks
    ensures BlockLoads(After(before, prior + AllStores(start, skip, c, n, blocks)), Base(start, skip, j), n)
         == BlockStores(Base(start, skip, j), c, n)
  {
    var m := After(before, prior + AllStores(start, skip, c, n, blocks));
    forall i: nat | i < n ensures Load(m, Base(start, skip, j) + Shl6(Follow(c, i))) == Follow(c, i + 1) {
      StoredWord(before, prior, start, skip, c, n, blocks, j, i);
    }
    ChasedIsFollow(m, Base(start, skip, j), c, n, n);
  }

  lemma {:induction false} BlocksRetraced(m: Image, start: int, skip: int, c: seq<nat>, n: nat, blocks: nat)
    requires Closed(c)
    requires forall j: nat :: j < blocks ==> BlockLoads(m, Base(start, skip, j), n) == BlockStores(Base(start, skip, j), c, n)
    ensures AllLoads(m, start, skip, n, blocks) == AllStores(start, skip, c, n, blocks)
  {
    if blocks > 0 {
      BlocksRetraced(m, start, skip, c, n, blocks - 1);
    }
  }

  /** Without a clash the reader's loads are the writer's stores. */
  lemma LoadsRetraceStores(before: int -> nat, prior: seq<Access>, start: int, skip: int, c: seq<nat>, n: nat, blocks: nat)
    requires Closed(c) && Fits(c) && !Clash(c, skip, n, blocks)
    ensures AllLoads(After(before, prior + AllStores(start, skip, c, n, blocks)), start, skip, n, blocks)
         == AllStores(start, skip, c, n, blocks)
  {
    var m := After(before, prior + AllStores(start, skip, c, n, blocks));
    forall j: nat | j < blocks ensures BlockLoads(m, Base(start, skip, j), n) == BlockStores(Base(start, skip, j), c, n) {
      BlockRetraced(before, prior, start, skip, c, n, blocks, j);
    }
    BlocksRetraced(m, start, skip, c, n, blocks);
  }

  // ---------- A clash breaks the chase ----------

  lemma {:induction false} BaseShift(start: int, skip: int, j: nat)
    ensures Base(start + skip, skip, j) == Base(start, skip, j + 1)
  {
    if j > 0 {
      BaseShift(start, skip, j - 1);
    }
  }

  lemma Reassociate<T>(a: seq<T>, b: seq<T>, c: seq<T>)
    ensures (a + b) + c == a + (b + c)
  {
  }

  lemma {:induction false} PeelFirstStores(start: int, skip: int, c: seq<nat>, n: nat, blocks: nat)
    requires Closed(c) && blocks >= 1
    ensures AllStores(start, skip, c, n, blocks) == BlockStores(start, c, n) + AllStores(start + skip, skip, c, n, blocks - 1)
  {
    if blocks == 1 {
      assert AllStores(start, skip, c, n, 0) == [];
    } else {
      PeelFirstStores(start, skip, c, n, blocks - 1);
      BaseShift(start, skip, blocks - 2);
      Reassociate(BlockStores(start, c, n), AllStores(start + skip, skip, c, n, blocks - 2), BlockStores(Base(start,
          skip, blocks - 1), c, n));
    }
  }

  lemma {:induction false} FirstLoads(m: Image, start: int, skip: int, n: nat, blocks: nat)
    requires blocks >= 1
    ensures BlockLoads(m, start, n) <= AllLoads(m, start, skip, n, blocks)
  {
    if blocks == 1 {
      assert AllLoads(m, start, skip, n, 0) == [];
    } else {
      FirstLoads(m, start, skip, n, blocks - 1);
    }
  }

  lemma {:induction false} LoadEntry(m: Image, base: int, n: nat, k: nat)
    requires k < n
    ensures BlockLoads(m, base, n)[k] == Access(base + Shl6(Chased(m, base, k)), Load(m, base + Shl6(Chased(m, base, k))))
  {
    if k < n - 1 {
      LoadEntry(m, base, n - 1, k);
    }
  }

  // If the loads equal the stores, the first block still holds what was stored there first.
  lemma FirstBlockIntact(m: Image, start: int, skip: int, c: seq<nat>, n: nat, blocks: nat, k: nat)
    requires Closed(c) && blocks >= 1 && k < n
    requires AllLoads(m, start, skip, n, blocks) == AllStores(start, skip, c, n, blocks)
    ensures Load(m, start + Shl6(Follow(c, k))) == Follow(c, k + 1)
  {
    FirstLoads(m, start, skip, n, blocks);
    PeelFirstStores(start, skip, c, n, blocks);
    assert BlockLoads(m, start, n)[k] == AllLoads(m, start, skip, n, blocks)[k];
    assert BlockStores(start, c, n)[k] == AllStores(start, skip, c, n, blocks)[k];
    LoadEntry(m, start, n, k);
    BlockEntry(start, c, n, k);
  }

  lemma LaterStoreDiffers(start: int, skip: int, c: seq<nat>, n: nat, later: nat, t: nat, i: nat)
    requires IsCycle(c) && Fits(c) && skip != 0 && t < |c|
    requires i < |AllStores(start + skip, skip, c, n, later)|
    requires AllStores(start + skip, skip, c, n, later)[i].addr == start + 64 * t
    ensures AllStores(start + skip, skip, c, n, later)[i].word in Nodes(|c|) - {c[t]}
  {
    var j, k := EntryOf(start + skip, skip, c, n, later, i);
    LaterNodeDiffers(start, skip, j, t, Follow(c, k));
    if c[Follow(c, k)] == c[t] { CycleIsInjective(c, Follow(c, k), t); }
  }

  lemma LaterNodeDiffers(start: int, skip: int, j: nat, t: nat, x: nat)
    requires skip != 0 && Base(start + skip, skip, j) + 64 * x == start + 64 * t
    ensures x != t
  {
    BaseIsLinear(start + skip, skip, j);
    assert (j + 1) * skip == skip + j * skip;
    FarApart(j + 1, skip, 1);
  }

  lemma FarApart(d: nat, skip: int, gap: nat)
    requires d > 0 && (skip >= gap || skip + gap <= 0)
    ensures d * skip >= gap || d * skip + gap <= 0
  {
    if skip > 0 {
      MultipleIsAtLeast(skip, d);
    } else if skip < 0 {
      MultipleIsAtLeast(-skip, d);
      assert d * skip == -((-skip) * d);
    }
  }

  lemma HitAddress(start: int, skip: int, d: nat, hit: int, node: int)
    requires d > 0 && 64 * hit == d * skip + 64 * node
    ensures Base(start + skip, skip, d - 1) + 64 * node == start + 64 * hit
  {
    BaseShift(start, skip, d - 1);
    BaseIsLinear(start, skip, d);
  }

  lemma LaterEntry(start: int, skip: int, c: seq<nat>, n: nat, later: nat, j: nat, k: nat, hit: int) returns (e: nat)
    requires Closed(c) && Fits(c) && j < later && k < n
    requires Base(start + skip, skip, j) + 64 * Follow(c, k) == start + 64 * hit
    ensures e < |AllStores(start + skip, skip, c, n, later)|
    ensures AllStores(start + skip, skip, c, n, later)[e].addr == start + 64 * hit
  {
    e := EntryAt(start + skip, skip, c, n, later, j, k);
  }

  lemma LaterStoreHits(start: int, skip: int, c: seq<nat>, n: nat, blocks: nat, d: nat, i: nat, k: nat) returns (e: nat)
    requires Closed(c) && Fits(c) && Overwrites(c, skip, n, blocks, d, i, k)
    ensures e < |AllStores(start + skip, skip, c, n, blocks - 1)|
    ensures AllStores(start + skip, skip, c, n, blocks - 1)[e].addr == start + 64 * Follow(c, i)
  {
    HitAddress(start, skip, d, Follow(c, i), Follow(c, k));
    e := LaterEntry(start, skip, c, n, blocks - 1, d - 1, k, Follow(c, i));
  }

  lemma ClashMoves(c: seq<nat>, skip: int, n: nat, blocks: nat, d: nat, i: nat, k: nat)
    requires Closed(c) && Overwrites(c, skip, n, blocks, d, i, k)
    ensures skip != 0
  {
    assert skip == 0 ==> d * skip == 0;
  }

  // Every later store to the line belongs to another node, and nodes have different successors.
  lemma HitLineDamaged(before: int -> nat, prior: seq<Access>, all: seq<Access>, start: int, skip: int, c: seq<nat>,
      n: nat, later: nat, t: nat, e: nat)
    requires IsCycle(c) && Fits(c) && skip != 0 && t < |c|
    requires all == prior + AllStores(start + skip, skip, c, n, later)
    requires e < |AllStores(start + skip, skip, c, n, later)|
    requires AllStores(start + skip, skip, c, n, later)[e].addr == start + 64 * t
    ensures Load(After(before, all), start + 64 * t) != c[t]
  {
    var stores, addr, ok := AllStores(start + skip, skip, c, n, later), start + 64 * t, Nodes(|c|) - {c[t]};
    forall i | 0 <= i < |stores| && stores[i].addr == addr ensures stores[i].word in ok {
      LaterStoreDiffers(start, skip, c, n, later, t, i);
    }
    LastStoreIn(before, prior, stores, addr, ok, e);
  }

  lemma LaterHitDamages(before: int -> nat, prior: seq<Access>, start: int, skip: int, c: seq<nat>, n: nat,
      blocks: nat, i: nat, e: nat)
    requires IsCycle(c) && Fits(c) && skip != 0 && blocks >= 1
    requires e < |AllStores(start + skip, skip, c, n, blocks - 1)|
    requires AllStores(start + skip, skip, c, n, blocks - 1)[e].addr == start + 64 * Follow(c, i)
    ensures Load(After(before, prior + AllStores(start, skip, c, n, blocks)), start + Shl6(Follow(c, i))) != Follow(c, i + 1)
  {
    PeelWithPrior(prior, start, skip, c, n, blocks);
    HitLineDamaged(before, prior + BlockStores(start, c, n), prior + AllStores(start, skip, c, n, blocks),
                   start, skip, c, n, blocks - 1, Follow(c, i), e);
  }

  // The first block's line that a later block hits ends with a word that is not the first block's.
  lemma FirstBlockDamaged(before: int -> nat, prior: seq<Access>, start: int, skip: int, c: seq<nat>, n: nat,
      blocks: nat, d: nat, i: nat, k: nat)
    requires IsCycle(c) && Fits(c) && Overwrites(c, skip, n, blocks, d, i, k)
    ensures Load(After(before, prior + AllStores(start, skip, c, n, blocks)), start + Shl6(Follow(c, i))) != Follow(c, i + 1)
  {
    ClashMoves(c, skip, n, blocks, d, i, k);
    var e := LaterStoreHits(start, skip, c, n, blocks, d, i, k);
    LaterHitDamages(before, prior, start, skip, c, n, blocks, i, e);
  }

  lemma PeelWithPrior(prior: seq<Access>, start: int, skip: int, c: seq<nat>, n: nat, blocks: nat)
    requires Closed(c) && blocks >= 1
    ensures prior + AllStores(start, skip, c, n, blocks)
         == prior + BlockStores(start, c, n) + AllStores(start + skip, skip, c, n, blocks - 1)
  {
    PeelFirstStores(start, skip, c, n, blocks);
  }

  /** The round trip: after the writer has run over any memory, the reader's loads are the
      writer's stores, line for line and word for word, exactly when no step of a block hits
      a line that an earlier block stored for another node. */
  lemma RoundTripIff(before: int -> nat, prior: seq<Access>, start: int, skip: int, c: seq<nat>, n: nat, blocks: nat)
    requires IsCycle(c) && Fits(c)
    ensures AllLoads(After(before, prior + AllStores(start, skip, c, n, blocks)), start, skip, n, blocks)
         == AllStores(start, skip, c, n, blocks)
       <==> !Clash(c, skip, n, blocks)
  {
    var stores := AllStores(start, skip, c, n, blocks);
    var m := After(before, prior + stores);
    if !Clash(c, skip, n, blocks) {
      LoadsRetraceStores(before, prior, start, skip, c, n, blocks);
    } else if AllLoads(m, start, skip, n, blocks) == stores {
      var d: nat, i: nat, k: nat :| Overwrites(c, skip, n, blocks, d, i, k);
      FirstBlockDamaged(before, prior, start, skip, c, n, blocks, d, i, k);
      FirstBlockIntact(m, start, skip, c, n, blocks, i);
    }
  }

  // ---------- Walks over the whole cycle ----------

  // Blocks coincide or do not overlap.
  predicate Apart(size: nat, skip: int, blocks: nat) {
    blocks <= 1 || skip == 0 || skip >= 64 * size || skip <= -64 * size
  }

  lemma ApartIsClear(c: seq<nat>, skip: int, n: nat, blocks: nat, d: nat, i: nat, k: nat)
    requires Closed(c) && Apart(|c|, skip, blocks)
    ensures !Overwrites(c, skip, n, blocks, d, i, k)
  {
    if 0 < d < blocks && skip != 0 {
      FarApart(d, skip, 64 * |c|);
    } else if skip == 0 {
      assert d * skip == 0;
    }
  }

  /** Blocks that coincide or do not overlap never clash, however short or long the walk. */
  lemma ApartNeverClashes(c: seq<nat>, skip: int, n: nat, blocks: nat)
    requires Closed(c) && Apart(|c|, skip, blocks)
    ensures !Clash(c, skip, n, blocks)
  {
    forall d: nat, i: nat, k: nat
      ensures !Overwrites(c, skip, n, blocks, d, i, k)
    {
      ApartIsClear(c, skip, n, blocks, d, i, k);
    }
  }

  lemma OverlapClashes(c: seq<nat>, skip: int, n: nat, blocks: nat)
    requires IsCycle(c) && n >= |c| && skip % 64 == 0 && !Apart(|c|, skip, blocks)
    ensures Clash(c, skip, n, blocks)
  {
    var t := if skip > 0 then skip / 64 else 0;
    var i := CycleVisitsAll(c, t);
    var k := CycleVisitsAll(c, t - skip / 64);
    assert Overwrites(c, skip, n, blocks, 1, i, k);
  }

  /** A walk over the whole cycle meets every node, so it is retraced exactly when the blocks
      coincide or do not overlap. */
  lemma WholeCycleRoundTripIff(before: int -> nat, prior: seq<Access>, start: int, skip: int, c: seq<nat>, n: nat,
      blocks: nat)
    requires IsCycle(c) && Fits(c) && n >= |c| && skip % 64 == 0
    ensures AllLoads(After(before, prior + AllStores(start, skip, c, n, blocks)), start, skip, n, blocks)
         == AllStores(start, skip, c, n, blocks)
       <==> Apart(|c|, skip, blocks)
  {
    RoundTripIff(before, prior, start, skip, c, n, blocks);
    if Apart(|c|, skip, blocks) {
      ApartNeverClashes(c, skip, n, blocks);
    } else {
      OverlapClashes(c, skip, n, blocks);
    }
  }

  lemma LapLength(c: seq<nat>)
    requires IsCycle(c)
    ensures Trips(64 * |c|, 64) == |c|
  {
    MultipleIsDivisible(64, |c|);
    TripsExact(64 * |c|, 64);
  }

  lemma LapEntry(base: int, c: seq<nat>, k: nat)
    requires IsCycle(c) && Fits(c) && k < |c|
    ensures BlockStores(base, c, |c|)[k] == Access(base + 64 * Follow(c, k), Follow(c, k + 1))
  {
    BlockEntry(base, c, |c|, k);
  }

  /** A size of 64 bytes a node makes each block one lap: it stores to every line of the
      block, to no line twice, and its last word is 0. */
  lemma FullLap(base: int, c: seq<nat>, x: nat) returns (k: nat)
    requires IsCycle(c) && Fits(c) && x < |c|
    ensures var s := BlockStores(base, c, Trips(64 * |c|, 64));
            && |s| == |c|
            && k < |s| && s[k] == Access(base + 64 * x, c[x])
            && (forall i :: 0 <= i < |s| && s[i].addr == base + 64 * x ==> i == k)
            && s[|s| - 1].word == 0
  {
    LapLength(c);
    k := CycleVisitsAll(c, x);
    LapEntry(base, c, k);
    LapEntry(base, c, |c| - 1);
    forall i | 0 <= i < |c| && BlockStores(base, c, |c|)[i].addr == base + 64 * x ensures i == k {
      LapEntry(base, c, i);
      FollowIsInjective(c, i, k);
    }
  }
}
