/** The size-class allocator as a state: pools of equal blocks with a free list threaded
    through the block headers, and single blocks taken from malloc when a pool is empty. */
module Blocks {

  /** sizeof(MemoryPoolHead): two pointers and a flag, padded. */
  const HEAD_SIZE := 24
  const POOLS := 10
  const OTHER := 9

  /** next is 0 for a null pointer; pool is the position of the pool the block points to. */
  datatype Header = Header(next: int, pool: nat, isBlock: bool)

  /** What a pool is built with: payload size, address and number of its blocks. */
  datatype Slab = Slab(maxSize: nat, base: int, count: nat)

  /** heads: the header at every block address.
      tops: the first free block of each pool, 0 for none.
      free: the addresses on each pool's list, first to last.
      extra: blocks taken from malloc one by one, with the size of their payload.
      live: blocks handed out and not yet freed, with the size asked for. */
  datatype World = World(heads: map<int, Header>, slabs: seq<Slab>, tops: seq<int>, free: seq<seq<int>>,
                         extra: map<int, nat>, live: map<int, int>)

  function ClassSize(i: nat): (n: nat) {
    if i == 0 then 8 else if i == 1 then 16 else if i == 2 then 32 else if i == 3 then 64 else if i == 4 then 128
    else if i == 5 then 256 else if i == 6 then 512 else if i == 7 then 1024 else if i == 8 then 2048 else 0
  }

  /** The smallest class that holds size bytes, OTHER when none does. */
  function ClassOf(size: int): (i: nat)
    ensures i < POOLS
    ensures i != OTHER ==> size <= ClassSize(i) && forall j | 0 <= j < i :: ClassSize(j) < size
    ensures i == OTHER <==> size > 2048
  {
    if size <= 8 then 0 else if size <= 16 then 1 else if size <= 32 then 2 else if size <= 64 then 3
    else if size <= 128 then 4 else if size <= 256 then 5 else if size <= 512 then 6 else if size <= 1024 then 7
    else if size <= 2048 then 8 else OTHER
  }

  /** The classes: eight bytes, and each the double of the one before, up to 2048. */
  lemma ClassesDouble(i: nat)
    requires i < OTHER
    ensures ClassSize(0) == 8 && ClassSize(8) == 2048
    ensures i < 8 ==> ClassSize(i + 1) == 2 * ClassSize(i)
  {
  }

  function Stride(p: Slab): nat {
    p.maxSize + HEAD_SIZE
  }

  function BlockAt(p: Slab, k: int): int {
    p.base + k * Stride(p)
  }

  ghost predicate IsBlockOf(p: Slab, r: int) {
    exists k :: 0 <= k < p.count && r == BlockAt(p, k)
  }

  /** The list starting at address r runs through s and ends in null. */
  predicate Chain(heads: map<int, Header>, r: int, s: seq<int>)
    decreases |s|
  {
    if s == [] then r == 0 else r == s[0] && r in heads && Chain(heads, heads[r].next, s[1..])
  }

  predicate NoDuplicates(s: seq<int>) {
    forall i, j | 0 <= i < j < |s| :: s[i] != s[j]
  }

  ghost predicate HeaderOk(slabs: seq<Slab>, extra: map<int, nat>, r: int, h: Header) {
    && r > 0
    && h.pool < POOLS && h.pool < |slabs|
    && (h.isBlock <==> r !in extra)
    && (h.isBlock ==> h.pool != OTHER && IsBlockOf(slabs[h.pool], r))
  }

  /** Payload size of the block at r. */
  function Capacity(w: World, r: int): nat {
    if r in w.extra then w.extra[r]
    else if r in w.heads && w.heads[r].pool < |w.slabs| then w.slabs[w.heads[r].pool].maxSize
    else 0
  }

  function End(w: World, r: int): int {
    r + HEAD_SIZE + Capacity(w, r)
  }

  predicate Owned(w: World, i: nat, r: int) {
    r in w.heads && w.heads[r].isBlock && w.heads[r].pool == i
  }

  predicate SlabsInv(slabs: seq<Slab>) {
    && |slabs| == POOLS
    && forall i | 0 <= i < POOLS :: slabs[i].maxSize == ClassSize(i) && (slabs[i].count == 0 <==> i == OTHER)
  }

  ghost predicate HeadersInv(w: World) {
    && w.extra.Keys <= w.heads.Keys
    && forall r | r in w.heads :: HeaderOk(w.slabs, w.extra, r, w.heads[r])
  }

  /** Every block of every slab keeps its header. */
  ghost predicate BlocksInv(w: World) {
    forall i, k | 0 <= i < OTHER < |w.slabs| && 0 <= k < w.slabs[i].count :: Owned(w, i, BlockAt(w.slabs[i], k))
  }

  predicate ExtentsDisjoint(w: World) {
    forall r, q | r in w.heads && q in w.heads && r < q :: End(w, r) <= q
  }

  predicate FreeListInv(w: World, i: nat) {
    && i < |w.tops| && i < |w.free|
    && Chain(w.heads, w.tops[i], w.free[i])
    && NoDuplicates(w.free[i])
    && forall r | r in w.free[i] :: Owned(w, i, r) && r !in w.live
  }

  predicate LiveInv(w: World) {
    && w.extra.Keys <= w.live.Keys <= w.heads.Keys
    && (forall r | r in w.live :: w.live[r] <= Capacity(w, r))
    && (forall r | r in w.heads && r !in w.live :: w.heads[r].pool < |w.free| && r in w.free[w.heads[r].pool])
  }

  ghost predicate Inv(w: World) {
    && SlabsInv(w.slabs) && |w.free| == |w.tops| == POOLS
    && HeadersInv(w) && BlocksInv(w)
    && ExtentsDisjoint(w)
    && (forall i | 0 <= i < POOLS :: FreeListInv(w, i))
    && LiveInv(w)
  }

  // Operations.

  /** malloc gave out [a, a + HEAD_SIZE + size): off every slab and every single block. */
  predicate FreshExtent(w: World, a: int, size: nat) {
    && a > 0
    && (forall i | 0 <= i < |w.slabs| && i != OTHER ::
          a + HEAD_SIZE + size <= w.slabs[i].base || w.slabs[i].base + w.slabs[i].count * Stride(w.slabs[i]) <= a)
    && (forall r | r in w.extra :: a + HEAD_SIZE + size <= r || r + HEAD_SIZE + w.extra[r] <= a)
  }

  datatype Op = Alloc(size: int, given: int) | Free(r: int)

  function FallbackSize(size: int): nat {
    if ClassOf(size) == OTHER then size else ClassSize(ClassOf(size))
  }

  /** Alloc: should malloc be needed, given is what it returns. Free: the block is live. */
  predicate Enabled(w: World, op: Op) {
    match op
    case Alloc(size, given) =>
      |w.tops| == POOLS && (w.tops[ClassOf(size)] == 0 ==> FreshExtent(w, given, FallbackSize(size)))
    case Free(r) => r in w.live
  }

  /** The block an Alloc returns. */
  function Chosen(w: World, size: int, given: int): int
    requires |w.tops| == POOLS
  {
    if w.tops[ClassOf(size)] != 0 then w.tops[ClassOf(size)] else given
  }

  function Take(w: World, i: nat, size: int): World
    requires i < |w.tops| && i < |w.free| && w.tops[i] in w.heads && w.free[i] != []
  {
    w.(tops := w.tops[i := w.heads[w.tops[i]].next], free := w.free[i := w.free[i][1..]],
       live := w.live[w.tops[i] := size])
  }

  function Fallback(w: World, i: nat, size: int, a: int): World {
    w.(heads := w.heads[a := Header(0, i, false)], extra := w.extra[a := FallbackSize(size)], live := w.live[a := size])
  }

  function PutBack(w: World, r: int): World
    requires r in w.heads && w.heads[r].pool < |w.tops| && w.heads[r].pool < |w.free|
  {
    var i := w.heads[r].pool;
    w.(heads := w.heads[r := w.heads[r].(next := w.tops[i])], tops := w.tops[i := r],
       free := w.free[i := [r] + w.free[i]], live := w.live - {r})
  }

  function Release(w: World, r: int): World {
    w.(heads := w.heads - {r}, extra := w.extra - {r}, live := w.live - {r})
  }

  ghost function Apply(w: World, op: Op): World
    requires Inv(w) && Enabled(w, op)
  {
    match op
    case Alloc(size, given) =>
      var i := ClassOf(size);
      if w.tops[i] != 0 then
        assert FreeListInv(w, i);
        Take(w, i, size)
      else Fallback(w, i, size, given)
    case Free(r) =>
      assert HeaderOk(w.slabs, w.extra, r, w.heads[r]);
      if w.heads[r].isBlock then PutBack(w, r) else Release(w, r)
  }

  // Every operation keeps the invariant.

  lemma {:induction false} ChainFrame(heads: map<int, Header>, heads': map<int, Header>, r: int, s: seq<int>)
    requires Chain(heads, r, s)
    requires forall q | q in s :: q in heads && q in heads' && heads'[q] == heads[q]
    ensures Chain(heads', r, s)
    decreases |s|
  {
    if s != [] {
      ChainFrame(heads, heads', heads[r].next, s[1..]);
    }
  }

  /** A multiple and the next lie within any later one. */
  lemma {:induction false} Multiples(k: int, n: int, stride: nat)
    requires k < n
    ensures k * stride + stride <= n * stride
    decreases n - k
  {
    assert n * stride == (n - 1) * stride + stride;
    if k + 1 < n {
      Multiples(k, n - 1, stride);
    }
  }

  lemma BlockInSlab(p: Slab, k: int)
    requires 0 <= k < p.count
    ensures p.base <= BlockAt(p, k) && BlockAt(p, k) + Stride(p) <= p.base + p.count * Stride(p)
  {
    var stride := Stride(p);
    Multiples(k, p.count, stride);
    assert k * stride >= 0;
  }

  lemma FreshIsOffEveryBlock(w: World, a: int, size: nat, r: int)
    requires Inv(w) && FreshExtent(w, a, size) && r in w.heads
    ensures a + HEAD_SIZE + size <= r || End(w, r) <= a
  {
    assert HeaderOk(w.slabs, w.extra, r, w.heads[r]);
    if r !in w.extra {
      var p := w.slabs[w.heads[r].pool];
      var k :| 0 <= k < p.count && r == BlockAt(p, k);
      BlockInSlab(p, k);
    }
  }

  /** Headers, blocks and extents depend only on where blocks are and whose they are. */
  lemma SameShape(w: World, w': World)
    requires HeadersInv(w) && BlocksInv(w) && ExtentsDisjoint(w)
    requires w'.slabs == w.slabs && w'.extra == w.extra && w'.heads.Keys == w.heads.Keys
    requires forall r | r in w.heads ::
      w'.heads[r].pool == w.heads[r].pool && w'.heads[r].isBlock == w.heads[r].isBlock
    ensures HeadersInv(w') && BlocksInv(w') && ExtentsDisjoint(w')
  {
    hide IsBlockOf, BlockAt;
    forall r | r in w.heads ensures End(w', r) == End(w, r) && HeaderOk(w'.slabs, w'.extra, r, w'.heads[r]) {
      assert HeaderOk(w.slabs, w.extra, r, w.heads[r]);
    }
  }

  lemma TakeKeepsLists(w: World, i: nat, size: int)
    requires |w.free| == |w.tops| == POOLS && i < POOLS && w.tops[i] != 0
    requires forall j | 0 <= j < POOLS :: FreeListInv(w, j)
    ensures w.free[i] != [] && w.tops[i] in w.heads && w.tops[i] == w.free[i][0] && Owned(w, i, w.tops[i])
    ensures forall j | 0 <= j < POOLS && Owned(w, j, w.tops[i]) :: j == i
    ensures forall j | 0 <= j < POOLS :: FreeListInv(Take(w, i, size), j)
  {
    assert FreeListInv(w, i);
    var w', r := Take(w, i, size), w.tops[i];
    assert w.free[i] == [r] + w'.free[i];
    assert Owned(w, i, r);
    forall j | 0 <= j < POOLS ensures FreeListInv(w', j) {
      assert FreeListInv(w, j);
      assert j == i ==> r !in w'.free[i];
      forall q | q in w'.free[j] ensures Owned(w', j, q) && q !in w'.live {
        assert q in w.free[j] && Owned(w, j, q);
      }
    }
  }

  lemma TakeKeepsLive(w: World, i: nat, size: int)
    requires LiveInv(w) && SlabsInv(w.slabs) && |w.free| == |w.tops| == POOLS && i == ClassOf(size) && i != OTHER
    requires w.free[i] != [] && w.tops[i] == w.free[i][0] && Owned(w, i, w.tops[i]) && w.tops[i] !in w.extra
    ensures LiveInv(Take(w, i, size))
  {
    hide SlabsInv, ClassOf;
    var w', r := Take(w, i, size), w.tops[i];
    assert w.free[i] == [r] + w'.free[i];
    ClassHolds(w, i, size);
    assert Capacity(w', r) == w.slabs[i].maxSize;
    assert forall q | q in w.live :: Capacity(w', q) == Capacity(w, q);
  }

  lemma ClassHolds(w: World, i: nat, size: int)
    requires SlabsInv(w.slabs) && i == ClassOf(size) && i != OTHER
    ensures i < |w.slabs| && size <= w.slabs[i].maxSize
  {
  }

  lemma TakeKeepsInv(w: World, i: nat, size: int)
    requires Inv(w) && i == ClassOf(size) && w.tops[i] != 0
    ensures w.free[i] != [] && w.tops[i] in w.heads && Inv(Take(w, i, size))
  {
    hide SlabsInv, BlocksInv, ExtentsDisjoint, FreeListInv, LiveInv, IsBlockOf, ClassOf, Capacity;
    TakeKeepsLists(w, i, size);
    var r := w.tops[i];
    assert HeaderOk(w.slabs, w.extra, r, w.heads[r]);
    TakeKeepsLive(w, i, size);
    SameShape(w, Take(w, i, size));
  }

  /** Free lists survive a change of other headers. */
  lemma FreeListsStay(w: World, w': World)
    requires Inv(w) && w'.tops == w.tops && w'.free == w.free
    requires forall r | r in w.heads && w.heads[r].isBlock && r !in w.live ::
      r in w'.heads && w'.heads[r] == w.heads[r] && r !in w'.live
    ensures forall j | 0 <= j < POOLS :: FreeListInv(w', j)
  {
    forall j | 0 <= j < POOLS ensures FreeListInv(w', j) {
      assert FreeListInv(w, j);
      ChainFrame(w.heads, w'.heads, w.tops[j], w.free[j]);
    }
  }

  lemma FallbackExtents(w: World, size: int, a: int)
    requires Inv(w) && FreshExtent(w, a, FallbackSize(size))
    ensures a !in w.heads && ExtentsDisjoint(Fallback(w, ClassOf(size), size, a))
  {
    var w' := Fallback(w, ClassOf(size), size, a);
    forall r | r in w.heads
      ensures a + HEAD_SIZE + FallbackSize(size) <= r || End(w, r) <= a
      ensures r != a && End(w', r) == End(w, r)
    {
      FreshIsOffEveryBlock(w, a, FallbackSize(size), r);
    }
  }

  lemma FallbackKeepsLive(w: World, size: int, a: int)
    requires LiveInv(w) && a !in w.heads
    ensures LiveInv(Fallback(w, ClassOf(size), size, a))
  {
    var w' := Fallback(w, ClassOf(size), size, a);
    assert forall q | q in w.live :: Capacity(w', q) == Capacity(w, q);
  }

  lemma FallbackKeepsHeaders(w: World, size: int, a: int)
    requires SlabsInv(w.slabs) && HeadersInv(w) && BlocksInv(w) && a !in w.heads && a > 0
    ensures HeadersInv(Fallback(w, ClassOf(size), size, a)) && BlocksInv(Fallback(w, ClassOf(size), size, a))
  {
    hide IsBlockOf, BlockAt, FallbackSize;
    var w' := Fallback(w, ClassOf(size), size, a);
    forall r | r in w'.heads ensures HeaderOk(w'.slabs, w'.extra, r, w'.heads[r]) {
      if r != a {
        assert HeaderOk(w.slabs, w.extra, r, w.heads[r]);
      }
    }
  }

  lemma FallbackKeepsInv(w: World, size: int, a: int)
    requires Inv(w) && FreshExtent(w, a, FallbackSize(size))
    ensures Inv(Fallback(w, ClassOf(size), size, a))
  {
    hide IsBlockOf, Capacity, ExtentsDisjoint, SlabsInv, BlocksInv, HeadersInv, FreeListInv, ClassOf, FallbackSize;
    var w' := Fallback(w, ClassOf(size), size, a);
    FallbackExtents(w, size, a);
    FallbackKeepsHeaders(w, size, a);
    FallbackKeepsLive(w, size, a);
    FreeListsStay(w, w');
  }

  lemma PutBackKeepsLists(w: World, r: int)
    requires |w.free| == |w.tops| == POOLS && r in w.live
    requires r in w.heads && w.heads[r].isBlock && w.heads[r].pool < POOLS
    requires forall j | 0 <= j < POOLS :: FreeListInv(w, j)
    ensures forall j | 0 <= j < POOLS :: FreeListInv(PutBack(w, r), j)
  {
    var w', i := PutBack(w, r), w.heads[r].pool;
    forall j | 0 <= j < POOLS ensures FreeListInv(w', j) {
      assert FreeListInv(w, j);
      ChainFrame(w.heads, w'.heads, w.tops[j], w.free[j]);
    }
  }

  lemma PutBackKeepsLive(w: World, r: int)
    requires |w.free| == |w.tops| == POOLS && r in w.heads && w.heads[r].pool < POOLS && r !in w.extra
    requires LiveInv(w)
    ensures LiveInv(PutBack(w, r))
  {
    var w' := PutBack(w, r);
    assert forall q | q in w.live :: Capacity(w', q) == Capacity(w, q);
    assert forall q | q in w.free[w.heads[r].pool] :: q in w'.free[w.heads[r].pool];
  }

  lemma PutBackKeepsInv(w: World, r: int)
    requires Inv(w) && r in w.live && w.heads[r].isBlock
    ensures w.heads[r].pool < POOLS && Inv(PutBack(w, r))
  {
    hide IsBlockOf, SlabsInv, BlocksInv, ExtentsDisjoint, FreeListInv, Capacity;
    assert HeaderOk(w.slabs, w.extra, r, w.heads[r]);
    PutBackKeepsLists(w, r);
    PutBackKeepsLive(w, r);
    hide LiveInv;
    SameShape(w, PutBack(w, r));
  }

  lemma ReleaseKeepsInv(w: World, r: int)
    requires Inv(w) && r in w.live && !w.heads[r].isBlock
    ensures Inv(Release(w, r))
  {
    hide IsBlockOf;
    assert HeaderOk(w.slabs, w.extra, r, w.heads[r]);
    FreeListsStay(w, Release(w, r));
  }

  lemma ApplyKeepsInv(w: World, op: Op)
    requires Inv(w) && Enabled(w, op)
    ensures Inv(Apply(w, op))
  {
    match op
    case Alloc(size, given) =>
      if w.tops[ClassOf(size)] != 0 {
        TakeKeepsInv(w, ClassOf(size), size);
      } else {
        FallbackKeepsInv(w, size, given);
      }
    case Free(r) =>
      if w.heads[r].isBlock {
        PutBackKeepsInv(w, r);
      } else {
        ReleaseKeepsInv(w, r);
      }
  }

  // Runs.

  ghost function Step(w: World, op: Op): World {
    if Inv(w) && Enabled(w, op) then Apply(w, op) else w
  }

  ghost function Run(w: World, ops: seq<Op>): World {
    if ops == [] then w else Step(Run(w, ops[..|ops| - 1]), ops[|ops| - 1])
  }

  lemma {:induction false} RunKeepsInv(w: World, ops: seq<Op>)
    requires Inv(w)
    ensures Inv(Run(w, ops)) && Run(w, ops).slabs == w.slabs
  {
    if ops != [] {
      var before, op := Run(w, ops[..|ops| - 1]), ops[|ops| - 1];
      RunKeepsInv(w, ops[..|ops| - 1]);
      if Enabled(before, op) {
        ApplyKeepsInv(before, op);
      }
    }
  }

  /** The bytes [a, b) and [c, d) share nothing. */
  predicate Apart(a: int, b: int, c: int, d: int) {
    b <= c || d <= a
  }

  lemma BlocksApart(e: World, r: int, q: int)
    requires Inv(e) && r in e.live && q in e.heads && q != r
    ensures Apart(r + HEAD_SIZE, r + HEAD_SIZE + Capacity(e, r), q, End(e, q)) && e.live[r] <= Capacity(e, r)
  {
    hide SlabsInv, HeadersInv, BlocksInv, FreeListInv, Capacity;
    assert if r < q then End(e, r) <= q else End(e, q) <= r;
  }

  /** After any run, what a live block's user may write, up to its whole capacity, meets no
      header and no payload of any other block, free, live or taken from malloc; and the
      capacity is at least what was asked for. */
  lemma LiveBlocksApart(w: World, ops: seq<Op>)
    requires Inv(w)
    ensures var e := Run(w, ops);
      forall r, q | r in e.live && q in e.heads && q != r ::
        && Apart(r + HEAD_SIZE, r + HEAD_SIZE + Capacity(e, r), q, End(e, q))
        && e.live[r] <= Capacity(e, r)
  {
    hide Inv, Run, Apart, End, Capacity;
    RunKeepsInv(w, ops);
    var e := Run(w, ops);
    forall r, q | r in e.live && q in e.heads && q != r
      ensures Apart(r + HEAD_SIZE, r + HEAD_SIZE + Capacity(e, r), q, End(e, q)) && e.live[r] <= Capacity(e, r)
    {
      BlocksApart(e, r, q);
    }
  }

  /** A live block of a pool lies inside the pool's slab, behind its own header. */
  lemma LiveBlockInSlab(w: World, ops: seq<Op>, r: int)
    requires Inv(w)
    ensures var e := Run(w, ops);
      r in e.live && r !in e.extra ==>
        && r in e.heads && e.heads[r].pool < OTHER < |e.slabs|
        && var p := e.slabs[e.heads[r].pool];
           p.base <= r && r + HEAD_SIZE + e.live[r] <= p.base + p.count * Stride(p)
  {
    RunKeepsInv(w, ops);
    var e := Run(w, ops);
    if r in e.live && r !in e.extra {
      assert HeaderOk(e.slabs, e.extra, r, e.heads[r]);
      var p := e.slabs[e.heads[r].pool];
      var k :| 0 <= k < p.count && r == BlockAt(p, k);
      BlockInSlab(p, k);
    }
  }

  // Free and outstanding blocks partition a pool.

  ghost function BlockSet(p: Slab, n: nat): set<int> {
    set k | 0 <= k < n :: BlockAt(p, k)
  }

  function Elements(s: seq<int>): set<int> {
    set r | r in s
  }

  function Outstanding(w: World, i: nat): set<int> {
    set r | r in w.live && r in w.heads && w.heads[r].isBlock && w.heads[r].pool == i
  }

  lemma BlocksAscend(p: Slab, j: int, k: int)
    requires 0 <= j < k
    ensures BlockAt(p, j) + Stride(p) <= BlockAt(p, k)
  {
    Multiples(j, k, Stride(p));
  }

  lemma {:induction false} BlockSetSize(p: Slab, n: nat)
    ensures |BlockSet(p, n)| == n
  {
    if n > 0 {
      BlockSetSize(p, n - 1);
      assert BlockSet(p, n) == BlockSet(p, n - 1) + {BlockAt(p, n - 1)};
      forall k | 0 <= k < n - 1 ensures BlockAt(p, k) != BlockAt(p, n - 1) {
        BlocksAscend(p, k, n - 1);
      }
    }
  }

  lemma {:induction false} ElementsSize(s: seq<int>)
    requires NoDuplicates(s)
    ensures |Elements(s)| == |s|
  {
    if s != [] {
      ElementsSize(s[1..]);
      assert Elements(s) == {s[0]} + Elements(s[1..]);
    }
  }

  lemma PoolElements(e: World, i: nat)
    requires Inv(e) && i < OTHER
    ensures Elements(e.free[i]) + Outstanding(e, i) == BlockSet(e.slabs[i], e.slabs[i].count)
    ensures Elements(e.free[i]) !! Outstanding(e, i)
    ensures Elements(e.free[i]) !! e.extra.Keys
  {
    var p := e.slabs[i];
    assert FreeListInv(e, i);
    var all := Elements(e.free[i]) + Outstanding(e, i);
    forall r | r in all ensures r in BlockSet(p, p.count) && r !in e.extra {
      assert Owned(e, i, r);
      assert HeaderOk(e.slabs, e.extra, r, e.heads[r]);
    }
    forall r | r in BlockSet(p, p.count) ensures r in all {
      var k :| 0 <= k < p.count && r == BlockAt(p, k);
      assert Owned(e, i, BlockAt(e.slabs[i], k));
    }
  }

  /** After any run, the list from a pool's top is finite, free of repetitions, and its
      blocks and the outstanding ones are together exactly the blocks the pool was built
      with; no block taken from malloc is among them. */
  lemma FreeAndOutstanding(w: World, ops: seq<Op>, i: nat)
    requires Inv(w) && i < OTHER
    ensures var e := Run(w, ops);
      && |e.free| == |e.tops| == POOLS
      && Chain(e.heads, e.tops[i], e.free[i]) && NoDuplicates(e.free[i])
      && Elements(e.free[i]) + Outstanding(e, i) == BlockSet(w.slabs[i], w.slabs[i].count)
      && |e.free[i]| + |Outstanding(e, i)| == w.slabs[i].count
      && Elements(e.free[i]) !! Outstanding(e, i)
      && Elements(e.free[i]) !! e.extra.Keys
  {
    hide BlockAt, Outstanding;
    RunKeepsInv(w, ops);
    var e := Run(w, ops);
    assert FreeListInv(e, i);
    PoolElements(e, i);
    BlockSetSize(e.slabs[i], e.slabs[i].count);
    ElementsSize(e.free[i]);
  }

  // Routing.

  /** An allocation hands out a block that was not live, owned by the pool of its class. */
  lemma AllocHandsOut(w: World, size: int, given: int)
    requires Inv(w) && Enabled(w, Alloc(size, given))
    ensures var e, r := Apply(w, Alloc(size, given)), Chosen(w, size, given);
      && r !in w.live && e.live == w.live[r := size]
      && r in e.heads && e.heads[r].pool == ClassOf(size)
      && Capacity(e, r) == if size <= 2048 then ClassSize(ClassOf(size)) else size
  {
    var i := ClassOf(size);
    assert FreeListInv(w, i);
    if w.tops[i] == 0 {
      FallbackExtents(w, size, given);
    }
  }

  /** Until it is freed, a block keeps the pool that issued it and its requested size. */
  lemma OwnerRemembered(w: World, op: Op, r: int)
    requires Inv(w) && Enabled(w, op) && r in w.live && op != Free(r)
    ensures var e := Apply(w, op);
      r in e.live && e.live[r] == w.live[r] && r in e.heads && e.heads[r].pool == w.heads[r].pool
      && e.heads[r].isBlock == w.heads[r].isBlock
  {
    if op.Alloc? {
      AllocHandsOut(w, op.size, op.given);
    }
  }

  /** A freed pool block is the next one its pool hands out, and that leaves the lists as
      they were before the free. */
  lemma FreedBlockIsReused(w: World, r: int, size: int, given: int)
    requires Inv(w) && r in w.live && w.heads[r].isBlock && ClassOf(size) == w.heads[r].pool
    ensures var f := Apply(w, Free(r));
      && Inv(f) && Enabled(f, Alloc(size, given))
      && Chosen(f, size, given) == r
      && var e := Apply(f, Alloc(size, given));
         e.tops == w.tops && e.free == w.free && e.live == w.live[r := size] && e.extra == w.extra
  {
    hide IsBlockOf, BlocksInv, ExtentsDisjoint, FreeListInv, Capacity, ClassOf, FreshExtent, SlabsInv;
    ApplyKeepsInv(w, Free(r));
    assert HeaderOk(w.slabs, w.extra, r, w.heads[r]);
    var f, i := Apply(w, Free(r)), w.heads[r].pool;
    assert f.free[i][1..] == w.free[i];
    assert Take(f, i, size).free == w.free && Take(f, i, size).tops == w.tops;
  }

  // The state the manager builds.

  function StartHeader(p: Slab, i: nat, k: int): Header {
    Header(if k + 1 < p.count then BlockAt(p, k + 1) else 0, i, true)
  }

  function AllBlocks(p: Slab, from: nat): (s: seq<int>)
    requires from <= p.count
    ensures |s| == p.count - from && forall j | 0 <= j < |s| :: s[j] == BlockAt(p, from + j)
  {
    seq(p.count - from, j => BlockAt(p, from + j))
  }

  /** Pool i's slab is in place: a header for every block, threaded in address order. */
  ghost predicate SlabBuilt(heads: map<int, Header>, p: Slab, i: nat) {
    forall k | 0 <= k < p.count :: BlockAt(p, k) in heads && heads[BlockAt(p, k)] == StartHeader(p, i, k)
  }

  predicate SlabsApart(slabs: seq<Slab>) {
    && (forall i | 0 <= i < |slabs| && slabs[i].count > 0 :: slabs[i].base > 0)
    && forall i, j | 0 <= i < j < |slabs| && slabs[i].count > 0 && slabs[j].count > 0 ::
         Apart(slabs[i].base, slabs[i].base + slabs[i].count * Stride(slabs[i]),
               slabs[j].base, slabs[j].base + slabs[j].count * Stride(slabs[j]))
  }

  ghost predicate IsStart(w: World) {
    && SlabsInv(w.slabs) && SlabsApart(w.slabs)
    && w.extra == map[] && w.live == map[]
    && |w.free| == |w.tops| == POOLS
    && (forall i | 0 <= i < POOLS :: SlabBuilt(w.heads, w.slabs[i], i))
    && (forall r | r in w.heads :: IsSlabHead(w.slabs, r))
    && forall i | 0 <= i < POOLS ::
         w.free[i] == AllBlocks(w.slabs[i], 0) && w.tops[i] == if w.slabs[i].count > 0 then w.slabs[i].base else 0
  }

  ghost predicate IsSlabHead(slabs: seq<Slab>, r: int) {
    exists i :: 0 <= i < |slabs| && IsBlockOf(slabs[i], r)
  }

  lemma {:induction false} AllBlocksChain(heads: map<int, Header>, p: Slab, i: nat, from: nat)
    requires from <= p.count && SlabBuilt(heads, p, i)
    ensures Chain(heads, if from < p.count then BlockAt(p, from) else 0, AllBlocks(p, from))
    decreases p.count - from
  {
    hide BlockAt;
    if from < p.count {
      AllBlocksChain(heads, p, i, from + 1);
      assert AllBlocks(p, from)[1..] == AllBlocks(p, from + 1);
    }
  }

  lemma AllBlocksDiffer(p: Slab)
    ensures NoDuplicates(AllBlocks(p, 0))
    ensures forall k | 0 <= k < p.count :: BlockAt(p, k) in AllBlocks(p, 0)
  {
    hide BlockAt;
    var s := AllBlocks(p, 0);
    forall j, k | 0 <= j < k < |s| ensures s[j] != s[k] {
      BlocksAscend(p, j, k);
    }
    forall k | 0 <= k < p.count ensures BlockAt(p, k) in s {
      assert s[k] == BlockAt(p, k);
    }
  }

  lemma SlabHeadsApart(w: World, i: nat, j: int, i': nat, j': int)
    requires IsStart(w) && i < POOLS && i' < POOLS && 0 <= j < w.slabs[i].count && 0 <= j' < w.slabs[i'].count
    requires BlockAt(w.slabs[i], j) < BlockAt(w.slabs[i'], j')
    ensures BlockAt(w.slabs[i], j) + Stride(w.slabs[i]) <= BlockAt(w.slabs[i'], j')
  {
    if i == i' {
      if j < j' {
        BlocksAscend(w.slabs[i], j, j');
      } else if j' < j {
        BlocksAscend(w.slabs[i], j', j);
      }
    } else {
      BlockInSlab(w.slabs[i], j);
      BlockInSlab(w.slabs[i'], j');
    }
  }

  /** Every header of the start is that of one block of one slab. */
  lemma StartBlock(w: World, r: int) returns (k: int)
    requires IsStart(w) && r in w.heads
    ensures w.heads[r].pool < OTHER && w.heads[r].isBlock && r > 0
    ensures 0 <= k < w.slabs[w.heads[r].pool].count && r == BlockAt(w.slabs[w.heads[r].pool], k)
  {
    hide SlabsApart, BlockAt;
    assert IsSlabHead(w.slabs, r);
    var i :| 0 <= i < |w.slabs| && IsBlockOf(w.slabs[i], r);
    k :| 0 <= k < w.slabs[i].count && r == BlockAt(w.slabs[i], k);
    assert SlabBuilt(w.heads, w.slabs[i], i);
    StartPositive(w, i, k);
  }

  lemma StartPositive(w: World, i: nat, k: int)
    requires IsStart(w) && i < |w.slabs| && 0 <= k < w.slabs[i].count
    ensures BlockAt(w.slabs[i], k) > 0
  {
    BlockInSlab(w.slabs[i], k);
  }

  lemma StartExtents(w: World)
    requires IsStart(w)
    ensures ExtentsDisjoint(w) && HeadersInv(w)
  {
    hide IsStart, BlockAt;
    forall r | r in w.heads
      ensures HeaderOk(w.slabs, w.extra, r, w.heads[r]) && Capacity(w, r) == w.slabs[w.heads[r].pool].maxSize
    {
      StartShape(w);
      var k := StartBlock(w, r);
      assert IsBlockOf(w.slabs[w.heads[r].pool], r);
    }
    forall r, q | r in w.heads && q in w.heads && r < q ensures End(w, r) <= q {
      StartShape(w);
      var k := StartBlock(w, r);
      var k' := StartBlock(w, q);
      SlabHeadsApart(w, w.heads[r].pool, k, w.heads[q].pool, k');
    }
    StartShape(w);
  }

  lemma StartShape(w: World)
    requires IsStart(w)
    ensures |w.slabs| == POOLS && w.extra == map[]
  {
  }

  lemma StartInv(w: World)
    requires IsStart(w)
    ensures Inv(w)
  {
    StartExtents(w);
    forall i, k | 0 <= i < OTHER && 0 <= k < w.slabs[i].count ensures Owned(w, i, BlockAt(w.slabs[i], k)) {
      assert SlabBuilt(w.heads, w.slabs[i], i);
    }
    forall i | 0 <= i < POOLS ensures FreeListInv(w, i) {
      StartFreeList(w, i);
    }
    forall r | r in w.heads ensures w.heads[r].pool < |w.free| && r in w.free[w.heads[r].pool] {
      assert HeaderOk(w.slabs, w.extra, r, w.heads[r]);
      AllBlocksDiffer(w.slabs[w.heads[r].pool]);
    }
  }

  lemma StartFreeList(w: World, i: nat)
    requires IsStart(w) && i < POOLS
    ensures FreeListInv(w, i)
  {
    var p := w.slabs[i];
    assert SlabBuilt(w.heads, p, i);
    AllBlocksChain(w.heads, p, i, 0);
    AllBlocksDiffer(p);
    assert BlockAt(p, 0) == p.base;
    forall r | r in w.free[i] ensures Owned(w, i, r) {
      var k :| 0 <= k < p.count && r == BlockAt(p, k);
    }
  }
}
