/** The memory pool and its manager over a heap that hands out regions of its own choosing. */
module Memory {
  import opened Blocks

  const INT_MAX := 0x7fff_ffff

  predicate Unused(regions: map<int, nat>, a: int, n: nat) {
    a > 0 && forall q | q in regions :: q != a && (a + n <= q || q + regions[q] <= a)
  }

  /** heads: the block headers written in memory. regions: what malloc has given out, start
      and length. top: an address behind all regions. */
  class Heap {
    var heads: map<int, Header>
    var regions: map<int, nat>
    var top: int

    predicate Valid()
      reads this
    {
      top > 0 && forall q | q in regions :: q + regions[q] <= top
    }

    constructor ()
      ensures Valid() && heads == map[] && regions == map[]
    {
      heads, regions, top := map[], map[], 1;
    }

    /** Any unused region may be chosen. */
    method Malloc(n: nat) returns (a: int)
      requires Valid() && n > 0
      modifies this`regions, this`top
      ensures Valid() && Unused(old(regions), a, n)
      ensures regions == old(regions)[a := n]
    {
      a := *;
      if !Unused(regions, a, n) {
        a := top;
        if a in regions {
          a := top + 1;
        }
      }
      regions := regions[a := n];
      top := if a + n > top then a + n else top;
    }

    method Free(a: int)
      requires Valid()
      modifies this`regions
      ensures Valid() && regions == old(regions) - {a}
    {
      regions := regions - {a};
    }
  }

  ghost predicate SlabAdded(heads: map<int, Header>, heads': map<int, Header>, p: Slab, i: nat) {
    && SlabBuilt(heads', p, i)
    && (forall r | r in heads' && r !in heads :: IsBlockOf(p, r))
    && forall r | r in heads :: r in heads' && (heads'[r] == heads[r] || IsBlockOf(p, r))
  }

  ghost predicate RegionAdded(regions: map<int, nat>, regions': map<int, nat>, p: Slab) {
    if p.count == 0 then regions' == regions
    else Unused(regions, p.base, p.count * Stride(p)) && regions' == regions[p.base := p.count * Stride(p)]
  }

  /** The first n headers of p are written, each pointing to the block behind it. */
  ghost predicate Laid(before: map<int, Header>, heads: map<int, Header>, p: Slab, i: nat, n: nat) {
    && (forall k | 0 <= k < n :: BlockAt(p, k) in heads && heads[BlockAt(p, k)] == Header(BlockAt(p, k + 1), i, true))
    && (forall r | r in heads && r !in before :: IsBlockOf(p, r))
    && forall r | r in before :: r in heads && (heads[r] == before[r] || IsBlockOf(p, r))
  }

  lemma LayNone(heads: map<int, Header>, p: Slab, i: nat)
    ensures Laid(heads, heads, p, i, 0)
  {
  }

  lemma LayOne(before: map<int, Header>, heads: map<int, Header>, p: Slab, i: nat, n: nat)
    requires n < p.count && Laid(before, heads, p, i, n)
    ensures Laid(before, heads[BlockAt(p, n) := Header(BlockAt(p, n + 1), i, true)], p, i, n + 1)
  {
    hide BlockAt;
    assert IsBlockOf(p, BlockAt(p, n));
    forall k | 0 <= k < n ensures BlockAt(p, k) != BlockAt(p, n) {
      BlocksAscend(p, k, n);
    }
  }

  lemma LayLast(before: map<int, Header>, heads: map<int, Header>, p: Slab, i: nat)
    requires p.count > 0 && Laid(before, heads, p, i, p.count)
    ensures var last := BlockAt(p, p.count - 1);
      last in heads && SlabAdded(before, heads[last := heads[last].(next := 0)], p, i)
  {
    hide BlockAt;
    var last := BlockAt(p, p.count - 1);
    assert IsBlockOf(p, last);
    var heads' := heads[last := heads[last].(next := 0)];
    forall k | 0 <= k < p.count ensures BlockAt(p, k) in heads' && heads'[BlockAt(p, k)] == StartHeader(p, i, k) {
      assert heads[BlockAt(p, k)] == Header(BlockAt(p, k + 1), i, true);
      if k < p.count - 1 {
        BlocksAscend(p, k, p.count - 1);
      }
    }
  }

  class MemoryPool {
    const heap: Heap
    const index: nat
    const maxSize: nat
    const count: nat
    const base: int
    var head: int

    function AsSlab(): Slab {
      Slab(maxSize, base, count)
    }

    /** Lays out the slab: every block's header points to the next block, the last to none. */
    constructor (maxSize: nat, count: nat, index: nat, heap: Heap)
      requires heap.Valid() && (count == 0 ==> maxSize == 0)
      modifies heap
      ensures this.maxSize == maxSize && this.count == count && this.index == index && this.heap == heap
      ensures heap.Valid()
      ensures RegionAdded(old(heap.regions), heap.regions, AsSlab())
      ensures head == if count > 0 then base else 0
      ensures SlabAdded(old(heap.heads), heap.heads, AsSlab(), index)
    {
      this.maxSize, this.count, this.index, this.heap := maxSize, count, index, heap;
      var memory := 0;
      if count > 0 {
        StrideTimesCount(count, maxSize);
        memory := heap.Malloc(count * (maxSize + HEAD_SIZE));
      }
      base := memory;
      head := memory;
      new;
      if count > 0 {
        WriteHeaders();
      }
    }

    /** The constructor's loop over the blocks, and the repair of the last one. */
    method WriteHeaders()
      requires count > 0
      modifies heap`heads
      ensures SlabAdded(old(heap.heads), heap.heads, AsSlab(), index)
    {
      hide BlockAt, Laid, SlabAdded;
      ghost var p, before := AsSlab(), heap.heads;
      LayNone(before, p, index);
      var blockAllSize := maxSize + HEAD_SIZE;
      var block := base;
      BlockAtStep(p, 0);
      for i := 0 to count
        invariant block == BlockAt(p, i)
        invariant Laid(before, heap.heads, p, index, i)
      {
        BlockAtStep(p, i);
        LayOne(before, heap.heads, p, index, i);
        heap.heads := heap.heads[block := Header(block + blockAllSize, index, true)];
        block := block + blockAllSize;
      }
      var last := block - blockAllSize;
      BlockAtStep(p, count - 1);
      LayLast(before, heap.heads, p, index);
      heap.heads := heap.heads[last := heap.heads[last].(next := 0)];
    }

    /** A block from the free list, or a new one when the list is empty. */
    method AllocMemory() returns (ptr: int)
      requires heap.Valid() && (head != 0 ==> head in heap.heads)
      modifies this`head, heap
      ensures heap.Valid()
      ensures old(head) != 0 ==>
        && ptr == old(head) + HEAD_SIZE && head == old(heap.heads[head].next)
        && heap.heads == old(heap.heads) && heap.regions == old(heap.regions)
      ensures old(head) == 0 ==> head == 0 && Added(old(heap.heads), old(heap.regions), ptr - HEAD_SIZE, maxSize)
      ensures old(head) == 0 ==> Unused(old(heap.regions), ptr - HEAD_SIZE, maxSize + HEAD_SIZE)
    {
      if head != 0 {
        var ret := head;
        head := heap.heads[head].next;
        return ret + HEAD_SIZE;
      }
      ptr := AllocSized(maxSize);
    }

    /** The heap has grown by one single block at a. */
    predicate Added(heads: map<int, Header>, regions: map<int, nat>, a: int, size: nat)
      reads heap
    {
      heap.heads == heads[a := Header(0, index, false)] && heap.regions == regions[a := size + HEAD_SIZE]
    }

    method AllocSized(size: nat) returns (ptr: int)
      requires heap.Valid()
      modifies heap
      ensures heap.Valid()
      ensures Added(old(heap.heads), old(heap.regions), ptr - HEAD_SIZE, size)
      ensures Unused(old(heap.regions), ptr - HEAD_SIZE, size + HEAD_SIZE)
    {
      var blockAllSize := size + HEAD_SIZE;
      var newBlock := heap.Malloc(blockAllSize);
      heap.heads := heap.heads[newBlock := Header(0, index, false)];
      ptr := newBlock + HEAD_SIZE;
    }

    method FreeMemory(ptr: int)
      requires heap.Valid() && ptr - HEAD_SIZE in heap.heads
      modifies this`head, heap
      ensures heap.Valid()
      ensures var r := ptr - HEAD_SIZE;
        if old(heap.heads)[r].isBlock then
          && heap.heads == old(heap.heads)[r := old(heap.heads)[r].(next := old(head))]
          && head == r && heap.regions == old(heap.regions)
        else
          && heap.heads == old(heap.heads) - {r} && head == old(head) && heap.regions == old(heap.regions) - {r}
    {
      var oldBlock := ptr - HEAD_SIZE;
      if heap.heads[oldBlock].isBlock {
        heap.heads := heap.heads[oldBlock := heap.heads[oldBlock].(next := head)];
        head := oldBlock;
        return;
      }
      heap.Free(oldBlock);
      heap.heads := heap.heads - {oldBlock};
    }
  }

  lemma StrideTimesCount(count: nat, maxSize: nat)
    ensures count > 0 ==> count * (maxSize + HEAD_SIZE) > 0
  {
  }

  lemma BlockAtStep(p: Slab, k: nat)
    ensures BlockAt(p, 0) == p.base
    ensures BlockAt(p, k + 1) == BlockAt(p, k) + p.maxSize + HEAD_SIZE
  {
    assert (k + 1) * Stride(p) == k * Stride(p) + Stride(p);
  }

  /** The block counts of the nine classes and of the pool for everything larger. */
  function PoolCount(i: nat): nat {
    if i == 0 || i == 1 || i == 3 || i == 5 then 2048
    else if i == 2 then 102400
    else if i < OTHER then 1024
    else 0
  }

  /** Every slab and every single block occupies a region of its own. */
  ghost predicate RegionsHeld(w: World, regions: map<int, nat>) {
    && (forall i | 0 <= i < |w.slabs| && i != OTHER ::
          w.slabs[i].base in regions && regions[w.slabs[i].base] == w.slabs[i].count * Stride(w.slabs[i]))
    && forall r | r in w.extra :: r in regions && regions[r] == HEAD_SIZE + w.extra[r]
  }

  lemma UnusedIsFresh(w: World, regions: map<int, nat>, a: int, size: nat)
    requires RegionsHeld(w, regions) && Unused(regions, a, size + HEAD_SIZE)
    ensures FreshExtent(w, a, size) && a !in w.extra
    ensures forall i | 0 <= i < |w.slabs| && i != OTHER :: w.slabs[i].base != a
  {
  }

  lemma RegionsGrow(w: World, regions: map<int, nat>, a: int, size: nat, w': World)
    requires RegionsHeld(w, regions) && Unused(regions, a, size + HEAD_SIZE)
    requires w'.slabs == w.slabs && w'.extra == w.extra[a := size]
    ensures RegionsHeld(w', regions[a := size + HEAD_SIZE])
  {
    UnusedIsFresh(w, regions, a, size);
  }

  lemma RegionsStay(w: World, regions: map<int, nat>, w': World)
    requires RegionsHeld(w, regions) && w'.slabs == w.slabs && w'.extra == w.extra
    ensures RegionsHeld(w', regions)
  {
  }

  lemma RegionsShrink(w: World, regions: map<int, nat>, r: int, w': World)
    requires Inv(w) && RegionsHeld(w, regions) && r in w.extra
    requires w'.slabs == w.slabs && w'.extra == w.extra - {r}
    ensures RegionsHeld(w', regions - {r})
  {
    forall i | 0 <= i < |w.slabs| && i != OTHER ensures w.slabs[i].base != r {
      assert Owned(w, i, BlockAt(w.slabs[i], 0));
      assert HeaderOk(w.slabs, w.extra, w.slabs[i].base, w.heads[w.slabs[i].base]);
    }
  }

  lemma TopIsBlock(w: World, i: nat)
    requires Inv(w) && i < POOLS
    ensures |w.free| == |w.slabs| == POOLS && w.slabs[i].maxSize == ClassSize(i)
    ensures w.tops[i] != 0 ==> w.free[i] != [] && w.tops[i] in w.heads
  {
    assert FreeListInv(w, i);
  }

  /** The last pool has no blocks of its own, so its list is empty. */
  lemma OtherHasNone(w: World)
    requires Inv(w)
    ensures w.tops[OTHER] == 0
  {
    assert FreeListInv(w, OTHER);
  }

  lemma OtherIsLarge(size: int)
    requires ClassOf(size) == OTHER
    ensures size > 2048
  {
  }

  // What the steps on the real pools come to.

  /** A single block taken from malloc. */
  lemma FallbackStep(w: World, regions: map<int, nat>, size: int, a: int)
    requires Inv(w) && RegionsHeld(w, regions) && w.tops[ClassOf(size)] == 0
    requires Unused(regions, a, FallbackSize(size) + HEAD_SIZE)
    ensures var op := Alloc(size, a);
      && Enabled(w, op) && Chosen(w, size, a) == a && Inv(Apply(w, op))
      && Apply(w, op) == Fallback(w, ClassOf(size), size, a)
      && RegionsHeld(Apply(w, op), regions[a := FallbackSize(size) + HEAD_SIZE])
  {
    hide SlabsInv, HeadersInv, BlocksInv, ExtentsDisjoint, FreeListInv, LiveInv, ClassOf, FallbackSize, Unused,
      RegionsHeld, FreshExtent;
    UnusedIsFresh(w, regions, a, FallbackSize(size));
    ApplyKeepsInv(w, Alloc(size, a));
    RegionsGrow(w, regions, a, FallbackSize(size), Apply(w, Alloc(size, a)));
  }

  /** The block on top of a list. */
  lemma TakeStep(w: World, regions: map<int, nat>, i: nat, size: int, a: int)
    requires Inv(w) && RegionsHeld(w, regions) && i == ClassOf(size) && a == w.tops[i] != 0
    ensures var op := Alloc(size, a);
      && Enabled(w, op) && Chosen(w, size, a) == a && Inv(Apply(w, op)) && RegionsHeld(Apply(w, op), regions)
      && w.free[i] != [] && a in w.heads && Apply(w, op) == Take(w, i, size)
  {
    hide SlabsInv, HeadersInv, BlocksInv, ExtentsDisjoint, FreeListInv, LiveInv, ClassOf, RegionsHeld;
    TopIsBlock(w, i);
    ApplyKeepsInv(w, Alloc(size, a));
    RegionsStay(w, regions, Apply(w, Alloc(size, a)));
  }

  lemma FreeStep(w: World, regions: map<int, nat>, r: int)
    requires Inv(w) && RegionsHeld(w, regions) && r in w.live
    ensures r in w.heads && w.heads[r].pool < POOLS && |w.free| == POOLS
    ensures var w' := Apply(w, Free(r));
      && Inv(w')
      && w' == (if w.heads[r].isBlock then PutBack(w, r) else Release(w, r))
      && RegionsHeld(w', if w.heads[r].isBlock then regions else regions - {r})
  {
    hide SlabsInv, BlocksInv, ExtentsDisjoint, FreeListInv, RegionsHeld, IsBlockOf, Capacity;
    assert HeaderOk(w.slabs, w.extra, r, w.heads[r]);
    ApplyKeepsInv(w, Free(r));
    var w' := Apply(w, Free(r));
    if w.heads[r].isBlock {
      RegionsStay(w, regions, w');
    } else {
      RegionsShrink(w, regions, r, w');
    }
  }

  // Building the pools one after the other.

  ghost predicate Built(heads: map<int, Header>, regions: map<int, nat>, slabs: seq<Slab>) {
    && (forall i | 0 <= i < |slabs| :: SlabBuilt(heads, slabs[i], i))
    && (forall r | r in heads :: IsSlabHead(slabs, r))
    && SlabsApart(slabs)
    && forall i | 0 <= i < |slabs| && slabs[i].count > 0 ::
         slabs[i].base in regions && regions[slabs[i].base] == slabs[i].count * Stride(slabs[i])
  }

  lemma BuiltNone()
    ensures Built(map[], map[], [])
  {
  }

  lemma NewBlocksElsewhere(regions: map<int, nat>, regions': map<int, nat>, q: Slab, k: int, p: Slab)
    requires RegionAdded(regions, regions', p) && 0 <= k < q.count
    requires q.base in regions && regions[q.base] == q.count * Stride(q)
    ensures !IsBlockOf(p, BlockAt(q, k))
  {
    var n := p.count * Stride(p);
    if p.count > 0 {
      assert p.base + n <= q.base || q.base + regions[q.base] <= p.base;
      BlockInSlab(q, k);
      forall j | 0 <= j < p.count ensures BlockAt(q, k) != BlockAt(p, j) {
        BlockInSlab(p, j);
      }
    }
  }

  lemma BuiltGrows(heads: map<int, Header>, heads': map<int, Header>, regions: map<int, nat>, regions': map<int, nat>,
                   slabs: seq<Slab>, p: Slab)
    requires Built(heads, regions, slabs)
    requires SlabAdded(heads, heads', p, |slabs|) && RegionAdded(regions, regions', p)
    ensures Built(heads', regions', slabs + [p])
  {
    hide BlockAt;
    var all := slabs + [p];
    forall i | 0 <= i < |slabs| ensures SlabBuilt(heads', slabs[i], i) {
      assert SlabBuilt(heads, slabs[i], i);
      forall k | 0 <= k < slabs[i].count
        ensures BlockAt(slabs[i], k) in heads' && heads'[BlockAt(slabs[i], k)] == StartHeader(slabs[i], i, k)
      {
        NewBlocksElsewhere(regions, regions', slabs[i], k, p);
      }
    }
    forall r | r in heads' ensures IsSlabHead(all, r) {
      if r in heads {
        var i :| 0 <= i < |slabs| && IsBlockOf(slabs[i], r);
        assert IsBlockOf(all[i], r);
      } else {
        assert IsBlockOf(all[|slabs|], r);
      }
    }
  }

  /** The pools just built are the start of a run. */
  lemma StartState(w: World, regions: map<int, nat>)
    requires |w.slabs| == |w.free| == |w.tops| == POOLS && w.extra == map[] && w.live == map[]
    requires forall i | 0 <= i < POOLS ::
        && w.slabs[i].maxSize == ClassSize(i) && w.slabs[i].count == PoolCount(i)
        && w.free[i] == AllBlocks(w.slabs[i], 0) && w.tops[i] == if w.slabs[i].count > 0 then w.slabs[i].base else 0
    requires Built(w.heads, regions, w.slabs)
    ensures IsStart(w) && Inv(w) && RegionsHeld(w, regions)
  {
    hide SlabBuilt, IsSlabHead, SlabsApart, Inv;
    StartInv(w);
  }

  /** Pool i as the constructor leaves it. */
  ghost predicate IsPool(p: MemoryPool, heap: Heap, i: nat)
    reads p
  {
    p.heap == heap && p.index == i && p.maxSize == ClassSize(i) && p.count == PoolCount(i)
    && p.head == if p.count > 0 then p.base else 0
  }

  class MemoryMgr {
    const heap: Heap
    const pools: seq<MemoryPool>
    ghost var free: seq<seq<int>>
    ghost var extra: map<int, nat>
    ghost var live: map<int, int>

    constructor ()
      ensures Valid() && IsStart(State()) && fresh(heap) && forall p | p in pools :: fresh(p)
      ensures forall i | 0 <= i < POOLS :: State().slabs[i].count == PoolCount(i)
    {
      hide Inv, IsStart, Built, RegionsHeld;
      var memory, built;
      ghost var slabs;
      memory, built, slabs := BuildPools();
      heap, pools := memory, built;
      free := seq(POOLS, i requires 0 <= i < |slabs| => AllBlocks(slabs[i], 0));
      extra, live := map[], map[];
      new;
      assert Slabs() == slabs;
      StartState(State(), heap.regions);
    }

    /** The constructor's initialisers, one pool after the other. */
    static method BuildPools() returns (memory: Heap, built: seq<MemoryPool>, ghost slabs: seq<Slab>)
      ensures fresh(memory) && memory.Valid() && |built| == |slabs| == POOLS
      ensures forall j | 0 <= j < POOLS ::
                IsPool(built[j], memory, j) && fresh(built[j]) && built[j].AsSlab() == slabs[j]
      ensures forall j, k | 0 <= j < k < POOLS :: built[j] != built[k]
      ensures Built(memory.heads, memory.regions, slabs)
    {
      hide Built, RegionAdded, SlabAdded;
      memory := new Heap();
      built, slabs := [], [];
      BuiltNone();
      for i := 0 to POOLS
        invariant |built| == |slabs| == i && fresh(memory) && memory.Valid()
        invariant forall j | 0 <= j < i ::
            IsPool(built[j], memory, j) && fresh(built[j]) && built[j].AsSlab() == slabs[j]
        invariant forall j, k | 0 <= j < k < i :: built[j] != built[k]
        invariant Built(memory.heads, memory.regions, slabs)
      {
        ghost var heads, regions := memory.heads, memory.regions;
        var pool := new MemoryPool(ClassSize(i), PoolCount(i), i, memory);
        BuiltGrows(heads, memory.heads, regions, memory.regions, slabs, pool.AsSlab());
        built, slabs := built + [pool], slabs + [pool.AsSlab()];
      }
    }

    ghost function Slabs(): (s: seq<Slab>)
      ensures |s| == |pools| && forall i | 0 <= i < |s| :: s[i] == pools[i].AsSlab()
    {
      seq(|pools|, i requires 0 <= i < |pools| => pools[i].AsSlab())
    }

    ghost function Tops(): (s: seq<int>)
      reads pools
      ensures |s| == |pools| && forall i | 0 <= i < |s| :: s[i] == pools[i].head
    {
      seq(|pools|, i requires 0 <= i < |pools| reads pools => pools[i].head)
    }

    ghost function State(): World
      reads this, heap, pools
    {
      World(heap.heads, Slabs(), Tops(), free, extra, live)
    }

    ghost predicate PoolsWired() {
      && |pools| == POOLS
      && (forall i | 0 <= i < POOLS :: pools[i].index == i && pools[i].heap == heap)
      && forall i, j | 0 <= i < j < POOLS :: pools[i] != pools[j]
    }

    ghost predicate Valid()
      reads this, heap, pools
    {
      PoolsWired() && heap.Valid() && RegionsHeld(State(), heap.regions) && Inv(State())
    }

    /** What the fields must hold after an allocation, said of the state before. */
    ghost predicate IsAfter(w: World)
      reads this, heap, pools
    {
      && heap.heads == w.heads && Slabs() == w.slabs && Tops() == w.tops
      && free == w.free && extra == w.extra && live == w.live
    }

    lemma Arrives(w: World)
      requires PoolsWired() && heap.Valid() && IsAfter(w) && Inv(w) && RegionsHeld(w, heap.regions)
      ensures Valid() && State() == w
    {
      hide Inv, RegionsHeld;
    }

    method AllocFrom(i: nat, size: int) returns (ptr: int)
      requires Valid() && i == ClassOf(size) && i != OTHER
      modifies this`free, this`extra, this`live, heap, pools
      ensures Valid()
      ensures Enabled(old(State()), Alloc(size, ptr - HEAD_SIZE))
      ensures State() == Apply(old(State()), Alloc(size, ptr - HEAD_SIZE))
      ensures ptr - HEAD_SIZE == Chosen(old(State()), size, ptr - HEAD_SIZE)
    {
      hide Inv, FreshExtent, Unused, RegionsHeld, Apply, Enabled, ClassOf;
      ghost var w, regions := State(), heap.regions;
      TopIsBlock(w, i);
      ptr := pools[i].AllocMemory();
      ghost var a := ptr - HEAD_SIZE;
      ghost var head := pools[i].head;
      assert Tops() == w.tops[i := head];
      live := live[a := size];
      if w.tops[i] == 0 {
        extra := extra[a := ClassSize(i)];
        FallbackStep(w, regions, size, a);
      } else {
        free := free[i := free[i][1..]];
        TakeStep(w, regions, i, size, a);
      }
      Arrives(Apply(w, Alloc(size, a)));
    }

    method AllocOther(size: int) returns (ptr: int)
      requires Valid() && ClassOf(size) == OTHER
      modifies this`free, this`extra, this`live, heap, pools
      ensures Valid()
      ensures Enabled(old(State()), Alloc(size, ptr - HEAD_SIZE))
      ensures State() == Apply(old(State()), Alloc(size, ptr - HEAD_SIZE))
      ensures ptr - HEAD_SIZE == Chosen(old(State()), size, ptr - HEAD_SIZE)
    {
      hide Inv, FreshExtent, Unused, RegionsHeld, Apply, Enabled, ClassOf;
      ghost var w, regions := State(), heap.regions;
      OtherHasNone(w);
      OtherIsLarge(size);
      ptr := pools[OTHER].AllocSized(size);
      ghost var a := ptr - HEAD_SIZE;
      extra := extra[a := size];
      FallbackStep(w, regions, size, a);
      live := live[a := size];
      assert Tops() == Apply(w, Alloc(size, a)).tops;
      Arrives(Apply(w, Alloc(size, a)));
    }

    /** The comparison chain: the first class that holds size bytes. */
    static method ChooseClass(size: int) returns (i: nat)
      ensures i == ClassOf(size)
    {
      if size <= 8 {
        return 0;
      }
      if size <= 16 {
        return 1;
      }
      if size <= 32 {
        return 2;
      }
      if size <= 64 {
        return 3;
      }
      if size <= 128 {
        return 4;
      }
      if size <= 256 {
        return 5;
      }
      if size <= 512 {
        return 6;
      }
      if size <= 1024 {
        return 7;
      }
      if size <= 2048 {
        return 8;
      }
      return OTHER;
    }

    /** A block from the pool of the size's class, or of the size itself from malloc. */
    method AllocMemory(size: int) returns (ptr: int)
      requires Valid() && size <= INT_MAX - HEAD_SIZE
      modifies this`free, this`extra, this`live, heap, pools
      ensures Valid()
      ensures Enabled(old(State()), Alloc(size, ptr - HEAD_SIZE))
      ensures State() == Apply(old(State()), Alloc(size, ptr - HEAD_SIZE))
      ensures ptr - HEAD_SIZE == Chosen(old(State()), size, ptr - HEAD_SIZE)
    {
      var i := ChooseClass(size);
      if i == OTHER {
        ptr := AllocOther(size);
      } else {
        ptr := AllocFrom(i, size);
      }
    }

    /** Routed by the pool pointer in the block's header. */
    method FreeMemory(ptr: int)
      requires Valid() && ptr - HEAD_SIZE in live
      modifies this`free, this`extra, this`live, heap, pools
      ensures Valid()
      ensures State() == Apply(old(State()), Free(ptr - HEAD_SIZE))
    {
      hide Inv, RegionsHeld, Apply;
      ghost var w, regions, r := State(), heap.regions, ptr - HEAD_SIZE;
      FreeStep(w, regions, r);
      var i := heap.heads[ptr - HEAD_SIZE].pool;
      pools[i].FreeMemory(ptr);
      if w.heads[r].isBlock {
        free := free[i := [r] + free[i]];
      } else {
        extra := extra - {r};
      }
      live := live - {r};
      assert Tops() == Apply(w, Free(r)).tops;
      Arrives(Apply(w, Free(r)));
    }
  }
}
