/** Whole runs of `alloc` and `dealloc` of src/memory/heap.rs: live blocks never overlap and no block is lost. */
module HeapRuns {
  import opened Kernel
  import opened Bits
  import opened Heap

  /** The bytes reserved for a layout: a block of its class, or its aligned size in the bump region. */
  function Extent(l: Layout): nat {
    match ClassOf(l)
    case Some(c) => ClassSize(c)
    case None => AlignedSize(l)
  }

  predicate Apart(a: nat, n: nat, b: nat, m: nat) { a + n <= b || b + m <= a }

  predicate Within(h: Heap, a: nat, n: nat) { h.start <= a && a + n <= h.start + h.bump }

  /** Pointers handed out and not yet given back, each with its layout. */
  type Live = map<nat, Layout>

  function InClass(live: Live, c: nat): set<nat> { set p | p in live && ClassOf(live[p]) == Some(c) }

  predicate IsFree(h: Heap, i: int, k: int) { 0 <= i < |h.slabs| && 0 <= k < |h.slabs[i].free| }

  function FreeBlock(h: Heap, i: int, k: int): nat
    requires IsFree(h, i, k)
  {
    h.slabs[i].free[k]
  }

  ghost predicate FreeInside(h: Heap) {
    forall i, k | IsFree(h, i, k) :: Within(h, FreeBlock(h, i, k), ClassSize(i))
  }

  ghost predicate LiveInside(h: Heap, live: Live) {
    forall p | p in live :: Within(h, p, Extent(live[p])) && live[p].size >= 1
  }

  ghost predicate FreeApart(h: Heap) {
    forall i, k, j, l | IsFree(h, i, k) && IsFree(h, j, l) && (i != j || k != l) ::
      Apart(FreeBlock(h, i, k), ClassSize(i), FreeBlock(h, j, l), ClassSize(j))
  }

  ghost predicate FreeApartFromLive(h: Heap, live: Live) {
    forall i, k, p | IsFree(h, i, k) && p in live :: Apart(FreeBlock(h, i, k), ClassSize(i), p, Extent(live[p]))
  }

  ghost predicate LiveApart(live: Live) {
    forall p, q | p in live && q in live && p != q :: Apart(p, Extent(live[p]), q, Extent(live[q]))
  }

  /** Every block of a class is on its free list or live. */
  ghost predicate Conserved(h: Heap, live: Live) {
    forall c | 0 <= c < |h.slabs| :: |h.slabs[c].free| + |InClass(live, c)| == h.slabs[c].total
  }

  ghost predicate Inv(h: Heap, live: Live) {
    && WellShaped(h)
    && h.bump <= h.size
    && FreeInside(h)
    && LiveInside(h, live)
    && FreeApart(h)
    && FreeApartFromLive(h, live)
    && LiveApart(live)
    && Conserved(h, live)
  }

  // ---------------------------------------------------------------- counting live blocks

  lemma InClassAdd(live: Live, p: nat, l: Layout, c: nat)
    requires p !in live
    ensures |InClass(live[p := l], c)| == |InClass(live, c)| + if ClassOf(l) == Some(c) then 1 else 0
  {
    var after := InClass(live[p := l], c);
    if ClassOf(l) == Some(c) {
      assert after == InClass(live, c) + {p};
    } else {
      assert after == InClass(live, c);
    }
  }

  lemma InClassRemove(live: Live, p: nat, c: nat)
    requires p in live
    ensures |InClass(live - {p}, c)| == |InClass(live, c)| - if ClassOf(live[p]) == Some(c) then 1 else 0
  {
    var after := InClass(live - {p}, c);
    if ClassOf(live[p]) == Some(c) {
      assert InClass(live, c) == after + {p};
    } else {
      assert after == InClass(live, c);
    }
  }

  // ---------------------------------------------------------------- taking a free block

  lemma ExtentPositive(l: Layout)
    requires l.size >= 1
    ensures Extent(l) >= l.size
  {
    ClassOfBounds(l);
  }

  /** A block on a free list is not live. */
  lemma FreeNotLive(h: Heap, live: Live, i: nat, k: nat)
    requires Inv(h, live) && IsFree(h, i, k)
    ensures FreeBlock(h, i, k) !in live
  {
    var p := FreeBlock(h, i, k);
    if p in live {
      ExtentPositive(live[p]);
      ClassSizes(i);
      NotApartFromItself(p, ClassSize(i), Extent(live[p]));
    }
  }

  lemma NotApartFromItself(a: nat, n: nat, m: nat)
    requires n > 0 && m > 0
    ensures !Apart(a, n, a, m)
  {
  }

  /** The free blocks that remain after taking the top block of class `c`. */
  lemma PopFree(h: Heap, c: nat, i: int, k: int)
    requires c < |h.slabs| && h.slabs[c].free != [] && IsFree(Pop(h, c).0, i, k)
    ensures IsFree(h, i, k) && FreeBlock(Pop(h, c).0, i, k) == FreeBlock(h, i, k)
    ensures i != c || k != |h.slabs[c].free| - 1
  {
  }

  lemma PopApart(h: Heap, live: Live, c: nat, l: Layout)
    requires Inv(h, live) && c < SLAB_CLASSES && h.slabs[c].free != [] && ClassOf(l) == Some(c)
    ensures var (h1, p) := Pop(h, c);
      FreeInside(h1) && FreeApart(h1) && FreeApartFromLive(h1, live[p.value := l])
  {
    var top := |h.slabs[c].free| - 1;
    var p := h.slabs[c].free[top];
    var h1 := Pop(h, c).0;
    assert IsFree(h, c, top) && FreeBlock(h, c, top) == p;
    forall i, k | IsFree(h1, i, k)
      ensures IsFree(h, i, k) && FreeBlock(h1, i, k) == FreeBlock(h, i, k)
      ensures Apart(FreeBlock(h, i, k), ClassSize(i), p, ClassSize(c))
    {
      PopFree(h, c, i, k);
      assert Apart(FreeBlock(h, i, k), ClassSize(i), FreeBlock(h, c, top), ClassSize(c));
    }
  }

  /** Adding a block that is inside the heap and apart from the live ones. */
  lemma AddLive(h: Heap, live: Live, p: nat, l: Layout)
    requires LiveInside(h, live) && LiveApart(live) && p !in live
    requires l.size >= 1 && Within(h, p, Extent(l))
    requires forall q | q in live :: Apart(p, Extent(l), q, Extent(live[q]))
    ensures LiveInside(h, live[p := l]) && LiveApart(live[p := l])
  {
  }

  lemma PopCounts(h: Heap, live: Live, c: nat, l: Layout)
    requires WellShaped(h) && Conserved(h, live) && c < SLAB_CLASSES && h.slabs[c].free != []
    requires ClassOf(l) == Some(c) && Pop(h, c).1.value !in live
    ensures Conserved(Pop(h, c).0, live[Pop(h, c).1.value := l])
  {
    var (h1, p) := Pop(h, c);
    forall d | 0 <= d < |h1.slabs|
      ensures |h1.slabs[d].free| + |InClass(live[p.value := l], d)| == h1.slabs[d].total
    {
      InClassAdd(live, p.value, l, d);
    }
  }

  lemma PopKeepsInv(h: Heap, live: Live, c: nat, l: Layout)
    requires Inv(h, live) && c < SLAB_CLASSES && h.slabs[c].free != []
    requires ClassOf(l) == Some(c) && l.size >= 1
    ensures Pop(h, c).1.value !in live
    ensures Inv(Pop(h, c).0, live[Pop(h, c).1.value := l])
  {
    var top := |h.slabs[c].free| - 1;
    var p := FreeBlock(h, c, top);
    FreeNotLive(h, live, c, top);
    PopApart(h, live, c, l);
    PopCounts(h, live, c, l);
    assert Within(h, p, Extent(l)) by { assert IsFree(h, c, top); }
    AddLive(Pop(h, c).0, live, p, l);
  }

  // ---------------------------------------------------------------- carving a page

  lemma BlockInPage(page: nat, size: nat, j: nat, n: nat)
    requires j < n && n * size <= 4096
    ensures page <= page + j * size && page + j * size + size <= page + 4096
  {
    MulStep(j, n, size);
  }

  lemma BlocksApart(page: nat, size: nat, j: nat, k: nat)
    requires j != k
    ensures Apart(page + j * size, size, page + k * size, size)
  {
    if j < k { MulStep(j, k, size); } else { MulStep(k, j, size); }
  }

  lemma NewBlocksFit(s: Slab)
    requires s.blockSize > 0 && s.total <= MAX_BLOCKS
    ensures 0 <= NewBlocks(s) && NewBlocks(s) * s.blockSize <= 4096
  {
    var q := 4096 / s.blockSize;
    assert q * s.blockSize <= 4096;
    MulMonotone(NewBlocks(s), q, s.blockSize);
  }

  /** A free block of the carved heap: an old one, or a block of the new page. */
  lemma CarveFree(h: Heap, c: nat, i: int, k: int)
    requires WellShaped(h) && c < SLAB_CLASSES && IsFree(Carve(h, c), i, k)
    ensures var had := |h.slabs[c].free|;
      if i == c && k >= had then
        var a := FreeBlock(Carve(h, c), i, k);
        && a == h.start + h.bump + (k - had) * ClassSize(c)
        && h.start + h.bump <= a && a + ClassSize(c) <= h.start + h.bump + 4096
      else IsFree(h, i, k) && FreeBlock(Carve(h, c), i, k) == FreeBlock(h, i, k)
  {
    ClassSizes(c);
    NewBlocksFit(h.slabs[c]);
    var had := |h.slabs[c].free|;
    if i == c && k >= had {
      BlockInPage(h.start + h.bump, ClassSize(c), k - had, NewBlocks(h.slabs[c]));
    }
  }

  lemma CarveApart(h: Heap, live: Live, c: nat)
    requires Inv(h, live) && c < SLAB_CLASSES
    ensures FreeApart(Carve(h, c))
  {
    ClassSizes(c);
    var h1 := Carve(h, c);
    var had := |h.slabs[c].free|;
    forall i, k, j, l | IsFree(h1, i, k) && IsFree(h1, j, l) && (i != j || k != l)
      ensures Apart(FreeBlock(h1, i, k), ClassSize(i), FreeBlock(h1, j, l), ClassSize(j))
    {
      CarveFree(h, c, i, k);
      CarveFree(h, c, j, l);
      if i == c && k >= had && j == c && l >= had {
        BlocksApart(h.start + h.bump, ClassSize(c), k - had, l - had);
      }
    }
  }

  lemma CarveKeepsInv(h: Heap, live: Live, c: nat)
    requires Inv(h, live) && c < SLAB_CLASSES && h.bump + 4096 <= h.size
    ensures Inv(Carve(h, c), live)
  {
    ClassSizes(c);
    var h1 := Carve(h, c);
    forall i, k | IsFree(h1, i, k)
      ensures Within(h1, FreeBlock(h1, i, k), ClassSize(i))
    {
      CarveFree(h, c, i, k);
    }
    forall i, k, p | IsFree(h1, i, k) && p in live
      ensures Apart(FreeBlock(h1, i, k), ClassSize(i), p, Extent(live[p]))
    {
      CarveFree(h, c, i, k);
    }
    CarveApart(h, live, c);
  }

  /** `alloc_from_slab`: it answers null exactly when the free list is empty and either no page is left or the class
      has all its 1024 blocks; otherwise it hands out a block that is not live. */
  lemma AllocFromSlabKeepsInv(h: Heap, live: Live, c: nat, l: Layout)
    requires Inv(h, live) && c < SLAB_CLASSES && ClassOf(l) == Some(c) && l.size >= 1
    requires h.slabs[c].blockSize > 0
    ensures var (h1, r) := AllocFromSlab(h, c);
      && (r.None? <==> h.slabs[c].free == [] && (h.bump + 4096 > h.size || h.slabs[c].total == MAX_BLOCKS))
      && (r.Some? ==> r.value !in live && Inv(h1, live[r.value := l]))
      && (r.None? ==> Inv(h1, live))
  {
    if h.slabs[c].free != [] {
      PopKeepsInv(h, live, c, l);
    } else if h.bump + 4096 <= h.size {
      var h1 := Carve(h, c);
      CarveKeepsInv(h, live, c);
      CarveCount(h, c);
      if h1.slabs[c].free != [] {
        PopKeepsInv(h1, live, c, l);
      }
    }
  }

  lemma CarveCount(h: Heap, c: nat)
    requires WellShaped(h) && c < SLAB_CLASSES && h.slabs[c].free == [] && h.slabs[c].blockSize > 0
    ensures Carve(h, c).slabs[c].free == [] <==> h.slabs[c].total == MAX_BLOCKS
  {
    ClassSizes(c);
    QuotientPositive(4096, ClassSize(c));
  }

  lemma QuotientPositive(x: nat, m: nat)
    requires 0 < m <= x
    ensures x / m >= 1
  {
    if x / m == 0 { QuotientTimes(x, m); }
  }

  // ---------------------------------------------------------------- the bump path

  /** Moving the bump offset up changes no free block. */
  lemma BumpFree(h: Heap, h1: Heap, live: Live)
    requires FreeInside(h) && FreeApart(h) && FreeApartFromLive(h, live)
    requires h1.slabs == h.slabs && h1.start == h.start && h.bump <= h1.bump
    ensures FreeInside(h1) && FreeApart(h1) && FreeApartFromLive(h1, live)
    ensures forall i, k | IsFree(h1, i, k) :: FreeBlock(h1, i, k) + ClassSize(i) <= h.start + h.bump
  {
    assert forall i, k :: IsFree(h1, i, k) == IsFree(h, i, k);
    assert forall i, k | IsFree(h1, i, k) :: FreeBlock(h1, i, k) == FreeBlock(h, i, k);
  }

  /** A live block behind every free one is apart from them. */
  lemma BumpFreeApart(h: Heap, live: Live, l: Layout, p: nat, bound: nat)
    requires FreeApartFromLive(h, live) && h.start + bound <= p
    requires forall i, k | IsFree(h, i, k) :: FreeBlock(h, i, k) + ClassSize(i) <= h.start + bound
    ensures FreeApartFromLive(h, live[p := l])
  {
  }

  lemma BumpCounts(h: Heap, h1: Heap, live: Live, p: nat, l: Layout)
    requires Conserved(h, live) && h1.slabs == h.slabs && p !in live && ClassOf(l).None?
    ensures Conserved(h1, live[p := l])
  {
    forall d | 0 <= d < |h1.slabs|
      ensures |h1.slabs[d].free| + |InClass(live[p := l], d)| == h1.slabs[d].total
    {
      InClassAdd(live, p, l, d);
    }
  }

  lemma BeyondLive(h: Heap, live: Live, p: nat)
    requires LiveInside(h, live) && h.start + h.bump <= p
    ensures p !in live
  {
    if p in live { ExtentPositive(live[p]); }
  }

  lemma BumpLive(h: Heap, h1: Heap, live: Live, p: nat, l: Layout)
    requires LiveInside(h, live) && LiveApart(live) && h1.start == h.start && p !in live
    requires h.start + h.bump <= p && l.size >= 1 && ClassOf(l).None? && p + AlignedSize(l) == h1.start + h1.bump
    ensures LiveInside(h1, live[p := l]) && LiveApart(live[p := l])
  {
    AddLive(h1, live, p, l);
  }

  lemma BumpedInv(h: Heap, live: Live, l: Layout, p: nat, h1: Heap)
    requires Inv(h, live) && l.size >= 1 && ClassOf(l).None? && h.start + h.bump <= p
    requires h1 == h.(bump := p - h.start + AlignedSize(l)) && h1.bump <= h1.size
    ensures p !in live && Inv(h1, live[p := l])
  {
    BeyondLive(h, live, p);
    BumpFree(h, h1, live);
    BumpFreeApart(h1, live, l, p, h.bump);
    BumpCounts(h, h1, live, p, l);
    BumpLive(h, h1, live, p, l);
  }

  /** `alloc_bump` hands out fresh bytes behind everything handed out before. */
  lemma AllocBumpKeepsInv(h: Heap, live: Live, l: Layout, size: nat, align: nat)
    requires Inv(h, live) && l.size >= 1 && ClassOf(l).None? && size == AlignedSize(l) && align > 0
    ensures var (h1, r) := AllocBump(h, size, align);
      && (r.None? <==> AlignUp(h.bump, align) + size > h.size)
      && (r.Some? ==> r.value !in live && Inv(h1, live[r.value := l]))
      && (r.None? ==> h1 == h)
  {
    AlignUpBounds(h.bump, align);
    var (h1, r) := AllocBump(h, size, align);
    if r.Some? { BumpedInv(h, live, l, r.value, h1); }
  }

  /** `alloc`, whichever path it takes. */
  lemma AllocKeepsInv(h: Heap, live: Live, l: Layout)
    requires Inv(h, live) && l.size >= 1
    ensures var (h1, r) := Alloc(h, l);
      && (r.Some? ==> r.value !in live && Inv(h1, live[r.value := l]))
      && (r.None? ==> Inv(h1, live))
  {
    ClassOfBounds(l);
    match ClassOf(l) {
      case Some(c) =>
        ClassSizes(c);
        AllocFromSlabKeepsInv(h, live, c, l);
      case None => AllocBumpKeepsInv(h, live, l, AlignedSize(l), Align(l));
    }
  }

  // ---------------------------------------------------------------- giving a block back

  /** A live block's class has room on its free list, so `free_to_slab` never drops a block. */
  lemma RoomToFree(h: Heap, live: Live, p: nat, c: nat)
    requires Inv(h, live) && p in live && ClassOf(live[p]) == Some(c) && c < SLAB_CLASSES
    ensures |h.slabs[c].free| < MAX_BLOCKS
  {
    assert p in InClass(live, c);
  }

  lemma DeallocCounts(h: Heap, live: Live, p: nat)
    requires Inv(h, live) && p in live
    ensures Conserved(Dealloc(h, p, live[p]), live - {p})
  {
    var h1 := Dealloc(h, p, live[p]);
    ClassOfBounds(live[p]);
    forall d | 0 <= d < |h1.slabs|
      ensures |h1.slabs[d].free| + |InClass(live - {p}, d)| == h1.slabs[d].total
    {
      InClassRemove(live, p, d);
      if ClassOf(live[p]) == Some(d) { RoomToFree(h, live, p, d); }
    }
  }

  /** `dealloc` of a live pointer with its own layout. */
  lemma DeallocKeepsInv(h: Heap, live: Live, p: nat)
    requires Inv(h, live) && p in live
    ensures Inv(Dealloc(h, p, live[p]), live - {p})
  {
    ClassOfBounds(live[p]);
    DeallocCounts(h, live, p);
    match ClassOf(live[p]) {
      case Some(c) =>
        RoomToFree(h, live, p, c);
        PushApart(h, live, p, c);
      case None =>
    }
  }

  lemma PushApart(h: Heap, live: Live, p: nat, c: nat)
    requires Inv(h, live) && p in live && ClassOf(live[p]) == Some(c) && c < SLAB_CLASSES
    requires |h.slabs[c].free| < MAX_BLOCKS
    ensures var h1 := FreeToSlab(h, p, c);
      FreeInside(h1) && FreeApart(h1) && FreeApartFromLive(h1, live - {p})
  {
    var h1 := FreeToSlab(h, p, c);
    var top := |h.slabs[c].free|;
    forall i, k | IsFree(h1, i, k)
      ensures if i == c && k == top then FreeBlock(h1, i, k) == p
              else IsFree(h, i, k) && FreeBlock(h1, i, k) == FreeBlock(h, i, k)
    {
    }
  }

  /** A null answer of `alloc_from_slab` leaves the heap as it was exactly when no page was left; a class that has
      reached its 1024 blocks uses up a page at every failing request. */
  lemma NullCostsAPage(h: Heap, c: nat)
    requires WellShaped(h) && c < SLAB_CLASSES && h.slabs[c].blockSize > 0 && AllocFromSlab(h, c).1.None?
    ensures AllocFromSlab(h, c).0 == h <==> h.bump + 4096 > h.size
    ensures AllocFromSlab(h, c).0 != h ==> AllocFromSlab(h, c).0 == h.(bump := h.bump + 4096)
  {
    if h.bump + 4096 <= h.size {
      CarveCount(h, c);
      var h1 := Carve(h, c);
      assert h1.slabs[c] == h.slabs[c];
      assert h1.slabs == h.slabs;
    }
  }

  // ---------------------------------------------------------------- the initial heap

  /** Class `i` holding just the blocks of the page at `page`. */
  function PageSlab(page: nat, i: nat): Slab
    requires i < SLAB_CLASSES
  {
    ClassSizes(i);
    var n := Min(4096 / ClassSize(i), MAX_BLOCKS);
    Slab(ClassSize(i), Blocks(page, ClassSize(i), n), n)
  }

  /** Class `i` as `init` leaves it. */
  function InitSlab(start: nat, i: nat): Slab
    requires i < SLAB_CLASSES
  {
    PageSlab(start + i * 4096, i)
  }

  /** `init` */
  function InitHeap(start: nat, size: nat): Heap {
    Heap(start, size, SLAB_CLASSES * 4096, seq(SLAB_CLASSES, i requires 0 <= i < SLAB_CLASSES => InitSlab(start, i)))
  }

  lemma InitFree(start: nat, size: nat, i: int, k: int)
    requires IsFree(InitHeap(start, size), i, k)
    ensures var a := FreeBlock(InitHeap(start, size), i, k);
      && i < SLAB_CLASSES
      && a == start + i * 4096 + k * ClassSize(i)
      && start + i * 4096 <= a && a + ClassSize(i) <= start + i * 4096 + 4096
  {
    ClassSizes(i);
    var s := Slab(ClassSize(i), [], 0);
    NewBlocksFit(s);
    BlockInPage(start + i * 4096, ClassSize(i), k, NewBlocks(s));
  }

  /** The heap that `init` makes satisfies the invariant exactly when its ten pages fit. */
  lemma InitInv(start: nat, size: nat)
    ensures Inv(InitHeap(start, size), map[]) <==> size >= 40960
  {
    var h := InitHeap(start, size);
    forall i, k | IsFree(h, i, k)
      ensures Within(h, FreeBlock(h, i, k), ClassSize(i))
    {
      InitFree(start, size, i, k);
    }
    forall i, k, j, l | IsFree(h, i, k) && IsFree(h, j, l) && (i != j || k != l)
      ensures Apart(FreeBlock(h, i, k), ClassSize(i), FreeBlock(h, j, l), ClassSize(j))
    {
      InitFree(start, size, i, k);
      InitFree(start, size, j, l);
      if i == j { BlocksApart(start + i * 4096, ClassSize(i), k, l); }
    }
    forall c | 0 <= c < |h.slabs|
      ensures |InClass(map[], c)| == 0
    {
      assert InClass(map[], c) == {};
    }
  }

  // ---------------------------------------------------------------- runs

  datatype Tracked = Tracked(heap: Heap, live: Live)

  /** A request for a layout, or the return of a live pointer with its own layout. */
  datatype Op = Take(layout: Layout) | Give(ptr: nat)

  predicate Allowed(t: Tracked, op: Op) {
    match op
    case Take(l) => l.size >= 1
    case Give(p) => p in t.live
  }

  function Step(t: Tracked, op: Op): Tracked
    requires WellShaped(t.heap) && Allowed(t, op)
  {
    match op
    case Take(l) =>
      var (h, r) := Alloc(t.heap, l);
      Tracked(h, if r.Some? then t.live[r.value := l] else t.live)
    case Give(p) => Tracked(Dealloc(t.heap, p, t.live[p]), t.live - {p})
  }

  lemma StepKeepsInv(t: Tracked, op: Op)
    requires Inv(t.heap, t.live) && Allowed(t, op)
    ensures Inv(Step(t, op).heap, Step(t, op).live)
  {
    match op {
      case Take(l) => AllocKeepsInv(t.heap, t.live, l);
      case Give(p) => DeallocKeepsInv(t.heap, t.live, p);
    }
  }

  /** `trace` is a run: each state follows from the one before by an allowed operation. */
  ghost predicate IsRun(trace: seq<Tracked>, ops: seq<Op>) {
    && |trace| == |ops| + 1
    && (forall k | 0 <= k < |ops| ::
          WellShaped(trace[k].heap) && Allowed(trace[k], ops[k]) && trace[k + 1] == Step(trace[k], ops[k]))
  }

  lemma {:induction false} RunKeepsInv(trace: seq<Tracked>, ops: seq<Op>, k: nat)
    requires IsRun(trace, ops) && Inv(trace[0].heap, trace[0].live) && k < |trace|
    ensures Inv(trace[k].heap, trace[k].live)
    ensures trace[k].heap.start == trace[0].heap.start && trace[k].heap.size == trace[0].heap.size
  {
    if k > 0 {
      RunKeepsInv(trace, ops, k - 1);
      StepKeepsInv(trace[k - 1], ops[k - 1]);
      assert trace[k - 1 + 1] == Step(trace[k - 1], ops[k - 1]);
    }
  }

  /** Over every run from `init` on a heap of at least ten pages, in every state: live blocks lie inside the heap
      and are pairwise disjoint, across all classes and the bump path; each class's free and live blocks add up to its
      total, at most 1024; and no free list holds an address twice. */
  lemma EveryRun(trace: seq<Tracked>, ops: seq<Op>, k: nat, start: nat, size: nat)
    requires IsRun(trace, ops) && k < |trace| && trace[0] == Tracked(InitHeap(start, size), map[]) && size >= 40960
    ensures forall p | p in trace[k].live :: start <= p && p + trace[k].live[p].size <= start + size
    ensures forall p, q | p in trace[k].live && q in trace[k].live && p != q ::
      Apart(p, trace[k].live[p].size, q, trace[k].live[q].size)
    ensures forall c | 0 <= c < SLAB_CLASSES ::
      && |trace[k].heap.slabs| == SLAB_CLASSES
      && |trace[k].heap.slabs[c].free| + |InClass(trace[k].live, c)| == trace[k].heap.slabs[c].total <= MAX_BLOCKS
      && (forall i, j | 0 <= i < j < |trace[k].heap.slabs[c].free| ::
            trace[k].heap.slabs[c].free[i] != trace[k].heap.slabs[c].free[j])
  {
    InitInv(start, size);
    RunKeepsInv(trace, ops, k);
    var t := trace[k];
    forall p | p in t.live
      ensures Extent(t.live[p]) >= t.live[p].size
    {
      ExtentPositive(t.live[p]);
    }
    forall c, i, j | 0 <= c < SLAB_CLASSES && 0 <= i < j < |t.heap.slabs[c].free|
      ensures t.heap.slabs[c].free[i] != t.heap.slabs[c].free[j]
    {
      DistinctOnList(t.heap, t.live, c, i, j);
    }
  }

  lemma DistinctOnList(h: Heap, live: Live, c: nat, i: nat, j: nat)
    requires Inv(h, live) && c < SLAB_CLASSES && i < j < |h.slabs[c].free|
    ensures h.slabs[c].free[i] != h.slabs[c].free[j]
  {
    ClassSizes(c);
    assert IsFree(h, c, i) && IsFree(h, c, j);
    assert Apart(FreeBlock(h, c, i), ClassSize(c), FreeBlock(h, c, j), ClassSize(c));
  }
}
