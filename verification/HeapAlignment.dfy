/** When the pointers of src/memory/heap.rs have the alignment their layout asks for. */
module HeapAlignment {
  import opened Kernel
  import opened Bits
  import opened Heap
  import opened HeapRuns

  lemma ModAddMultiple(x: nat, k: nat, m: nat, a: nat)
    requires a > 0 && m % a == 0
    ensures (x + k * m) % a == x % a
  {
    var q := m / a;
    QuotientTimes(m, a);
    assert k * m == (k * q) * a by { MulAssoc(k, q, a); }
    DivMultiple(x, a, k * q);
  }

  lemma MulAssoc(k: nat, q: nat, a: nat)
    ensures k * (q * a) == (k * q) * a
  {
  }

  lemma {:induction false} Pow2Strict(a: nat, b: nat)
    requires a < b
    ensures Pow2(a) < Pow2(b)
  {
    Pow2Monotone(a, b - 1);
  }

  /** A block size that is at least an alignment is a multiple of it. */
  lemma AlignDividesClass(l: Layout, c: nat)
    requires Align(l) <= ClassSize(c)
    ensures ClassSize(c) % Align(l) == 0
  {
    Pow2Add(3, c);
    assert Pow2(3) == 8;
    if l.log > 3 + c { Pow2Strict(3 + c, l.log); }
    Pow2Add(3 + c - l.log, l.log);
    DivMultiple(0, Align(l), Pow2(3 + c - l.log));
  }

  /** A request that carves a page gets an aligned block exactly when the page starts aligned. */
  lemma CarvedAlignedExactlyWhen(h: Heap, l: Layout)
    requires WellShaped(h) && ClassOf(l).Some? && ClassOf(l).value < SLAB_CLASSES
    requires h.slabs[ClassOf(l).value].free == [] && Alloc(h, l).1.Some?
    ensures Alloc(h, l).1.value % Align(l) == 0 <==> (h.start + h.bump) % Align(l) == 0
  {
    var c := ClassOf(l).value;
    ClassOfBounds(l);
    ClassSizes(c);
    AlignDividesClass(l, c);
    var n := NewBlocks(h.slabs[c]);
    assert Alloc(h, l) == AllocFromSlab(h, c);
    assert Alloc(h, l).1.value == h.start + h.bump + (n - 1) * ClassSize(c);
    ModAddMultiple(h.start + h.bump, n - 1, ClassSize(c), Align(l));
  }

  /** Every free block is aligned to its block size, every live block to its own alignment (and, if it
      came from a slab, to its block size). */
  ghost predicate AllAligned(t: Tracked) {
    && (forall i, k | IsFree(t.heap, i, k) :: ClassSize(i) > 0 && FreeBlock(t.heap, i, k) % ClassSize(i) == 0)
    && (forall p | p in t.live ::
          && p % Align(t.live[p]) == 0
          && (ClassOf(t.live[p]).Some? ==> p % ClassSize(ClassOf(t.live[p]).value) == 0))
  }

  /** A large request that succeeds finds the heap base aligned for it, and a request that carves blocks finds the bump
      offset at a multiple of the block size. */
  predicate OnBoundary(t: Tracked, op: Op)
    requires WellShaped(t.heap)
  {
    op.Take? ==>
      var (h, l) := (t.heap, op.layout);
      ClassOfBounds(l);
      match ClassOf(l)
      case None => AlignUp(h.bump, Align(l)) + AlignedSize(l) <= h.size ==> h.start % Align(l) == 0
      case Some(c) =>
        ClassSizes(c);
        h.slabs[c].free == [] && h.slabs[c].total < MAX_BLOCKS && h.bump + 4096 <= h.size ==>
          (h.start + h.bump) % ClassSize(c) == 0
  }

  lemma AlignedToClassIsAligned(p: nat, l: Layout, c: nat)
    requires ClassOf(l) == Some(c) && ClassSize(c) > 0 && p % ClassSize(c) == 0
    ensures p % Align(l) == 0
  {
    ClassOfBounds(l);
    AlignDividesClass(l, c);
    QuotientTimes(p, ClassSize(c));
    ModAddMultiple(0, p / ClassSize(c), ClassSize(c), Align(l));
  }

  lemma PageIsAligned(page: nat, c: nat)
    requires c < SLAB_CLASSES && page % 4096 == 0
    ensures ClassSize(c) > 0 && page % ClassSize(c) == 0
  {
    ClassSizes(c);
    ModAddMultiple(0, page / 4096, 4096, ClassSize(c));
  }

  lemma PopAligned(t: Tracked, c: nat, l: Layout)
    requires Inv(t.heap, t.live) && AllAligned(t) && ClassOf(l) == Some(c) && c < SLAB_CLASSES
    requires t.heap.slabs[c].free != []
    ensures var (h, r) := Pop(t.heap, c); AllAligned(Tracked(h, t.live[r.value := l]))
  {
    var (h, r) := Pop(t.heap, c);
    var top := |t.heap.slabs[c].free| - 1;
    assert IsFree(t.heap, c, top) && FreeBlock(t.heap, c, top) == r.value;
    AlignedToClassIsAligned(r.value, l, c);
    forall i, k | IsFree(h, i, k)
      ensures ClassSize(i) > 0 && FreeBlock(h, i, k) % ClassSize(i) == 0
    {
      PopFree(t.heap, c, i, k);
    }
  }

  lemma CarveAligned(t: Tracked, c: nat, page: nat)
    requires Inv(t.heap, t.live) && AllAligned(t) && c < SLAB_CLASSES && t.heap.slabs[c].blockSize > 0
    requires page == t.heap.start + t.heap.bump && ClassSize(c) > 0 && page % ClassSize(c) == 0
    ensures AllAligned(Tracked(Carve(t.heap, c), t.live))
  {
    var h := Carve(t.heap, c);
    forall i, k | IsFree(h, i, k)
      ensures ClassSize(i) > 0 && FreeBlock(h, i, k) % ClassSize(i) == 0
    {
      ClassSizes(i);
      CarveFree(t.heap, c, i, k);
      var had := |t.heap.slabs[c].free|;
      if i == c && k >= had { ModAddMultiple(page, k - had, ClassSize(c), ClassSize(c)); }
    }
  }

  lemma BumpAlignedIff(t: Tracked, l: Layout)
    requires Inv(t.heap, t.live) && AllAligned(t) && ClassOf(l).None?
    ensures var (h, r) := AllocBump(t.heap, AlignedSize(l), Align(l));
      AllAligned(Tracked(h, if r.Some? then t.live[r.value := l] else t.live)) <==>
        r.None? || t.heap.start % Align(l) == 0
  {
    var a := Align(l);
    var (h, r) := AllocBump(t.heap, AlignedSize(l), a);
    AlignUpMultiple(t.heap.bump, a);
    QuotientTimes(AlignUp(t.heap.bump, a), a);
    ModAddMultiple(t.heap.start, AlignUp(t.heap.bump, a) / a, a, a);
    forall i, k | IsFree(h, i, k)
      ensures IsFree(t.heap, i, k) && FreeBlock(h, i, k) == FreeBlock(t.heap, i, k)
    {
    }
    if r.Some? { assert r.value in t.live[r.value := l]; }
  }

  /** The block handed out of a carved page is aligned to its size exactly when the page is. */
  lemma CarvedBlock(h: Heap, c: nat)
    requires WellShaped(h) && c < SLAB_CLASSES && h.slabs[c].blockSize > 0 && h.slabs[c].free == []
    requires h.slabs[c].total < MAX_BLOCKS && h.bump + 4096 <= h.size
    ensures Carve(h, c).slabs[c].free != [] && AllocFromSlab(h, c) == Pop(Carve(h, c), c) && ClassSize(c) > 0
    ensures AllocFromSlab(h, c).1.value % ClassSize(c) == (h.start + h.bump) % ClassSize(c)
  {
    ClassSizes(c);
    CarveCount(h, c);
    var n := NewBlocks(h.slabs[c]);
    assert AllocFromSlab(h, c).1.value == h.start + h.bump + (n - 1) * ClassSize(c);
    ModAddMultiple(h.start + h.bump, n - 1, ClassSize(c), ClassSize(c));
  }

  lemma CarvedIff(t: Tracked, l: Layout, c: nat)
    requires Inv(t.heap, t.live) && AllAligned(t) && ClassOf(l) == Some(c) && c < SLAB_CLASSES
    requires t.heap.slabs[c].free == [] && t.heap.slabs[c].total < MAX_BLOCKS && t.heap.bump + 4096 <= t.heap.size
    requires t.heap.slabs[c].blockSize > 0
    ensures var (h, r) := AllocFromSlab(t.heap, c);
      && r.Some? && ClassSize(c) > 0
      && (AllAligned(Tracked(h, t.live[r.value := l])) <==> (t.heap.start + t.heap.bump) % ClassSize(c) == 0)
  {
    CarvedBlock(t.heap, c);
    var r := AllocFromSlab(t.heap, c).1;
    if (t.heap.start + t.heap.bump) % ClassSize(c) == 0 {
      CarveAligned(t, c, t.heap.start + t.heap.bump);
      CarveKeepsInv(t.heap, t.live, c);
      PopAligned(Tracked(Carve(t.heap, c), t.live), c, l);
    } else {
      assert r.value in t.live[r.value := l];
    }
  }

  lemma NothingCarved(t: Tracked, c: nat)
    requires Inv(t.heap, t.live) && AllAligned(t) && c < SLAB_CLASSES && t.heap.slabs[c].blockSize > 0
    requires t.heap.slabs[c].free == [] && (t.heap.slabs[c].total == MAX_BLOCKS || t.heap.bump + 4096 > t.heap.size)
    ensures AllocFromSlab(t.heap, c).1.None? && AllAligned(Tracked(AllocFromSlab(t.heap, c).0, t.live))
  {
    if t.heap.bump + 4096 <= t.heap.size { CarveCount(t.heap, c); }
    NullCostsAPage(t.heap, c);
    var h := AllocFromSlab(t.heap, c).0;
    forall i, k | IsFree(h, i, k)
      ensures IsFree(t.heap, i, k) && FreeBlock(h, i, k) == FreeBlock(t.heap, i, k)
    {
    }
  }

  /** From a heap whose blocks are all aligned, an operation leaves them so if and only if it finds its boundary. */
  lemma StepAlignedIff(t: Tracked, op: Op)
    requires Inv(t.heap, t.live) && AllAligned(t) && Allowed(t, op)
    ensures AllAligned(Step(t, op)) <==> OnBoundary(t, op)
  {
    match op {
      case Take(l) =>
        ClassOfBounds(l);
        match ClassOf(l) {
          case None => BumpAlignedIff(t, l);
          case Some(c) =>
            ClassSizes(c);
            if t.heap.slabs[c].free != [] {
              PopAligned(t, c, l);
            } else if t.heap.slabs[c].total < MAX_BLOCKS && t.heap.bump + 4096 <= t.heap.size {
              CarvedIff(t, l, c);
            } else {
              NothingCarved(t, c);
            }
        }
      case Give(p) => GiveAligned(t, p);
    }
  }

  lemma GiveAligned(t: Tracked, p: nat)
    requires Inv(t.heap, t.live) && AllAligned(t) && p in t.live
    ensures AllAligned(Step(t, Give(p)))
  {
    var h := Dealloc(t.heap, p, t.live[p]);
    ClassOfBounds(t.live[p]);
    forall i, k | IsFree(h, i, k)
      ensures ClassSize(i) > 0 && FreeBlock(h, i, k) % ClassSize(i) == 0
    {
      ClassSizes(i);
      if IsFree(t.heap, i, k) { assert FreeBlock(h, i, k) == FreeBlock(t.heap, i, k); }
    }
  }

  lemma InitAligned(start: nat, size: nat)
    requires start % 4096 == 0
    ensures AllAligned(Tracked(InitHeap(start, size), map[]))
  {
    var h := InitHeap(start, size);
    forall i, k | IsFree(h, i, k)
      ensures ClassSize(i) > 0 && FreeBlock(h, i, k) % ClassSize(i) == 0
    {
      InitFree(start, size, i, k);
      PageIsAligned(start + i * 4096, i);
      ModAddMultiple(start + i * 4096, k, ClassSize(i), ClassSize(i));
    }
  }

  /** The first `n` operations of the run find their boundaries. */
  ghost predicate OnBoundaries(trace: seq<Tracked>, ops: seq<Op>, n: nat)
    requires IsRun(trace, ops) && n <= |ops|
  {
    forall j | 0 <= j < n :: OnBoundary(trace[j], ops[j])
  }

  /** In every state of every run the blocks are aligned up to state `n` if and only if the first `n` operations find
      their boundaries. */
  lemma {:induction false} RunAlignedIff(trace: seq<Tracked>, ops: seq<Op>, n: nat)
    requires IsRun(trace, ops) && Inv(trace[0].heap, trace[0].live) && AllAligned(trace[0]) && n <= |ops|
    ensures (forall k | 0 <= k <= n :: AllAligned(trace[k])) <==> OnBoundaries(trace, ops, n)
    decreases n
  {
    if n > 0 {
      var m := n - 1;
      RunAlignedIff(trace, ops, m);
      RunKeepsInv(trace, ops, m);
      assert trace[m + 1] == Step(trace[m], ops[m]);
      if forall k | 0 <= k <= m :: AllAligned(trace[k]) { StepAlignedIff(trace[m], ops[m]); }
    }
  }

  // ---------------------------------------------------------------- a run that breaks alignment

  lemma LargeRequest(h: Heap)
    requires WellShaped(h) && h.bump + 5000 <= h.size
    ensures Alloc(h, Layout(5000, 0)) == (h.(bump := h.bump + 5000), Some(h.start + h.bump))
  {
    var l := Layout(5000, 0);
    assert Align(l) == 1;
    ClassMeaning(5000);
    AlignUpBounds(h.bump, Align(l));
  }

  lemma PageClass()
    ensures ClassOf(Layout(4096, 12)) == Some(9) && Align(Layout(4096, 12)) == 4096
  {
    assert Pow2(12) == 4096;
    ClassMeaning(4096);
    ClassSizes(9);
    ClassSizes(8);
    assert ClassOf(Layout(4096, 12)).value >= 9 by {
      var c := ClassOf(Layout(4096, 12)).value;
      if c < 9 { SmallerClass(c); }
    }
  }

  lemma SmallerClass(c: nat)
    requires c < 9
    ensures ClassSize(c) < 4096
  {
    ClassSizes(c + 1);
  }

  /** With one free page-sized block left, a request for a page takes it; the next one carves a page at the bump
      offset. */
  lemma LastPage(h: Heap)
    requires WellShaped(h) && |h.slabs[9].free| == 1 && h.slabs[9].total == 1
    ensures Alloc(h, Layout(4096, 12)).0 == h.(slabs := h.slabs[9 := Slab(4096, [], 1)])
    ensures WellShaped(h.(slabs := h.slabs[9 := Slab(4096, [], 1)]))
  {
    PageClass();
    ClassSizes(9);
    assert h.slabs[9].free[..0] == [];
  }

  lemma CarvesPage(h: Heap)
    requires WellShaped(h) && h.slabs[9] == Slab(4096, [], 1) && h.bump + 4096 <= h.size
    ensures Alloc(h, Layout(4096, 12)).1 == Some(h.start + h.bump)
  {
    PageClass();
    ClassSizes(9);
    assert NewBlocks(h.slabs[9]) == 1;
    assert Alloc(h, Layout(4096, 12)) == Pop(Carve(h, 9), 9);
  }

  /** A page-aligned heap with one free page-sized block, as `init` makes it. */
  predicate Fresh(h: Heap) {
    && WellShaped(h)
    && h.start % 4096 == 0 && h.bump % 4096 == 0
    && |h.slabs[9].free| == 1 && h.slabs[9].total == 1
    && h.bump + 10000 <= h.size
  }

  lemma InitIsFresh(start: nat, size: nat)
    requires start % 4096 == 0 && size >= 50960
    ensures Fresh(InitHeap(start, size))
  {
    ClassSizes(9);
  }

  lemma MisalignedPage(h: Heap, start: nat, bump: nat)
    requires WellShaped(h) && h.slabs[9] == Slab(4096, [], 1) && h.bump + 4096 <= h.size
    requires h.start == start && h.bump == bump + 5000 && start % 4096 == 0 && bump % 4096 == 0
    ensures var r := Alloc(h, Layout(4096, 12)).1; r.Some? && r.value % 4096 == 904
  {
    CarvesPage(h);
    AfterLarge(start, bump);
  }

  /** From `init` on a page-aligned base: after one request for 5000 bytes, the second page-aligned request for a page
      gets a misaligned pointer. */
  lemma AlignmentFails(start: nat, size: nat, h1: Heap, h2: Heap)
    requires start % 4096 == 0 && size >= 50960 && h1 == Alloc(InitHeap(start, size), Layout(5000, 0)).0
    requires WellShaped(h1) ==> h2 == Alloc(h1, Layout(4096, 12)).0
    ensures WellShaped(h1) && WellShaped(h2)
    ensures var r := Alloc(h2, Layout(4096, 12)).1; r.Some? && r.value % 4096 == 904
  {
    var h := InitHeap(start, size);
    InitIsFresh(start, size);
    LargeRequest(h);
    LastPage(h1);
    MisalignedPage(h2, h.start, h.bump);
  }

  lemma AfterLarge(start: nat, bump: nat)
    requires start % 4096 == 0 && bump % 4096 == 0
    ensures (start + (bump + 5000)) % 4096 == 904
  {
    QuotientTimes(start, 4096);
    QuotientTimes(bump, 4096);
    DivUnique(start + (bump + 5000), 4096, start / 4096 + bump / 4096 + 1, 904);
  }
}
