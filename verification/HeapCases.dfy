/** A run of src/memory/heap.rs that exhausts a class, and what it then costs to ask for more. */
module HeapCases {
  import opened Kernel
  import opened Heap
  import opened HeapRuns

  lemma AllocShaped(h: Heap, l: Layout)
    requires WellShaped(h)
    ensures WellShaped(Alloc(h, l).0)
  {
    ClassInRange(AlignedSize(l));
  }

  /** The heap after `n` requests for the same layout. */
  function AllocN(h: Heap, l: Layout, n: nat): (r: Heap)
    requires WellShaped(h)
    ensures WellShaped(r)
    decreases n
  {
    if n == 0 then h
    else
      AllocShaped(h, l);
      AllocN(Alloc(h, l).0, l, n - 1)
  }

  lemma AllocNStep(h: Heap, l: Layout, n: nat, h1: Heap)
    requires WellShaped(h) && h1 == Alloc(h, l).0 && n > 0
    ensures WellShaped(h1) && AllocN(h, l, n) == AllocN(h1, l, n - 1)
  {
    AllocShaped(h, l);
  }

  lemma {:induction false} AllocNAdds(h: Heap, h1: Heap, l: Layout, m: nat, n: nat)
    requires WellShaped(h) && h1 == Alloc(h, l).0
    ensures AllocN(h, l, m + n) == AllocN(AllocN(h, l, m), l, n)
    decreases m
  {
    if m > 0 {
      AllocNStep(h, l, m, h1);
      AllocNStep(h, l, m + n, h1);
      AllocNAdds(h1, Alloc(h1, l).0, l, m - 1, n);
    }
  }

  /** A request for one byte, served by the class of 8-byte blocks. */
  function OneByte(): Layout { Layout(1, 0) }

  lemma OneByteClass(h: Heap)
    requires WellShaped(h)
    ensures ClassSize(0) == 8 && h.slabs[0].blockSize == 8
    ensures Alloc(h, OneByte()) == AllocFromSlab(h, 0)
  {
    ClassMeaning(1);
    ClassSizes(0);
    assert AlignedSize(OneByte()) == 1;
  }

  /** Class 0 with the first `n` of its free blocks. */
  function Left(h: Heap, n: nat): Heap
    requires WellShaped(h) && n <= |h.slabs[0].free|
  {
    h.(slabs := h.slabs[0 := h.slabs[0].(free := h.slabs[0].free[..n])])
  }

  lemma {:induction false} TakesFreeBlocks(h: Heap, n: nat)
    requires WellShaped(h) && n <= |h.slabs[0].free|
    ensures AllocN(h, OneByte(), n) == Left(h, |h.slabs[0].free| - n)
    decreases n
  {
    var free := h.slabs[0].free;
    if n == 0 {
      assert free[..|free|] == free;
      assert h.slabs[0 := h.slabs[0]] == h.slabs;
    } else {
      OneByteClass(h);
      AllocShaped(h, OneByte());
      var h1 := Alloc(h, OneByte()).0;
      assert h1.slabs[0].free == free[..|free| - 1];
      TakesFreeBlocks(h1, n - 1);
      assert free[..|free| - 1][..|free| - n] == free[..|free| - n];
    }
  }

  /** Class 0 has handed out all it may ever have. */
  predicate Exhausted(h: Heap) {
    WellShaped(h) && h.slabs[0].free == [] && h.slabs[0].total == MAX_BLOCKS
  }

  lemma SecondPage(h: Heap)
    requires WellShaped(h) && h.slabs[0].free == [] && h.slabs[0].total == 512 && h.bump + 4096 <= h.size
    ensures var h1 := Alloc(h, OneByte()).0;
      |h1.slabs[0].free| == 511 && h1.slabs[0].total == 1024 && h1.bump == h.bump + 4096 && h1.size == h.size
  {
    OneByteClass(h);
    CarveCount(h, 0);
  }

  /** Class 0 holds the 512 blocks of its first page, as `init` leaves it. */
  predicate FullPage(h: Heap) { WellShaped(h) && |h.slabs[0].free| == 512 && h.slabs[0].total == 512 }

  lemma InitFullPage(start: nat, size: nat)
    ensures FullPage(InitHeap(start, size)) && InitHeap(start, size).bump == 10 * 4096
  {
    ClassSizes(0);
    assert ClassSize(0) == 8;
  }

  lemma FirstPage(h0: Heap, n: nat)
    requires FullPage(h0) && n == 512
    ensures var h := AllocN(h0, OneByte(), n);
      h.slabs[0].free == [] && h.slabs[0].total == 512 && h.bump == h0.bump && h.size == h0.size
  {
    TakesFreeBlocks(h0, n);
  }

  lemma SecondPageTaken(h1: Heap, n: nat)
    requires WellShaped(h1) && h1.slabs[0].free == [] && h1.slabs[0].total == 512
    requires h1.bump + 4096 <= h1.size && n == 512
    ensures var h := AllocN(h1, OneByte(), n); Exhausted(h) && h.bump == h1.bump + 4096 && h.size == h1.size
  {
    AllocShaped(h1, OneByte());
    SecondPage(h1);
    TakesFreeBlocks(Alloc(h1, OneByte()).0, n - 1);
  }

  /** The first 1024 requests for one byte use up class 0 and one more page. */
  lemma ExhaustedAfter1024(h0: Heap, n: nat)
    requires FullPage(h0) && h0.bump + 4096 <= h0.size && n == 512
    ensures var h := AllocN(h0, OneByte(), n + n);
      Exhausted(h) && h.bump == h0.bump + 4096 && h.size == h0.size
  {
    FirstPage(h0, n);
    SecondPageTaken(AllocN(h0, OneByte(), n), n);
    AllocNAdds(h0, Alloc(h0, OneByte()).0, OneByte(), n, n);
  }

  lemma NullAnswer(h: Heap)
    requires Exhausted(h) && h.bump + 4096 <= h.size
    ensures Alloc(h, OneByte()) == (h.(bump := h.bump + 4096), None)
  {
    OneByteClass(h);
    CarveCount(h, 0);
    NullCostsAPage(h, 0);
  }

  /** Every further request answers null and uses up a page, until the heap has none left for any class. */
  lemma {:induction false} NullsUseUpTheHeap(h: Heap, n: nat)
    requires Exhausted(h) && h.bump + n * 4096 <= h.size
    ensures AllocN(h, OneByte(), n) == h.(bump := h.bump + n * 4096)
    ensures h.bump + (n + 1) * 4096 <= h.size ==> Alloc(AllocN(h, OneByte(), n), OneByte()).1.None?
    decreases n
  {
    if n > 0 {
      NullAnswer(h);
      NullsUseUpTheHeap(h.(bump := h.bump + 4096), n - 1);
    } else if h.bump + 4096 <= h.size {
      NullAnswer(h);
    }
  }

  lemma NullAfter1024(h0: Heap, n: nat)
    requires FullPage(h0) && h0.bump + 2 * 4096 <= h0.size && n == 512
    ensures var h := AllocN(h0, OneByte(), n + n);
      h.bump == h0.bump + 4096 && Alloc(h, OneByte()) == (h.(bump := h0.bump + 2 * 4096), None)
  {
    ExhaustedAfter1024(h0, n);
    NullAnswer(AllocN(h0, OneByte(), n + n));
  }

  /** The run that shows it: from `init` on a heap of at least twelve pages, after 1024 requests for one byte the next
      answers null and moves the bump offset from the eleventh page to the twelfth. */
  lemma NullAfterInit(start: nat, size: nat, n: nat)
    requires size >= 12 * 4096 && n == 512
    ensures var h := AllocN(InitHeap(start, size), OneByte(), n + n);
      h.bump == 11 * 4096 && Alloc(h, OneByte()) == (h.(bump := 12 * 4096), None)
  {
    InitFullPage(start, size);
    NullAfter1024(InitHeap(start, size), n);
  }
}
