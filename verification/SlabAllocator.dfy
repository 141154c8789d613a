/** The kernel heap as it runs (src/memory/heap.rs): free-list arrays, counters and the bump offset changed in place.
    Every method is proved equal to its function in Heap or HeapWords, where the properties are. */
module SlabAllocator {
  import opened Kernel
  import opened Bits
  import Heap
  import HeapRuns
  import HeapWords

  /** A class without free blocks after it took the page at `page`. */
  ghost function NewPage(s: Heap.Slab, page: nat): Heap.Slab
    requires s.blockSize > 0 && s.total <= Heap.MAX_BLOCKS
  {
    var n := Heap.NewBlocks(s);
    Heap.Slab(s.blockSize, Heap.Blocks(page, s.blockSize, n), s.total + n)
  }

  class SlabClass {
    const blockSize: nat
    const freeList: array<nat>
    var freeCount: nat
    var totalCount: nat

    constructor (blockSize: nat)
      ensures this.blockSize == blockSize && Valid() && fresh(freeList) && freeCount == 0 && totalCount == 0
    {
      this.blockSize := blockSize;
      freeList := new nat[Heap.MAX_BLOCKS];
      freeCount := 0;
      totalCount := 0;
    }

    ghost predicate Valid()
      reads this
    {
      freeList.Length == Heap.MAX_BLOCKS && freeCount <= Heap.MAX_BLOCKS && totalCount <= Heap.MAX_BLOCKS
    }

    ghost function View(): Heap.Slab
      requires Valid()
      reads this, freeList
    {
      Heap.Slab(blockSize, freeList[..freeCount], totalCount)
    }

    /** Takes the block on top of the free list. */
    method Take() returns (ptr: nat)
      requires Valid() && freeCount > 0
      modifies this
      ensures Valid() && freeCount == old(freeCount) - 1 && totalCount == old(totalCount)
      ensures View().free == old(View()).free[..freeCount] && ptr == old(View()).free[freeCount]
    {
      freeCount := freeCount - 1;
      ptr := freeList[freeCount];
    }

    /** Puts a block on top of the free list, if there is room. */
    method Put(ptr: nat)
      requires Valid()
      modifies this, freeList
      ensures Valid() && totalCount == old(totalCount)
      ensures View().free == if old(freeCount) < Heap.MAX_BLOCKS then old(View()).free + [ptr] else old(View()).free
    {
      if freeCount < Heap.MAX_BLOCKS {
        freeList[freeCount] := ptr;
        freeCount := freeCount + 1;
      }
    }

    /** Adds the blocks of the page at `page` to an empty free list, up to the class's limit. */
    method AddPage(page: nat)
      requires Valid() && freeCount == 0 && blockSize > 0
      modifies this, freeList
      ensures Valid() && View() == NewPage(old(View()), page)
    {
      var n := Heap.Min(4096 / blockSize, Heap.MAX_BLOCKS - totalCount);
      var added := 0;
      while added < n
        invariant 0 <= added <= n
        invariant Valid() && freeCount == 0 && totalCount == old(totalCount) + added
        invariant forall j | 0 <= j < added :: freeList[j] == page + j * blockSize
      {
        freeList[freeCount + added] := page + added * blockSize;
        added := added + 1;
        totalCount := totalCount + 1;
      }
      freeCount := freeCount + added;
    }

    /** Empties the class and gives it the page at `page`. */
    method Reset(page: nat)
      requires Valid() && blockSize > 0
      modifies this, freeList
      ensures Valid()
      ensures var n := Heap.Min(4096 / blockSize, Heap.MAX_BLOCKS);
        View() == Heap.Slab(blockSize, Heap.Blocks(page, blockSize, n), n)
    {
      freeCount, totalCount := 0, 0;
      AddPage(page);
    }
  }

  ghost function Views(slabs: seq<SlabClass>): (r: seq<Heap.Slab>)
    requires forall s | s in slabs :: s.Valid()
    reads slabs, set s | s in slabs :: s.freeList
    ensures |r| == |slabs| && forall i | 0 <= i < |slabs| :: r[i] == slabs[i].View()
  {
    if slabs == [] then [] else [slabs[0].View()] + Views(slabs[1..])
  }

  class SlabAllocator {
    var initialized: bool   // HEAP_INITIALIZED
    var heapStart: nat
    var heapSize: nat
    var bumpOffset: nat
    const slabs: seq<SlabClass>

    ghost predicate Valid()
      reads this, slabs
    {
      && |slabs| == Heap.SLAB_CLASSES
      && (forall i | 0 <= i < |slabs| :: slabs[i].Valid() && slabs[i].blockSize == Heap.ClassSize(i))
      && (forall i, j | 0 <= i < j < |slabs| :: slabs[i] != slabs[j] && slabs[i].freeList != slabs[j].freeList)
    }

    ghost function View(): (h: Heap.Heap)
      requires Valid()
      reads this, slabs, set s | s in slabs :: s.freeList
      ensures Heap.WellShaped(h)
    {
      Heap.Heap(heapStart, heapSize, bumpOffset, Views(slabs))
    }

    /** A change of one class is a change of one entry of the view. */
    twostate lemma OneChanged(c: nat)
      requires old(Valid()) && heapStart == old(heapStart) && heapSize == old(heapSize)
      requires c < |slabs| && slabs[c].Valid()
      requires forall i | 0 <= i < |slabs| && i != c :: unchanged(slabs[i]) && unchanged(slabs[i].freeList)
      ensures Valid()
      ensures View() == old(View()).(bump := bumpOffset, slabs := old(View()).slabs[c := slabs[c].View()])
    {
      SameButOne(old(Views(slabs)), Views(slabs), c);
    }

    constructor ()
      ensures Valid() && !initialized
    {
      var made: seq<SlabClass> := [];
      for i := 0 to Heap.SLAB_CLASSES
        invariant |made| == i
        invariant forall k | 0 <= k < i :: fresh(made[k]) && fresh(made[k].freeList)
        invariant forall k | 0 <= k < i :: made[k].Valid() && made[k].blockSize == Heap.ClassSize(k)
        invariant forall j, k | 0 <= j < k < i :: made[j] != made[k] && made[j].freeList != made[k].freeList
      {
        var s := new SlabClass(Shl(8, i));
        made := made + [s];
      }
      slabs := made;
      initialized, heapStart, heapSize, bumpOffset := false, 0, 0, 0;
    }

    method InitClass(i: nat, page: nat)
      requires Valid() && i < Heap.SLAB_CLASSES
      modifies slabs[i], slabs[i].freeList
      ensures Valid()
      ensures slabs[i].View() == HeapRuns.PageSlab(page, i)
      ensures forall k | 0 <= k < |slabs| && k != i :: slabs[k].View() == old(slabs[k].View())
    {
      Heap.ClassSizes(i);
      slabs[i].Reset(page);
    }

    /** `init` */
    method Init(start: nat, size: nat)
      requires Valid()
      modifies this, slabs, set s | s in slabs :: s.freeList
      ensures Valid() && initialized
      ensures old(initialized) ==> View() == old(View())
      ensures !old(initialized) ==> View() == HeapRuns.InitHeap(start, size)
    {
      if initialized {
        return;
      }
      heapStart, heapSize := start, size;
      var offset := 0;
      for i := 0 to Heap.SLAB_CLASSES
        invariant Valid() && !initialized && heapStart == start && heapSize == size && offset == i * 4096
        invariant forall k | 0 <= k < i :: slabs[k].View() == HeapRuns.InitSlab(start, k)
      {
        InitClass(i, start + offset);
        offset := offset + 4096;
      }
      bumpOffset := offset;
      initialized := true;
      assert View().slabs == HeapRuns.InitHeap(start, size).slabs;
    }

    /** `find_slab_class` */
    method FindSlabClass(size: nat) returns (r: Option<nat>)
      ensures r == Heap.FindSlabClass(size)
    {
      if size > Heap.SLAB_MAX_SIZE || size == 0 {
        return None;
      }
      for i := 0 to Heap.SLAB_CLASSES
        invariant Heap.FindFrom(size, 0) == Heap.FindFrom(size, i)
      {
        if size <= Heap.ClassSize(i) {
          return Some(i);
        }
      }
      r := None;
    }

    /** Takes the top block of class `c`. */
    method TakeFrom(c: nat) returns (ptr: nat)
      requires Valid() && c < Heap.SLAB_CLASSES && slabs[c].freeCount > 0
      modifies slabs[c]
      ensures Valid()
      ensures (View(), Some(ptr)) == Heap.Pop(old(View()), c)
    {
      ptr := slabs[c].Take();
      OneChanged(c);
    }

    /** Carves the page at the bump offset into blocks of class `c`. */
    method CarvePage(c: nat)
      requires Valid() && c < Heap.SLAB_CLASSES && Heap.ClassSize(c) > 0 && slabs[c].freeCount == 0
      modifies this`bumpOffset, slabs[c], slabs[c].freeList
      ensures Valid()
      ensures View() == Heap.Carve(old(View()), c)
    {
      CarveEmpty(View(), c);
      var newPage := heapStart + bumpOffset;
      bumpOffset := bumpOffset + 4096;
      slabs[c].AddPage(newPage);
      OneChanged(c);
    }

    /** `alloc_from_slab` */
    method AllocFromSlab(c: nat) returns (r: Option<nat>)
      requires Valid() && c < Heap.SLAB_CLASSES && Heap.ClassSize(c) > 0
      modifies this`bumpOffset, slabs[c], slabs[c].freeList
      ensures Valid()
      ensures (View(), r) == Heap.AllocFromSlab(old(View()), c)
    {
      if slabs[c].freeCount > 0 {
        var ptr := TakeFrom(c);
        return Some(ptr);
      }
      if bumpOffset + 4096 > heapSize {
        return None;
      }
      CarvePage(c);
      if slabs[c].freeCount > 0 {
        var ptr := TakeFrom(c);
        return Some(ptr);
      }
      r := None;
    }

    /** `(bump_offset + align - 1) & !(align - 1)`, with sums modulo 2^64 */
    method AlignedOffset(log: nat) returns (offset: nat)
      requires log < WORD
      ensures offset == HeapWords.AlignWord(bumpOffset, log)
    {
      Pow2Monotone(log, WORD);
      var align := Pow2(log);
      offset := And((bumpOffset + align - 1) % TWO_64, Not(align - 1, WORD));
    }

    method BumpTo(alignedOffset: nat, size: nat) returns (r: Option<nat>)
      requires Valid()
      modifies this`bumpOffset
      ensures Valid()
      ensures (View(), r) == HeapWords.BumpWord(old(View()), alignedOffset, size)
    {
      var newOffset := (alignedOffset + size) % TWO_64;
      if newOffset > heapSize {
        return None;
      }
      r := Some((heapStart + alignedOffset) % TWO_64);
      MoveBump(newOffset);
    }

    /** `alloc_bump` */
    method AllocBump(size: nat, log: nat) returns (r: Option<nat>)
      requires Valid() && log < WORD
      modifies this`bumpOffset
      ensures Valid()
      ensures (View(), r) == HeapWords.AllocBumpWord(old(View()), size, log)
    {
      var alignedOffset := AlignedOffset(log);
      r := BumpTo(alignedOffset, size);
    }

    method MoveBump(offset: nat)
      requires Valid()
      modifies this`bumpOffset
      ensures Valid() && View() == old(View()).(bump := offset)
    {
      ghost var views := Views(slabs);
      bumpOffset := offset;
      assert Views(slabs) == views;
    }

    /** `free_to_slab` */
    method FreeToSlab(ptr: nat, c: nat)
      requires Valid() && c < Heap.SLAB_CLASSES
      modifies slabs[c], slabs[c].freeList
      ensures Valid()
      ensures View() == Heap.FreeToSlab(old(View()), ptr, c)
    {
      slabs[c].Put(ptr);
      OneChanged(c);
    }

    /** `alloc` */
    method Alloc(l: Heap.Layout) returns (r: Option<nat>)
      requires Valid() && l.log < WORD
      modifies this`bumpOffset, slabs, set s | s in slabs :: s.freeList
      ensures Valid()
      ensures (View(), r) == HeapWords.AllocWord(old(View()), l)
    {
      var align := Heap.Align(l);
      var alignedSize := if l.size < align then align else l.size;
      var c := FindSlabClass(alignedSize);
      AllocIs(View(), l, alignedSize, c);
      if c.Some? && slabs[c.value].blockSize >= align {
        r := AllocFromSlab(c.value);
        return;
      }
      r := AllocBump(alignedSize, l.log);
    }

    /** `dealloc` */
    method Dealloc(ptr: nat, l: Heap.Layout)
      requires Valid()
      modifies slabs, set s | s in slabs :: s.freeList
      ensures Valid()
      ensures View() == Heap.Dealloc(old(View()), ptr, l)
    {
      var align := Heap.Align(l);
      var alignedSize := if l.size < align then align else l.size;
      var c := FindSlabClass(alignedSize);
      Heap.ClassInRange(alignedSize);
      if c.Some? {
        FreeToSlab(ptr, c.value);
      }
    }
  }

  lemma CarveEmpty(h: Heap.Heap, c: nat)
    requires c < |h.slabs| && h.slabs[c].blockSize > 0 && h.slabs[c].total <= Heap.MAX_BLOCKS && h.slabs[c].free == []
    ensures Heap.Carve(h, c) == h.(bump := h.bump + 4096, slabs := h.slabs[c := NewPage(h.slabs[c], h.start + h.bump)])
  {
    var s := h.slabs[c];
    var blocks := Heap.Blocks(h.start + h.bump, s.blockSize, Heap.NewBlocks(s));
    assert s.free + blocks == blocks;
  }

  lemma AllocIs(h: Heap.Heap, l: Heap.Layout, size: nat, c: Option<nat>)
    requires Heap.WellShaped(h) && l.log < WORD && size == Heap.AlignedSize(l) && c == Heap.FindSlabClass(size)
    ensures c.Some? ==> c.value < |h.slabs|
    ensures HeapWords.AllocWord(h, l) ==
      if c.Some? && h.slabs[c.value].blockSize >= Heap.Align(l) then Heap.AllocFromSlab(h, c.value)
      else HeapWords.AllocBumpWord(h, size, l.log)
  {
    Heap.ClassInRange(size);
  }

  lemma SameButOne(a: seq<Heap.Slab>, b: seq<Heap.Slab>, c: nat)
    requires c < |a| == |b| && forall i | 0 <= i < |a| && i != c :: a[i] == b[i]
    ensures b == a[c := b[c]]
  {
  }
}
