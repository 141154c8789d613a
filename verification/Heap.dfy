/**
 The slab and bump heap of src/memory/heap.rs as functions on a value.  `free` is the used part of a class's
 free list, last element on top; `bump` is the one offset that slab pages and large blocks share.
 */
module Heap {
  import opened Kernel
  import opened Bits

  const SLAB_MAX_SIZE: nat := 4096
  const SLAB_CLASSES: nat := 10
  const MAX_BLOCKS: nat := 1024

  datatype Slab = Slab(blockSize: nat, free: seq<nat>, total: nat)

  datatype Heap = Heap(start: nat, size: nat, bump: nat, slabs: seq<Slab>)

  /** A `Layout`: a positive size and an alignment 2^log. */
  datatype Layout = Layout(size: nat, log: nat)

  function Align(l: Layout): nat { Pow2(l.log) }

  /** `if size < align { align } else { size }` */
  function AlignedSize(l: Layout): nat { if l.size < Align(l) then Align(l) else l.size }

  /** `SLAB_MIN_SIZE << i` */
  function ClassSize(i: nat): nat { Shl(8, i) }

  /** The loop of `find_slab_class` from class `i` on. */
  function FindFrom(size: nat, i: nat): Option<nat>
    decreases SLAB_CLASSES - i, size
  {
    if i >= SLAB_CLASSES then None else if size <= ClassSize(i) then Some(i) else FindFrom(size, i + 1)
  }

  /** `find_slab_class` */
  function FindSlabClass(size: nat): Option<nat> {
    if size > SLAB_MAX_SIZE || size == 0 then None else FindFrom(size, 0)
  }

  /** The class that serves a layout. */
  function ClassOf(l: Layout): Option<nat> { FindSlabClass(AlignedSize(l)) }

  function Min(a: int, b: int): int { if a < b then a else b }

  /** `n` consecutive blocks of `size` bytes from `page` on. */
  function Blocks(page: nat, size: nat, n: nat): (r: seq<nat>)
    ensures |r| == n
  {
    seq(n, j requires 0 <= j => page + j * size)
  }

  predicate WellShaped(h: Heap) {
    && |h.slabs| == SLAB_CLASSES
    && (forall i | 0 <= i < SLAB_CLASSES :: h.slabs[i].blockSize == ClassSize(i) && h.slabs[i].total <= MAX_BLOCKS)
  }

  /** Taking the top block of a non-empty free list. */
  function Pop(h: Heap, c: nat): (Heap, Option<nat>)
    requires c < |h.slabs| && h.slabs[c].free != []
  {
    var s := h.slabs[c];
    var top := |s.free| - 1;
    (h.(slabs := h.slabs[c := s.(free := s.free[..top])]), Some(s.free[top]))
  }

  /** How many blocks a new page adds to class `c`. */
  function NewBlocks(s: Slab): int
    requires s.blockSize > 0
  {
    Min(4096 / s.blockSize, MAX_BLOCKS - s.total)
  }

  /** The heap after class `c` takes a new page at the bump offset. */
  function Carve(h: Heap, c: nat): Heap
    requires c < |h.slabs| && h.slabs[c].blockSize > 0 && h.slabs[c].total <= MAX_BLOCKS
  {
    var s := h.slabs[c];
    var n := NewBlocks(s);
    h.(bump := h.bump + 4096,
       slabs := h.slabs[c := s.(free := s.free + Blocks(h.start + h.bump, s.blockSize, n), total := s.total + n)])
  }

  /** `alloc_from_slab` */
  function AllocFromSlab(h: Heap, c: nat): (Heap, Option<nat>)
    requires c < |h.slabs| && h.slabs[c].blockSize > 0 && h.slabs[c].total <= MAX_BLOCKS
  {
    if h.slabs[c].free != [] then Pop(h, c)
    else if h.bump + 4096 > h.size then (h, None)
    else
      var h1 := Carve(h, c);
      if h1.slabs[c].free != [] then Pop(h1, c) else (h1, None)
  }

  /** The least multiple of `align` at or above `offset`. */
  function AlignUp(offset: nat, align: nat): nat
    requires align > 0
  {
    if offset == 0 then 0 else if offset <= align then align else align + AlignUp(offset - align, align)
  }

  /** `alloc_bump` */
  function AllocBump(h: Heap, size: nat, align: nat): (Heap, Option<nat>)
    requires align > 0
  {
    var aligned := AlignUp(h.bump, align);
    if aligned + size > h.size then (h, None) else (h.(bump := aligned + size), Some(h.start + aligned))
  }

  /** `alloc` */
  function Alloc(h: Heap, l: Layout): (Heap, Option<nat>)
    requires WellShaped(h)
  {
    ClassInRange(AlignedSize(l));
    var c := ClassOf(l);
    if c.Some? && h.slabs[c.value].blockSize >= Align(l) then AllocFromSlab(h, c.value)
    else AllocBump(h, AlignedSize(l), Align(l))
  }

  /** `free_to_slab` */
  function FreeToSlab(h: Heap, ptr: nat, c: nat): Heap
    requires c < |h.slabs|
  {
    var s := h.slabs[c];
    if |s.free| < MAX_BLOCKS then h.(slabs := h.slabs[c := s.(free := s.free + [ptr])]) else h
  }

  /** `dealloc` */
  function Dealloc(h: Heap, ptr: nat, l: Layout): Heap
    requires WellShaped(h)
  {
    ClassInRange(AlignedSize(l));
    match ClassOf(l)
    case Some(c) => FreeToSlab(h, ptr, c)
    case None => h
  }

  // ---------------------------------------------------------------- size classes

  lemma ClassSizes(i: nat)
    requires i < SLAB_CLASSES
    ensures ClassSize(i) > 0 && 4096 % ClassSize(i) == 0 && 8 <= ClassSize(i) <= 4096
    ensures ClassSize(9) == 4096
    ensures i > 0 ==> ClassSize(i) == 2 * ClassSize(i - 1)
  {
    assert Pow2(3) == 8 && Pow2(6) == 64 && Pow2(9) == 512;
  }

  lemma {:induction false} FindFromMeaning(size: nat, i: nat)
    requires i < SLAB_CLASSES && size <= 4096
    ensures FindFrom(size, i).Some? && i <= FindFrom(size, i).value < SLAB_CLASSES
    ensures size <= ClassSize(FindFrom(size, i).value)
    ensures forall j | i <= j < FindFrom(size, i).value :: ClassSize(j) < size
    decreases SLAB_CLASSES - i
  {
    ClassSizes(i);
    if size > ClassSize(i) {
      FindFromMeaning(size, i + 1);
    }
  }

  /** The class of a size is the smallest one whose blocks hold it; only sizes from 1 to 4096 have one. */
  lemma ClassMeaning(size: nat)
    ensures FindSlabClass(size).Some? <==> 1 <= size <= SLAB_MAX_SIZE
    ensures FindSlabClass(size).Some? ==>
      var c := FindSlabClass(size).value;
      c < SLAB_CLASSES && size <= ClassSize(c) && (forall j | 0 <= j < c :: ClassSize(j) < size)
  {
    if 1 <= size <= SLAB_MAX_SIZE { FindFromMeaning(size, 0); }
  }

  lemma ClassInRange(size: nat)
    ensures FindSlabClass(size).Some? ==>
      FindSlabClass(size).value < SLAB_CLASSES && ClassSize(FindSlabClass(size).value) > 0
  {
    ClassMeaning(size);
  }

  /** The class of a layout holds its size and its alignment, so `alloc` and `dealloc` choose the same class. */
  lemma ClassOfBounds(l: Layout)
    ensures ClassOf(l).Some? ==>
      && ClassOf(l).value < SLAB_CLASSES
      && l.size <= ClassSize(ClassOf(l).value) && Align(l) <= ClassSize(ClassOf(l).value)
  {
    ClassMeaning(AlignedSize(l));
  }

  // ---------------------------------------------------------------- alignment

  lemma {:induction false} AlignUpBounds(offset: nat, align: nat)
    requires align > 0
    ensures offset <= AlignUp(offset, align) < offset + align
  {
    if offset > align { AlignUpBounds(offset - align, align); }
  }

  lemma {:induction false} AlignUpMultiple(offset: nat, align: nat)
    requires align > 0
    ensures AlignUp(offset, align) % align == 0
  {
    if offset > align {
      AlignUpMultiple(offset - align, align);
      DivMultiple(AlignUp(offset - align, align), align, 1);
    } else {
      DivMultiple(0, align, 1);
    }
  }

  /** The multiple of `m` in a window of `m` numbers is unique. */
  lemma MultipleUnique(a: nat, b: nat, m: nat)
    requires m > 0 && a % m == 0 && b % m == 0 && a <= b < a + m
    ensures a == b
  {
    QuotientTimes(a, m);
    QuotientTimes(b, m);
    if a / m < b / m {
      MulStep(a / m, b / m, m);
    } else {
      MulMonotone(b / m, a / m, m);
    }
  }

  lemma RoundDownMultiple(x: nat, m: nat)
    requires m > 0
    ensures x % m < m && (x - x % m) % m == 0
  {
    QuotientTimes(x, m);
    DivMultiple(0, m, x / m);
  }

  /** `(offset + align - 1) & !(align - 1)` on a word of `width` bits rounds up to the alignment 2^log. */
  lemma AlignUpByMask(offset: nat, log: nat, width: nat)
    requires log <= width && offset + Pow2(log) - 1 < Pow2(width)
    ensures Pow2(log) - 1 < Pow2(width)
    ensures And(offset + Pow2(log) - 1, Not(Pow2(log) - 1, width)) == AlignUp(offset, Pow2(log))
  {
    var m := Pow2(log);
    var x := offset + m - 1;
    AndHighMask(x, log, width);
    RoundDownMultiple(x, m);
    AlignUpBounds(offset, m);
    AlignUpMultiple(offset, m);
    var r := x - x % m;
    if r <= AlignUp(offset, m) {
      MultipleUnique(r, AlignUp(offset, m), m);
    } else {
      MultipleUnique(AlignUp(offset, m), r, m);
    }
  }
}
