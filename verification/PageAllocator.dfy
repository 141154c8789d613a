/** The physical page allocator as it runs (src/memory/pmm.rs): a bitmap of bytes changed in place, read and written by
    shifts.  Every method is proved equal to its function in Pmm or PmmRuns, where the properties are. */
module PageAllocator {
  import opened Kernel
  import opened Bits
  import Pmm
  import PmmRuns

  const BITMAP_SIZE: nat := 0x20_0000

  // ---------------------------------------------------------------- bits of bytes

  /** `get_bit`: bits beyond the bitmap read as set */
  predicate BitAt(bitmap: seq<nat>, i: nat) {
    i / 8 >= |bitmap| || And(Shr(bitmap[i / 8], i % 8), 1) == 1
  }

  lemma BitAtIsBit(b: nat, k: nat)
    ensures And(Shr(b, k), 1) == 1 <==> Bit(b, k)
  {
    AndLowMask(Shr(b, k), 1);
    BitShr(b, k);
    assert Pow2(1) == 2;
  }

  /** `b | 1 << k` */
  function SetIn(b: Byte, k: nat): nat { Or(b, Shl(1, k)) }

  /** `b & !(1 << k)` */
  function ClearIn(b: Byte, k: nat): nat
    requires k < 8
  {
    ByteShift(k);
    And(b, Not(Shl(1, k), 8))
  }

  lemma ByteShift(k: nat)
    requires k < 8
    ensures Shl(1, k) == Pow2(k) <= 128 && Pow2(8) == 256
  {
    Pow2Monotone(k, 7);
    assert Pow2(7) == 128;
  }

  lemma SetInMeaning(b: Byte, k: nat, j: nat)
    requires k < 8
    ensures SetIn(b, k) < 256
    ensures Bit(SetIn(b, k), j) <==> j == k || Bit(b, j)
  {
    ByteShift(k);
    OrBound(b, Pow2(k), 8);
    BitOr(b, Pow2(k), j);
    BitPow2(k, j);
  }

  lemma ClearInMeaning(b: Byte, k: nat, j: nat)
    requires k < 8 && j < 8
    ensures ClearIn(b, k) < 256
    ensures Bit(ClearIn(b, k), j) <==> j != k && Bit(b, j)
  {
    ByteShift(k);
    AndAtMost(b, Not(Pow2(k), 8));
    BitAnd(b, Not(Pow2(k), 8), j);
    BitNot(Pow2(k), 8, j);
    BitPow2(k, j);
  }

  lemma SetBitMeaning(bitmap: seq<nat>, i: nat, j: nat, after: seq<nat>)
    requires i / 8 < |bitmap| && bitmap[i / 8] < 256
    requires after == bitmap[i / 8 := SetIn(bitmap[i / 8], i % 8)]
    ensures BitAt(after, j) <==> j == i || BitAt(bitmap, j)
  {
    if j / 8 == i / 8 {
      SetInMeaning(bitmap[i / 8], i % 8, j % 8);
      BitAtIsBit(bitmap[i / 8], j % 8);
      BitAtIsBit(after[i / 8], j % 8);
    }
  }

  lemma ClearBitMeaning(bitmap: seq<nat>, i: nat, j: nat, after: seq<nat>)
    requires i / 8 < |bitmap| && bitmap[i / 8] < 256
    requires after == bitmap[i / 8 := ClearIn(bitmap[i / 8], i % 8)]
    ensures BitAt(after, j) <==> j != i && BitAt(bitmap, j)
  {
    if j / 8 == i / 8 {
      ClearInMeaning(bitmap[i / 8], i % 8, j % 8);
      BitAtIsBit(bitmap[i / 8], j % 8);
      BitAtIsBit(after[i / 8], j % 8);
    }
  }

  lemma ZeroBit(k: nat)
    requires k < 8
    ensures And(Shr(0, k), 1) != 1
  {
    BitAtIsBit(0, k);
    BitZero(k);
  }

  /** In a cleared bitmap the pages that read as used are those without a bit. */
  lemma ZeroBitmap(bitmap: seq<nat>, total: nat)
    requires |bitmap| == BITMAP_SIZE && forall i | 0 <= i < |bitmap| :: bitmap[i] == 0
    ensures UsedPages(bitmap, total) == Pmm.Pages(PmmRuns.MAX_PAGES, total)
  {
    forall i: nat | i < total
      ensures BitAt(bitmap, i) <==> i >= PmmRuns.MAX_PAGES
    {
      ZeroBit(i % 8);
    }
  }

  function UsedPages(bitmap: seq<nat>, total: nat): set<nat> {
    set i: nat | 0 <= i < total && BitAt(bitmap, i)
  }

  // ---------------------------------------------------------------- the allocator

  class PageAllocator {
    const bitmap: array<Byte>
    const total: nat
    const base: nat
    const end: nat
    var freePageCount: nat

    ghost predicate Valid()
      reads this
    {
      total <= 8 * bitmap.Length && end == base + total * PAGE_SIZE
    }

    ghost function View(): Pmm.Pmm
      reads this, bitmap
    {
      Pmm.Pmm(base, total, UsedPages(bitmap[..], total), freePageCount)
    }

    predicate GetBit(index: nat)
      reads bitmap
      ensures GetBit(index) == BitAt(bitmap[..], index)
    {
      index / 8 >= bitmap.Length || And(Shr(bitmap[index / 8], index % 8), 1) == 1
    }

    method SetBit(index: nat)
      requires index < total
      modifies bitmap
      ensures UsedPages(bitmap[..], total) == old(UsedPages(bitmap[..], total)) + {index}
    {
      ghost var was := bitmap[..];
      var byte := index / 8;
      var bit := index % 8;
      if byte < bitmap.Length {
        SetInMeaning(bitmap[byte], bit, 0);
        bitmap[byte] := SetIn(bitmap[byte], bit);
        forall j: nat
          ensures BitAt(bitmap[..], j) <==> j == index || BitAt(was, j)
        {
          SetBitMeaning(was, index, j, bitmap[..]);
        }
      }
    }

    method ClearBit(index: nat)
      requires Valid() && index < total
      modifies bitmap
      ensures UsedPages(bitmap[..], total) == old(UsedPages(bitmap[..], total)) - {index}
    {
      ghost var was := bitmap[..];
      var byte := index / 8;
      var bit := index % 8;
      if byte < bitmap.Length {
        ClearInMeaning(bitmap[byte], bit, 0);
        bitmap[byte] := ClearIn(bitmap[byte], bit);
        forall j: nat
          ensures BitAt(bitmap[..], j) <==> j != index && BitAt(was, j)
        {
          ClearBitMeaning(was, index, j, bitmap[..]);
        }
      }
    }

    /** `new` */
    constructor (base: nat, memorySize: nat)
      requires base <= PmmRuns.BITMAP_BASE
      ensures View() == PmmRuns.New(base, memorySize)
      ensures memorySize <= PmmRuns.MAX_PAGES * PAGE_SIZE && memorySize % PAGE_SIZE == 0 ==> Valid()
    {
      var totalPages := memorySize / PAGE_SIZE;
      this.base, this.end, this.total := base, base + memorySize, totalPages;
      freePageCount := totalPages;
      bitmap := new Byte[BITMAP_SIZE](_ => 0);
      new;
      ZeroBitmap(bitmap[..], total);
      var first := (PmmRuns.BITMAP_BASE - base) / PAGE_SIZE;
      MarkPages(first, first + PmmRuns.BITMAP_PAGES);
    }

    /** The loop of `new` */
    method MarkPages(first: nat, stop: nat)
      requires first <= stop
      modifies this, bitmap
      ensures View() == PmmRuns.MarkFrom(old(View()), first, stop)
    {
      for i := first to stop
        invariant PmmRuns.MarkFrom(old(View()), first, stop) == PmmRuns.MarkFrom(View(), i, stop)
      {
        MarkStep(View(), i, stop);
        MarkPage(i);
      }
    }

    method MarkPage(i: nat)
      modifies this, bitmap
      ensures View() == MarkedAt(old(View()), i)
    {
      if i < total {
        SetBit(i);
        freePageCount := if freePageCount > 0 then freePageCount - 1 else 0;
      }
    }

    method AllocPage() returns (r: Result<nat>)
      requires Valid()
      modifies this, bitmap
      ensures Valid()
      ensures (View(), r) == Pmm.AllocPage(old(View()))
    {
      if freePageCount == 0 {
        return Err(OutOfMemory);
      }
      ghost var s := View();
      for i := 0 to total
        invariant View() == s && freePageCount > 0
        invariant Pmm.LowestFree(s, 0) == Pmm.LowestFree(s, i)
      {
        if !GetBit(i) {
          SetBit(i);
          freePageCount := freePageCount - 1;
          return Ok(base + i * PAGE_SIZE);
        }
      }
      r := Err(OutOfMemory);
    }

    /** Marks the pages from `start` up to `stop`. */
    method SetBits(start: nat, stop: nat)
      requires Valid() && start <= stop <= total
      modifies bitmap
      ensures UsedPages(bitmap[..], total) == old(UsedPages(bitmap[..], total)) + Pmm.Pages(start, stop)
    {
      for j := start to stop
        invariant UsedPages(bitmap[..], total) == old(UsedPages(bitmap[..], total)) + Pmm.Pages(start, j)
      {
        SetBit(j);
      }
    }

    /** The search of `alloc_pages`: one pass that counts consecutive clear bits. */
    method FindRun(count: nat) returns (start: Option<nat>)
      requires Valid()
      ensures start == if count == 0 then None else Pmm.FirstRun(View(), count, 0)
    {
      ghost var s := View();
      var foundStart: Option<nat> := None;
      var consecutive := 0;
      for i := 0 to total
        invariant consecutive <= i && (count >= 1 ==> consecutive < count)
        invariant foundStart == if consecutive == 0 then None else Some(i - consecutive)
        invariant forall k | i - consecutive <= k < i :: k !in s.used
        invariant consecutive < i ==> i - consecutive - 1 in s.used
        invariant forall t: nat | t + count <= i && count >= 1 :: !Pmm.FreeRun(s, t, count)
      {
        assert GetBit(i) <==> i in s.used;
        if !GetBit(i) {
          if foundStart.None? {
            foundStart := Some(i);
          }
          consecutive := consecutive + 1;
          if consecutive == count {
            FirstRunIs(s, count, foundStart.value);
            return foundStart;
          }
          NoRunYet(s, count, i, consecutive);
        } else {
          foundStart := None;
          consecutive := 0;
        }
      }
      NoRunAtAll(s, count);
      start := None;
    }

    method AllocPages(count: nat) returns (r: Result<nat>)
      requires Valid()
      modifies this, bitmap
      ensures Valid()
      ensures (View(), r) == Pmm.AllocPages(old(View()), count)
    {
      if freePageCount < count {
        return Err(OutOfMemory);
      }
      var start := FindRun(count);
      if start.None? {
        return Err(OutOfMemory);
      }
      Pmm.FirstRunMeaning(View(), count, 0);
      SetBits(start.value, start.value + count);
      freePageCount := freePageCount - count;
      r := Ok(base + start.value * PAGE_SIZE);
    }

    method FreePage(addr: nat) returns (r: Result<Unit>)
      requires Valid()
      modifies this, bitmap
      ensures Valid()
      ensures (View(), r) == Pmm.FreePage(old(View()), addr)
    {
      if addr < base || addr >= end {
        return Err(InvalidAddress);
      }
      if addr % PAGE_SIZE != 0 {
        return Err(InvalidArgument);
      }
      var index := (addr - base) / PAGE_SIZE;
      if !GetBit(index) {
        return Err(PageNotMapped);
      }
      ClearBit(index);
      freePageCount := freePageCount + 1;
      r := Ok(Unit);
    }

    method FreePagesRange(addr: nat, count: nat) returns (r: Result<Unit>)
      requires Valid()
      modifies this, bitmap
      ensures Valid()
      ensures (View(), r) == Pmm.FreeRange(old(View()), addr, count)
    {
      var i, page := 0, addr;
      while i < count
        invariant 0 <= i <= count && Valid() && page == addr + i * PAGE_SIZE
        invariant Pmm.FreeRange(old(View()), addr, count) == Pmm.FreeRange(View(), page, count - i)
      {
        FreeStep(View(), page, count - i);
        r := FreePage(page);
        if r.Err? { return; }
        i, page := i + 1, page + PAGE_SIZE;
      }
      r := Ok(Unit);
    }

    /** One page of `reserve_range` */
    method ReservePage(i: nat)
      requires Valid()
      modifies this, bitmap
      ensures Valid() && View() == Kept(old(View()), i)
    {
      if i < total && !GetBit(i) {
        SetBit(i);
        freePageCount := if freePageCount > 0 then freePageCount - 1 else 0;
      }
    }

    /** The loop of `reserve_range` */
    method ReservePages(startPage: nat, endPage: nat)
      requires Valid()
      modifies this, bitmap
      ensures Valid() && View() == Pmm.ReserveFrom(old(View()), startPage, endPage)
    {
      var i := startPage;
      while i < endPage
        invariant Valid()
        invariant Pmm.ReserveFrom(old(View()), startPage, endPage) == Pmm.ReserveFrom(View(), i, endPage)
      {
        ReserveStep(View(), i, endPage);
        ReservePage(i);
        i := i + 1;
      }
    }

    /** `reserve_range` */
    method ReserveRange(start: nat, size: nat)
      requires Valid()
      modifies this, bitmap
      ensures Valid() && View() == Pmm.Reserve(old(View()), start, size)
    {
      if start < base { return; }
      var startPage := (start - base) / PAGE_SIZE;
      var endAddr := start + size;
      var endPage := if endAddr > end then total else (endAddr - base + PAGE_SIZE - 1) / PAGE_SIZE;
      ReservePages(startPage, endPage);
    }
  }

  lemma FreeStep(s: Pmm.Pmm, addr: nat, n: nat)
    requires n > 0
    ensures var (s1, r) := Pmm.FreePage(s, addr);
      Pmm.FreeRange(s, addr, n) == if r.Err? then (s1, r) else Pmm.FreeRange(s1, addr + PAGE_SIZE, n - 1)
  {
  }

  /** The state after page `i` is reserved, if it is a free one. */
  ghost function Kept(s: Pmm.Pmm, i: nat): Pmm.Pmm {
    if i < s.total && i !in s.used then s.(used := s.used + {i}, freeCount := Pmm.Decrement(s.freeCount)) else s
  }

  /** The state after page `i` is marked, whether or not it was. */
  ghost function MarkedAt(s: Pmm.Pmm, i: nat): Pmm.Pmm {
    if i < s.total then s.(used := s.used + {i}, freeCount := Pmm.Decrement(s.freeCount)) else s
  }

  lemma MarkStep(s: Pmm.Pmm, i: nat, end: nat)
    requires i < end
    ensures PmmRuns.MarkFrom(s, i, end) == PmmRuns.MarkFrom(MarkedAt(s, i), i + 1, end)
  {
  }

  lemma ReserveStep(s: Pmm.Pmm, i: nat, endPage: int)
    requires i < endPage
    ensures Pmm.ReserveFrom(s, i, endPage) == Pmm.ReserveFrom(Kept(s, i), i + 1, endPage)
  {
  }

  // ---------------------------------------------------------------- the search of alloc_pages

  lemma FirstRunIs(s: Pmm.Pmm, count: nat, start: nat)
    requires count >= 1 && Pmm.FreeRun(s, start, count) && forall t: nat | t < start :: !Pmm.FreeRun(s, t, count)
    ensures Pmm.FirstRun(s, count, 0) == Some(start)
  {
    Pmm.FirstRunMeaning(s, count, 0);
  }

  lemma NoRunYet(s: Pmm.Pmm, count: nat, i: nat, consecutive: nat)
    requires (count >= 1 ==> consecutive < count) && consecutive <= i + 1
    requires consecutive < i + 1 ==> i - consecutive in s.used
    requires forall t: nat | t + count <= i && count >= 1 :: !Pmm.FreeRun(s, t, count)
    ensures forall t: nat | t + count <= i + 1 && count >= 1 :: !Pmm.FreeRun(s, t, count)
  {
  }

  lemma NoRunAtAll(s: Pmm.Pmm, count: nat)
    requires forall t: nat | t + count <= s.total && count >= 1 :: !Pmm.FreeRun(s, t, count)
    ensures count >= 1 ==> Pmm.FirstRun(s, count, 0) == None
  {
    if count >= 1 { Pmm.FirstRunMeaning(s, count, 0); }
  }
}
