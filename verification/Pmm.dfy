/**
 The physical page allocator of src/memory/pmm.rs on values: the set of used pages below `total` and the cached
 count of free pages.
 */
module Pmm {
  import opened Kernel

  datatype Pmm = Pmm(base: nat, total: nat, used: set<nat>, freeCount: int)

  /** The cached count is the number of clear bits, and only pages below `total` are marked. */
  ghost predicate Counted(s: Pmm) {
    (forall i | i in s.used :: i < s.total) && s.freeCount == s.total - |s.used|
  }

  function End(s: Pmm): nat { s.base + s.total * PAGE_SIZE }

  function AddrOf(s: Pmm, page: nat): nat { s.base + page * PAGE_SIZE }

  predicate IsBetween(i: nat, lo: nat, hi: int) { lo <= i < hi }

  /** The pages from `lo` up to `hi`, without `hi`. */
  function Pages(lo: nat, hi: int): set<nat> {
    set i: nat | 0 <= i < hi && IsBetween(i, lo, hi)
  }

  // ---------------------------------------------------------------- operations

  /** The lowest free page at or above `i`. */
  function LowestFree(s: Pmm, i: nat): Option<nat>
    decreases s.total - i
  {
    if i >= s.total then None else if i !in s.used then Some(i) else LowestFree(s, i + 1)
  }

  /** `alloc_page` */
  function AllocPage(s: Pmm): (Pmm, Result<nat>) {
    if s.freeCount == 0 then (s, Err(OutOfMemory))
    else match LowestFree(s, 0)
      case None => (s, Err(OutOfMemory))
      case Some(i) => (s.(used := s.used + {i}, freeCount := s.freeCount - 1), Ok(AddrOf(s, i)))
  }

  /** `count` free pages from page `start` on. */
  predicate FreeRun(s: Pmm, start: nat, count: nat) {
    start + count <= s.total && forall i | start <= i < start + count :: i !in s.used
  }

  /** The leftmost start, at or above `i`, of `count` free pages. */
  function FirstRun(s: Pmm, count: nat, i: nat): Option<nat>
    decreases s.total - i
  {
    if i >= s.total then None else if FreeRun(s, i, count) then Some(i) else FirstRun(s, count, i + 1)
  }

  /** `alloc_pages`; for `count == 0` the search never matches */
  function AllocPages(s: Pmm, count: nat): (Pmm, Result<nat>) {
    if s.freeCount < count || count == 0 then (s, Err(OutOfMemory))
    else match FirstRun(s, count, 0)
      case None => (s, Err(OutOfMemory))
      case Some(i) =>
        (s.(used := s.used + Pages(i, i + count), freeCount := s.freeCount - count), Ok(AddrOf(s, i)))
  }

  /** `free_page` */
  function FreePage(s: Pmm, addr: nat): (Pmm, Result<Unit>) {
    if addr < s.base || addr >= End(s) then (s, Err(InvalidAddress))
    else if addr % PAGE_SIZE != 0 then (s, Err(InvalidArgument))
    else
      var i := (addr - s.base) / PAGE_SIZE;
      if i !in s.used then (s, Err(PageNotMapped))
      else (s.(used := s.used - {i}, freeCount := s.freeCount + 1), Ok(Unit))
  }

  /** `free_pages_range`: stops at the first page that cannot be freed, keeping what it freed */
  function FreeRange(s: Pmm, addr: nat, count: nat): (Pmm, Result<Unit>)
    decreases count
  {
    if count == 0 then (s, Ok(Unit))
    else
      var (s1, r) := FreePage(s, addr);
      if r.Err? then (s1, r) else FreeRange(s1, addr + PAGE_SIZE, count - 1)
  }

  /** `saturating_sub(1)` */
  function Decrement(n: int): int { if n > 0 then n - 1 else 0 }

  /** The loop of `reserve_range` over the pages from `i` to `end`. */
  function ReserveFrom(s: Pmm, i: nat, end: int): Pmm
    decreases end - i
  {
    if i >= end then s
    else if i < s.total && i !in s.used
    then ReserveFrom(s.(used := s.used + {i}, freeCount := Decrement(s.freeCount)), i + 1, end)
    else ReserveFrom(s, i + 1, end)
  }

  function FirstPage(s: Pmm, start: nat): nat
    requires s.base <= start
  {
    (start - s.base) / PAGE_SIZE
  }

  /** The page after the last one that `reserve_range` touches. */
  function LastPage(s: Pmm, start: nat, size: nat): nat
    requires s.base <= start
  {
    if start + size > End(s) then s.total else (start + size - s.base + PAGE_SIZE - 1) / PAGE_SIZE
  }

  /** `reserve_range` */
  function Reserve(s: Pmm, start: nat, size: nat): Pmm {
    if start < s.base then s else ReserveFrom(s, FirstPage(s, start), LastPage(s, start, size))
  }

  // ---------------------------------------------------------------- counting

  lemma {:induction false} PagesSize(lo: nat, hi: nat)
    requires lo <= hi
    ensures |Pages(lo, hi)| == hi - lo
    decreases hi - lo
  {
    if lo == hi {
      assert Pages(lo, hi) == {};
    } else {
      PagesSize(lo, hi - 1);
      assert Pages(lo, hi) == Pages(lo, hi - 1) + {hi - 1};
    }
  }

  /** Free pages disjoint from the used ones fit in the free count. */
  lemma RoomFor(s: Pmm, pages: set<nat>)
    requires Counted(s) && pages !! s.used && (forall i | i in pages :: i < s.total)
    ensures |pages| <= s.freeCount
  {
    PagesSize(0, s.total);
    assert |pages + s.used| == |pages| + |s.used|;
    SubsetSize(pages + s.used, Pages(0, s.total));
  }

  // ---------------------------------------------------------------- alloc_page

  lemma {:induction false} LowestFreeMeaning(s: Pmm, i: nat)
    ensures LowestFree(s, i).Some? ==>
      var p := LowestFree(s, i).value; i <= p < s.total && p !in s.used && (forall j | i <= j < p :: j in s.used)
    ensures LowestFree(s, i).None? ==> forall j | i <= j < s.total :: j in s.used
    decreases s.total - i
  {
    if i < s.total && i in s.used { LowestFreeMeaning(s, i + 1); }
  }

  /** `alloc_page` succeeds exactly when the count is positive, gives the lowest free page, and keeps the count
      exact. */
  lemma AllocPageMeaning(s: Pmm)
    requires Counted(s)
    ensures var (s1, r) := AllocPage(s);
      && (r.Ok? <==> s.freeCount > 0)
      && Counted(s1)
      && (r.Err? ==> s1 == s && r == Err(OutOfMemory))
      && (r.Ok? ==> exists p :: IsLowestFree(s, p) && r.value == AddrOf(s, p) && s1.used == s.used + {p})
  {
    LowestFreeMeaning(s, 0);
    RoomFor(s, {});
    match LowestFree(s, 0) {
      case None =>
        PagesSize(0, s.total);
        SubsetSize(Pages(0, s.total), s.used);
      case Some(p) =>
        RoomFor(s, {p});
        assert IsLowestFree(s, p);
    }
  }

  ghost predicate IsLowestFree(s: Pmm, p: nat) {
    p < s.total && p !in s.used && forall j | 0 <= j < p :: j in s.used
  }

  // ---------------------------------------------------------------- alloc_pages

  ghost predicate IsFirstRun(s: Pmm, count: nat, start: nat) {
    FreeRun(s, start, count) && forall i | 0 <= i < start :: !FreeRun(s, i, count)
  }

  lemma {:induction false} FirstRunMeaning(s: Pmm, count: nat, i: nat)
    requires count >= 1
    ensures FirstRun(s, count, i).Some? ==>
      var p := FirstRun(s, count, i).value;
      p >= i && FreeRun(s, p, count) && (forall j | i <= j < p :: !FreeRun(s, j, count))
    ensures FirstRun(s, count, i).None? ==> forall j: nat | i <= j :: !FreeRun(s, j, count)
    decreases s.total - i
  {
    if i < s.total && !FreeRun(s, i, count) { FirstRunMeaning(s, count, i + 1); }
  }

  lemma TakeRun(s: Pmm, p: nat, count: nat)
    requires Counted(s) && FreeRun(s, p, count)
    ensures Counted(s.(used := s.used + Pages(p, p + count), freeCount := s.freeCount - count))
    ensures count <= s.freeCount
  {
    PagesSize(p, p + count);
    assert Pages(p, p + count) !! s.used;
    RoomFor(s, Pages(p, p + count));
    assert |s.used + Pages(p, p + count)| == |s.used| + count;
  }

  /** The run of pages from `p` on is the leftmost free one of its length; it and nothing else was taken. */
  ghost predicate TakesRun(s: Pmm, count: nat, p: nat, s1: Pmm, addr: nat) {
    IsFirstRun(s, count, p) && addr == AddrOf(s, p) && s1.used == s.used + Pages(p, p + count)
  }

  lemma AllocPagesIs(s: Pmm, count: nat, p: nat, s1: Pmm)
    requires 1 <= count <= s.freeCount && FirstRun(s, count, 0) == Some(p)
    requires s1 == s.(used := s.used + Pages(p, p + count), freeCount := s.freeCount - count)
    ensures AllocPages(s, count) == (s1, Ok(AddrOf(s, p)))
  {
  }

  lemma AllocRun(s: Pmm, count: nat, p: nat, s1: Pmm)
    requires Counted(s) && count >= 1 && FirstRun(s, count, 0) == Some(p)
    requires s1 == s.(used := s.used + Pages(p, p + count), freeCount := s.freeCount - count)
    ensures IsFirstRun(s, count, p) && AllocPages(s, count) == (s1, Ok(AddrOf(s, p))) && Counted(s1)
  {
    FirstRunMeaning(s, count, 0);
    TakeRun(s, p, count);
    AllocPagesIs(s, count, p, s1);
  }

  lemma AllocNoRun(s: Pmm, count: nat)
    requires count == 0 || FirstRun(s, count, 0).None?
    ensures AllocPages(s, count) == (s, Err(OutOfMemory)) && (count == 0 || !exists i: nat :: FreeRun(s, i, count))
  {
    if count > 0 { FirstRunMeaning(s, count, 0); }
  }

  /** `s1` and `r` are right for a request of `count` pages: it succeeds exactly when that many consecutive pages are
      free, takes the leftmost such run and nothing else, and keeps the count exact. */
  ghost predicate AllocatesRun(s: Pmm, count: nat, s1: Pmm, r: Result<nat>) {
    && Counted(s1) && s1.base == s.base && s1.total == s.total
    && (r.Err? ==> s1 == s && r == Err(OutOfMemory))
    && (r.Ok? <==> count >= 1 && exists i: nat :: FreeRun(s, i, count))
    && (r.Ok? ==> exists p: nat :: TakesRun(s, count, p, s1, r.value))
  }

  lemma RunAllocated(s: Pmm, count: nat, p: nat, s1: Pmm)
    requires Counted(s1) && s1.base == s.base && s1.total == s.total && count >= 1
    requires TakesRun(s, count, p, s1, AddrOf(s, p))
    ensures AllocatesRun(s, count, s1, Ok(AddrOf(s, p)))
  {
    assert FreeRun(s, p, count);
  }

  /** `alloc_pages` takes the leftmost run of free pages, and fails exactly when there is none. */
  lemma AllocPagesMeaning(s: Pmm, count: nat)
    requires Counted(s)
    ensures AllocatesRun(s, count, AllocPages(s, count).0, AllocPages(s, count).1)
  {
    if count == 0 || FirstRun(s, count, 0).None? {
      AllocNoRun(s, count);
    } else {
      var p := FirstRun(s, count, 0).value;
      var s1 := s.(used := s.used + Pages(p, p + count), freeCount := s.freeCount - count);
      AllocRun(s, count, p, s1);
      RunAllocated(s, count, p, s1);
    }
  }

  // ---------------------------------------------------------------- free_page and free_pages_range

  lemma PageAddress(s: Pmm, page: nat)
    requires s.base % PAGE_SIZE == 0 && page < s.total
    ensures var a := AddrOf(s, page);
      s.base <= a < End(s) && a % PAGE_SIZE == 0 && (a - s.base) / PAGE_SIZE == page
  {
  }

  /** `free_page` frees the one page that starts at the address, or fails and changes nothing: with one error outside
      the memory, one between page starts, and one on a page that is not used. */
  lemma FreePageMeaning(s: Pmm, addr: nat)
    requires Counted(s) && s.base % PAGE_SIZE == 0
    ensures var (s1, r) := FreePage(s, addr);
      && Counted(s1)
      && (r.Ok? <==> exists p :: p in s.used && addr == AddrOf(s, p))
      && (r.Ok? ==> exists p :: p in s.used && addr == AddrOf(s, p) && s1.used == s.used - {p})
      && (r.Err? ==> s1 == s)
    ensures var r := FreePage(s, addr).1;
      && (r == Err(InvalidAddress) <==> !(s.base <= addr < End(s)))
      && (r == Err(InvalidArgument) <==> s.base <= addr < End(s) && addr % PAGE_SIZE != 0)
      && (r == Err(PageNotMapped) <==> exists p: nat :: p < s.total && p !in s.used && addr == AddrOf(s, p))
  {
    forall p: nat | p < s.total && addr == AddrOf(s, p)
      ensures FreePage(s, addr).1 == if p in s.used then Ok(Unit) else Err(PageNotMapped)
    {
      PageAddress(s, p);
    }
    if s.base <= addr < End(s) && addr % PAGE_SIZE == 0 {
      var p := (addr - s.base) / PAGE_SIZE;
      assert p < s.total && addr == AddrOf(s, p);
    }
  }

  /** Freeing `count` used pages from page `p` on takes just these off, and adds `count` to the counter. */
  lemma {:induction false} FreeRangeMeaning(s: Pmm, p: nat, count: nat)
    requires s.base % PAGE_SIZE == 0 && p + count <= s.total && Pages(p, p + count) <= s.used
    ensures FreeRange(s, AddrOf(s, p), count) ==
      (s.(used := s.used - Pages(p, p + count), freeCount := s.freeCount + count), Ok(Unit))
    decreases count
  {
    if count > 0 {
      PageAddress(s, p);
      var s1 := FreePage(s, AddrOf(s, p)).0;
      assert s1 == s.(used := s.used - {p}, freeCount := s.freeCount + 1);
      FreeRangeMeaning(s1, p + 1, count - 1);
      assert s.used - {p} - Pages(p + 1, p + count) == s.used - Pages(p, p + count);
    } else {
      assert s.used - Pages(p, p) == s.used;
    }
  }

  /** Freeing a range stops at the first page that is not used, or past the end of the memory: the pages before it stay
      freed, and the error is the one for that page. */
  lemma {:induction false} FreeRangeStops(s: Pmm, p: nat, k: nat, count: nat)
    requires s.base % PAGE_SIZE == 0 && p + k <= s.total && Pages(p, p + k) <= s.used && p + k !in s.used && k < count
    ensures FreeRange(s, AddrOf(s, p), count) ==
      (s.(used := s.used - Pages(p, p + k), freeCount := s.freeCount + k),
       Err(if p + k < s.total then PageNotMapped else InvalidAddress))
    decreases k
  {
    if p < s.total { PageAddress(s, p); }
    if k > 0 {
      var s1 := FreePage(s, AddrOf(s, p)).0;
      assert p in Pages(p, p + k);
      assert s1 == s.(used := s.used - {p}, freeCount := s.freeCount + 1);
      FreeRangeStops(s1, p + 1, k - 1, count - 1);
      assert s.used - {p} - Pages(p + 1, p + k) == s.used - Pages(p, p + k);
    } else {
      assert s.used - Pages(p, p) == s.used;
    }
  }

  lemma FreeUndoesRun(s: Pmm, p: nat, count: nat, s1: Pmm)
    requires s.base % PAGE_SIZE == 0 && FreeRun(s, p, count)
    requires s1 == s.(used := s.used + Pages(p, p + count), freeCount := s.freeCount - count)
    ensures FreeRange(s1, AddrOf(s, p), count) == (s, Ok(Unit))
  {
    FreeRangeMeaning(s1, p, count);
    assert s1.used - Pages(p, p + count) == s.used;
  }

  /** `free_pages_range` of what `alloc_pages` gave restores bits and counter exactly. */
  lemma FreeUndoesAlloc(s: Pmm, count: nat)
    requires Counted(s) && s.base % PAGE_SIZE == 0 && AllocPages(s, count).1.Ok?
    ensures var (s1, r) := AllocPages(s, count);
      FreeRange(s1, r.value, count) == (s, Ok(Unit))
  {
    var p := FirstRun(s, count, 0).value;
    var s1 := s.(used := s.used + Pages(p, p + count), freeCount := s.freeCount - count);
    AllocRun(s, count, p, s1);
    FreeUndoesRun(s, p, count, s1);
  }

  // ---------------------------------------------------------------- reserve_range

  /** The pages from `i` up to `end` that are below `total`. */
  function Clip(i: nat, end: int, total: nat): set<nat> { Pages(i, end) * Pages(0, total) }

  lemma ClipHead(u: set<nat>, i: nat, end: int, total: nat)
    requires i < end
    ensures i < total ==> u + {i} + Clip(i + 1, end, total) == u + Clip(i, end, total)
    ensures i >= total || i in u ==> u + Clip(i + 1, end, total) == u + Clip(i, end, total)
  {
  }

  lemma ReserveStep(s: Pmm, i: nat)
    requires Counted(s) && i < s.total && i !in s.used
    ensures Counted(s.(used := s.used + {i}, freeCount := Decrement(s.freeCount)))
  {
    RoomFor(s, {i});
  }

  ghost predicate Marked(s: Pmm, pages: set<nat>, s1: Pmm) {
    Counted(s1) && s1.base == s.base && s1.total == s.total && s1.used == s.used + pages
  }

  lemma {:induction false} ReserveFromUsed(s: Pmm, i: nat, end: int)
    ensures var s1 := ReserveFrom(s, i, end);
      s1.base == s.base && s1.total == s.total && s1.used == s.used + Clip(i, end, s.total)
    decreases end - i
  {
    if i >= end {
      assert s.used + Clip(i, end, s.total) == s.used;
    } else {
      ClipHead(s.used, i, end, s.total);
      if i < s.total && i !in s.used {
        ReserveFromUsed(s.(used := s.used + {i}, freeCount := Decrement(s.freeCount)), i + 1, end);
      } else {
        ReserveFromUsed(s, i + 1, end);
      }
    }
  }

  lemma {:induction false} ReserveFromCounted(s: Pmm, i: nat, end: int)
    requires Counted(s)
    ensures Counted(ReserveFrom(s, i, end))
    decreases end - i
  {
    if i < end {
      if i < s.total && i !in s.used {
        ReserveStep(s, i);
        ReserveFromCounted(s.(used := s.used + {i}, freeCount := Decrement(s.freeCount)), i + 1, end);
      } else {
        ReserveFromCounted(s, i + 1, end);
      }
    }
  }

  /** Reserving marks exactly the pages of the range below `total`, and the counter never saturates. */
  lemma ReserveFromMeaning(s: Pmm, i: nat, end: int)
    requires Counted(s)
    ensures Marked(s, Clip(i, end, s.total), ReserveFrom(s, i, end))
  {
    ReserveFromUsed(s, i, end);
    ReserveFromCounted(s, i, end);
  }

  /** The pages that `reserve_range` marks. */
  function Reserved(s: Pmm, start: nat, size: nat): set<nat> {
    if start < s.base then {} else Clip(FirstPage(s, start), LastPage(s, start, size), s.total)
  }

  lemma ReserveMeaning(s: Pmm, start: nat, size: nat)
    requires Counted(s)
    ensures Marked(s, Reserved(s, start, size), Reserve(s, start, size))
  {
    if start >= s.base { ReserveFromMeaning(s, FirstPage(s, start), LastPage(s, start, size)); }
  }

  /** The marked pages are exactly those that share a byte with the range. */
  lemma ReservedCovers(s: Pmm, start: nat, size: nat, page: nat)
    requires s.base <= start && size > 0
    ensures page in Reserved(s, start, size) <==>
      page < s.total && AddrOf(s, page) < start + size && start < AddrOf(s, page) + PAGE_SIZE
  {
    var f := FirstPage(s, start);
    assert start - s.base == f * PAGE_SIZE + (start - s.base) % PAGE_SIZE;
    var x := start + size - s.base + PAGE_SIZE - 1;
    assert x == x / PAGE_SIZE * PAGE_SIZE + x % PAGE_SIZE;
  }

  /** `reserve_range` twice is `reserve_range` once. */
  lemma ReserveIdempotent(s: Pmm, start: nat, size: nat)
    requires Counted(s)
    ensures Reserve(Reserve(s, start, size), start, size) == Reserve(s, start, size)
  {
    ReserveMeaning(s, start, size);
    var s1 := Reserve(s, start, size);
    ReserveMeaning(s1, start, size);
    assert s1.used + Reserved(s1, start, size) == s1.used;
  }

  /** The order of two reservations does not matter. */
  lemma ReserveCommutes(s: Pmm, a: nat, n: nat, b: nat, m: nat)
    requires Counted(s)
    ensures Reserve(Reserve(s, a, n), b, m) == Reserve(Reserve(s, b, m), a, n)
  {
    ReserveMeaning(s, a, n);
    ReserveMeaning(s, b, m);
    var ab := Reserve(Reserve(s, a, n), b, m);
    var ba := Reserve(Reserve(s, b, m), a, n);
    ReserveMeaning(Reserve(s, a, n), b, m);
    ReserveMeaning(Reserve(s, b, m), a, n);
    SameReserved(s, Reserve(s, a, n), b, m);
    SameReserved(s, Reserve(s, b, m), a, n);
    assert ab.used == ba.used;
  }

  lemma SameReserved(s: Pmm, s1: Pmm, start: nat, size: nat)
    requires s.base == s1.base && s.total == s1.total
    ensures Reserved(s, start, size) == Reserved(s1, start, size)
  {
  }
}
