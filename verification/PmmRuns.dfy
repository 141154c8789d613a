/** Whole runs of the page allocator of src/memory/pmm.rs, and its state after the boot reservations of src/lib.rs. */
module PmmRuns {
  import opened Kernel
  import opened Pmm

  // ---------------------------------------------------------------- the first state

  const BITMAP_BASE: nat := 0x50_0000
  const BITMAP_PAGES: nat := 512      // (BITMAP_SIZE + PAGE_SIZE - 1) / PAGE_SIZE for the 2 MB bitmap
  const MAX_PAGES: nat := 0x100_0000  // 64 GB

  /** The loop of `new` over the pages of the bitmap: it marks without looking. */
  function MarkFrom(s: Pmm, i: nat, end: nat): Pmm
    decreases end - i
  {
    if i >= end then s
    else if i < s.total then MarkFrom(s.(used := s.used + {i}, freeCount := Decrement(s.freeCount)), i + 1, end)
    else MarkFrom(s, i + 1, end)
  }

  /** The state of `new` before its loop: pages that have no bit in the bitmap read as used, but are counted as free. */
  function Unmarked(base: nat, total: nat): Pmm { Pmm(base, total, Pages(MAX_PAGES, total), total) }

  /** `new`, on a base at or below the bitmap */
  function New(base: nat, memorySize: nat): Pmm
    requires base <= BITMAP_BASE
  {
    var first := (BITMAP_BASE - base) / PAGE_SIZE;
    MarkFrom(Unmarked(base, memorySize / PAGE_SIZE), first, first + BITMAP_PAGES)
  }

  lemma {:induction false} MarkIsReserve(s: Pmm, i: nat, end: nat)
    requires forall j | i <= j < end :: j !in s.used
    ensures MarkFrom(s, i, end) == ReserveFrom(s, i, end)
    decreases end - i
  {
    if i < end {
      if i < s.total {
        MarkIsReserve(s.(used := s.used + {i}, freeCount := Decrement(s.freeCount)), i + 1, end);
      } else {
        MarkIsReserve(s, i + 1, end);
      }
    }
  }

  lemma FirstBitmapPage(base: nat)
    requires base <= BITMAP_BASE
    ensures (BITMAP_BASE - base) / PAGE_SIZE <= 0x500
  {
  }

  /** The loop of `reserve_range` takes one off the counter for every page it marks. */
  lemma {:induction false} ReserveFromCount(s: Pmm, i: nat, end: nat)
    requires i <= end <= s.total && s.freeCount >= end - i && forall j | i <= j < end :: j !in s.used
    ensures ReserveFrom(s, i, end).freeCount == s.freeCount - (end - i)
    decreases end - i
  {
    if i < end { ReserveFromCount(s.(used := s.used + {i}, freeCount := Decrement(s.freeCount)), i + 1, end); }
  }

  /** With more memory than the bitmap has bits for, the pages without a bit are counted as free. */
  lemma Overcounted(base: nat, total: nat, first: nat, s1: Pmm)
    requires total > MAX_PAGES && first <= 0x500
    requires s1 == ReserveFrom(Unmarked(base, total), first, first + BITMAP_PAGES)
    ensures !Counted(s1)
  {
    var s := Unmarked(base, total);
    var end := first + BITMAP_PAGES;
    ReserveFromCount(s, first, end);
    ReserveFromUsed(s, first, end);
    PagesSize(MAX_PAGES, total);
    PagesSize(first, end);
    assert Clip(first, end, total) == Pages(first, end);
    assert |s.used + Pages(first, end)| == |s.used| + BITMAP_PAGES;
  }

  /** `new` marks the bitmap's own pages, and counts exactly if and only if the bitmap has a bit for every page. */
  lemma NewMeaning(base: nat, memorySize: nat)
    requires base <= BITMAP_BASE
    ensures var s := New(base, memorySize);
      var first := (BITMAP_BASE - base) / PAGE_SIZE;
      && s.base == base && s.total == memorySize / PAGE_SIZE
      && s.used == Pages(MAX_PAGES, s.total) + Clip(first, first + BITMAP_PAGES, s.total)
      && (Counted(s) <==> s.total <= MAX_PAGES)
  {
    var total := memorySize / PAGE_SIZE;
    var first := (BITMAP_BASE - base) / PAGE_SIZE;
    var s := Unmarked(base, total);
    FirstBitmapPage(base);
    MarkIsReserve(s, first, first + BITMAP_PAGES);
    ReserveFromUsed(s, first, first + BITMAP_PAGES);
    if total <= MAX_PAGES {
      assert s.used == {};
      ReserveFromCounted(s, first, first + BITMAP_PAGES);
    } else {
      Overcounted(base, total, first, New(base, memorySize));
    }
  }

  /** The pages marked at first are those of the 2 MB from the start of the bitmap on, and those beyond 64 GB. */
  lemma NewMarks(base: nat, memorySize: nat, page: nat)
    requires base <= BITMAP_BASE && base % PAGE_SIZE == 0 && page < memorySize / PAGE_SIZE
    ensures page in New(base, memorySize).used <==>
      page >= 0x100_0000 || 0x50_0000 <= base + page * PAGE_SIZE < 0x50_0000 + 0x20_0000
  {
    NewMeaning(base, memorySize);
  }

  // ---------------------------------------------------------------- runs

  /** The allocator with the pages it has handed out and not got back. */
  datatype Tracked = Tracked(pmm: Pmm, given: set<nat>)

  datatype Op =
    | One
    | Many(count: nat)
    | Free(page: nat)
    | Keep(start: nat, size: nat)

  /** A caller frees only pages it was given. */
  predicate Allowed(t: Tracked, op: Op) {
    op.Free? ==> op.page in t.given
  }

  /** The pages an answer hands out. */
  function Handed(s: Pmm, op: Op): set<nat> {
    match op
    case One => if s.freeCount != 0 && LowestFree(s, 0).Some? then {LowestFree(s, 0).value} else {}
    case Many(count) =>
      if AllocPages(s, count).1.Ok? then Pages(FirstRun(s, count, 0).value, FirstRun(s, count, 0).value + count) else {}
    case _ => {}
  }

  function Step(t: Tracked, op: Op): Tracked {
    match op
    case One => Tracked(AllocPage(t.pmm).0, t.given + Handed(t.pmm, op))
    case Many(count) => Tracked(AllocPages(t.pmm, count).0, t.given + Handed(t.pmm, op))
    case Free(page) => Tracked(FreePage(t.pmm, AddrOf(t.pmm, page)).0, t.given - {page})
    case Keep(start, size) => Tracked(Reserve(t.pmm, start, size), t.given)
  }

  /** The pages of callers and the `safe` pages are marked, and no `safe` page is given. */
  ghost predicate Held(t: Tracked, safe: set<nat>) {
    t.given <= t.pmm.used && safe <= t.pmm.used && safe !! t.given
  }

  /** What is handed out was free: it is neither held by a caller nor safe. */
  lemma HandedIsFree(t: Tracked, op: Op, safe: set<nat>)
    requires Held(t, safe)
    ensures Handed(t.pmm, op) !! t.pmm.used
    ensures Handed(t.pmm, op) !! t.given && Handed(t.pmm, op) !! safe
  {
    match op {
      case One => LowestFreeMeaning(t.pmm, 0);
      case Many(count) => if count >= 1 { FirstRunMeaning(t.pmm, count, 0); }
      case _ =>
    }
  }

  lemma FreesOnly(s: Pmm, page: nat)
    ensures s.used - {page} <= FreePage(s, AddrOf(s, page)).0.used
  {
    assert (AddrOf(s, page) - s.base) / PAGE_SIZE == page;
  }

  /** Whatever the counter says, a caller that frees only what it was given never touches a safe page. */
  lemma StepHeld(t: Tracked, op: Op, safe: set<nat>)
    requires Held(t, safe) && Allowed(t, op)
    ensures Held(Step(t, op), safe)
  {
    HandedIsFree(t, op, safe);
    match op {
      case Free(page) => FreesOnly(t.pmm, page);
      case Keep(start, size) =>
        if start >= t.pmm.base { ReserveFromUsed(t.pmm, FirstPage(t.pmm, start), LastPage(t.pmm, start, size)); }
      case _ =>
    }
  }

  /** And the count is exact, on memory that starts on a page. */
  ghost predicate Guarded(t: Tracked, safe: set<nat>) {
    Held(t, safe) && Counted(t.pmm) && t.pmm.base % PAGE_SIZE == 0
  }

  /** The guard holds after a step, on the same memory. */
  ghost predicate StaysGuarded(t: Tracked, t1: Tracked, safe: set<nat>) {
    Guarded(t1, safe) && t1.pmm.base == t.pmm.base && t1.pmm.total == t.pmm.total
  }

  lemma StepCounted(t: Tracked, op: Op)
    requires Counted(t.pmm) && t.pmm.base % PAGE_SIZE == 0
    ensures Counted(Step(t, op).pmm)
    ensures Step(t, op).pmm.base == t.pmm.base && Step(t, op).pmm.total == t.pmm.total
  {
    match op {
      case One => AllocPageMeaning(t.pmm);
      case Many(count) => AllocPagesMeaning(t.pmm, count);
      case Free(page) => FreePageMeaning(t.pmm, AddrOf(t.pmm, page));
      case Keep(start, size) => ReserveMeaning(t.pmm, start, size);
    }
  }

  lemma StepGuarded(t: Tracked, op: Op, safe: set<nat>)
    requires Guarded(t, safe) && Allowed(t, op)
    ensures StaysGuarded(t, Step(t, op), safe)
  {
    StepHeld(t, op, safe);
    StepCounted(t, op);
  }

  ghost predicate IsRun(trace: seq<Tracked>, ops: seq<Op>) {
    && |trace| == |ops| + 1
    && (forall k | 0 <= k < |ops| :: Allowed(trace[k], ops[k]) && trace[k + 1] == Step(trace[k], ops[k]))
  }

  lemma {:induction false} RunGuarded(trace: seq<Tracked>, ops: seq<Op>, k: nat, safe: set<nat>)
    requires IsRun(trace, ops) && Guarded(trace[0], safe) && k < |trace|
    ensures Guarded(trace[k], safe)
    ensures trace[k].pmm.base == trace[0].pmm.base && trace[k].pmm.total == trace[0].pmm.total
  {
    if k > 0 {
      RunGuarded(trace, ops, k - 1, safe);
      StepGuarded(trace[k - 1], ops[k - 1], safe);
      assert trace[k - 1 + 1] == Step(trace[k - 1], ops[k - 1]);
    }
  }

  lemma {:induction false} RunHeld(trace: seq<Tracked>, ops: seq<Op>, k: nat, safe: set<nat>)
    requires IsRun(trace, ops) && Held(trace[0], safe) && k < |trace|
    ensures Held(trace[k], safe)
  {
    if k > 0 {
      RunHeld(trace, ops, k - 1, safe);
      StepHeld(trace[k - 1], ops[k - 1], safe);
      assert trace[k - 1 + 1] == Step(trace[k - 1], ops[k - 1]);
    }
  }

  /** Over every run: the free count is the number of clear bits, and what a step hands out is not held by anyone and
      not among the pages marked before the run. */
  lemma EveryRun(trace: seq<Tracked>, ops: seq<Op>, k: nat)
    requires IsRun(trace, ops) && k < |ops| && trace[0].given == {}
    requires Counted(trace[0].pmm) && trace[0].pmm.base % PAGE_SIZE == 0
    ensures Counted(trace[k].pmm)
    ensures Handed(trace[k].pmm, ops[k]) !! trace[k].given
    ensures Handed(trace[k].pmm, ops[k]) !! trace[0].pmm.used
  {
    RunGuarded(trace, ops, k, trace[0].pmm.used);
    HandedIsFree(trace[k], ops[k], trace[0].pmm.used);
  }

  lemma HandedBelow(s: Pmm, op: Op)
    ensures forall page | page in Handed(s, op) :: page < s.total
  {
    match op {
      case One => LowestFreeMeaning(s, 0);
      case Many(count) => if count >= 1 { FirstRunMeaning(s, count, 0); }
      case _ =>
    }
  }

  lemma StepTotal(t: Tracked, op: Op)
    ensures Step(t, op).pmm.total == t.pmm.total
  {
    match op {
      case Keep(start, size) =>
        if start >= t.pmm.base { ReserveFromUsed(t.pmm, FirstPage(t.pmm, start), LastPage(t.pmm, start, size)); }
      case _ =>
    }
  }

  lemma {:induction false} RunTotal(trace: seq<Tracked>, ops: seq<Op>, k: nat)
    requires IsRun(trace, ops) && k < |trace|
    ensures trace[k].pmm.total == trace[0].pmm.total
  {
    if k > 0 {
      RunTotal(trace, ops, k - 1);
      StepTotal(trace[k - 1], ops[k - 1]);
      assert trace[k - 1 + 1] == Step(trace[k - 1], ops[k - 1]);
    }
  }

  /** Over every run on memory of any size, no page without a bit and no page of the bitmap is ever handed out. */
  lemma NeverHanded(trace: seq<Tracked>, ops: seq<Op>, k: nat, base: nat, memorySize: nat, page: nat)
    requires base <= BITMAP_BASE && trace != [] && trace[0] == Tracked(New(base, memorySize), {})
    requires IsRun(trace, ops) && k < |ops| && page in Handed(trace[k].pmm, ops[k])
    ensures page < MAX_PAGES && page !in New(base, memorySize).used
  {
    var safe := New(base, memorySize).used;
    RunHeld(trace, ops, k, safe);
    HandedIsFree(trace[k], ops[k], safe);
    RunTotal(trace, ops, k);
    NewMeaning(base, memorySize);
    HandedBelow(trace[k].pmm, ops[k]);
  }

  // ---------------------------------------------------------------- the boot reservations

  const KERNEL_BASE: nat := 0x10_0000
  const MEMORY_SIZE: nat := 0x10_0000_0000  // 64 GB

  /** One page more than 64 GB is counted as free although it reads as used. */
  lemma LargeMemoryMiscounted()
    ensures !Counted(New(KERNEL_BASE, MEMORY_SIZE + PAGE_SIZE))
  {
    NewMeaning(KERNEL_BASE, MEMORY_SIZE + PAGE_SIZE);
  }

  /** `kend.saturating_sub(KERNEL_BASE).max(PMM_BITMAP_BASE - KERNEL_BASE)` */
  function KernelSize(kend: nat): nat {
    var n := if kend > KERNEL_BASE then kend - KERNEL_BASE else 0;
    if n > BITMAP_BASE - KERNEL_BASE then n else BITMAP_BASE - KERNEL_BASE
  }

  /** The allocator as `kernel_main` leaves it, for a kernel image ending at `kend`. */
  function BootPmm(kend: nat): Pmm {
    var s0 := New(KERNEL_BASE, MEMORY_SIZE);
    var s1 := Reserve(s0, KERNEL_BASE, KernelSize(kend));
    var s2 := Reserve(s1, 0x50_0000, 0x20_0000);
    var s3 := Reserve(s2, 0x70_0000, 0x10_0000);
    var s4 := Reserve(s3, 0x80_0000, 0x20_0000);
    Reserve(s4, 0xA0_0000, 0x40_0000)
  }

  const BOOT_END: nat := 0xE0_0000

  /** Every page below BOOT_END is marked after boot. */
  lemma BootReserved(kend: nat, page: nat)
    requires KERNEL_BASE + page * PAGE_SIZE < BOOT_END
    ensures page in BootPmm(kend).used
    ensures Counted(BootPmm(kend)) && BootPmm(kend).base == KERNEL_BASE && BootPmm(kend).total == MAX_PAGES
  {
    var s0 := New(KERNEL_BASE, MEMORY_SIZE);
    NewMeaning(KERNEL_BASE, MEMORY_SIZE);
    ReserveMeaning(s0, KERNEL_BASE, KernelSize(kend));
    var s1 := Reserve(s0, KERNEL_BASE, KernelSize(kend));
    ReserveMeaning(s1, 0x50_0000, 0x20_0000);
    var s2 := Reserve(s1, 0x50_0000, 0x20_0000);
    ReserveMeaning(s2, 0x70_0000, 0x10_0000);
    var s3 := Reserve(s2, 0x70_0000, 0x10_0000);
    ReserveMeaning(s3, 0x80_0000, 0x20_0000);
    var s4 := Reserve(s3, 0x80_0000, 0x20_0000);
    ReserveMeaning(s4, 0xA0_0000, 0x40_0000);
    ReservedCovers(s0, KERNEL_BASE, KernelSize(kend), page);
    ReservedCovers(s1, 0x50_0000, 0x20_0000, page);
    ReservedCovers(s2, 0x70_0000, 0x10_0000, page);
    ReservedCovers(s3, 0x80_0000, 0x20_0000, page);
    ReservedCovers(s4, 0xA0_0000, 0x40_0000, page);
  }

  /** Over every run from boot, every page handed out starts at or above 0xE00000: above the kernel, the bitmap, the
      page-table pool, the heap and the first 64 task stacks. */
  lemma HandedAboveBoot(kend: nat, trace: seq<Tracked>, ops: seq<Op>, k: nat, page: nat)
    requires IsRun(trace, ops) && k < |ops| && trace[0] == Tracked(BootPmm(kend), {})
    requires page in Handed(trace[k].pmm, ops[k])
    ensures AddrOf(trace[k].pmm, page) >= BOOT_END
  {
    BootReserved(kend, 0);
    RunGuarded(trace, ops, k, BootPmm(kend).used);
    HandedIsFree(trace[k], ops[k], BootPmm(kend).used);
    if KERNEL_BASE + page * PAGE_SIZE < BOOT_END {
      BootReserved(kend, page);
    }
  }
}
