/** Where the memory managers meet: the pages of src/memory/pmm.rs after boot against the task stacks of
    src/sched/task.rs. */
module Boot {
  import opened Kernel
  import opened Pmm
  import opened PmmRuns
  import opened Stacks

  /** The page that starts at BOOT_END. */
  const FIRST_PAGE: nat := 0xD00

  lemma BootMarks(kend: nat, page: nat)
    requires kend <= BOOT_END
    ensures page in BootPmm(kend).used <==> page < FIRST_PAGE
    ensures Counted(BootPmm(kend)) && BootPmm(kend).base == KERNEL_BASE && BootPmm(kend).total == MAX_PAGES
  {
    BootReserved(kend, 0);
    if page < FIRST_PAGE {
      BootReserved(kend, page);
    } else {
      BootFree(kend, page);
    }
  }

  /** For a kernel image that ends by BOOT_END no page from there on is marked. */
  lemma BootFree(kend: nat, page: nat)
    requires kend <= BOOT_END && page >= FIRST_PAGE
    ensures page !in BootPmm(kend).used
  {
    var s0 := New(KERNEL_BASE, MEMORY_SIZE);
    NewMeaning(KERNEL_BASE, MEMORY_SIZE);
    ReserveMeaning(s0, KERNEL_BASE, KernelSize(kend));
    var s1 := Reserve(s0, KERNEL_BASE, KernelSize(kend));
    ReserveMeaning(s1, 0x50_0000, 0x20_0000);
    var s2 := Reserve(s1, 0x50_0000, 0x20_0000);
    ReserveMeaning(s2, 0x70_0000, 0x10_0000);
    var s3 := Reserve(s2, 0x70_0000, 0x10_0000);
    ReserveMeaning(s3, 0x80_0000, 0x20_0000);
    var s4 := Reserve(s3, 0x80_0000, 0x20_0000);
    ReserveMeaning(s4, 0xA0_0000, 0x40_0000);
    ReservedCovers(s0, KERNEL_BASE, KernelSize(kend), page);
    ReservedCovers(s1, 0x50_0000, 0x20_0000, page);
    ReservedCovers(s2, 0x70_0000, 0x10_0000, page);
    ReservedCovers(s3, 0x80_0000, 0x20_0000, page);
    ReservedCovers(s4, 0xA0_0000, 0x40_0000, page);
  }

  /** A page and task stack `n` share a byte. */
  predicate Overlaps(page: nat, n: nat) {
    var a := KERNEL_BASE + page * PAGE_SIZE;
    a < StackStart(n) + TASK_STACK_SIZE && StackStart(n) < a + PAGE_SIZE
  }

  /** Over every run from boot, no page handed out overlaps one of the first 64 task stacks. */
  lemma EarlyStacksSafe(kend: nat, trace: seq<Tracked>, ops: seq<Op>, k: nat, page: nat, n: nat)
    requires IsRun(trace, ops) && k < |ops| && trace[0] == Tracked(BootPmm(kend), {})
    requires page in Handed(trace[k].pmm, ops[k]) && n < 64
    ensures !Overlaps(page, n)
  {
    BootReserved(kend, 0);
    HandedAboveBoot(kend, trace, ops, k, page);
    RunGuarded(trace, ops, k, {});
  }

  lemma FirstRunAfterBoot(kend: nat, count: nat)
    requires kend <= BOOT_END && 1 <= count && FIRST_PAGE + count <= MAX_PAGES
    ensures Handed(BootPmm(kend), Many(count)) == Pages(FIRST_PAGE, FIRST_PAGE + count)
  {
    var s := BootPmm(kend);
    BootMarks(kend, 0);
    forall page: nat ensures page in s.used <==> page < FIRST_PAGE { BootMarks(kend, page); }
    assert FreeRun(s, FIRST_PAGE, count);
    TakeRun(s, FIRST_PAGE, count);
    FirstRunMeaning(s, count, 0);
    var p := FirstRun(s, count, 0).value;
    assert p !in s.used;
  }

  /** After a boot with a kernel image that ends by BOOT_END, every task stack from the 65th on overlaps pages that one
      call of `alloc_pages` hands out: the region that is reserved for stacks is smaller than the one they are taken
      from. */
  lemma LateStackShared(kend: nat, n: nat)
    requires kend <= BOOT_END && 64 <= n < MAX_STACKS
    ensures var count := 16 * (n - 63);
      exists page :: page in Handed(BootPmm(kend), Many(count)) && Overlaps(page, n)
  {
    var count := 16 * (n - 63);
    FirstRunAfterBoot(kend, count);
    var page := FIRST_PAGE + 16 * (n - 64);
    assert page in Pages(FIRST_PAGE, FIRST_PAGE + count);
    assert KERNEL_BASE + page * PAGE_SIZE == StackStart(n);
  }
}
