/** The region of task stacks of src/sched/task.rs. */
module Stacks {
  const STACK_BASE: nat := 0xA0_0000
  const STACK_REGION_END: nat := 0x200_0000
  const TASK_STACK_SIZE: nat := 0x1_0000

  /** `alloc_stack`: the next free address and the top of the new stack, or 0 when the region is full */
  function AllocStack(next: nat, size: nat): (nat, nat) {
    if next + size > STACK_REGION_END then (next, 0) else (next + size, next + size)
  }

  /** The next free address after stacks of these sizes were asked for. */
  function After(next: nat, sizes: seq<nat>): nat
    decreases |sizes|
  {
    if sizes == [] then next else After(AllocStack(next, sizes[0]).0, sizes[1..])
  }

  lemma {:induction false} AfterGrows(next: nat, sizes: seq<nat>)
    requires next <= STACK_REGION_END
    ensures next <= After(next, sizes) <= STACK_REGION_END
    decreases |sizes|
  {
    if sizes != [] { AfterGrows(AllocStack(next, sizes[0]).0, sizes[1..]); }
  }

  lemma {:induction false} AfterAppend(next: nat, a: seq<nat>, b: seq<nat>)
    ensures After(next, a + b) == After(After(next, a), b)
    decreases |a|
  {
    if a == [] {
      assert a + b == b;
    } else {
      assert (a + b)[0] == a[0] && (a + b)[1..] == a[1..] + b;
      AfterAppend(AllocStack(next, a[0]).0, a[1..], b);
    }
  }

  /** The top that request `k` of a run gets. */
  function Top(sizes: seq<nat>, k: nat): nat
    requires k < |sizes|
  {
    AllocStack(After(STACK_BASE, sizes[..k]), sizes[k]).1
  }

  /** Over every run of requests, of any sizes: stacks given out lie in the region and do not overlap. */
  lemma StacksDisjoint(sizes: seq<nat>, i: nat, j: nat)
    requires i < j < |sizes| && Top(sizes, i) != 0 && Top(sizes, j) != 0
    ensures STACK_BASE <= Top(sizes, i) - sizes[i] && Top(sizes, i) <= Top(sizes, j) - sizes[j]
    ensures Top(sizes, j) <= STACK_REGION_END
  {
    AfterGrows(STACK_BASE, sizes[..i]);
    var rest := sizes[i + 1..j];
    assert sizes[..j] == sizes[..i] + ([sizes[i]] + rest);
    AfterAppend(STACK_BASE, sizes[..i], [sizes[i]] + rest);
    assert ([sizes[i]] + rest)[1..] == rest;
    AfterGrows(Top(sizes, i), rest);
  }

  /** `n` requests for a task stack. */
  function TaskStacks(n: nat): (r: seq<nat>)
    ensures |r| == n
  {
    seq(n, _ => TASK_STACK_SIZE)
  }

  const MAX_STACKS: nat := 352

  lemma {:induction false} AfterTaskStacks(n: nat)
    ensures After(STACK_BASE, TaskStacks(n)) == STACK_BASE + TASK_STACK_SIZE * if n < MAX_STACKS then n else MAX_STACKS
  {
    if n > 0 {
      AfterTaskStacks(n - 1);
      assert TaskStacks(n) == TaskStacks(n - 1) + [TASK_STACK_SIZE];
      AfterAppend(STACK_BASE, TaskStacks(n - 1), [TASK_STACK_SIZE]);
      assert [TASK_STACK_SIZE][1..] == [];
    }
  }

  /** The first address of task stack `n`. */
  function StackStart(n: nat): nat { STACK_BASE + TASK_STACK_SIZE * n }

  /** When only task stacks are asked for, request `n` gets the stack from `StackStart(n)` on, up to the 352nd; each
      later request gets 0. */
  lemma TaskStackTop(n: nat, k: nat)
    requires k < n
    ensures Top(TaskStacks(n), k) == if k < MAX_STACKS then StackStart(k) + TASK_STACK_SIZE else 0
  {
    assert TaskStacks(n)[..k] == TaskStacks(k);
    AfterTaskStacks(k);
  }

  /** The static NEXT_STACK and the function that advances it. */
  class StackRegion {
    var nextStack: nat

    constructor ()
      ensures nextStack == STACK_BASE
    {
      nextStack := STACK_BASE;
    }

    /** `alloc_stack` */
    method Alloc(size: nat) returns (top: nat)
      modifies this
      ensures (nextStack, top) == AllocStack(old(nextStack), size)
    {
      if nextStack + size > STACK_REGION_END { return 0; }
      var start := nextStack;
      nextStack := nextStack + size;
      return start + size;
    }
  }
}
