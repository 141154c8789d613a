/**
 Who may use a page that `map_page` of src/memory/vmm.rs entered, by the rule of section 4.6 of the Intel SDM, volume
 3A: a page may be written, or used in user mode, only if every entry on the walk to it permits that.
 */
module TablePermissions {
  import opened Kernel
  import opened Bits
  import opened Radix
  import opened Paging
  import opened Mapping
  import opened AddressSpace

  const USER_ACCESSIBLE: nat := 0x4

  /** Every entry on the walk to the page has a bit of `flag`, and the page is mapped. */
  ghost predicate Permitted(s: Space, p: seq<nat>, flag: nat)
    requires |p| == 4
  {
    && Lookup(s, p).Some? && And(Lookup(s, p).value.0, flag) != 0
    && forall k | 1 <= k <= 3 :: WordPermits(s, p[..k], flag)
  }

  /** The entry that leads to the table at `q` has a bit of `flag`. */
  predicate WordPermits(s: Space, q: seq<nat>, flag: nat)
    requires q != []
  {
    TableOf(s, q[..|q| - 1]).Some? && And(WordTo(s, q), flag) != 0
  }

  function WordTo(s: Space, q: seq<nat>): nat
    requires q != [] && TableOf(s, q[..|q| - 1]).Some?
  {
    Load(s, TableOf(s, q[..|q| - 1]).value, q[|q| - 1])
  }

  // ---------------------------------------------------------------- the entries that lead to tables

  predicate Leads(s: Space, q: seq<nat>)
    requires q != [] && TableOf(s, q).Some?
  {
    TableOf(s, q[..|q| - 1]).Some? && WordTo(s, q) == TableEntry(TableOf(s, q).value)
  }

  /** Every table below the root hangs from an entry that `map_page` wrote for it. */
  ghost predicate Linked(s: Space) { forall q | 1 <= |q| <= HEIGHT && TableOf(s, q).Some? :: Leads(s, q) }

  lemma HungWord(s: Space, t: nat, i: nat, u: nat, j: nat)
    ensures Load(Hung(s, t, i), u, j) ==
      if u == t && j == i then TableEntry(s.next) else if u == s.next then 0 else Load(s, u, j)
  {
    ReadFill(X64(), s.mem, s.next, map[], u, j);
  }

  /** `s1` is `s` with a fresh table hung from entry `i` of the table `t` at `p`. */
  ghost predicate HangsFresh(s: Space, p: seq<nat>, t: nat, i: nat, s1: Space) {
    && TableOf(s, p) == Some(t) && TableOf(s, p + [i]) == None
    && (forall q | |q| <= HEIGHT :: TableOf(s1, q) == if q == p + [i] then Some(s.next) else TableOf(s, q))
    && (forall u, j :: Load(s1, u, j) ==
          if u == t && j == i then TableEntry(s.next) else if u == s.next then 0 else Load(s, u, j))
  }

  lemma HungHangsFresh(s: Space, p: seq<nat>, t: nat, i: nat)
    requires Tree(s) && |p| < HEIGHT && TableOf(s, p) == Some(t) && s.next < POOL_END
    requires Decode(Load(s, t, i), |p|) == Empty
    ensures HangsFresh(s, p, t, i, Hung(s, t, i))
  {
    HungTables(s, p, t, i);
    forall u, j
      ensures Load(Hung(s, t, i), u, j) ==
        if u == t && j == i then TableEntry(s.next) else if u == s.next then 0 else Load(s, u, j)
    {
      HungWord(s, t, i, u, j);
    }
    assert (p + [i])[..|p|] == p;
  }

  lemma NewTableLeads(s: Space, p: seq<nat>, t: nat, i: nat, s1: Space)
    requires |p| < HEIGHT && HangsFresh(s, p, t, i, s1)
    ensures Leads(s1, p + [i])
  {
    assert (p + [i])[..|p|] == p && p != p + [i];
  }

  lemma ElsewhereThan(s: Space, p: seq<nat>, t: nat, i: nat, q: seq<nat>, k: nat, u: nat)
    requires Tree(s) && |p| < HEIGHT && s.next < POOL_END && TableOf(s, p) == Some(t)
    requires k + 1 == |q| <= HEIGHT && q != p + [i] && TableOf(s, q[..k]) == Some(u)
    ensures u != s.next && !(u == t && q[k] == i)
  {
    NextIsOutside(s);
    assert TableAt(X64(), s.mem, s.root, q[..k]) != Some(s.next);
    assert q == q[..k] + [q[k]];
    if u == t { assert q[..k] == p; }
  }

  lemma TableLeadsStill(s: Space, p: seq<nat>, t: nat, i: nat, s1: Space, q: seq<nat>, k: nat)
    requires Tree(s) && |p| < HEIGHT && s.next < POOL_END && HangsFresh(s, p, t, i, s1)
    requires k + 1 == |q| <= HEIGHT && q != p + [i] && TableOf(s, q).Some? && Leads(s, q)
    ensures TableOf(s1, q).Some? && Leads(s1, q)
  {
    var u := TableOf(s, q[..k]).value;
    ElsewhereThan(s, p, t, i, q, k, u);
    assert TableOf(s1, q[..k]) == Some(u) && Load(s1, u, q[k]) == Load(s, u, q[k]);
  }

  lemma HungLinked(s: Space, p: seq<nat>, t: nat, i: nat, s1: Space)
    requires Tree(s) && Linked(s) && |p| < HEIGHT && s.next < POOL_END && HangsFresh(s, p, t, i, s1)
    ensures Linked(s1)
  {
    forall q | 1 <= |q| <= HEIGHT && TableOf(s1, q).Some? ensures Leads(s1, q) {
      if q == p + [i] {
        NewTableLeads(s, p, t, i, s1);
      } else {
        TableLeadsStill(s, p, t, i, s1, q, |q| - 1);
      }
    }
  }

  lemma DescendLinked(s: Space, p: seq<nat>, t: nat, i: nat)
    requires Tree(s) && Linked(s) && |p| < HEIGHT && TableOf(s, p) == Some(t)
    requires !Decode(Load(s, t, i), |p|).Leaf?
    ensures Linked(Descend(s, t, i).0)
  {
    if Present(Load(s, t, i)) {
      DescendPresent(s, t, i);
    } else if s.next == POOL_END {
      DescendFull(s, t, i);
    } else {
      PoolStep(s.next);
      DescendFresh(s, t, i);
      HungHangsFresh(s, p, t, i);
      HungLinked(s, p, t, i, Hung(s, t, i));
    }
  }

  lemma LevelLinked(s: Space, p: seq<nat>, k: nat, t: nat)
    requires Tree(s) && Linked(s) && |p| == 4 && NotHuge(s, p) && k < 3 && TableOf(s, p[..k]) == Some(t)
    ensures Linked(Descend(s, t, p[k]).0)
  {
    NoLeafOnWalk(s, p, k, t);
    DescendLinked(s, p[..k], t, p[k]);
  }

  lemma {:induction false} GrowLinked(s: Space, p: seq<nat>, k: nat)
    requires Tree(s) && Linked(s) && |p| == 4 && NotHuge(s, p) && k <= 3
    ensures Linked(Grow(s, p, k).0)
  {
    if k > 0 {
      GrowLinked(s, p, k - 1);
      GrowKeepsTree(s, p, k - 1);
      var (s0, r0) := Grow(s, p, k - 1);
      if r0.Ok? { LevelLinked(s0, p, k - 1, r0.value); }
    }
  }

  /** A word of a page table is on no walk to a table. */
  lemma StoreLinked(s: Space, p: seq<nat>, pt: nat, e: nat, s1: Space)
    requires Tree(s) && Linked(s) && |p| == 4 && TableOf(s, p[..3]) == Some(pt) && s1 == Store(s, pt, p[3], e)
    ensures Linked(s1)
  {
    StoreLeaf(s, p, pt, e);
    forall q | 1 <= |q| <= HEIGHT && TableOf(s1, q).Some? ensures Leads(s1, q) {
      assert Leads(s, q);
      assert TableOf(s, q[..|q| - 1]) != Some(pt);
    }
  }

  lemma MapLinked(s: Space, virt: nat, phys: nat, flags: PageFlags)
    requires Tree(s) && Linked(s) && NotHuge(s, PageOf(virt))
    ensures Linked(MapPage(s, virt, phys, flags).0)
  {
    var p := PageOf(virt);
    GrowKeepsTree(s, p, 3);
    GrowLinked(s, p, 3);
    var (s0, r0) := Grow(s, p, 3);
    if r0.Ok? { StoreLinked(s0, p, r0.value, Or(phys, flags), Store(s0, r0.value, p[3], Or(phys, flags))); }
  }

  lemma UnmapLinked(s: Space, virt: nat)
    requires Tree(s) && Linked(s) && NotHuge(s, PageOf(virt))
    ensures Linked(UnmapPage(s, virt).0)
  {
    var p := PageOf(virt);
    WalkFindsPt(s, p);
    if TableOf(s, p[..3]).Some? {
      var pt := TableOf(s, p[..3]).value;
      StoreLinked(s, p, pt, 0, Store(s, pt, p[3], 0));
    }
  }

  lemma ProtectLinked(s: Space, virt: nat, flags: PageFlags)
    requires Tree(s) && Linked(s) && NotHuge(s, PageOf(virt))
    ensures Linked(UpdateFlags(s, virt, flags).0)
  {
    var p := PageOf(virt);
    WalkFindsPt(s, p);
    if TableOf(s, p[..3]).Some? {
      var pt := TableOf(s, p[..3]).value;
      var e := Or(FrameOf(Load(s, pt, p[3])), flags);
      StoreLinked(s, p, pt, e, Store(s, pt, p[3], e));
    }
  }

  lemma StepLinked(s: Space, op: Op)
    requires Tree(s) && Linked(s) && NotHuge(s, PageOf(op.virt))
    ensures Linked(Step(s, op).0)
  {
    match op
    case Map(virt, phys, flags) => MapLinked(s, virt, phys, flags);
    case Unmap(virt) => UnmapLinked(s, virt);
    case Protect(virt, flags) => ProtectLinked(s, virt, flags);
  }

  lemma {:induction false} RunLinked(s: Space, r: Ref, ops: seq<Op>)
    requires Represents(s, r) && Linked(s)
    ensures Linked(Run(s, ops).0)
    decreases |ops|
  {
    if ops != [] {
      assert NotHuge(s, PageOf(ops[0].virt));
      StepLinked(s, ops[0]);
      StepRefines(s, r, ops[0]);
      RunLinked(Step(s, ops[0]).0, RefStep(r, ops[0]).0, ops[1..]);
    }
  }

  // ---------------------------------------------------------------- permissions

  lemma OneBit(x: nat)
    ensures And(x, WRITABLE) == 2 * (x / 2 % 2) && And(x, USER_ACCESSIBLE) == 4 * (x / 4 % 2)
  {
    assert Pow2(1) == 2 && Pow2(2) == 4;
    AndFieldMask(x, 1, 1);
    AndFieldMask(x, 2, 1);
    ShrIsDiv(x, 1);
    ShrIsDiv(x, 2);
  }

  /** The entry for a table permits writing, and no use in user mode. */
  lemma TableEntryPermits(n: nat)
    requires n % PAGE_SIZE == 0
    ensures And(TableEntry(n), WRITABLE) != 0 && And(TableEntry(n), USER_ACCESSIBLE) == 0
  {
    var k := n / 4096;
    DivUnique(n, 4, 1024 * k, 0);
    TableEntryIsSum(n);
    OneBit(n + 3);
    DivUnique(n + 3, 2, 2048 * k + 1, 1);
    DivUnique(2048 * k + 1, 2, 1024 * k, 1);
    DivUnique(n + 3, 4, 1024 * k, 3);
    DivUnique(1024 * k, 2, 512 * k, 0);
  }

  lemma {:induction false} NoneMissing(s: Space, p: seq<nat>, n: nat, k: nat)
    requires |p| == 4 && 1 <= k <= n <= 3 && Missing(s, p, n) == 0
    ensures TableOf(s, p[..k]).Some?
    decreases n
  {
    if k < n { NoneMissing(s, p, n - 1, k); }
  }

  lemma WalkTables(s: Space, p: seq<nat>, k: nat)
    requires |p| == 4 && NotHuge(s, p) && Lookup(s, p).Some? && 1 <= k <= 3
    ensures TableOf(s, p[..k]).Some?
  {
    MappedNeedsNothing(s, p);
    NoneMissing(s, p, 3, k);
  }

  /** The entry that leads to a table on the walk to a mapped page permits writing, and no use in user mode. */
  lemma WalkPermits(s: Space, p: seq<nat>, k: nat)
    requires Linked(s) && PoolExact(s)
    requires |p| == 4 && NotHuge(s, p) && Lookup(s, p).Some? && 1 <= k <= 3
    ensures WordPermits(s, p[..k], WRITABLE) && !WordPermits(s, p[..k], USER_ACCESSIBLE)
  {
    WalkTables(s, p, k);
    assert Leads(s, p[..k]);
    TableEntryPermits(TableOf(s, p[..k]).value);
  }

  lemma EmptyLinked(root: nat)
    ensures Linked(AddressSpace.Empty(root))
  {
    forall q | 1 <= |q| <= HEIGHT ensures TableOf(AddressSpace.Empty(root), q).None? { EmptyTables(root, q); }
  }

  lemma RunFacts(root: nat, ops: seq<Op>, p: seq<nat>, s: Space, r: Ref)
    requires !(POOL_BASE <= root < POOL_END) && |p| == 4
    requires s == Run(AddressSpace.Empty(root), ops).0 && r == RefRun(RefEmpty(), ops).0
    ensures Linked(s) && PoolExact(s) && NotHuge(s, p)
    ensures Lookup(s, p) == if p in r.pages then Some((r.pages[p], HEIGHT)) else None
  {
    EveryRunFromEmpty(root, ops);
    EmptyLinked(root);
    EmptyRepresents(root);
    RunLinked(AddressSpace.Empty(root), RefEmpty(), ops);
  }

  /** Over every run from an empty PML4 a page may be written exactly when it is mapped and its own entry says so. */
  lemma WritableIff(root: nat, ops: seq<Op>, p: seq<nat>)
    requires !(POOL_BASE <= root < POOL_END) && |p| == 4
    ensures var pages := RefRun(RefEmpty(), ops).0.pages;
      Permitted(Run(AddressSpace.Empty(root), ops).0, p, WRITABLE) <==> p in pages && And(pages[p], WRITABLE) != 0
  {
    var s := Run(AddressSpace.Empty(root), ops).0;
    RunFacts(root, ops, p, s, RefRun(RefEmpty(), ops).0);
    if Lookup(s, p).Some? {
      forall k | 1 <= k <= 3 ensures WordPermits(s, p[..k], WRITABLE) { WalkPermits(s, p, k); }
    }
  }

  /** Over every such run no page may be used in user mode, whatever flags it was mapped with. */
  lemma NeverUserAccessible(root: nat, ops: seq<Op>, p: seq<nat>)
    requires !(POOL_BASE <= root < POOL_END) && |p| == 4
    ensures !Permitted(Run(AddressSpace.Empty(root), ops).0, p, USER_ACCESSIBLE)
  {
    var s := Run(AddressSpace.Empty(root), ops).0;
    RunFacts(root, ops, p, s, RefRun(RefEmpty(), ops).0);
    if Lookup(s, p).Some? { WalkPermits(s, p, 3); }
  }
}
