/**
 The operations of src/memory/vmm.rs that change the page tables, and the proof that they refine a plain map
 from pages to entries.
 */
module Mapping {
  import opened Kernel
  import opened Bits
  import opened Radix
  import opened Paging

  function TableOf(s: Space, p: seq<nat>): Option<nat> { TableAt(X64(), s.mem, s.root, p) }

  /** The invariant: the reachable tables form a tree (none is reached by two paths) and none of them lies in
      the part of the pool that is still to be handed out. */
  ghost predicate Tree(s: Space) {
    && s.next % 4096 == 0
    && POOL_BASE <= s.next <= POOL_END
    && NoSharing(X64(), s.mem, s.root)
    && (forall p | |p| <= HEIGHT && TableOf(s, p).Some? :: !(s.next <= TableOf(s, p).value < POOL_END))
  }

  // ---------------------------------------------------------------- map_page

  /** `alloc_page_table` */
  function AllocTable(s: Space): (Space, Result<nat>) {
    if s.next + PAGE_SIZE > POOL_END then (s, Err(OutOfMemory))
    else (s.(next := s.next + PAGE_SIZE, mem := Fill(s.mem, s.next, map[])), Ok(s.next))
  }

  function Store(s: Space, t: nat, i: nat, e: nat): Space {
    s.(mem := Write(s.mem, t, i, e))
  }

  function TableEntry(n: nat): nat { Or(Or(n, PRESENT), WRITABLE) }

  /** One level of `map_page`: the table that entry `i` of `t` points to, taken from the pool if the entry is empty. */
  function Descend(s: Space, t: nat, i: nat): (Space, Result<nat>) {
    match NextTable(Load(s, t, i))
    case Some(next) => (s, Ok(next))
    case None =>
      var (s1, r) := AllocTable(s);
      match r
      case Err(_) => (s1, r)
      case Ok(n) => (Store(s1, t, i, TableEntry(n)), Ok(n))
  }

  /** The first `k` levels of `map_page` on page `p`. */
  function Grow(s: Space, p: seq<nat>, k: nat): (Space, Result<nat>)
    requires k <= 3 && |p| == 4
  {
    if k == 0 then (s, Ok(s.root))
    else
      var (s1, r) := Grow(s, p, k - 1);
      match r
      case Err(_) => (s1, r)
      case Ok(t) => Descend(s1, t, p[k - 1])
  }

  /** `map_page` */
  function MapPage(s: Space, virt: nat, phys: nat, flags: PageFlags): (Space, Result<Unit>) {
    if virt % PAGE_SIZE != 0 || phys % PAGE_SIZE != 0 then (s, Err(InvalidArgument))
    else
      var (s1, r) := Grow(s, PageOf(virt), 3);
      match r
      case Err(e) => (s1, Err(e))
      case Ok(pt) =>
        if And(Load(s1, pt, PageOf(virt)[3]), PRESENT) != 0 then (s1, Err(PageAlreadyMapped))
        else (Store(s1, pt, PageOf(virt)[3], Or(phys, flags)), Ok(Unit))
  }

  /** The page table of page `p`, found as `unmap_page` and `update_flags` do: three times `get_next_table_addr`. */
  function WalkToPt(s: Space, p: seq<nat>): Option<nat>
    requires |p| == 4
  {
    match NextTable(Load(s, s.root, p[0]))
    case None => None
    case Some(pdpt) =>
      match NextTable(Load(s, pdpt, p[1]))
      case None => None
      case Some(pd) => NextTable(Load(s, pd, p[2]))
  }

  /** `unmap_page` */
  function UnmapPage(s: Space, virt: nat): (Space, Result<nat>) {
    if virt % PAGE_SIZE != 0 then (s, Err(InvalidArgument))
    else
      var p := PageOf(virt);
      match WalkToPt(s, p)
      case None => (s, Err(PageNotMapped))
      case Some(pt) =>
        var entry := Load(s, pt, p[3]);
        if And(entry, PRESENT) == 0 then (s, Err(PageNotMapped))
        else (Store(s, pt, p[3], 0), Ok(And(entry, FRAME_MASK)))
  }

  /** `update_flags` */
  function UpdateFlags(s: Space, virt: nat, flags: PageFlags): (Space, Result<Unit>) {
    if virt % PAGE_SIZE != 0 then (s, Err(InvalidArgument))
    else
      var p := PageOf(virt);
      match WalkToPt(s, p)
      case None => (s, Err(PageNotMapped))
      case Some(pt) =>
        var entry := Load(s, pt, p[3]);
        if And(entry, PRESENT) == 0 then (s, Err(PageNotMapped))
        else (Store(s, pt, p[3], Or(And(entry, FRAME_MASK), flags)), Ok(Unit))
  }

  /** Pages left in the pool. */
  function Remaining(s: Space): int { (POOL_END - s.next) / PAGE_SIZE }

  /** Tables missing among the first `k` below the root on the walk of page `p`. */
  function Missing(s: Space, p: seq<nat>, k: nat): nat
    requires k <= 3 && |p| == 4
  {
    if k == 0 then 0 else Missing(s, p, k - 1) + if TableOf(s, p[..k]).None? then 1 else 0
  }

  // ---------------------------------------------------------------- single entries

  /** A page-aligned address below 2^52 is its own frame. */
  lemma FrameOfAligned(a: nat)
    requires a % 4096 == 0 && a < 0x10_0000_0000_0000
    ensures FrameOf(a) == a
  {
    var k := a / 4096;
    FrameIsField(a);
    DivBelow(a, 4096, 0x100_0000_0000);
    SmallMod(k, 0x100_0000_0000);
    QuotientTimes(a, 4096);
  }

  /** Masking with 0x000FFFFFFFFFF000 keeps bits 12 to 51. */
  lemma FrameIsField(a: nat)
    ensures FrameOf(a) == a / 4096 % 0x100_0000_0000 * 4096
  {
    AndFieldMask(a, 12, 40);
    ShrIsDiv(a, 12);
    Pow2Add(20, 20);
    assert Pow2(12) == 4096 && Pow2(20) == 0x10_0000;
  }

  /** Masking with 0x80 keeps bit 7. */
  lemma HugeIsBit(a: nat)
    ensures And(a, HUGE_PAGE) == a / 128 % 2 * 128
  {
    AndFieldMask(a, 7, 1);
    ShrIsDiv(a, 7);
    assert Pow2(7) == 128 && Pow2(1) == 2;
  }

  lemma PresentIsOdd(e: nat)
    ensures Present(e) <==> e % 2 == 1
  {
    AndLowMask(e, 1);
    assert Pow2(1) == 2;
  }

  lemma {:induction false} OrParity(x: nat, y: nat)
    ensures Or(x, y) % 2 == 1 <==> x % 2 == 1 || y % 2 == 1
  {
  }

  lemma OrOne(n: nat)
    requires n % 2 == 0
    ensures Or(n, 1) == n + 1
  {
    OrDisjoint(n / 2, 1, 1);
    assert Pow2(1) == 2;
  }

  lemma TableEntryIsSum(n: nat)
    requires n % 4 == 0
    ensures TableEntry(n) == n + 3
  {
    Quarter(n);
    OrOne(n);
    OrTwo(n + 1);
  }

  lemma Quarter(n: nat)
    requires n % 4 == 0
    ensures n % 2 == 0 && (n + 1) % 4 == 1
  {
    DivUnique(n, 2, 2 * (n / 4), 0);
    DivUnique(n + 1, 4, n / 4, 1);
  }

  lemma OrTwo(m: nat)
    requires m % 4 == 1
    ensures Or(m, 2) == m + 2
  {
    assert Or(m, 2) == 1 + 2 * Or(m / 2, 1);
    OrOne(m / 2);
  }

  lemma TableEntryNotHuge(n: nat)
    requires n % 4096 == 0
    ensures !Huge(n + 3)
  {
    var k := n / 4096;
    HugeIsBit(n + 3);
    DivUnique(n + 3, 128, 32 * k, 3);
    DivUnique(32 * k, 2, 16 * k, 0);
  }

  lemma TableEntryPresent(n: nat)
    requires n % 4096 == 0
    ensures Present(n + 3)
  {
    PresentIsOdd(n + 3);
    DivUnique(n + 3, 2, 2048 * (n / 4096) + 1, 1);
  }

  lemma TableEntryFrame(n: nat)
    requires n % 4096 == 0 && n < 0x10_0000_0000_0000
    ensures FrameOf(n + 3) == n
  {
    var k := n / 4096;
    FrameIsField(n + 3);
    DivUnique(n + 3, 4096, k, 3);
    DivBelow(n, 4096, 0x100_0000_0000);
    SmallMod(k, 0x100_0000_0000);
  }

  /** The entry written for a new table is a pointer to it at every depth above the last. */
  lemma TableEntryPoints(n: nat, depth: nat)
    requires n % 4096 == 0 && n < 0x10_0000_0000_0000 && depth < HEIGHT
    ensures Decode(TableEntry(n), depth) == Pointer(n)
  {
    DivUnique(n, 4, 1024 * (n / 4096), 0);
    TableEntryIsSum(n);
    TableEntryNotHuge(n);
    TableEntryPresent(n);
    TableEntryFrame(n);
  }

  lemma FlagsOutsideFrame(flags: PageFlags)
    ensures FrameOf(flags) == 0
  {
    FrameIsField(flags);
    if flags < 0x8000_0000_0000_0000 {
      assert flags / 4096 == 0;
    } else {
      assert flags / 4096 == 0x8_0000_0000_0000;
    }
  }

  /** The frame of a leaf entry is the frame of the address given, and it is present exactly when the flags say so. */
  lemma LeafEntry(phys: nat, flags: PageFlags)
    requires phys % PAGE_SIZE == 0
    ensures FrameOf(Or(phys, flags)) == FrameOf(phys)
    ensures Present(Or(phys, flags)) <==> Present(flags)
  {
    AndOverOr(phys, flags, FRAME_MASK);
    FlagsOutsideFrame(flags);
    PresentIsOdd(Or(phys, flags));
    PresentIsOdd(flags);
    OrParity(phys, flags);
  }

  // ---------------------------------------------------------------- one level down

  /** The state after a fresh table is hung from entry `i` of table `t`. */
  function Hung(s: Space, t: nat, i: nat): Space {
    Space(Write(Fill(s.mem, s.next, map[]), t, i, TableEntry(s.next)), s.root, s.next + PAGE_SIZE)
  }

  lemma HungIsGraft(s: Space, p: seq<nat>, t: nat, i: nat)
    requires Tree(s) && |p| < HEIGHT && TableOf(s, p) == Some(t) && s.next < POOL_END
    requires Decode(Load(s, t, i), |p|) == Empty
    ensures IsGraft(X64(), s.mem, s.root, p, i, s.next, map[], TableEntry(s.next), Hung(s, t, i).mem)
  {
    TableEntryPoints(s.next, |p|);
    NextIsOutside(s);
    FillWriteIsGraft(X64(), s.mem, s.root, p, i, s.next, map[], TableEntry(s.next));
  }

  lemma NextIsOutside(s: Space)
    requires Tree(s) && s.next < POOL_END
    ensures Outside(X64(), s.mem, s.root, s.next)
  {
    forall p | |p| <= HEIGHT
      ensures TableAt(X64(), s.mem, s.root, p) != Some(s.next)
    {
      assert TableOf(s, p).Some? ==> !(s.next <= TableOf(s, p).value < POOL_END);
    }
  }

  lemma HungTables(s: Space, p: seq<nat>, t: nat, i: nat)
    requires Tree(s) && |p| < HEIGHT && TableOf(s, p) == Some(t) && s.next < POOL_END
    requires Decode(Load(s, t, i), |p|) == Empty
    ensures NoSharing(X64(), Hung(s, t, i).mem, s.root)
    ensures forall q | |q| <= HEIGHT ::
      TableOf(Hung(s, t, i), q) == if q == p + [i] then Some(s.next) else TableOf(s, q)
    ensures forall q | |q| == 4 :: Lookup(Hung(s, t, i), q) == Lookup(s, q)
  {
    X64Proper();
    HungIsGraft(s, p, t, i);
    Install(X64(), s.mem, s.root, p, i, s.next, TableEntry(s.next), Hung(s, t, i).mem);
  }

  lemma HungKeepsTree(s: Space, p: seq<nat>, t: nat, i: nat)
    requires Tree(s) && |p| < HEIGHT && TableOf(s, p) == Some(t) && s.next < POOL_END
    requires Decode(Load(s, t, i), |p|) == Empty
    ensures Tree(Hung(s, t, i))
  {
    HungTables(s, p, t, i);
  }

  ghost predicate SameView(s: Space, s1: Space) {
    forall q | |q| == 4 :: Lookup(s1, q) == Lookup(s, q)
  }

  lemma DescendPresent(s: Space, t: nat, i: nat)
    requires Present(Load(s, t, i))
    ensures Descend(s, t, i) == (s, Ok(FrameOf(Load(s, t, i))))
  {
  }

  lemma DescendFull(s: Space, t: nat, i: nat)
    requires !Present(Load(s, t, i)) && s.next == POOL_END
    ensures Descend(s, t, i) == (s, Err(OutOfMemory))
  {
  }

  lemma DescendFresh(s: Space, t: nat, i: nat)
    requires !Present(Load(s, t, i)) && s.next + PAGE_SIZE <= POOL_END
    ensures Descend(s, t, i) == (Hung(s, t, i), Ok(s.next))
  {
    assert NextTable(Load(s, t, i)) == None;
    var s1 := s.(next := s.next + PAGE_SIZE, mem := Fill(s.mem, s.next, map[]));
    assert AllocTable(s) == (s1, Ok(s.next));
    assert Store(s1, t, i, TableEntry(s.next)) == Hung(s, t, i);
  }

  lemma PoolStep(next: nat)
    requires next % 4096 == 0 && next < POOL_END
    ensures next + PAGE_SIZE <= POOL_END
  {
    DivBelow(next, 4096, 0x800);
    QuotientTimes(next, 4096);
  }

  /** The effect of one level of `map_page` on entry `i` of the table at `p`: the tree and every translation are kept,
      and at most the table returned is added. */
  ghost predicate Descended(s: Space, p: seq<nat>, i: nat, s1: Space, r: Result<nat>) {
    && Tree(s1) && s1.root == s.root && SameView(s, s1)
    && (forall q | |q| <= HEIGHT && q != p + [i] :: TableOf(s1, q) == TableOf(s, q))
    && (r.Ok? ==> TableOf(s1, p + [i]) == Some(r.value))
    && (TableOf(s, p + [i]).Some? ==> r.Ok? && s1 == s)
    && (TableOf(s, p + [i]).None? && s.next == POOL_END ==> s1 == s && r == Err(OutOfMemory))
    && (TableOf(s, p + [i]).None? && s.next != POOL_END ==> r == Ok(s.next) && s1.next == s.next + PAGE_SIZE)
  }

  lemma DescendKeepsTree(s: Space, p: seq<nat>, t: nat, i: nat)
    requires Tree(s) && |p| < HEIGHT && TableOf(s, p) == Some(t)
    requires !Decode(Load(s, t, i), |p|).Leaf?
    ensures Descended(s, p, i, Descend(s, t, i).0, Descend(s, t, i).1)
  {
    TableAtStep(X64(), s.mem, s.root, p, i);
    if Present(Load(s, t, i)) {
      DescendPresent(s, t, i);
    } else if s.next == POOL_END {
      DescendFull(s, t, i);
    } else {
      PoolStep(s.next);
      DescendFresh(s, t, i);
      HungTables(s, p, t, i);
      HungKeepsTree(s, p, t, i);
    }
  }

  /** On a walk without huge pages every present entry above the last table is a pointer. */
  lemma NoLeafOnWalk(s: Space, p: seq<nat>, k: nat, t: nat)
    requires |p| == 4 && k < HEIGHT && NotHuge(s, p)
    requires TableOf(s, p[..k]) == Some(t)
    ensures !Decode(Load(s, t, p[k]), k).Leaf?
  {
    FindFrom(X64(), s.mem, s.root, p, k);
  }

  /** The effect of the first `k` levels of `map_page`: the tree and every translation are kept; the pool lasts exactly
      when it holds the missing tables, and then gives up just those. */
  ghost predicate Grown(s: Space, p: seq<nat>, k: nat, s1: Space, r: Result<nat>)
    requires |p| == 4 && k <= 3
  {
    && Tree(s1) && s1.root == s.root && SameView(s, s1)
    && (forall j | k < j <= 3 :: TableOf(s1, p[..j]) == TableOf(s, p[..j]))
    && (r.Ok? ==> TableOf(s1, p[..k]) == Some(r.value))
    && (Missing(s, p, k) == 0 ==> s1 == s)
    && (if Missing(s, p, k) <= Remaining(s) then r.Ok? && Remaining(s1) == Remaining(s) - Missing(s, p, k)
        else r == Err(OutOfMemory) && s1.next == POOL_END)
  }

  lemma {:induction false} GrowKeepsTree(s: Space, p: seq<nat>, k: nat)
    requires Tree(s) && |p| == 4 && NotHuge(s, p) && k <= 3
    ensures Grown(s, p, k, Grow(s, p, k).0, Grow(s, p, k).1)
  {
    if k == 0 {
      assert p[..0] == [];
    } else {
      GrowKeepsTree(s, p, k - 1);
      var (s0, r0) := Grow(s, p, k - 1);
      if r0.Ok? {
        NoLeafOnWalk(s0, p, k - 1, r0.value);
        DescendKeepsTree(s0, p[..k - 1], r0.value, p[k - 1]);
        GrownStep(s, p, k, s0, r0, Grow(s, p, k).0, Grow(s, p, k).1);
      }
    }
  }

  lemma PrefixStep(p: seq<nat>, k: nat)
    requires 1 <= k <= |p|
    ensures p[..k - 1] + [p[k - 1]] == p[..k]
  {
  }

  lemma GrownStep(s: Space, p: seq<nat>, k: nat, s0: Space, r0: Result<nat>, s1: Space, r: Result<nat>)
    requires |p| == 4 && 1 <= k <= 3
    requires Grown(s, p, k - 1, s0, r0) && r0.Ok?
    requires Descended(s0, p[..k - 1], p[k - 1], s1, r)
    ensures Grown(s, p, k, s1, r)
  {
    PrefixStep(p, k);
    assert TableOf(s0, p[..k]) == TableOf(s, p[..k]);
    PoolCount(s0);
    forall j | k < j <= 3
      ensures TableOf(s1, p[..j]) == TableOf(s, p[..j])
    {
      assert p[..j] != p[..k];
    }
  }

  /** The tables of `s1` are those of `s` and the first `k` on the walk of page `p`. */
  ghost predicate WalkAdded(s: Space, p: seq<nat>, k: nat, s1: Space)
    requires k <= |p|
  {
    forall q | |q| <= HEIGHT :: TableOf(s1, q).Some? <==> TableOf(s, q).Some? || (1 <= |q| <= k && q == p[..|q|])
  }

  lemma WalkAddedStep(s: Space, p: seq<nat>, k: nat, s0: Space, s1: Space, r: Result<nat>)
    requires 1 <= k <= 3 && |p| == 4 && WalkAdded(s, p, k - 1, s0) && r.Ok?
    requires Descended(s0, p[..k - 1], p[k - 1], s1, r)
    ensures WalkAdded(s, p, k, s1)
  {
    PrefixStep(p, k);
    forall q | |q| <= HEIGHT
      ensures TableOf(s1, q).Some? <==> TableOf(s, q).Some? || (1 <= |q| <= k && q == p[..|q|])
    {
      if q != p[..k] { assert TableOf(s1, q) == TableOf(s0, q); }
    }
  }

  lemma {:induction false} GrowTables(s: Space, p: seq<nat>, k: nat)
    requires Tree(s) && |p| == 4 && NotHuge(s, p) && k <= 3 && Grow(s, p, k).1.Ok?
    ensures WalkAdded(s, p, k, Grow(s, p, k).0)
  {
    if k > 0 {
      GrowTables(s, p, k - 1);
      GrowKeepsTree(s, p, k - 1);
      var (s0, r0) := Grow(s, p, k - 1);
      NoLeafOnWalk(s0, p, k - 1, r0.value);
      DescendKeepsTree(s0, p[..k - 1], r0.value, p[k - 1]);
      WalkAddedStep(s, p, k, s0, Grow(s, p, k).0, Grow(s, p, k).1);
    }
  }

  /** The pool is used up exactly when NEXT_PAGE_ADDR has reached its end. */
  lemma PoolCount(s: Space)
    requires s.next % 4096 == 0 && s.next <= POOL_END
    ensures Remaining(s) >= 0
    ensures Remaining(s) == 0 <==> s.next == POOL_END
    ensures s.next != POOL_END ==> Remaining(s.(next := s.next + PAGE_SIZE)) == Remaining(s) - 1
  {
  }

  // ---------------------------------------------------------------- one page changed

  /** `s1` is a tree that says `leaf` of page `p` and what `s` says of every other page. */
  ghost predicate OnlyPageChanged(s: Space, p: seq<nat>, leaf: Option<(nat, nat)>, s1: Space)
    requires |p| == 4
  {
    && Tree(s1) && s1.root == s.root
    && Lookup(s1, p) == leaf
    && (forall q | |q| == 4 && q != p :: Lookup(s1, q) == Lookup(s, q))
  }

  function SmallLeaf(e: nat): Option<(nat, nat)> {
    if Present(e) then Some((e, HEIGHT)) else None
  }

  /** Writing an entry of the page table of page `p` changes what the tables say of `p` only, and moves no table. */
  lemma StoreLeaf(s: Space, p: seq<nat>, pt: nat, e: nat)
    requires Tree(s) && |p| == 4 && TableOf(s, p[..3]) == Some(pt)
    ensures OnlyPageChanged(s, p, SmallLeaf(e), Store(s, pt, p[3], e))
    ensures forall q | |q| <= HEIGHT :: TableOf(Store(s, pt, p[3], e), q) == TableOf(s, q)
  {
    X64Proper();
    LeafWrite(X64(), s.mem, s.root, p[..3], p[3], e);
    assert p[..3] + [p[3]] == p;
  }

  /** The page table of a page decides what the tables say of it. */
  lemma LookupInPt(s: Space, p: seq<nat>, pt: nat)
    requires |p| == 4 && TableOf(s, p[..3]) == Some(pt)
    ensures Lookup(s, p) == SmallLeaf(Load(s, pt, p[3]))
  {
    FindFrom(X64(), s.mem, s.root, p, 3);
  }

  /** Where no huge page is in the way, the walk of `unmap_page` and `update_flags` ends at the page table of the
      tree, and finds none exactly when there is none. */
  lemma WalkFindsPt(s: Space, p: seq<nat>)
    requires |p| == 4 && NotHuge(s, p)
    ensures WalkToPt(s, p) == TableOf(s, p[..3])
    ensures TableOf(s, p[..3]).None? ==> Lookup(s, p) == None
  {
    assert p[..0] == [] && p[..0] + [p[0]] == p[..1] && p[..1] + [p[1]] == p[..2] && p[..2] + [p[2]] == p[..3];
    TableAtStep(X64(), s.mem, s.root, p[..0], p[0]);
    TableAtStep(X64(), s.mem, s.root, p[..1], p[1]);
    TableAtStep(X64(), s.mem, s.root, p[..2], p[2]);
    NoLeafOnWalk(s, p, 0, s.root);
    FindStep(s, s.root, p, 0);
    match NextTable(Load(s, s.root, p[0])) {
      case None =>
      case Some(pdpt) =>
        NoLeafOnWalk(s, p, 1, pdpt);
        FindStep(s, pdpt, p, 1);
        match NextTable(Load(s, pdpt, p[1])) {
          case None =>
          case Some(pd) =>
            NoLeafOnWalk(s, p, 2, pd);
            FindStep(s, pd, p, 2);
        }
    }
  }

  // ---------------------------------------------------------------- the operations refine a map of pages

  /** `map_page`: which answer it gives, and that a success enters one page while a failure, whatever tables it
      left behind, changes no page. */
  lemma MapPageRefines(s: Space, virt: nat, phys: nat, flags: PageFlags)
    requires Tree(s) && NotHuge(s, PageOf(virt))
    ensures var p := PageOf(virt);
      var (s1, r) := MapPage(s, virt, phys, flags);
      && r == (if virt % PAGE_SIZE != 0 || phys % PAGE_SIZE != 0 then Err(InvalidArgument)
               else if Lookup(s, p).Some? then Err(PageAlreadyMapped)
               else if Missing(s, p, 3) > Remaining(s) then Err(OutOfMemory)
               else Ok(Unit))
      && OnlyPageChanged(s, p, if r.Ok? then SmallLeaf(Or(phys, flags)) else Lookup(s, p), s1)
      && (r.Err? && r.error != OutOfMemory ==> s1 == s)
  {
    var p := PageOf(virt);
    if virt % PAGE_SIZE == 0 && phys % PAGE_SIZE == 0 {
      GrowKeepsTree(s, p, 3);
      var (s0, r0) := Grow(s, p, 3);
      MappedNeedsNothing(s, p);
      if r0.Ok? {
        LookupInPt(s0, p, r0.value);
        StoreLeaf(s0, p, r0.value, Or(phys, flags));
      }
    }
  }

  /** A mapped 4 KB page has all its tables. */
  lemma MappedNeedsNothing(s: Space, p: seq<nat>)
    requires |p| == 4 && NotHuge(s, p)
    ensures Lookup(s, p).Some? ==> Missing(s, p, 3) == 0
  {
    WalkFindsPt(s, p);
    if TableOf(s, p[..3]).Some? {
      forall k | 1 <= k <= 3
        ensures TableOf(s, p[..k]).Some?
      {
        if TableOf(s, p[..k]).None? { TableAtPrefix(X64(), s.mem, s.root, p[..k], p[..3]); }
      }
      assert Missing(s, p, 1) == 0;
      assert Missing(s, p, 2) == 0;
    }
  }

  /** `unmap_page` removes one page and returns its frame, or fails and changes nothing. */
  lemma UnmapPageRefines(s: Space, virt: nat)
    requires Tree(s) && NotHuge(s, PageOf(virt))
    ensures var p := PageOf(virt);
      var (s1, r) := UnmapPage(s, virt);
      && r == (if virt % PAGE_SIZE != 0 then Err(InvalidArgument)
               else if Lookup(s, p).None? then Err(PageNotMapped)
               else Ok(FrameOf(Lookup(s, p).value.0)))
      && (r.Ok? ==> OnlyPageChanged(s, p, None, s1) && s1.next == s.next)
      && (r.Err? ==> s1 == s)
  {
    var p := PageOf(virt);
    WalkFindsPt(s, p);
    match WalkToPt(s, p) {
      case None =>
      case Some(pt) =>
        LookupInPt(s, p, pt);
        StoreLeaf(s, p, pt, 0);
    }
  }

  /** `update_flags` gives one mapped page new flags and the same frame, or fails and changes nothing. */
  lemma UpdateFlagsRefines(s: Space, virt: nat, flags: PageFlags)
    requires Tree(s) && NotHuge(s, PageOf(virt))
    ensures var p := PageOf(virt);
      var (s1, r) := UpdateFlags(s, virt, flags);
      && r == (if virt % PAGE_SIZE != 0 then Err(InvalidArgument)
               else if Lookup(s, p).None? then Err(PageNotMapped)
               else Ok(Unit))
      && (r.Ok? ==>
            OnlyPageChanged(s, p, SmallLeaf(Or(FrameOf(Lookup(s, p).value.0), flags)), s1) && s1.next == s.next)
      && (r.Err? ==> s1 == s)
  {
    var p := PageOf(virt);
    WalkFindsPt(s, p);
    match WalkToPt(s, p) {
      case None =>
      case Some(pt) =>
        LookupInPt(s, p, pt);
        StoreLeaf(s, p, pt, Or(FrameOf(Load(s, pt, p[3])), flags));
    }
  }
}
