/**
 What callers of src/memory/vmm.rs see: translations of addresses, whole runs of operations, and the use of the
 page-table pool.
 */
module AddressSpace {
  import opened Kernel
  import opened Bits
  import opened Radix
  import opened Paging
  import opened Mapping

  // ---------------------------------------------------------------- translations of addresses

  /** The bytes of a page entered with `phys` and `flags`: address `w` of the page, translated. */
  function Entered(phys: nat, flags: PageFlags, w: nat): Option<nat> {
    if Present(flags) then Some(FrameOf(phys) + w % PAGE_SIZE) else None
  }

  lemma TranslateSmallLeaf(e: nat, w: nat)
    ensures Target(SmallLeaf(e), w) == if Present(e) then Some(FrameOf(e) + w % PAGE_SIZE) else None
  {
    OffsetIsRemainder(w, HEIGHT);
  }

  /** If only page `p` changed, the addresses of `p` follow its new leaf and all others translate as before. */
  lemma TranslateAfterChange(s: Space, v: nat, leaf: Option<(nat, nat)>, s1: Space, w: nat)
    requires OnlyPageChanged(s, PageOf(v), leaf, s1)
    ensures Translate(s1, w) == if SamePage(v, w) then Target(leaf, w) else Translate(s, w)
  {
    SamePageSameWalk(v, w);
    TranslateIsLookup(s, w);
    TranslateIsLookup(s1, w);
  }

  lemma EnteredTranslates(s: Space, virt: nat, phys: nat, flags: PageFlags, s1: Space, w: nat)
    requires OnlyPageChanged(s, PageOf(virt), SmallLeaf(Or(phys, flags)), s1) && phys % PAGE_SIZE == 0
    ensures Translate(s1, w) == if SamePage(virt, w) then Entered(phys, flags, w) else Translate(s, w)
  {
    TranslateAfterChange(s, virt, SmallLeaf(Or(phys, flags)), s1, w);
    TranslateSmallLeaf(Or(phys, flags), w);
    LeafEntry(phys, flags);
  }

  lemma UnchangedTranslates(s: Space, virt: nat, s1: Space, w: nat)
    requires OnlyPageChanged(s, PageOf(virt), Lookup(s, PageOf(virt)), s1)
    ensures Translate(s1, w) == Translate(s, w)
  {
    TranslateAfterChange(s, virt, Lookup(s, PageOf(virt)), s1, w);
    SamePageSameWalk(virt, w);
    TranslateIsLookup(s, w);
  }

  /** After `map_page` succeeds, every address of the page translates to the frame plus its offset (to nothing if the
      flags lack PRESENT); every other address, and every address after a failure, translates as before. */
  lemma MapPageTranslates(s: Space, virt: nat, phys: nat, flags: PageFlags, w: nat)
    requires Tree(s) && NotHuge(s, PageOf(virt))
    ensures var (s1, r) := MapPage(s, virt, phys, flags);
      Translate(s1, w) == if r.Ok? && SamePage(virt, w) then Entered(phys, flags, w) else Translate(s, w)
  {
    MapPageRefines(s, virt, phys, flags);
    var (s1, r) := MapPage(s, virt, phys, flags);
    if r.Ok? {
      EnteredTranslates(s, virt, phys, flags, s1, w);
    } else {
      UnchangedTranslates(s, virt, s1, w);
    }
  }

  /** The frame stored for an aligned address is that address exactly when it is below 2^52. */
  lemma FrameKept(phys: nat)
    requires phys % PAGE_SIZE == 0
    ensures FrameOf(phys) == phys <==> phys < 0x10_0000_0000_0000
  {
    if phys < 0x10_0000_0000_0000 {
      FrameOfAligned(phys);
    } else {
      FrameIsField(phys);
      assert phys / 4096 % 0x100_0000_0000 <= 0xFF_FFFF_FFFF;
    }
  }

  lemma FrameOfFrame(e: nat)
    ensures FrameOf(e) % PAGE_SIZE == 0 && FrameOf(FrameOf(e)) == FrameOf(e)
  {
    FrameIsField(e);
    var k := e / 4096 % 0x100_0000_0000;
    assert k <= 0xFF_FFFF_FFFF;
    FrameOfAligned(k * 4096);
  }

  /** `unmap_page` removes the translation of one page and no other, and returns the page's frame. */
  lemma UnmapPageTranslates(s: Space, virt: nat, w: nat)
    requires Tree(s) && NotHuge(s, PageOf(virt))
    ensures var (s1, r) := UnmapPage(s, virt);
      && Translate(s1, w) == (if r.Ok? && SamePage(virt, w) then None else Translate(s, w))
      && (r.Ok? ==> Translate(s, virt) == Some(r.value))
  {
    UnmapPageRefines(s, virt);
    var (s1, r) := UnmapPage(s, virt);
    if r.Ok? {
      TranslateAfterChange(s, virt, None, s1, w);
      TranslateIsLookup(s, virt);
      OffsetIsRemainder(virt, HEIGHT);
    }
  }

  /** `update_flags` keeps every translation as long as the new flags hold PRESENT; without PRESENT it removes the
      page's translation and no other. */
  lemma UpdateFlagsTranslates(s: Space, virt: nat, flags: PageFlags, w: nat)
    requires Tree(s) && NotHuge(s, PageOf(virt))
    ensures var (s1, r) := UpdateFlags(s, virt, flags);
      Translate(s1, w) == if r.Ok? && SamePage(virt, w) && !Present(flags) then None else Translate(s, w)
  {
    UpdateFlagsRefines(s, virt, flags);
    var (s1, r) := UpdateFlags(s, virt, flags);
    if r.Ok? {
      ReflaggedTranslates(s, virt, Lookup(s, PageOf(virt)).value.0, flags, s1, w);
    }
  }

  lemma ReflaggedTranslates(s: Space, virt: nat, e: nat, flags: PageFlags, s1: Space, w: nat)
    requires Lookup(s, PageOf(virt)) == Some((e, HEIGHT))
    requires OnlyPageChanged(s, PageOf(virt), SmallLeaf(Or(FrameOf(e), flags)), s1)
    ensures Translate(s1, w) == if SamePage(virt, w) && !Present(flags) then None else Translate(s, w)
  {
    TranslateAfterChange(s, virt, SmallLeaf(Or(FrameOf(e), flags)), s1, w);
    ReflaggedTarget(e, flags, w);
    SamePageSameWalk(virt, w);
    TranslateIsLookup(s, w);
  }

  lemma ReflaggedTarget(e: nat, flags: PageFlags, w: nat)
    ensures Target(SmallLeaf(Or(FrameOf(e), flags)), w) == if Present(flags) then Target(Some((e, HEIGHT)), w) else None
  {
    FrameOfFrame(e);
    LeafEntry(FrameOf(e), flags);
  }

  /** `unmap_page` undoes `map_page`: it returns the address that was mapped and gives back every translation. */
  lemma UnmapUndoesMap(s: Space, virt: nat, phys: nat, flags: PageFlags, w: nat)
    requires Tree(s) && NotHuge(s, PageOf(virt))
    requires MapPage(s, virt, phys, flags).1.Ok? && Present(flags) && phys < 0x10_0000_0000_0000
    ensures var s1 := MapPage(s, virt, phys, flags).0;
      UnmapPage(s1, virt).1 == Ok(phys) && Translate(UnmapPage(s1, virt).0, w) == Translate(s, w)
  {
    MapPageRefines(s, virt, phys, flags);
    LeafEntry(phys, flags);
    FrameKept(phys);
    var s1 := MapPage(s, virt, phys, flags).0;
    MapPageTranslates(s, virt, phys, flags, w);
    UnmapPageRefines(s1, virt);
    UnmapPageTranslates(s1, virt, w);
    if SamePage(virt, w) {
      SamePageSameWalk(virt, w);
      TranslateIsLookup(s, w);
    }
  }

  // ---------------------------------------------------------------- whole runs

  datatype Op =
    | Map(virt: nat, phys: nat, flags: PageFlags)
    | Unmap(virt: nat)
    | Protect(virt: nat, flags: PageFlags)

  datatype Answer = Done | Freed(frame: nat) | Refused(error: Error)

  function Step(s: Space, op: Op): (Space, Answer) {
    match op
    case Map(virt, phys, flags) =>
      var (s1, r) := MapPage(s, virt, phys, flags);
      (s1, if r.Ok? then Done else Refused(r.error))
    case Unmap(virt) =>
      var (s1, r) := UnmapPage(s, virt);
      (s1, if r.Ok? then Freed(r.value) else Refused(r.error))
    case Protect(virt, flags) =>
      var (s1, r) := UpdateFlags(s, virt, flags);
      (s1, if r.Ok? then Done else Refused(r.error))
  }

  function Run(s: Space, ops: seq<Op>): (Space, seq<Answer>)
    decreases |ops|
  {
    if ops == [] then (s, [])
    else
      var (s1, a) := Step(s, ops[0]);
      var (s2, rest) := Run(s1, ops[1..]);
      (s2, [a] + rest)
  }

  /** The reference: a map from pages to entries, the set of the prefixes that have a table, and the number of tables
      that may still be added.  It holds no memory, no addresses and no entries of tables. */
  type Pages = map<seq<nat>, nat>

  datatype Ref = Ref(pages: Pages, tables: set<seq<nat>>, left: nat)

  function Put(m: Pages, p: seq<nat>, e: nat): Pages {
    if Present(e) then m[p := e] else m - {p}
  }

  /** Prefix `q` gets a table if it has none, while the budget lasts. */
  function Add(r: Ref, q: seq<nat>): (Ref, bool) {
    if q in r.tables then (r, true)
    else if r.left == 0 then (r, false)
    else (r.(tables := r.tables + {q}, left := r.left - 1), true)
  }

  /** The prefixes of page `p` of length 1 to `k`, the shortest first. */
  function AddAll(r: Ref, p: seq<nat>, k: nat): (Ref, bool)
    requires k <= 3 && |p| == 4
  {
    if k == 0 then (r, true)
    else
      var (r1, ok) := AddAll(r, p, k - 1);
      if ok then Add(r1, p[..k]) else (r1, false)
  }

  function RefStep(r: Ref, op: Op): (Ref, Answer) {
    var p := PageOf(op.virt);
    if op.virt % PAGE_SIZE != 0 || (op.Map? && op.phys % PAGE_SIZE != 0) then (r, Refused(InvalidArgument))
    else match op
      case Map(_, phys, flags) =>
        if p in r.pages then (r, Refused(PageAlreadyMapped))
        else
          var (r1, ok) := AddAll(r, p, 3);
          if ok then (r1.(pages := Put(r.pages, p, Or(phys, flags))), Done) else (r1, Refused(OutOfMemory))
      case Unmap(_) =>
        if p in r.pages then (r.(pages := r.pages - {p}), Freed(FrameOf(r.pages[p]))) else (r, Refused(PageNotMapped))
      case Protect(_, flags) =>
        if p in r.pages then (r.(pages := Put(r.pages, p, Or(FrameOf(r.pages[p]), flags))), Done)
        else (r, Refused(PageNotMapped))
  }

  function RefRun(r: Ref, ops: seq<Op>): (Ref, seq<Answer>)
    decreases |ops|
  {
    if ops == [] then (r, [])
    else
      var (r1, a) := RefStep(r, ops[0]);
      var (r2, rest) := RefRun(r1, ops[1..]);
      (r2, [a] + rest)
  }

  // ---------------------------------------------------------------- the budget of the reference

  function Prefixes(p: seq<nat>): set<seq<nat>>
    requires |p| == 4
  {
    {p[..1], p[..2], p[..3]}
  }

  /** The prefixes of `p` up to length `k` that have no table. */
  function Lacking(r: Ref, p: seq<nat>, k: nat): set<seq<nat>>
    requires |p| == 4
  {
    set q | q in Prefixes(p) && |q| <= k && q !in r.tables
  }

  /** The outcome of adding tables for the prefixes `need`, none of which has one: it succeeds exactly when the budget
      covers them, and then uses up just that much; otherwise it uses up the whole budget on some of them. */
  predicate Budgeted(r: Ref, need: set<seq<nat>>, r1: Ref, ok: bool) {
    && r1.pages == r.pages
    && r.tables <= r1.tables <= r.tables + need
    && r1.left + |r1.tables| == r.left + |r.tables|
    && (ok <==> |need| <= r.left)
    && (if ok then r1.tables == r.tables + need && r1.left == r.left - |need| else r1.left == 0)
  }

  lemma BudgetStep(r: Ref, need: set<seq<nat>>, r0: Ref, q: seq<nat>)
    requires Budgeted(r, need, r0, true) && q !in need
    ensures Budgeted(r, need + if q in r.tables then {} else {q}, Add(r0, q).0, Add(r0, q).1)
  {
    if q in r.tables {
      assert need + {} == need;
    } else {
      assert |need + {q}| == |need| + 1;
    }
  }

  lemma BudgetStop(r: Ref, need: set<seq<nat>>, r0: Ref, more: set<seq<nat>>)
    requires Budgeted(r, need, r0, false) && need !! more
    ensures Budgeted(r, need + more, r0, false)
  {
    assert |need + more| == |need| + |more|;
  }

  /** `map_page` takes exactly the tables that the page lacks, or all that are left. */
  lemma {:induction false} AddAllMeaning(r: Ref, p: seq<nat>, k: nat)
    requires |p| == 4 && k <= 3
    ensures Budgeted(r, Lacking(r, p, k), AddAll(r, p, k).0, AddAll(r, p, k).1)
  {
    if k == 0 {
      assert Lacking(r, p, 0) == {};
    } else {
      AddAllMeaning(r, p, k - 1);
      LackingStep(r, p, k);
      var (r0, ok) := AddAll(r, p, k - 1);
      if ok {
        BudgetStep(r, Lacking(r, p, k - 1), r0, p[..k]);
      } else {
        BudgetStop(r, Lacking(r, p, k - 1), r0, if p[..k] in r.tables then {} else {p[..k]});
      }
    }
  }

  lemma LackingStep(r: Ref, p: seq<nat>, k: nat)
    requires |p| == 4 && 1 <= k <= 3
    ensures p[..k] !in Lacking(r, p, k - 1)
    ensures Lacking(r, p, k) == Lacking(r, p, k - 1) + if p[..k] in r.tables then {} else {p[..k]}
  {
  }

  /** No operation creates or loses budget: tables and budget left add up to the same at every step. */
  lemma RefStepBudget(r: Ref, op: Op)
    ensures var r1 := RefStep(r, op).0; r1.left + |r1.tables| == r.left + |r.tables|
  {
    AddAllMeaning(r, PageOf(op.virt), 3);
  }

  lemma {:induction false} RefRunBudget(r: Ref, ops: seq<Op>)
    ensures var r1 := RefRun(r, ops).0; r1.left + |r1.tables| == r.left + |r.tables|
    decreases |ops|
  {
    if ops != [] {
      RefStepBudget(r, ops[0]);
      RefRunBudget(RefStep(r, ops[0]).0, ops[1..]);
    }
  }

  // ---------------------------------------------------------------- refinement

  ghost predicate SamePages(s: Space, m: Pages) {
    forall q | |q| == 4 :: Lookup(s, q) == if q in m then Some((m[q], HEIGHT)) else None
  }

  ghost predicate SameTables(s: Space, tables: set<seq<nat>>) {
    forall q | 1 <= |q| <= 3 :: q in tables <==> TableOf(s, q).Some?
  }

  /** The tables in memory hold exactly the pages of the reference, below exactly its prefixes, and the pool holds
      exactly its budget. */
  ghost predicate Represents(s: Space, r: Ref) {
    Tree(s) && SamePages(s, r.pages) && SameTables(s, r.tables) && Remaining(s) == r.left
  }

  lemma AddRefines(s: Space, r: Ref, p: seq<nat>, i: nat, s1: Space, a: Result<nat>)
    requires Represents(s, r) && |p| <= 2 && Descended(s, p, i, s1, a)
    ensures Represents(s1, Add(r, p + [i]).0)
    ensures a.Ok? <==> Add(r, p + [i]).1
    ensures a.Err? ==> a.error == OutOfMemory
  {
    PoolCount(s);
    assert p + [i] in r.tables <==> TableOf(s, p + [i]).Some?;
  }

  ghost predicate GrownAs(s1: Space, a: Result<nat>, r1: Ref, ok: bool) {
    Represents(s1, r1) && (a.Ok? <==> ok) && (a.Err? ==> a.error == OutOfMemory)
  }

  lemma DescendRefines(s: Space, r: Ref, p: seq<nat>, k: nat, t: nat)
    requires Represents(s, r) && |p| == 4 && 1 <= k <= 3 && TableOf(s, p[..k - 1]) == Some(t)
    ensures GrownAs(Descend(s, t, p[k - 1]).0, Descend(s, t, p[k - 1]).1, Add(r, p[..k]).0, Add(r, p[..k]).1)
  {
    NoLeafOnWalk(s, p, k - 1, t);
    DescendKeepsTree(s, p[..k - 1], t, p[k - 1]);
    AddRefines(s, r, p[..k - 1], p[k - 1], Descend(s, t, p[k - 1]).0, Descend(s, t, p[k - 1]).1);
    PrefixStep(p, k);
  }

  /** The levels that `map_page` adds are the prefixes that the reference adds. */
  lemma {:induction false} GrowRefines(s: Space, r: Ref, p: seq<nat>, k: nat)
    requires Represents(s, r) && |p| == 4 && k <= 3
    ensures GrownAs(Grow(s, p, k).0, Grow(s, p, k).1, AddAll(r, p, k).0, AddAll(r, p, k).1)
  {
    if k > 0 {
      GrowRefines(s, r, p, k - 1);
      GrowKeepsTree(s, p, k - 1);
      var (s0, a0) := Grow(s, p, k - 1);
      if a0.Ok? { DescendRefines(s0, AddAll(r, p, k - 1).0, p, k, a0.value); }
    }
  }

  lemma PutRefines(s: Space, r: Ref, p: seq<nat>, pt: nat, e: nat, m: Pages)
    requires Represents(s, r) && |p| == 4 && TableOf(s, p[..3]) == Some(pt) && m == Put(r.pages, p, e)
    ensures Represents(Store(s, pt, p[3], e), r.(pages := m))
  {
    StoreLeaf(s, p, pt, e);
  }

  lemma NewPageRefines(s: Space, r: Ref, virt: nat, phys: nat, flags: PageFlags)
    requires Represents(s, r) && virt % PAGE_SIZE == 0 && phys % PAGE_SIZE == 0 && PageOf(virt) !in r.pages
    ensures var op := Map(virt, phys, flags);
      Step(s, op).1 == RefStep(r, op).1 && Represents(Step(s, op).0, RefStep(r, op).0)
  {
    var p := PageOf(virt);
    GrowRefines(s, r, p, 3);
    GrowKeepsTree(s, p, 3);
    var (s0, a0) := Grow(s, p, 3);
    var r0 := AddAll(r, p, 3).0;
    if a0.Ok? {
      LookupInPt(s0, p, a0.value);
      AddAllMeaning(r, p, 3);
      PutRefines(s0, r0, p, a0.value, Or(phys, flags), Put(r0.pages, p, Or(phys, flags)));
    }
  }

  lemma MapStepRefines(s: Space, r: Ref, virt: nat, phys: nat, flags: PageFlags)
    requires Represents(s, r)
    ensures var op := Map(virt, phys, flags);
      Step(s, op).1 == RefStep(r, op).1 && Represents(Step(s, op).0, RefStep(r, op).0)
  {
    if virt % PAGE_SIZE == 0 && phys % PAGE_SIZE == 0 && PageOf(virt) !in r.pages {
      NewPageRefines(s, r, virt, phys, flags);
    } else {
      MapPageRefines(s, virt, phys, flags);
    }
  }

  lemma UnmapStepRefines(s: Space, r: Ref, virt: nat)
    requires Represents(s, r)
    ensures Step(s, Unmap(virt)).1 == RefStep(r, Unmap(virt)).1
    ensures Represents(Step(s, Unmap(virt)).0, RefStep(r, Unmap(virt)).0)
  {
    var p := PageOf(virt);
    UnmapPageRefines(s, virt);
    if virt % PAGE_SIZE == 0 && p in r.pages {
      WalkFindsPt(s, p);
      PutRefines(s, r, p, TableOf(s, p[..3]).value, 0, r.pages - {p});
    }
  }

  lemma ProtectStepRefines(s: Space, r: Ref, virt: nat, flags: PageFlags)
    requires Represents(s, r)
    ensures Step(s, Protect(virt, flags)).1 == RefStep(r, Protect(virt, flags)).1
    ensures Represents(Step(s, Protect(virt, flags)).0, RefStep(r, Protect(virt, flags)).0)
  {
    var p := PageOf(virt);
    UpdateFlagsRefines(s, virt, flags);
    if virt % PAGE_SIZE == 0 && p in r.pages {
      WalkFindsPt(s, p);
      var pt := TableOf(s, p[..3]).value;
      LookupInPt(s, p, pt);
      var e := Or(FrameOf(r.pages[p]), flags);
      PutRefines(s, r, p, pt, e, Put(r.pages, p, e));
    }
  }

  /** Each step answers as the reference does, OutOfMemory included, and moves to the tables of its next state. */
  lemma StepRefines(s: Space, r: Ref, op: Op)
    requires Represents(s, r)
    ensures Step(s, op).1 == RefStep(r, op).1 && Represents(Step(s, op).0, RefStep(r, op).0)
  {
    match op {
      case Map(virt, phys, flags) => MapStepRefines(s, r, virt, phys, flags);
      case Unmap(virt) => UnmapStepRefines(s, r, virt);
      case Protect(virt, flags) => ProtectStepRefines(s, r, virt, flags);
    }
  }

  /** Over every run the page tables give the answers of the reference, one by one, and end in the tables of its
      state. */
  lemma {:induction false} RunRefines(s: Space, r: Ref, ops: seq<Op>)
    requires Represents(s, r)
    ensures Run(s, ops).1 == RefRun(r, ops).1 && Represents(Run(s, ops).0, RefRun(r, ops).0)
    decreases |ops|
  {
    if ops != [] {
      StepRefines(s, r, ops[0]);
      RunRefines(Step(s, ops[0]).0, RefStep(r, ops[0]).0, ops[1..]);
    }
  }

  // ---------------------------------------------------------------- the empty address space

  /** An empty PML4 at `root` and an untouched pool. */
  function Empty(root: nat): Space { Space(map[], root, POOL_BASE) }

  lemma EmptyTables(root: nat, p: seq<nat>)
    requires p != []
    ensures TableOf(Empty(root), p) == None
    decreases |p|
  {
    var s := Empty(root);
    var q := p[..|p| - 1];
    if q != [] { EmptyTables(root, q); }
    assert Load(s, root, p[|p| - 1]) == 0;
  }

  /** No page, no table, and the 256 pages of the pool. */
  function RefEmpty(): Ref { Ref(map[], {}, 256) }

  lemma EmptyRepresents(root: nat)
    requires !(POOL_BASE <= root < POOL_END)
    ensures Represents(Empty(root), RefEmpty()) && PoolExact(Empty(root))
  {
    forall p | p != []
      ensures TableOf(Empty(root), p) == None
    {
      EmptyTables(root, p);
    }
    forall q | |q| == 4
      ensures Lookup(Empty(root), q) == None
    {
      FindStep(Empty(root), root, q, 0);
    }
  }

  // ---------------------------------------------------------------- the pool

  /** The pages taken from the pool are exactly the tables below the PML4, each reached by an interior entry. */
  ghost predicate PoolExact(s: Space) {
    && (forall a: nat | POOL_BASE <= a < s.next && a % PAGE_SIZE == 0 :: HasTable(s, a))
    && (forall p | 1 <= |p| <= HEIGHT && TableOf(s, p).Some? ::
          POOL_BASE <= TableOf(s, p).value < s.next && TableOf(s, p).value % PAGE_SIZE == 0)
  }

  ghost predicate HasTable(s: Space, a: nat) {
    exists p :: 1 <= |p| <= HEIGHT && TableOf(s, p) == Some(a)
  }

  lemma DescendedPoolExact(s: Space, p: seq<nat>, i: nat, s1: Space, r: Result<nat>)
    requires Tree(s) && PoolExact(s) && |p| < HEIGHT && Descended(s, p, i, s1, r)
    ensures PoolExact(s1)
  {
    if TableOf(s, p + [i]).None? && s.next != POOL_END {
      forall a: nat | POOL_BASE <= a < s1.next && a % PAGE_SIZE == 0
        ensures HasTable(s1, a)
      {
        if a < s.next {
          assert HasTable(s, a);
          var q :| 1 <= |q| <= HEIGHT && TableOf(s, q) == Some(a);
          assert TableOf(s1, q) == Some(a);
        } else {
          assert a == s.next;
          assert TableOf(s1, p + [i]) == Some(a);
        }
      }
      forall q | 1 <= |q| <= HEIGHT && TableOf(s1, q).Some?
        ensures POOL_BASE <= TableOf(s1, q).value < s1.next && TableOf(s1, q).value % PAGE_SIZE == 0
      {
        if q != p + [i] { assert TableOf(s1, q) == TableOf(s, q); }
      }
    }
  }

  lemma {:induction false} GrowPoolExact(s: Space, p: seq<nat>, k: nat)
    requires Tree(s) && PoolExact(s) && |p| == 4 && NotHuge(s, p) && k <= 3
    ensures PoolExact(Grow(s, p, k).0)
  {
    if k > 0 {
      GrowPoolExact(s, p, k - 1);
      GrowKeepsTree(s, p, k - 1);
      var (s0, r0) := Grow(s, p, k - 1);
      if r0.Ok? {
        NoLeafOnWalk(s0, p, k - 1, r0.value);
        DescendKeepsTree(s0, p[..k - 1], r0.value, p[k - 1]);
        DescendedPoolExact(s0, p[..k - 1], p[k - 1], Grow(s, p, k).0, Grow(s, p, k).1);
      }
    }
  }

  lemma SameTablesPoolExact(s: Space, s1: Space)
    requires PoolExact(s) && s1.next == s.next
    requires forall q | |q| <= HEIGHT :: TableOf(s1, q) == TableOf(s, q)
    ensures PoolExact(s1)
  {
    forall a: nat | POOL_BASE <= a < s1.next && a % PAGE_SIZE == 0
      ensures HasTable(s1, a)
    {
      assert HasTable(s, a);
      var q :| 1 <= |q| <= HEIGHT && TableOf(s, q) == Some(a);
      assert TableOf(s1, q) == Some(a);
    }
  }

  lemma StepPoolExact(s: Space, op: Op)
    requires Tree(s) && PoolExact(s) && NotHuge(s, PageOf(op.virt))
    ensures PoolExact(Step(s, op).0)
  {
    var p := PageOf(op.virt);
    WalkFindsPt(s, p);
    match op {
      case Map(virt, phys, flags) =>
        GrowKeepsTree(s, p, 3);
        GrowPoolExact(s, p, 3);
        var (s0, r0) := Grow(s, p, 3);
        if r0.Ok? {
          var s1 := Store(s0, r0.value, p[3], Or(phys, flags));
          StoreLeaf(s0, p, r0.value, Or(phys, flags));
          SameTablesPoolExact(s0, s1);
        }
      case Unmap(virt) =>
        if TableOf(s, p[..3]).Some? {
          var pt := TableOf(s, p[..3]).value;
          StoreLeaf(s, p, pt, 0);
          SameTablesPoolExact(s, Store(s, pt, p[3], 0));
        }
      case Protect(virt, flags) =>
        if TableOf(s, p[..3]).Some? {
          var pt := TableOf(s, p[..3]).value;
          var e := Or(FrameOf(Load(s, pt, p[3])), flags);
          StoreLeaf(s, p, pt, e);
          SameTablesPoolExact(s, Store(s, pt, p[3], e));
        }
    }
  }

  lemma {:induction false} RunPoolExact(s: Space, r: Ref, ops: seq<Op>)
    requires Represents(s, r) && PoolExact(s)
    ensures PoolExact(Run(s, ops).0)
    decreases |ops|
  {
    if ops != [] {
      assert NotHuge(s, PageOf(ops[0].virt));
      StepPoolExact(s, ops[0]);
      StepRefines(s, r, ops[0]);
      RunPoolExact(Step(s, ops[0]).0, RefStep(r, ops[0]).0, ops[1..]);
    }
  }

  /** Over every run from an empty PML4 outside the pool: every answer is the reference's, OutOfMemory included; the
      tables form a tree that holds the pages of the reference; and they are exactly the pages taken from the pool (none
      leaks, none is used twice), so that tables and pages left in the pool add up to 256. */
  lemma EveryRunFromEmpty(root: nat, ops: seq<Op>)
    requires !(POOL_BASE <= root < POOL_END)
    ensures var (s, answers) := Run(Empty(root), ops);
      var (r, expected) := RefRun(RefEmpty(), ops);
      && answers == expected && Represents(s, r) && PoolExact(s)
      && |r.tables| + Remaining(s) == 256
  {
    EmptyRepresents(root);
    RunRefines(Empty(root), RefEmpty(), ops);
    RunPoolExact(Empty(root), RefEmpty(), ops);
    RefRunBudget(RefEmpty(), ops);
  }
}
