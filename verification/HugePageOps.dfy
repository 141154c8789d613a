/**
 What `map_page` and `unmap_page` of src/memory/vmm.rs do to a page inside a 2 MB or 1 GB page, where their walk, which
 never looks at the huge-page bit, takes mapped memory for page tables; and what happens on the boot tables.
 */
module HugePageOps {
  import opened Kernel
  import opened Bits
  import opened Radix
  import opened Paging
  import opened Mapping
  import opened AddressSpace
  import opened HugePages

  /** The walk that ignores the huge-page bit ends at a present entry. */
  predicate WalkPresent(s: Space, p: seq<nat>)
    requires |p| == 4
  {
    WalkToPt(s, p).Some? && Present(Load(s, WalkToPt(s, p).value, p[3]))
  }

  // ---------------------------------------------------------------- neighbours in a huge page

  /** Pages whose walks differ in the last index only. */
  predicate Neighbours(p: seq<nat>, q: seq<nat>) {
    |p| == |q| == 4 && p[0] == q[0] && p[1] == q[1] && p[2] == q[2] && p[3] != q[3]
  }

  lemma NextPage(n: nat, m: nat)
    requires m == if n % 512 < 511 then n + 1 else n - 1
    ensures m / 512 == n / 512 && m % 512 != n % 512
  {
  }

  lemma UpperDigits(n: nat)
    ensures n / 0x4_0000 == n / 512 / 512 && n / 0x800_0000 == n / 512 / 512 / 512
  {
  }

  /** Every page has a neighbour. */
  lemma HasNeighbour(virt: nat) returns (w: nat)
    ensures Neighbours(PageOf(virt), PageOf(w)) && !SamePage(virt, w)
  {
    var n := virt / 0x1000;
    var m := if n % 512 < 511 then n + 1 else n - 1;
    w := m * 0x1000;
    NextPage(n, m);
    DivUnique(w, 0x1000, m, 0);
    UpperDigits(n);
    UpperDigits(m);
    PageDigits(virt);
    PageDigits(w);
    SamePageSameWalk(virt, w);
  }

  /** Neighbours have the same leaf, or none, where the page has no page table of its own. */
  lemma NeighboursShare(s: Space, p: seq<nat>, q: seq<nat>)
    requires Neighbours(p, q) && TableOf(s, p[..3]).None?
    ensures Lookup(s, p) == Lookup(s, q)
    ensures Lookup(s, p).Some? ==> Lookup(s, p).value.1 < HEIGHT
  {
    assert p[..0] == [] && p[..0] + [p[0]] == p[..1] && p[..1] + [p[1]] == p[..2] && p[..2] + [p[2]] == p[..3];
    TableAtStep(X64(), s.mem, s.root, p[..0], p[0]);
    TableAtStep(X64(), s.mem, s.root, p[..1], p[1]);
    TableAtStep(X64(), s.mem, s.root, p[..2], p[2]);
    FindStep(s, s.root, p, 0);
    FindStep(s, s.root, q, 0);
    var pdpt := FrameOf(Load(s, s.root, p[0]));
    FindStep(s, pdpt, p, 1);
    FindStep(s, pdpt, q, 1);
    var pd := FrameOf(Load(s, pdpt, p[1]));
    FindStep(s, pd, p, 2);
    FindStep(s, pd, q, 2);
  }

  /** A page inside a huge page has no page table of its own. */
  lemma HugeHasNoPt(s: Space, p: seq<nat>)
    requires |p| == 4
    ensures !NotHuge(s, p) ==> TableOf(s, p[..3]).None?
  {
    if TableOf(s, p[..3]).Some? { LookupInPt(s, p, TableOf(s, p[..3]).value); }
  }

  // ---------------------------------------------------------------- a word written at the end of the walk

  /** The tables at `p[..1]`, `p[..2]` and `p[..3]`. */
  predicate Chain(s: Space, p: seq<nat>, t1: nat, t2: nat, t3: nat) {
    && |p| == 4
    && Decode(Load(s, s.root, p[0]), 0) == Pointer(t1)
    && Decode(Load(s, t1, p[1]), 1) == Pointer(t2)
    && Decode(Load(s, t2, p[2]), 2) == Pointer(t3)
  }

  lemma ChainIsTables(s: Space, p: seq<nat>, t1: nat, t2: nat, t3: nat)
    requires |p| == 4
    ensures Chain(s, p, t1, t2, t3) <==>
      TableOf(s, p[..1]) == Some(t1) && TableOf(s, p[..2]) == Some(t2) && TableOf(s, p[..3]) == Some(t3)
  {
    assert p[..0] == [] && p[..0] + [p[0]] == p[..1] && p[..1] + [p[1]] == p[..2] && p[..2] + [p[2]] == p[..3];
    TableAtStep(X64(), s.mem, s.root, p[..0], p[0]);
    TableAtStep(X64(), s.mem, s.root, p[..1], p[1]);
    TableAtStep(X64(), s.mem, s.root, p[..2], p[2]);
  }

  lemma PtHasChain(s: Space, p: seq<nat>) returns (t1: nat, t2: nat, t3: nat)
    requires |p| == 4 && TableOf(s, p[..3]).Some?
    ensures Chain(s, p, t1, t2, t3)
  {
    forall k | 1 <= k <= 3
      ensures TableOf(s, p[..k]).Some?
    {
      if TableOf(s, p[..k]).None? { TableAtPrefix(X64(), s.mem, s.root, p[..k], p[..3]); }
    }
    t1, t2, t3 := TableOf(s, p[..1]).value, TableOf(s, p[..2]).value, TableOf(s, p[..3]).value;
    ChainIsTables(s, p, t1, t2, t3);
  }

  lemma ChainIsWalk(s: Space, p: seq<nat>, t1: nat, t2: nat, t3: nat)
    requires Chain(s, p, t1, t2, t3)
    ensures WalkToPt(s, p) == Some(t3)
  {
  }

  lemma StoreLoad(s: Space, t: nat, i: nat, e: nat, u: nat, j: nat)
    ensures Load(Store(s, t, i, e), u, j) == if u == t && j == i then e else Load(s, u, j)
  {
  }

  /** Writing an entry that is not present gives no page a page table. */
  lemma AbsentGivesNoPt(s: Space, p: seq<nat>, t: nat, i: nat, e: nat)
    requires |p| == 4 && TableOf(s, p[..3]).None? && !Present(e)
    ensures TableOf(Store(s, t, i, e), p[..3]).None?
  {
    var s1 := Store(s, t, i, e);
    if TableOf(s1, p[..3]).Some? {
      var t1, t2, t3 := PtHasChain(s1, p);
      StoreLoad(s, t, i, e, s.root, p[0]);
      StoreLoad(s, t, i, e, t1, p[1]);
      StoreLoad(s, t, i, e, t2, p[2]);
      ChainIsTables(s, p, t1, t2, t3);
      assert false;
    }
  }

  /** The walk that ignores the huge-page bit is the same in two memories whose words agree in frame and presence. */
  lemma SameFramesSameWalk(s: Space, p: seq<nat>, t: nat, i: nat, e: nat)
    requires |p| == 4 && Present(e) && Present(Load(s, t, i)) && FrameOf(e) == FrameOf(Load(s, t, i))
    ensures WalkToPt(Store(s, t, i, e), p) == WalkToPt(s, p)
  {
    forall u, j
      ensures NextTable(Load(Store(s, t, i, e), u, j)) == NextTable(Load(s, u, j))
    {
      StoreLoad(s, t, i, e, u, j);
    }
  }

  /** Nor does an entry with the frame of the one it replaces, at the end of the page's own walk, unless it makes a
      table reachable twice. */
  lemma SameFrameGivesNoPt(s: Space, p: seq<nat>, pt: nat, e: nat)
    requires |p| == 4 && TableOf(s, p[..3]).None? && WalkToPt(s, p) == Some(pt)
    requires Present(e) && Present(Load(s, pt, p[3])) && FrameOf(e) == FrameOf(Load(s, pt, p[3]))
    requires NoSharing(X64(), Store(s, pt, p[3], e).mem, s.root)
    ensures TableOf(Store(s, pt, p[3], e), p[..3]).None?
  {
    var s1 := Store(s, pt, p[3], e);
    if TableOf(s1, p[..3]).Some? {
      var t1, t2, t3 := PtHasChain(s1, p);
      SameFramesSameWalk(s, p, pt, p[3], e);
      ChainIsWalk(s1, p, t1, t2, t3);
      ChainIsTables(s1, p, t1, t2, t3);
      assert TableOf(s1, []) == Some(s.root);
      assert t3 == pt && pt != s.root && pt != t1 && pt != t2;
      StoreLoad(s, pt, p[3], e, s.root, p[0]);
      StoreLoad(s, pt, p[3], e, t1, p[1]);
      StoreLoad(s, pt, p[3], e, t2, p[2]);
      ChainIsTables(s, p, t1, t2, t3);
      assert false;
    }
  }

  // ---------------------------------------------------------------- map_page

  /** What `map_page` promises. */
  ghost predicate MapCorrect(s: Space, virt: nat, phys: nat, flags: PageFlags) {
    var (s1, r) := MapPage(s, virt, phys, flags);
    if virt % PAGE_SIZE != 0 || phys % PAGE_SIZE != 0 then r == Err(InvalidArgument) && s1 == s
    else if Translate(s, virt).Some? then r == Err(PageAlreadyMapped) && s1 == s
    else if Missing(s, PageOf(virt), 3) > Remaining(s) then
      r == Err(OutOfMemory) && Tree(s1) && forall w :: Translate(s1, w) == Translate(s, w)
    else
      && r == Ok(Unit) && Tree(s1)
      && forall w :: Translate(s1, w) == if SamePage(virt, w) then Entered(phys, flags, w) else Translate(s, w)
  }

  lemma TranslatedIffFound(s: Space, virt: nat)
    ensures Translate(s, virt).Some? <==> Lookup(s, PageOf(virt)).Some?
  {
    TranslateIsLookup(s, virt);
  }

  lemma MapCorrectSmall(s: Space, virt: nat, phys: nat, flags: PageFlags)
    requires Tree(s) && NotHuge(s, PageOf(virt))
    ensures MapCorrect(s, virt, phys, flags)
  {
    MapPageRefines(s, virt, phys, flags);
    TranslatedIffFound(s, virt);
    forall w { MapPageTranslates(s, virt, phys, flags, w); }
  }

  /** The levels that `map_page` goes down where its walk finds a page table, and where it finds none. */
  lemma {:induction false} GrowOnWalk(s: Space, p: seq<nat>)
    requires |p| == 4
    ensures WalkToPt(s, p).Some? ==> Grow(s, p, 3) == (s, Ok(WalkToPt(s, p).value))
    ensures WalkToPt(s, p).None? ==> Grow(s, p, 3).1 == Err(OutOfMemory) || Grow(s, p, 3).0.next > s.next
  {
    assert Grow(s, p, 0) == (s, Ok(s.root));
    GrowMoves(s, p, 1);
    GrowMoves(s, p, 2);
    GrowMoves(s, p, 3);
  }

  /** One more level: either the walk goes on in the same memory, or the pool has shrunk or run out. */
  lemma GrowMoves(s: Space, p: seq<nat>, k: nat)
    requires |p| == 4 && 1 <= k <= 3
    ensures var (s0, r0) := Grow(s, p, k - 1);
      var (s1, r) := Grow(s, p, k);
      && s1.next >= s0.next
      && (r0.Ok? && Present(Load(s0, r0.value, p[k - 1])) ==>
            s1 == s0 && r == Ok(FrameOf(Load(s0, r0.value, p[k - 1]))))
      && (r0.Ok? && !Present(Load(s0, r0.value, p[k - 1])) ==> r.Err? || s1.next > s0.next)
      && (r0.Err? ==> r == r0)
      && (r0.Ok? && r.Err? ==> r.error == OutOfMemory)
  {
  }

  /** `map_page` does what it promises if and only if the address is not aligned, or the page is not inside a huge page,
      or the words of mapped memory that it takes for entries are present: then it refuses, as it should.  Otherwise it
      enters a page that is mapped already, or reports a pool too small for it. */
  lemma MapPageWorksExactlyWhen(s: Space, virt: nat, phys: nat, flags: PageFlags)
    requires Tree(s)
    ensures MapCorrect(s, virt, phys, flags) <==>
      || virt % PAGE_SIZE != 0 || phys % PAGE_SIZE != 0
      || NotHuge(s, PageOf(virt)) || WalkPresent(s, PageOf(virt))
  {
    var p := PageOf(virt);
    if NotHuge(s, p) {
      MapCorrectSmall(s, virt, phys, flags);
    } else {
      TranslatedIffFound(s, virt);
      GrowOnWalk(s, p);
    }
  }

  // ---------------------------------------------------------------- unmap_page

  /** What `unmap_page` promises. */
  ghost predicate UnmapCorrect(s: Space, virt: nat) {
    var (s1, r) := UnmapPage(s, virt);
    if virt % PAGE_SIZE != 0 then r == Err(InvalidArgument) && s1 == s
    else if Translate(s, virt).None? then r == Err(PageNotMapped) && s1 == s
    else
      && r == Ok(Translate(s, virt).value)
      && forall w :: Translate(s1, w) == if SamePage(virt, w) then None else Translate(s, w)
  }

  lemma UnmapCorrectSmall(s: Space, virt: nat)
    requires Tree(s) && NotHuge(s, PageOf(virt))
    ensures UnmapCorrect(s, virt)
  {
    UnmapPageRefines(s, virt);
    TranslatedIffFound(s, virt);
    forall w { UnmapPageTranslates(s, virt, w); }
  }

  lemma UnmapHugeFails(s: Space, virt: nat)
    requires !NotHuge(s, PageOf(virt)) && virt % PAGE_SIZE == 0
    ensures !UnmapCorrect(s, virt)
  {
    var p := PageOf(virt);
    var (s1, r) := UnmapPage(s, virt);
    TranslatedIffFound(s, virt);
    if r.Ok? {
      var w := HasNeighbour(virt);
      HugeHasNoPt(s, p);
      AbsentGivesNoPt(s, p, WalkToPt(s, p).value, p[3], 0);
      NeighboursShare(s, p, PageOf(w));
      NeighboursShare(s1, p, PageOf(w));
      TranslatedIffFound(s, w);
      TranslatedIffFound(s1, w);
      TranslatedIffFound(s1, virt);
    }
  }

  /** `unmap_page` does what it promises if and only if the address is not aligned or the page is not inside a huge
      page. */
  lemma UnmapPageWorksExactlyWhen(s: Space, virt: nat)
    requires Tree(s)
    ensures UnmapCorrect(s, virt) <==> virt % PAGE_SIZE != 0 || NotHuge(s, PageOf(virt))
  {
    if NotHuge(s, PageOf(virt)) {
      UnmapCorrectSmall(s, virt);
    } else if virt % PAGE_SIZE == 0 {
      UnmapHugeFails(s, virt);
    }
  }

  // ---------------------------------------------------------------- what happens instead

  /** Inside a 2 MB page the walk ends at the mapped memory. */
  lemma WalkUnderLarge(s: Space, p: seq<nat>, e: nat)
    requires |p| == 4 && Lookup(s, p) == Some((e, 2))
    ensures WalkToPt(s, p) == Some(FrameOf(e))
  {
    FindStep(s, s.root, p, 0);
    var pdpt := FrameOf(Load(s, s.root, p[0]));
    FindStep(s, pdpt, p, 1);
    FindStep(s, FrameOf(Load(s, pdpt, p[1])), p, 2);
  }

  /** The 2 MB page of `virt` starts at `e`'s frame, which holds no table. */
  ghost predicate UnderLarge(s: Space, virt: nat, e: nat) {
    Lookup(s, PageOf(virt)) == Some((e, 2)) && Outside(X64(), s.mem, s.root, FrameOf(e))
  }

  /** Inside a 2 MB page whose memory holds no table, no operation changes a translation; each that reports success has
      overwritten a word of the mapped memory. */
  lemma MapPageUnderLarge(s: Space, virt: nat, phys: nat, flags: PageFlags, e: nat)
    requires UnderLarge(s, virt, e)
    ensures var (s1, r) := MapPage(s, virt, phys, flags);
      && s1.root == s.root && SameView(s, s1)
      && (r.Ok? ==>
            Load(s1, FrameOf(e), PageOf(virt)[3]) == Or(phys, flags) && !Present(Load(s, FrameOf(e), PageOf(virt)[3])))
  {
    WalkUnderLarge(s, PageOf(virt), e);
    GrowOnWalk(s, PageOf(virt));
    ForeignWrite(X64(), s.mem, s.root, FrameOf(e), PageOf(virt)[3], Or(phys, flags));
  }

  lemma MapSucceedsUnderLarge(s: Space, virt: nat, phys: nat, flags: PageFlags, e: nat)
    requires UnderLarge(s, virt, e) && virt % PAGE_SIZE == 0 && phys % PAGE_SIZE == 0
    requires Load(s, FrameOf(e), PageOf(virt)[3]) == 0
    ensures MapPage(s, virt, phys, flags).1.Ok?
  {
    WalkUnderLarge(s, PageOf(virt), e);
    GrowOnWalk(s, PageOf(virt));
  }

  lemma UnmapPageUnderLarge(s: Space, virt: nat, e: nat)
    requires UnderLarge(s, virt, e)
    ensures var (s1, r) := UnmapPage(s, virt);
      && s1.root == s.root && SameView(s, s1)
      && (r.Ok? ==>
            r.value == FrameOf(Load(s, FrameOf(e), PageOf(virt)[3])) && Load(s1, FrameOf(e), PageOf(virt)[3]) == 0)
  {
    WalkUnderLarge(s, PageOf(virt), e);
    ForeignWrite(X64(), s.mem, s.root, FrameOf(e), PageOf(virt)[3], 0);
  }

  lemma UpdateFlagsUnderLarge(s: Space, virt: nat, flags: PageFlags, e: nat)
    requires UnderLarge(s, virt, e)
    ensures var (s1, r) := UpdateFlags(s, virt, flags);
      var word := Load(s, FrameOf(e), PageOf(virt)[3]);
      && s1.root == s.root && SameView(s, s1)
      && (r.Ok? ==> Load(s1, FrameOf(e), PageOf(virt)[3]) == Or(FrameOf(word), flags))
  {
    WalkUnderLarge(s, PageOf(virt), e);
    var word := Load(s, FrameOf(e), PageOf(virt)[3]);
    ForeignWrite(X64(), s.mem, s.root, FrameOf(e), PageOf(virt)[3], Or(FrameOf(word), flags));
  }

  lemma {:induction false} GrowUnderGiant(s: Space, p: seq<nat>, e: nat, word: nat)
    requires |p| == 4 && Lookup(s, p) == Some((e, 1)) && word == Load(s, FrameOf(e), p[2])
    ensures Grow(s, p, 3) == Descend(s, FrameOf(e), p[2])
    ensures WalkToPt(s, p) == NextTable(word)
  {
    FindStep(s, s.root, p, 0);
    var pdpt := FrameOf(Load(s, s.root, p[0]));
    FindStep(s, pdpt, p, 1);
    assert Grow(s, p, 0) == (s, Ok(s.root));
    assert Grow(s, p, 1) == (s, Ok(pdpt));
    assert Grow(s, p, 2) == (s, Ok(FrameOf(e)));
  }

  lemma FillLoad(s: Space, n: nat, u: nat, j: nat)
    ensures Read(X64(), Fill(s.mem, n, map[]), u, j) == if u == n then 0 else Load(s, u, j)
  {
    ReadFill(X64(), s.mem, n, map[], u, j);
  }

  /** The memories agree outside the pages `t` and `s.next`, which hold no table. */
  ghost predicate Untouched(s: Space, s1: Space, t: nat) {
    && s1.root == s.root
    && Outside(X64(), s.mem, s.root, t) && Outside(X64(), s.mem, s.root, s.next)
    && (forall u, j | u != t && u != s.next :: Load(s1, u, j) == Load(s, u, j))
  }

  lemma HungElsewhere(s: Space, t: nat, i: nat, j: nat, e: nat)
    requires Outside(X64(), s.mem, s.root, t) && Outside(X64(), s.mem, s.root, s.next) && t != s.next
    ensures Untouched(s, Store(Hung(s, t, i), s.next, j, e), t)
    ensures Load(Hung(s, t, i), s.next, j) == 0
    ensures Load(Store(Hung(s, t, i), s.next, j, e), t, i) == TableEntry(s.next)
    ensures Load(Store(Hung(s, t, i), s.next, j, e), s.next, j) == e
  {
    FillLoad(s, s.next, s.next, j);
    forall u, k | u != t && u != s.next
      ensures Load(Store(Hung(s, t, i), s.next, j, e), u, k) == Load(s, u, k)
    {
      FillLoad(s, s.next, u, k);
    }
  }

  lemma UntouchedWord(s: Space, s1: Space, t: nat, q: seq<nat>, j: nat)
    requires Untouched(s, s1, t) && |q| <= HEIGHT
    ensures TableOf(s, q).Some? ==> var u := TableOf(s, q).value; Load(s, u, j) == Load(s1, u, j)
  {
    assert TableOf(s, q) != Some(t) && TableOf(s, q) != Some(s.next);
  }

  lemma {:induction false} UntouchedTable(s: Space, s1: Space, t: nat, q: seq<nat>)
    requires Untouched(s, s1, t) && |q| <= HEIGHT
    ensures TableOf(s1, q) == TableOf(s, q)
    decreases |q|
  {
    if q != [] {
      UntouchedTable(s, s1, t, q[..|q| - 1]);
      UntouchedWord(s, s1, t, q[..|q| - 1], q[|q| - 1]);
    }
  }

  /** Changing pages that hold no table changes no translation. */
  lemma UntouchedView(s: Space, s1: Space, t: nat)
    requires Untouched(s, s1, t)
    ensures SameView(s, s1)
  {
    forall q | |q| == 4
      ensures Lookup(s1, q) == Lookup(s, q)
    {
      forall k | 0 <= k <= HEIGHT
        ensures TableOf(s, q[..k]) == TableOf(s1, q[..k])
        ensures TableOf(s, q[..k]).Some? ==>
          var u := TableOf(s, q[..k]).value; Load(s, u, q[k]) == Load(s1, u, q[k])
      {
        UntouchedTable(s, s1, t, q[..k]);
        UntouchedWord(s, s1, t, q[..k], q[k]);
      }
      SameFindFromRoot(X64(), s.mem, s1.mem, s.root, q);
    }
  }

  /** A page of the pool hangs from the mapped memory and holds the entry; no translation has changed. */
  ghost predicate HungInMapped(s: Space, virt: nat, entry: nat, e: nat, s1: Space, r: Result<Unit>) {
    && r.Ok? && SameView(s, s1) && s1.next == s.next + PAGE_SIZE
    && Load(s1, FrameOf(e), PageOf(virt)[2]) == TableEntry(s.next)
    && Load(s1, s.next, PageOf(virt)[3]) == entry
  }

  lemma HungUnderGiant(s: Space, virt: nat, phys: nat, flags: PageFlags, e: nat)
    requires Tree(s) && virt % PAGE_SIZE == 0 && phys % PAGE_SIZE == 0 && Lookup(s, PageOf(virt)) == Some((e, 1))
    requires Outside(X64(), s.mem, s.root, FrameOf(e)) && !Present(Load(s, FrameOf(e), PageOf(virt)[2]))
    requires s.next != POOL_END && FrameOf(e) != s.next
    ensures HungInMapped(s, virt, Or(phys, flags), e, MapPage(s, virt, phys, flags).0, MapPage(s, virt, phys, flags).1)
  {
    var p := PageOf(virt);
    GrowUnderGiant(s, p, e, Load(s, FrameOf(e), p[2]));
    PoolStep(s.next);
    DescendFresh(s, FrameOf(e), p[2]);
    NextIsOutside(s);
    HungElsewhere(s, FrameOf(e), p[2], p[3], Or(phys, flags));
    UntouchedView(s, Store(Hung(s, FrameOf(e), p[2]), s.next, p[3], Or(phys, flags)), FrameOf(e));
  }

  /** Inside a 1 GB page `map_page` takes the mapped memory for a page directory.  Where the word it finds there is
      present it goes on to wherever that points.  Where it is not, it hangs a page of the pool from it and enters the
      page in that, out of reach of every translation. */
  lemma MapPageUnderGiant(s: Space, virt: nat, phys: nat, flags: PageFlags, e: nat, word: nat, pt: nat)
    requires Tree(s) && virt % PAGE_SIZE == 0 && phys % PAGE_SIZE == 0 && Lookup(s, PageOf(virt)) == Some((e, 1))
    requires word == Load(s, FrameOf(e), PageOf(virt)[2]) && pt == FrameOf(word)
    ensures Present(word) && Present(Load(s, pt, PageOf(virt)[3])) ==>
      MapPage(s, virt, phys, flags) == (s, Err(PageAlreadyMapped))
    ensures Present(word) && !Present(Load(s, pt, PageOf(virt)[3])) ==>
      MapPage(s, virt, phys, flags) == (Store(s, pt, PageOf(virt)[3], Or(phys, flags)), Ok(Unit))
    ensures !Present(word) && s.next == POOL_END ==> MapPage(s, virt, phys, flags) == (s, Err(OutOfMemory))
    ensures
      !Present(word) && s.next != POOL_END && FrameOf(e) != s.next && Outside(X64(), s.mem, s.root, FrameOf(e)) ==>
      HungInMapped(s, virt, Or(phys, flags), e, MapPage(s, virt, phys, flags).0, MapPage(s, virt, phys, flags).1)
  {
    var p := PageOf(virt);
    GrowUnderGiant(s, p, e, word);
    if Present(word) {
      DescendPresent(s, FrameOf(e), p[2]);
    } else if s.next == POOL_END {
      DescendFull(s, FrameOf(e), p[2]);
    } else if Outside(X64(), s.mem, s.root, FrameOf(e)) && FrameOf(e) != s.next {
      HungUnderGiant(s, virt, phys, flags, e);
    }
  }

  // ---------------------------------------------------------------- on the boot tables

  lemma SameViewTranslates(s: Space, s1: Space, w: nat)
    requires SameView(s, s1)
    ensures Translate(s1, w) == Translate(s, w)
  {
    TranslateIsLookup(s, w);
    TranslateIsLookup(s1, w);
  }

  /** Page 0 on the boot tables lies inside the first 2 MB page. */
  lemma BootPageZero(s: Space, p4: nat, p3: nat, p2: nat)
    requires BootTables(s, p4, p3, p2) && p4 != 0 && p3 != 0 && p2 != 0
    ensures PageOf(0) == [0, 0, 0, 0] && UnderLarge(s, 0, BootEntry(0)) && FrameOf(BootEntry(0)) == 0
    ensures Translate(s, 0) == Some(0)
  {
    PageDigits(0);
    assert PageOf(0) == [0, 0, 0, 0];
    BootLookup(s, p4, p3, p2, PageOf(0));
    BootEntryMeaning(0);
    BootIsTree(s, p4, p3, p2);
    BootTranslates(s, p4, p3, p2, 0);
  }

  /** On the boot tables, mapping page 0 elsewhere succeeds, leaves page 0 translated to itself, and overwrites the
      first word of physical memory. */
  lemma BootMapPageFails(s: Space, p4: nat, p3: nat, p2: nat, phys: nat, flags: PageFlags)
    requires BootTables(s, p4, p3, p2) && p4 != 0 && p3 != 0 && p2 != 0 && Load(s, 0, 0) == 0 && phys % PAGE_SIZE == 0
    ensures var (s1, r) := MapPage(s, 0, phys, flags);
      r.Ok? && Translate(s1, 0) == Some(0) && Load(s1, 0, 0) == Or(phys, flags)
  {
    BootPageZero(s, p4, p3, p2);
    MapSucceedsUnderLarge(s, 0, phys, flags, BootEntry(0));
    MapPageUnderLarge(s, 0, phys, flags, BootEntry(0));
    SameViewTranslates(s, MapPage(s, 0, phys, flags).0, 0);
  }

  /** On the boot tables, unmapping page 0 leaves it translated to itself: it answers that the page is not mapped, or,
      if bit 0 of the first word of physical memory is set, answers a frame read from that word and clears the word. */
  lemma BootUnmapPageFails(s: Space, p4: nat, p3: nat, p2: nat)
    requires BootTables(s, p4, p3, p2) && p4 != 0 && p3 != 0 && p2 != 0
    ensures var (s1, r) := UnmapPage(s, 0);
      && Translate(s, 0) == Some(0) == Translate(s1, 0)
      && (if Present(Load(s, 0, 0)) then r == Ok(FrameOf(Load(s, 0, 0))) && Load(s1, 0, 0) == 0
          else r == Err(PageNotMapped))
  {
    BootPageZero(s, p4, p3, p2);
    WalkUnderLarge(s, PageOf(0), BootEntry(0));
    UnmapPageUnderLarge(s, 0, BootEntry(0));
    SameViewTranslates(s, UnmapPage(s, 0).0, 0);
  }

  /** On the boot tables, taking PRESENT from page 0 leaves it translated to itself: the call answers that the page is
      not mapped, or, if bit 0 of the first word of physical memory is set, succeeds and overwrites that word. */
  lemma BootUpdateFlagsFails(s: Space, p4: nat, p3: nat, p2: nat)
    requires BootTables(s, p4, p3, p2) && p4 != 0 && p3 != 0 && p2 != 0
    ensures var (s1, r) := UpdateFlags(s, 0, 0);
      && Translate(s, 0) == Some(0) == Translate(s1, 0)
      && (if Present(Load(s, 0, 0)) then r.Ok? && Load(s1, 0, 0) == FrameOf(Load(s, 0, 0))
          else r == Err(PageNotMapped))
  {
    BootPageZero(s, p4, p3, p2);
    WalkUnderLarge(s, PageOf(0), BootEntry(0));
    UpdateFlagsUnderLarge(s, 0, 0, BootEntry(0));
    OrCommutes(FrameOf(Load(s, 0, 0)), 0);
    SameViewTranslates(s, UpdateFlags(s, 0, 0).0, 0);
  }
}
