/** Which ranges `identity_map` of src/memory/vmm.rs enters, and that it leaves all else alone. */
module IdentityRange {
  import opened Kernel
  import opened Bits
  import opened Paging
  import opened Mapping
  import opened AddressSpace
  import opened IdentityMapping

  // ---------------------------------------------------------------- outside the range

  /** No page of the range has the bits 12 to 47 of `w`. */
  ghost predicate OffRange(addr: nat, end: nat, w: nat) {
    forall a: nat | addr <= a < end && a % PAGE_SIZE == 0 :: !SamePage(a, w)
  }

  lemma FirstElsewhere(s: Space, addr: nat, end: nat, flags: PageFlags, s1: Space, r: Result<Unit>, w: nat)
    requires Tree(s) && NoHugeFrom(s, addr, end) && addr % PAGE_SIZE == 0 && addr < end && OffRange(addr, end, w)
    requires MapPage(s, addr, addr, flags) == (s1, r)
    ensures Translate(s1, w) == Translate(s, w) && Tree(s1) && NoHugeFrom(s1, addr + PAGE_SIZE, end)
  {
    assert NotHuge(s, PageOf(addr)) && !SamePage(addr, w);
    MapPageTranslates(s, addr, addr, flags, w);
    MapPageKept(s, addr, flags);
    NoHugeKept(s, s1, addr, end);
  }

  lemma {:induction false} MapFromElsewhere(s: Space, addr: nat, end: nat, flags: PageFlags, w: nat, s2: Space)
    requires Tree(s) && NoHugeFrom(s, addr, end) && addr % PAGE_SIZE == 0 && OffRange(addr, end, w)
    requires s2 == MapFrom(s, addr, end, flags).0
    ensures Translate(s2, w) == Translate(s, w)
    decreases end - addr
  {
    if addr < end {
      var (s1, r) := MapPage(s, addr, addr, flags);
      FirstElsewhere(s, addr, end, flags, s1, r, w);
      NextAligned(addr);
      MapFromUnroll(s, addr, end, flags, s1, r);
      if r.Ok? { MapFromElsewhere(s1, addr + PAGE_SIZE, end, flags, w, s2); }
    }
  }

  /** `identity_map`, whatever its outcome, leaves every address off its range translated, or not, as it was. */
  lemma IdentityMapElsewhere(s: Space, start: nat, end: nat, flags: PageFlags, first: nat, w: nat)
    requires Tree(s) && start < Pow2(64) && first == start - start % PAGE_SIZE
    requires NoHugeFrom(s, first, end) && OffRange(first, end, w)
    ensures Translate(IdentityMap(s, start, end, flags).0, w) == Translate(s, w)
  {
    DownAligned(start);
    IdentityMapIs(s, start, end, flags, first);
    MapFromElsewhere(s, first, end, flags, w, IdentityMap(s, start, end, flags).0);
  }

  // ---------------------------------------------------------------- when it succeeds

  /** The prefixes that need a table for the pages of the range. */
  function Walks(addr: nat, end: nat): (r: set<seq<nat>>)
    ensures forall q | q in r :: 1 <= |q| <= 3
    decreases end - addr
  {
    if addr >= end then {} else Prefixes(PageOf(addr)) + Walks(addr + PAGE_SIZE, end)
  }

  /** Those of the prefixes that have no table. */
  function Without(s: Space, prefixes: set<seq<nat>>): set<seq<nat>> {
    set q | q in prefixes && TableOf(s, q).None?
  }

  /** No page of the range is mapped. */
  predicate Unmapped(s: Space, addr: nat, end: nat)
    decreases end - addr
  {
    addr >= end || (Lookup(s, PageOf(addr)).None? && Unmapped(s, addr + PAGE_SIZE, end))
  }

  /** No page of the range is mapped and the pool holds the tables that its pages lack. */
  predicate Fits(s: Space, addr: nat, end: nat) {
    Unmapped(s, addr, end) && |Without(s, Walks(addr, end))| <= Remaining(s)
  }

  lemma SizeOfThree<T>(x: T, y: T, z: T, w: set<T>)
    requires x != y && y != z && x != z && w <= {x, y, z}
    ensures |w| == (if x in w then 1 else 0) + (if y in w then 1 else 0) + if z in w then 1 else 0
  {
    var rest := w - {x} - {y};
    assert rest == if z in w then {z} else {};
    assert |w - {x}| == |w| - if x in w then 1 else 0;
  }

  lemma MissingIs(s: Space, p: seq<nat>)
    requires |p| == 4
    ensures Missing(s, p, 3) == |Without(s, Prefixes(p))|
  {
    assert |p[..1]| == 1 && |p[..2]| == 2 && |p[..3]| == 3;
    SizeOfThree(p[..1], p[..2], p[..3], Without(s, Prefixes(p)));
    assert Missing(s, p, 1) == if TableOf(s, p[..1]).None? then 1 else 0;
    assert Missing(s, p, 2) == Missing(s, p, 1) + if TableOf(s, p[..2]).None? then 1 else 0;
  }

  lemma IsPrefix(p: seq<nat>, q: seq<nat>)
    requires |p| == 4 && 1 <= |q| <= 3
    ensures q in Prefixes(p) <==> q == p[..|q|]
  {
    assert |p[..1]| == 1 && |p[..2]| == 2 && |p[..3]| == 3;
  }

  lemma MapPageIs(s: Space, addr: nat, flags: PageFlags, s1: Space, p: seq<nat>)
    requires p == PageOf(addr) && MapPage(s, addr, addr, flags) == (s1, Ok(Unit))
    ensures Grow(s, p, 3).1.Ok?
    ensures s1 == Store(Grow(s, p, 3).0, Grow(s, p, 3).1.value, p[3], Or(addr, flags))
  {
  }

  /** `map_page` that succeeds adds the tables of the page's walk and takes as many from the pool as were missing. */
  lemma MapPageTables(s: Space, addr: nat, flags: PageFlags, s1: Space, p: seq<nat>)
    requires p == PageOf(addr) && Tree(s) && NotHuge(s, p) && MapPage(s, addr, addr, flags) == (s1, Ok(Unit))
    ensures Remaining(s1) == Remaining(s) - |Without(s, Prefixes(p))|
    ensures forall q | 1 <= |q| <= 3 :: TableOf(s1, q).Some? <==> TableOf(s, q).Some? || q in Prefixes(p)
  {
    MapPageIs(s, addr, flags, s1, p);
    StoredTables(s, p, Grow(s, p, 3).0, Grow(s, p, 3).1.value, Or(addr, flags), s1);
  }

  lemma StoredTables(s: Space, p: seq<nat>, s0: Space, pt: nat, e: nat, s1: Space)
    requires |p| == 4 && Tree(s) && NotHuge(s, p) && Grow(s, p, 3) == (s0, Ok(pt)) && s1 == Store(s0, pt, p[3], e)
    ensures Remaining(s1) == Remaining(s) - |Without(s, Prefixes(p))|
    ensures forall q | 1 <= |q| <= 3 :: TableOf(s1, q).Some? <==> TableOf(s, q).Some? || q in Prefixes(p)
  {
    GrowKeepsTree(s, p, 3);
    StoreLeaf(s0, p, pt, e);
    MissingIs(s, p);
    GrowTables(s, p, 3);
    forall q | 1 <= |q| <= 3
      ensures TableOf(s1, q).Some? <==> TableOf(s, q).Some? || q in Prefixes(p)
    {
      IsPrefix(p, q);
    }
  }

  /** The tables needed for the first page and for the rest add up. */
  lemma WalksSplit(s: Space, s1: Space, p: seq<nat>, rest: set<seq<nat>>)
    requires |p| == 4 && (forall q | q in rest :: 1 <= |q| <= 3)
    requires forall q | 1 <= |q| <= 3 :: TableOf(s1, q).Some? <==> TableOf(s, q).Some? || q in Prefixes(p)
    ensures |Without(s, Prefixes(p) + rest)| == |Without(s, Prefixes(p))| + |Without(s1, rest)|
  {
    assert Without(s, Prefixes(p) + rest) == Without(s, Prefixes(p)) + Without(s1, rest);
  }

  lemma DistinctPages(v: nat, w: nat)
    requires v % PAGE_SIZE == 0 && w % PAGE_SIZE == 0 && v < w < v + 0x1_0000_0000_0000
    ensures PageOf(v) != PageOf(w)
  {
    SamePageSameWalk(v, w);
    QuotientTimes(v, PAGE_SIZE);
    QuotientTimes(w, PAGE_SIZE);
    NumbersApart(v / 0x1000, w / 0x1000, 0x10_0000_0000);
  }

  lemma NumbersApart(x: nat, y: nat, n: nat)
    requires n > 0 && x < y < x + n
    ensures x % n != y % n
  {
    QuotientTimes(x, n);
    QuotientTimes(y, n);
    if x % n == y % n {
      if x / n < y / n { MulStep(x / n, y / n, n); } else { MulMonotone(y / n, x / n, n); }
    }
  }

  lemma {:induction false} UnmappedRest(s: Space, s1: Space, p: seq<nat>, addr: nat, end: nat)
    requires forall a: nat | addr <= a < end && a % PAGE_SIZE == 0 :: PageOf(a) != p
    requires addr % PAGE_SIZE == 0 && (forall q | |q| == 4 && q != p :: Lookup(s1, q) == Lookup(s, q))
    ensures Unmapped(s1, addr, end) <==> Unmapped(s, addr, end)
    decreases end - addr
  {
    if addr < end {
      assert PageOf(addr) != p;
      NextAligned(addr);
      UnmappedRest(s, s1, p, addr + PAGE_SIZE, end);
    }
  }

  /** The first page is entered: what is left to do. */
  lemma FirstEntered(s: Space, addr: nat, end: nat, flags: PageFlags, s1: Space)
    requires Tree(s) && NotHuge(s, PageOf(addr)) && MapPage(s, addr, addr, flags) == (s1, Ok(Unit))
    requires addr % PAGE_SIZE == 0 && addr < end <= addr + 0x1_0000_0000_0000
    ensures Fits(s1, addr + PAGE_SIZE, end) <==> Fits(s, addr, end)
  {
    var p := PageOf(addr);
    MapPageRefines(s, addr, addr, flags);
    MapPageTables(s, addr, flags, s1, p);
    NextAligned(addr);
    forall a: nat | addr + PAGE_SIZE <= a < end && a % PAGE_SIZE == 0
      ensures PageOf(a) != p
    {
      DistinctPages(addr, a);
    }
    UnmappedRest(s, s1, p, addr + PAGE_SIZE, end);
    WalksSplit(s, s1, p, Walks(addr + PAGE_SIZE, end));
  }

  /** The first page is refused: it was mapped, or its tables alone are too many. */
  lemma FirstRefused(s: Space, addr: nat, end: nat, flags: PageFlags)
    requires Tree(s) && NotHuge(s, PageOf(addr)) && addr % PAGE_SIZE == 0 && addr < end
    requires MapPage(s, addr, addr, flags).1.Err?
    ensures !Fits(s, addr, end)
  {
    MapPageRefines(s, addr, addr, flags);
    MissingIs(s, PageOf(addr));
    SubsetSize(Without(s, Prefixes(PageOf(addr))), Without(s, Walks(addr, end)));
  }

  lemma {:induction false} MapFromSucceedsIff(s: Space, addr: nat, end: nat, flags: PageFlags)
    requires Tree(s) && NoHugeFrom(s, addr, end) && addr % PAGE_SIZE == 0 && end <= addr + 0x1_0000_0000_0000
    ensures MapFrom(s, addr, end, flags).1.Ok? <==> Fits(s, addr, end)
    decreases end - addr
  {
    if addr < end {
      var (s1, r) := MapPage(s, addr, addr, flags);
      assert NotHuge(s, PageOf(addr));
      MapFromUnroll(s, addr, end, flags, s1, r);
      if r.Ok? {
        FirstEntered(s, addr, end, flags, s1);
        MapPageKept(s, addr, flags);
        NoHugeKept(s, s1, addr, end);
        NextAligned(addr);
        MapFromSucceedsIff(s1, addr + PAGE_SIZE, end, flags);
      } else {
        FirstRefused(s, addr, end, flags);
      }
    } else {
      assert Without(s, Walks(addr, end)) == {};
    }
  }

  lemma NextBelow(addr: nat, a: nat)
    requires addr % PAGE_SIZE == 0 && a % PAGE_SIZE == 0 && addr < a
    ensures addr + PAGE_SIZE <= a
  {
    QuotientTimes(addr, PAGE_SIZE);
    QuotientTimes(a, PAGE_SIZE);
  }

  /** What stays true after a first page is entered. */
  lemma NextStep(s: Space, addr: nat, end: nat, flags: PageFlags, s1: Space)
    requires Tree(s) && NoHugeFrom(s, addr, end) && addr % PAGE_SIZE == 0 && addr < end
    requires MapPage(s, addr, addr, flags) == (s1, Ok(Unit))
    ensures Kept(s, s1) && NoHugeFrom(s1, addr + PAGE_SIZE, end) && (addr + PAGE_SIZE) % PAGE_SIZE == 0
    ensures Lookup(s, PageOf(addr)).None? && Lookup(s1, PageOf(addr)) == SmallLeaf(Or(addr, flags))
  {
    assert NotHuge(s, PageOf(addr));
    MapPageRefines(s, addr, addr, flags);
    MapPageKept(s, addr, flags);
    NoHugeKept(s, s1, addr, end);
    NextAligned(addr);
  }

  lemma {:induction false} UnmappedMeans(s: Space, addr: nat, end: nat, a: nat)
    requires Unmapped(s, addr, end) && addr % PAGE_SIZE == 0 && a % PAGE_SIZE == 0 && addr <= a < end
    ensures Lookup(s, PageOf(a)).None?
    decreases end - addr
  {
    if addr < a {
      NextBelow(addr, a);
      NextAligned(addr);
      UnmappedMeans(s, addr + PAGE_SIZE, end, a);
    }
  }

  /** What fails on a range fails on a longer one. */
  lemma {:induction false} LongerFails(s: Space, addr: nat, end: nat, flags: PageFlags, longer: nat)
    requires end <= longer && MapFrom(s, addr, end, flags).1.Err?
    ensures MapFrom(s, addr, longer, flags).1.Err?
    decreases end - addr
  {
    var (s1, r) := MapPage(s, addr, addr, flags);
    MapFromUnroll(s, addr, end, flags, s1, r);
    MapFromUnroll(s, addr, longer, flags, s1, r);
    if r.Ok? { LongerFails(s1, addr + PAGE_SIZE, end, flags, longer); }
  }

  lemma RoundAgain(addr: nat)
    requires addr % PAGE_SIZE == 0
    ensures (addr + 0x1_0000_0000_0000) % PAGE_SIZE == 0 && PageOf(addr + 0x1_0000_0000_0000) == PageOf(addr)
  {
    var n := addr / 0x1000;
    QuotientTimes(addr, 0x1000);
    DivUnique(addr + 0x1_0000_0000_0000, 0x1000, n + 0x10_0000_0000, 0);
    DivMultiple(n, 0x10_0000_0000, 1);
    SamePageSameWalk(addr, addr + 0x1_0000_0000_0000);
  }

  /** A range that starts just after a mapped page and goes round comes back to it. */
  lemma RoundFails(s: Space, addr: nat, flags: PageFlags, end: nat)
    requires Tree(s) && addr % PAGE_SIZE == 0 && Lookup(s, PageOf(addr)).Some?
    requires end == addr + 0x1_0000_0000_0001 && NoHugeFrom(s, addr + PAGE_SIZE, end)
    ensures MapFrom(s, addr + PAGE_SIZE, end, flags).1.Err?
  {
    NextAligned(addr);
    RoundAgain(addr);
    MapFromSucceedsIff(s, addr + PAGE_SIZE, end, flags);
    if Unmapped(s, addr + PAGE_SIZE, end) {
      UnmappedMeans(s, addr + PAGE_SIZE, end, addr + 0x1_0000_0000_0000);
    }
  }

  /** A range of more than 2^48 bytes comes back to its first page. */
  lemma TooLongFails(s: Space, addr: nat, end: nat, flags: PageFlags)
    requires Tree(s) && NoHugeFrom(s, addr, end) && addr % PAGE_SIZE == 0 && Present(flags)
    requires end > addr + 0x1_0000_0000_0000
    ensures MapFrom(s, addr, end, flags).1.Err?
  {
    var (s1, r) := MapPage(s, addr, addr, flags);
    MapFromUnroll(s, addr, end, flags, s1, r);
    if r.Ok? {
      NextStep(s, addr, end, flags, s1);
      LeafEntry(addr, flags);
      RoundFails(s1, addr, flags, addr + 0x1_0000_0000_0001);
      LongerFails(s1, addr + PAGE_SIZE, addr + 0x1_0000_0000_0001, flags, end);
    }
  }

  /** `identity_map` of a range without huge pages succeeds if and only if the range is no longer than the address
      space, no page of it is mapped, and the pool holds the tables that its pages lack. */
  lemma IdentityMapSucceedsIff(s: Space, start: nat, end: nat, flags: PageFlags, first: nat)
    requires Tree(s) && start < Pow2(64) && Present(flags)
    requires first == start - start % PAGE_SIZE && NoHugeFrom(s, first, end)
    ensures IdentityMap(s, start, end, flags).1.Ok? <==>
      end <= first + 0x1_0000_0000_0000 && Fits(s, first, end)
  {
    DownAligned(start);
    IdentityMapIs(s, start, end, flags, first);
    if end <= first + 0x1_0000_0000_0000 {
      MapFromSucceedsIff(s, first, end, flags);
    } else {
      TooLongFails(s, first, end, flags);
    }
  }
}
