/** `identity_map` of src/memory/vmm.rs. */
module IdentityMapping {
  import opened Kernel
  import opened Bits
  import opened Paging
  import opened Mapping
  import opened AddressSpace

  /** The loop of `identity_map`, from address `addr` on. */
  function MapFrom(s: Space, addr: nat, end: nat, flags: PageFlags): (Space, Result<Unit>)
    decreases end - addr
  {
    if addr >= end then (s, Ok(Unit))
    else
      var (s1, r) := MapPage(s, addr, addr, flags);
      if r.Err? then (s1, r) else MapFrom(s1, addr + PAGE_SIZE, end, flags)
  }

  lemma Width(k: nat)
    requires 12 <= k
    ensures PAGE_SIZE - 1 < Pow2(k)
  {
    Pow2Monotone(12, k);
    assert Pow2(12) == PAGE_SIZE;
  }

  /** `identity_map` */
  function IdentityMap(s: Space, start: nat, end: nat, flags: PageFlags): (Space, Result<Unit>) {
    Width(64);
    MapFrom(s, And(start, Not(PAGE_SIZE - 1, 64)), end, flags)
  }

  /** `start & !(PAGE_SIZE - 1)` rounds a 64-bit address down to its page. */
  lemma RoundsDown(start: nat, width: nat)
    requires 12 <= width && start < Pow2(width)
    ensures PAGE_SIZE - 1 < Pow2(width) && And(start, Not(PAGE_SIZE - 1, width)) == start - start % PAGE_SIZE
  {
    AndHighMask(start, 12, width);
    assert Pow2(12) == PAGE_SIZE;
  }

  lemma NextAligned(addr: nat)
    requires addr % PAGE_SIZE == 0
    ensures (addr + PAGE_SIZE) % PAGE_SIZE == 0
  {
    QuotientTimes(addr, PAGE_SIZE);
    DivUnique(addr + PAGE_SIZE, PAGE_SIZE, addr / PAGE_SIZE + 1, 0);
  }

  lemma MapFromUnroll(s: Space, addr: nat, end: nat, flags: PageFlags, s1: Space, r: Result<Unit>)
    requires addr < end && MapPage(s, addr, addr, flags) == (s1, r)
    ensures MapFrom(s, addr, end, flags) == if r.Ok? then MapFrom(s1, addr + PAGE_SIZE, end, flags) else (s1, r)
  {
  }

  /** Pages mapped before are mapped the same after; nothing of the range was inside a huge page and nothing is. */
  ghost predicate Kept(s: Space, s1: Space) {
    && Tree(s1)
    && (forall q | |q| == 4 && Lookup(s, q).Some? :: Lookup(s1, q) == Lookup(s, q))
    && (forall q | |q| == 4 && NotHuge(s, q) :: NotHuge(s1, q))
  }

  ghost predicate NoHugeFrom(s: Space, addr: nat, end: nat) {
    forall a: nat | addr <= a < end :: NotHuge(s, PageOf(a))
  }

  lemma MapPageKept(s: Space, addr: nat, flags: PageFlags)
    requires Tree(s) && NotHuge(s, PageOf(addr))
    ensures Kept(s, MapPage(s, addr, addr, flags).0)
  {
    MapPageRefines(s, addr, addr, flags);
  }

  lemma KeptTwice(s: Space, s1: Space, s2: Space)
    requires Kept(s, s1) && Kept(s1, s2)
    ensures Kept(s, s2)
  {
  }

  lemma KeptTranslates(s: Space, s1: Space, w: nat)
    requires Kept(s, s1)
    ensures Translate(s, w).Some? ==> Translate(s1, w) == Translate(s, w)
  {
    TranslateIsLookup(s, w);
    TranslateIsLookup(s1, w);
  }

  lemma WithinPage(addr: nat, w: nat)
    requires addr % PAGE_SIZE == 0 && addr <= w < addr + PAGE_SIZE
    ensures SamePage(addr, w) && addr + w % PAGE_SIZE == w
  {
    assert w / 0x1000 == addr / 0x1000;
  }

  lemma EnteredIdentity(addr: nat, flags: PageFlags, w: nat)
    requires addr % PAGE_SIZE == 0 && addr <= w < addr + PAGE_SIZE && addr < 0x10_0000_0000_0000 && Present(flags)
    ensures Entered(addr, flags, w) == Some(w)
  {
    FrameKept(addr);
    WithinPage(addr, w);
  }

  lemma OnePage(s: Space, addr: nat, flags: PageFlags, w: nat)
    requires Tree(s) && NotHuge(s, PageOf(addr)) && Present(flags)
    requires MapPage(s, addr, addr, flags).1.Ok? && addr % PAGE_SIZE == 0
    requires addr <= w < addr + PAGE_SIZE && addr < 0x10_0000_0000_0000
    ensures Translate(MapPage(s, addr, addr, flags).0, w) == Some(w)
  {
    EnteredIdentity(addr, flags, w);
    WithinPage(addr, w);
    MapPageTranslates(s, addr, addr, flags, w);
  }

  /** A run of `identity_map`, whatever its outcome, keeps the translations of the pages that were mapped. */
  lemma {:induction false} MapFromKept(s: Space, addr: nat, end: nat, flags: PageFlags, s2: Space)
    requires Tree(s) && NoHugeFrom(s, addr, end) && addr % PAGE_SIZE == 0 && s2 == MapFrom(s, addr, end, flags).0
    ensures Kept(s, s2)
    decreases end - addr
  {
    if addr < end {
      var (s1, r) := MapPage(s, addr, addr, flags);
      assert NotHuge(s, PageOf(addr));
      MapPageKept(s, addr, flags);
      MapFromUnroll(s, addr, end, flags, s1, r);
      if r.Ok? {
        NoHugeKept(s, s1, addr, end);
        NextAligned(addr);
        MapFromKept(s1, addr + PAGE_SIZE, end, flags, s2);
        KeptTwice(s, s1, s2);
      }
    }
  }

  lemma FirstPageStays(s: Space, addr: nat, flags: PageFlags, s1: Space, s2: Space, w: nat)
    requires Tree(s) && NotHuge(s, PageOf(addr)) && Present(flags) && MapPage(s, addr, addr, flags) == (s1, Ok(Unit))
    requires addr % PAGE_SIZE == 0 && addr <= w < addr + PAGE_SIZE && addr < 0x10_0000_0000_0000 && Kept(s1, s2)
    ensures Translate(s2, w) == Some(w)
  {
    OnePage(s, addr, flags, w);
    KeptTranslates(s1, s2, w);
  }

  /** A run of `identity_map` that succeeds translates every address from the first page up to the end of
      the last to itself. */
  lemma {:induction false} MapFromTranslates(s: Space, addr: nat, end: nat, flags: PageFlags, w: nat, s2: Space)
    requires Tree(s) && NoHugeFrom(s, addr, end) && Present(flags)
    requires addr % PAGE_SIZE == 0 && end <= 0x10_0000_0000_0000
    requires MapFrom(s, addr, end, flags).0 == s2 && MapFrom(s, addr, end, flags).1.Ok?
    requires addr <= w && w - w % PAGE_SIZE < end
    ensures Translate(s2, w) == Some(w)
    decreases end - addr
  {
    PageReached(addr, end, w);
    var (s1, r) := MapPage(s, addr, addr, flags);
    assert NotHuge(s, PageOf(addr));
    MapPageKept(s, addr, flags);
    NoHugeKept(s, s1, addr, end);
    NextAligned(addr);
    MapFromUnroll(s, addr, end, flags, s1, r);
    if w < addr + PAGE_SIZE {
      MapFromKept(s1, addr + PAGE_SIZE, end, flags, s2);
      FirstPageStays(s, addr, flags, s1, s2, w);
    } else {
      MapFromTranslates(s1, addr + PAGE_SIZE, end, flags, w, s2);
    }
  }

  lemma PageReached(addr: nat, end: nat, w: nat)
    requires addr % PAGE_SIZE == 0 && addr <= w && w - w % PAGE_SIZE < end
    ensures addr < end
  {
    var a, b := addr / PAGE_SIZE, w / PAGE_SIZE;
    QuotientTimes(addr, PAGE_SIZE);
    QuotientTimes(w, PAGE_SIZE);
    DivBelow(addr, PAGE_SIZE, b + 1);
    MulMonotone(a, b, PAGE_SIZE);
  }

  lemma NoHugeKept(s: Space, s1: Space, addr: nat, end: nat)
    requires NoHugeFrom(s, addr, end) && Kept(s, s1)
    ensures NoHugeFrom(s1, addr + PAGE_SIZE, end)
  {
  }

  lemma PageInRange(start: nat, end: nat, w: nat)
    requires start <= w < end
    ensures start - start % PAGE_SIZE <= w && w - w % PAGE_SIZE < end
  {
  }

  lemma DownAligned(start: nat)
    ensures (start - start % PAGE_SIZE) % PAGE_SIZE == 0
  {
    QuotientTimes(start, PAGE_SIZE);
    DivUnique(start - start % PAGE_SIZE, PAGE_SIZE, start / PAGE_SIZE, 0);
  }

  lemma IdentityMapIs(s: Space, start: nat, end: nat, flags: PageFlags, first: nat)
    requires start < Pow2(64) && first == start - start % PAGE_SIZE
    ensures IdentityMap(s, start, end, flags) == MapFrom(s, first, end, flags)
  {
    RoundsDown(start, 64);
  }

  /** `identity_map` of a range below 2^52 without huge pages: on success every address of the range translates to
      itself; whatever the outcome, what was translated before is translated the same. */
  lemma IdentityMapTranslates(
    s: Space, start: nat, end: nat, flags: PageFlags, first: nat, w: nat, s1: Space, r: Result<Unit>)
    requires Tree(s) && start < Pow2(64) && first == start - start % PAGE_SIZE
    requires NoHugeFrom(s, first, end) && Present(flags) && end <= 0x10_0000_0000_0000
    requires IdentityMap(s, start, end, flags) == (s1, r)
    ensures r.Ok? && start <= w < end ==> Translate(s1, w) == Some(w)
    ensures Translate(s, w).Some? ==> Translate(s1, w) == Translate(s, w)
  {
    DownAligned(start);
    IdentityMapIs(s, start, end, flags, first);
    if r.Ok? && start <= w < end {
      PageInRange(start, end, w);
      MapFromTranslates(s, first, end, flags, w, s1);
    }
    MapFromKept(s, first, end, flags, s1);
    KeptTranslates(s, s1, w);
  }
}
