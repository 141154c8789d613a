/** When `update_flags` of src/memory/vmm.rs does what it promises, inside 2 MB and 1 GB pages too. */
module HugePageFlags {
  import opened Kernel
  import opened Bits
  import opened Radix
  import opened Paging
  import opened Mapping
  import opened AddressSpace
  import opened HugePages
  import opened HugePageOps

  // ---------------------------------------------------------------- flags that the page does not have

  /** The entry that maps the address holds exactly these flags beside its frame. */
  predicate Flagged(s: Space, virt: nat, flags: nat) {
    Lookup(s, PageOf(virt)).Some? && var e := Lookup(s, PageOf(virt)).value.0; e == Or(FrameOf(e), flags)
  }

  /** The page has these flags, or no translation if they lack PRESENT, and everything else is as it was. */
  ghost predicate Updated(s: Space, virt: nat, flags: PageFlags, s1: Space) {
    && Tree(s1)
    && (forall w :: Translate(s1, w) == if SamePage(virt, w) && !Present(flags) then None else Translate(s, w))
    && (Present(flags) ==> Flagged(s1, virt, flags))
    && (forall w, f | !SamePage(virt, w) :: Flagged(s1, w, f) <==> Flagged(s, w, f))
  }

  /** What `update_flags` promises. */
  ghost predicate UpdateCorrect(s: Space, virt: nat, flags: PageFlags) {
    var (s1, r) := UpdateFlags(s, virt, flags);
    if virt % PAGE_SIZE != 0 then r == Err(InvalidArgument) && s1 == s
    else if Translate(s, virt).None? then r == Err(PageNotMapped) && s1 == s
    else r == Ok(Unit) && Updated(s, virt, flags, s1)
  }

  lemma UpdateCorrectSmall(s: Space, virt: nat, flags: PageFlags)
    requires Tree(s) && NotHuge(s, PageOf(virt))
    ensures UpdateCorrect(s, virt, flags)
  {
    UpdateFlagsRefines(s, virt, flags);
    TranslatedIffFound(s, virt);
    var (s1, r) := UpdateFlags(s, virt, flags);
    if r.Ok? {
      var e := Lookup(s, PageOf(virt)).value.0;
      FrameOfFrame(e);
      LeafEntry(FrameOf(e), flags);
      forall w { UpdateFlagsTranslates(s, virt, flags, w); }
      forall w, f | !SamePage(virt, w)
        ensures Flagged(s1, w, f) <==> Flagged(s, w, f)
      {
        SamePageSameWalk(virt, w);
      }
    }
  }

  lemma UpdatedHasNoPt(s: Space, p: seq<nat>, pt: nat, flags: PageFlags)
    requires |p| == 4 && TableOf(s, p[..3]).None? && WalkToPt(s, p) == Some(pt) && Present(Load(s, pt, p[3]))
    requires Tree(Store(s, pt, p[3], Or(FrameOf(Load(s, pt, p[3])), flags)))
    ensures TableOf(Store(s, pt, p[3], Or(FrameOf(Load(s, pt, p[3])), flags)), p[..3]).None?
  {
    var word := Load(s, pt, p[3]);
    var e := Or(FrameOf(word), flags);
    FrameOfFrame(word);
    LeafEntry(FrameOf(word), flags);
    if Present(flags) {
      SameFrameGivesNoPt(s, p, pt, e);
    } else {
      AbsentGivesNoPt(s, p, pt, p[3], e);
    }
  }

  lemma UpdateHugeFails(s: Space, virt: nat, flags: PageFlags)
    requires !NotHuge(s, PageOf(virt)) && virt % PAGE_SIZE == 0 && !Flagged(s, virt, flags)
    ensures !UpdateCorrect(s, virt, flags)
  {
    var p := PageOf(virt);
    var (s1, r) := UpdateFlags(s, virt, flags);
    TranslatedIffFound(s, virt);
    if r.Ok? && Tree(s1) {
      var w := HasNeighbour(virt);
      HugeHasNoPt(s, p);
      UpdatedHasNoPt(s, p, WalkToPt(s, p).value, flags);
      NeighboursShare(s, p, PageOf(w));
      NeighboursShare(s1, p, PageOf(w));
      TranslatedIffFound(s, w);
      TranslatedIffFound(s1, w);
      TranslatedIffFound(s1, virt);
      assert Flagged(s1, w, flags) <==> Flagged(s1, virt, flags);
      assert Flagged(s, w, flags) <==> Flagged(s, virt, flags);
    }
  }

  // ---------------------------------------------------------------- flags that the page has already

  /** Address `w` reads already as it would through entry `e` of a table at depth `d`. */
  ghost predicate ReadsAs(s: Space, virt: nat, w: nat, e: nat, d: nat) {
    && Translate(s, w) == Target(Some((e, d)), w)
    && (SamePage(virt, w) || forall f :: Flagged(s, w, f) <==> e == Or(FrameOf(e), f))
  }

  /** Entry `e`, put at the end of the walk of `virt` in page `pt`, changes nothing: `pt` is no table below the PML4, or
      every address below the entry reads already as through `e`. */
  ghost predicate Inert(s: Space, virt: nat, pt: nat, e: nat) {
    forall q, w | 1 <= |q| <= HEIGHT && TableOf(s, q) == Some(pt) && q + [PageOf(virt)[3]] <= PageOf(w) ::
      ReadsAs(s, virt, w, e, |q|)
  }

  /** A leaf above the last level has the huge-page bit. */
  lemma HugeLeafBit(s: Space, p: seq<nat>, e: nat, d: nat)
    requires |p| == 4 && Lookup(s, p) == Some((e, d)) && d < HEIGHT
    ensures d >= 1 && Huge(e) && Present(e)
  {
    FindStep(s, s.root, p, 0);
    var pdpt := FrameOf(Load(s, s.root, p[0]));
    FindStep(s, pdpt, p, 1);
    var pd := FrameOf(Load(s, pdpt, p[1]));
    FindStep(s, pd, p, 2);
    FindStep(s, FrameOf(Load(s, pd, p[2])), p, 3);
  }

  lemma FrameNotHuge(e: nat)
    ensures And(FrameOf(e), HUGE_PAGE) == 0
  {
    var k := FrameOf(e) / 4096;
    FrameAligned(e);
    QuotientTimes(FrameOf(e), 4096);
    HugeIsBit(FrameOf(e));
    DivUnique(FrameOf(e), 128, 32 * k, 0);
    DivUnique(32 * k, 2, 16 * k, 0);
  }

  /** With the flags of a huge leaf an entry is present and has the huge-page bit. */
  lemma FlagsOfHuge(e: nat, flags: PageFlags, word: nat)
    requires Huge(e) && Present(e) && e == Or(FrameOf(e), flags)
    ensures Present(flags) && Present(Or(FrameOf(word), flags)) && Huge(Or(FrameOf(word), flags))
  {
    FrameOfFrame(e);
    LeafEntry(FrameOf(e), flags);
    FrameOfFrame(word);
    LeafEntry(FrameOf(word), flags);
    FrameNotHuge(e);
    AndOverOr(FrameOf(e), flags, HUGE_PAGE);
    AndOverOr(FrameOf(word), flags, HUGE_PAGE);
    OrAtLeast(And(FrameOf(word), HUGE_PAGE), And(flags, HUGE_PAGE));
  }

  /** The tables after a leaf is put over entry `i` of a table below the PML4. */
  lemma LeafPutTree(s: Space, q: seq<nat>, pt: nat, i: nat, e: nat, s1: Space)
    requires Tree(s) && 1 <= |q| <= HEIGHT && TableOf(s, q) == Some(pt) && Decode(e, |q|) == Leaf
    requires s1 == Store(s, pt, i, e)
    ensures Tree(s1)
    ensures forall x | |x| == 4 :: Lookup(s1, x) == if q + [i] <= x then Some((e, |q|)) else Lookup(s, x)
  {
    LeafPut(X64(), s.mem, s.root, q, i, e, s1.mem);
    forall x | |x| == 4 && !(q + [i] <= x)
      ensures Lookup(s1, x) == Lookup(s, x)
    {
      WriteElsewhere(X64(), s.mem, s.root, q, i, e, x);
    }
  }

  /** An entry of the PML4 with the frame of the one it replaces changes nothing. */
  lemma RootPutSame(s: Space, i: nat, e: nat, s1: Space)
    requires Tree(s) && Present(e) && Present(Load(s, s.root, i)) && FrameOf(e) == FrameOf(Load(s, s.root, i))
    requires s1 == Store(s, s.root, i, e)
    ensures Tree(s1) && SameView(s, s1)
  {
    forall q | |q| <= HEIGHT
      ensures TableOf(s1, q) == TableOf(s, q)
    {
      PointerPutTable(X64(), s.mem, s.root, [], i, e, s1.mem, q);
    }
    forall x | |x| == 4
      ensures Lookup(s1, x) == Lookup(s, x)
    {
      PointerPut(X64(), s.mem, s.root, [], i, e, s1.mem, x);
    }
  }

  /** Writing a word of a page that holds no table changes no table and no leaf. */
  lemma StoreOutside(s: Space, t: nat, i: nat, e: nat, s1: Space)
    requires Tree(s) && Outside(X64(), s.mem, s.root, t) && s1 == Store(s, t, i, e)
    ensures Tree(s1) && SameView(s, s1)
  {
    ForeignWrite(X64(), s.mem, s.root, t, i, e);
  }

  lemma SameViewUpdated(s: Space, virt: nat, flags: PageFlags, s1: Space)
    requires Tree(s1) && SameView(s, s1) && Flagged(s, virt, flags) && Present(flags)
    ensures Updated(s, virt, flags, s1)
  {
    forall w
      ensures Translate(s1, w) == Translate(s, w)
    {
      SameViewTranslates(s, s1, w);
    }
  }

  /** An address below the entry reads as through it, and any other as before. */
  lemma AfterPut(s: Space, s1: Space, w: nat, f: nat, e: nat, d: nat, below: bool)
    requires Lookup(s1, PageOf(w)) == if below then Some((e, d)) else Lookup(s, PageOf(w))
    ensures Translate(s1, w) == if below then Target(Some((e, d)), w) else Translate(s, w)
    ensures Flagged(s1, w, f) <==> if below then e == Or(FrameOf(e), f) else Flagged(s, w, f)
  {
    TranslateIsLookup(s, w);
    TranslateIsLookup(s1, w);
  }

  lemma UniquePath(s: Space, q: seq<nat>, x: seq<nat>, pt: nat)
    requires Tree(s) && |q| <= HEIGHT && |x| <= HEIGHT && TableOf(s, q) == Some(pt) && TableOf(s, x) == Some(pt)
    ensures x == q
  {
  }

  /** A table of the tree, below the PML4, is written. */
  ghost predicate Overwrites(s: Space, virt: nat, flags: PageFlags, q: seq<nat>, pt: nat, e: nat, s1: Space) {
    && Tree(s) && 1 <= |q| <= HEIGHT && TableOf(s, q) == Some(pt) && Decode(e, |q|) == Leaf
    && s1 == Store(s, pt, PageOf(virt)[3], e)
    && Flagged(s, virt, flags) && Present(flags) && e == Or(FrameOf(e), flags)
  }

  lemma PutReadsAs(s: Space, virt: nat, flags: PageFlags, q: seq<nat>, pt: nat, e: nat, s1: Space, w: nat)
    requires Overwrites(s, virt, flags, q, pt, e, s1) && Updated(s, virt, flags, s1)
    requires q + [PageOf(virt)[3]] <= PageOf(w)
    ensures ReadsAs(s, virt, w, e, |q|)
  {
    LeafPutTree(s, q, pt, PageOf(virt)[3], e, s1);
    AfterPut(s, s1, w, flags, e, |q|, true);
    if !SamePage(virt, w) {
      forall f
        ensures Flagged(s, w, f) <==> e == Or(FrameOf(e), f)
      {
        AfterPut(s, s1, w, f, e, |q|, true);
        assert Flagged(s1, w, f) <==> Flagged(s, w, f);
      }
    }
  }

  lemma PutKeeps(s: Space, virt: nat, flags: PageFlags, q: seq<nat>, pt: nat, e: nat, s1: Space, w: nat, f: nat)
    requires Overwrites(s, virt, flags, q, pt, e, s1) && Inert(s, virt, pt, e)
    ensures Translate(s1, w) == Translate(s, w) && Tree(s1)
    ensures !SamePage(virt, w) ==> (Flagged(s1, w, f) <==> Flagged(s, w, f))
  {
    LeafPutTree(s, q, pt, PageOf(virt)[3], e, s1);
    var below := q + [PageOf(virt)[3]] <= PageOf(w);
    AfterPut(s, s1, w, f, e, |q|, below);
    if below { assert ReadsAs(s, virt, w, e, |q|); }
  }

  lemma PutFlagged(s: Space, virt: nat, flags: PageFlags, q: seq<nat>, pt: nat, e: nat, s1: Space)
    requires Overwrites(s, virt, flags, q, pt, e, s1)
    ensures Flagged(s1, virt, flags)
  {
    LeafPutTree(s, q, pt, PageOf(virt)[3], e, s1);
    AfterPut(s, s1, virt, flags, e, |q|, q + [PageOf(virt)[3]] <= PageOf(virt));
  }

  lemma InertUpdated(s: Space, virt: nat, flags: PageFlags, q: seq<nat>, pt: nat, e: nat, s1: Space)
    requires Overwrites(s, virt, flags, q, pt, e, s1) && Inert(s, virt, pt, e)
    ensures Updated(s, virt, flags, s1)
  {
    PutFlagged(s, virt, flags, q, pt, e, s1);
    PutKeeps(s, virt, flags, q, pt, e, s1, 0, 0);
    forall w
      ensures Translate(s1, w) == Translate(s, w)
    {
      PutKeeps(s, virt, flags, q, pt, e, s1, w, 0);
    }
    forall w, f | !SamePage(virt, w)
      ensures Flagged(s1, w, f) <==> Flagged(s, w, f)
    {
      PutKeeps(s, virt, flags, q, pt, e, s1, w, f);
    }
  }

  lemma PutUpdatedIff(s: Space, virt: nat, flags: PageFlags, q: seq<nat>, pt: nat, e: nat, s1: Space)
    requires Overwrites(s, virt, flags, q, pt, e, s1)
    ensures Updated(s, virt, flags, s1) <==> Inert(s, virt, pt, e)
  {
    if Updated(s, virt, flags, s1) {
      forall x, w | 1 <= |x| <= HEIGHT && TableOf(s, x) == Some(pt) && x + [PageOf(virt)[3]] <= PageOf(w)
        ensures ReadsAs(s, virt, w, e, |x|)
      {
        UniquePath(s, q, x, pt);
        PutReadsAs(s, virt, flags, q, pt, e, s1, w);
      }
    }
    if Inert(s, virt, pt, e) { InertUpdated(s, virt, flags, q, pt, e, s1); }
  }

  lemma UpdatedIff(s: Space, virt: nat, flags: PageFlags, pt: nat, e: nat, s1: Space)
    requires Tree(s) && Flagged(s, virt, flags) && Present(flags)
    requires s1 == Store(s, pt, PageOf(virt)[3], e) && e == Or(FrameOf(e), flags) && Present(e) && Huge(e)
    requires Present(Load(s, pt, PageOf(virt)[3])) && FrameOf(e) == FrameOf(Load(s, pt, PageOf(virt)[3]))
    ensures Updated(s, virt, flags, s1) <==> Inert(s, virt, pt, e)
  {
    if Outside(X64(), s.mem, s.root, pt) {
      StoreOutside(s, pt, PageOf(virt)[3], e, s1);
      SameViewUpdated(s, virt, flags, s1);
      forall q | |q| <= HEIGHT
        ensures TableOf(s, q) != Some(pt)
      {
      }
    } else {
      var q :| |q| <= HEIGHT && TableOf(s, q) == Some(pt);
      if q == [] {
        RootPutSame(s, PageOf(virt)[3], e, s1);
        SameViewUpdated(s, virt, flags, s1);
        forall x | |x| <= HEIGHT && TableOf(s, x) == Some(pt)
          ensures x == []
        {
        }
      } else {
        PutUpdatedIff(s, virt, flags, q, pt, e, s1);
      }
    }
  }

  lemma UpdateOnWalk(s: Space, virt: nat, flags: PageFlags, p: seq<nat>)
    requires virt % PAGE_SIZE == 0 && p == PageOf(virt)
    ensures WalkPresent(s, p) ==>
      var pt := WalkToPt(s, p).value;
      UpdateFlags(s, virt, flags) == (Store(s, pt, p[3], Or(FrameOf(Load(s, pt, p[3])), flags)), Ok(Unit))
    ensures !WalkPresent(s, p) ==> UpdateFlags(s, virt, flags) == (s, Err(PageNotMapped))
  {
  }

  /** The page has the flags already, and the call finds a present word and changes nothing by it. */
  ghost predicate NothingToDo(s: Space, virt: nat, flags: PageFlags) {
    var p := PageOf(virt);
    && Flagged(s, virt, flags) && WalkPresent(s, p)
    && var pt := WalkToPt(s, p).value;
       Inert(s, virt, pt, Or(FrameOf(Load(s, pt, p[3])), flags))
  }

  lemma UpdateSameFlagsIff(s: Space, virt: nat, flags: PageFlags)
    requires Tree(s) && !NotHuge(s, PageOf(virt)) && virt % PAGE_SIZE == 0 && Flagged(s, virt, flags)
    ensures UpdateCorrect(s, virt, flags) <==> NothingToDo(s, virt, flags)
  {
    var p := PageOf(virt);
    var (e, d) := Lookup(s, p).value;
    HugeLeafBit(s, p, e, d);
    UpdateOnWalk(s, virt, flags, p);
    TranslatedIffFound(s, virt);
    if WalkPresent(s, p) {
      var pt := WalkToPt(s, p).value;
      var word := Load(s, pt, p[3]);
      FlagsOfHuge(e, flags, word);
      FrameOfFrame(word);
      LeafEntry(FrameOf(word), flags);
      UpdatedIff(s, virt, flags, pt, Or(FrameOf(word), flags), UpdateFlags(s, virt, flags).0);
    }
  }

  /** `update_flags` does what it promises if and only if the address is not aligned, or the page is not inside a huge
      page, or it has the flags already and the word that the call overwrites changes nothing. */
  lemma UpdateFlagsWorksExactlyWhen(s: Space, virt: nat, flags: PageFlags)
    requires Tree(s)
    ensures UpdateCorrect(s, virt, flags) <==>
      virt % PAGE_SIZE != 0 || NotHuge(s, PageOf(virt)) || NothingToDo(s, virt, flags)
  {
    if NotHuge(s, PageOf(virt)) {
      UpdateCorrectSmall(s, virt, flags);
    } else if virt % PAGE_SIZE == 0 {
      if Flagged(s, virt, flags) {
        UpdateSameFlagsIff(s, virt, flags);
      } else {
        UpdateHugeFails(s, virt, flags);
      }
    }
  }
}
