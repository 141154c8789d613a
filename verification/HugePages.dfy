/**
 2 MB and 1 GB pages of src/memory/vmm.rs and the tables that boot/boot.asm sets up with them.
 */
module HugePages {
  import opened Kernel
  import opened Bits
  import opened Radix
  import opened Paging
  import opened Mapping

  // ---------------------------------------------------------------- splitting a huge page

  /** The entry of the `j`-th smaller page of a huge page of depth `d` with frame `base`. */
  function SplitEntry(base: nat, d: nat, flags: PageFlags, j: nat): nat {
    Or(base + j * LeafSize(d + 1), flags)
  }

  /** The 512 entries that map a huge page by pages of the next smaller size. */
  function SplitEntries(base: nat, d: nat, flags: PageFlags): map<nat, nat> {
    map j | 0 <= j < 512 :: SplitEntry(base, d, flags, j)
  }

  /** Flags with which the smaller pages are present, and huge where 2 MB pages must be. */
  predicate SplitFlags(d: nat, flags: PageFlags) {
    Present(flags) && (d == 1 ==> Huge(flags))
  }

  /** `s` with the huge page at entry `i` of table `t` replaced by a table `n` of smaller pages. */
  function Split(s: Space, t: nat, i: nat, d: nat, n: nat, flags: PageFlags): Space {
    s.(mem := Write(Fill(s.mem, n, SplitEntries(FrameOf(Load(s, t, i)), d, flags)), t, i, TableEntry(n)))
  }

  /** Entry `i` of the table at `p` maps a huge page whose bytes all lie below 2^52. */
  predicate HugeAt(s: Space, p: seq<nat>, t: nat, i: nat) {
    && 1 <= |p| <= 2
    && TableOf(s, p) == Some(t)
    && Decode(Load(s, t, i), |p|) == Leaf
    && FrameOf(Load(s, t, i)) + LeafSize(|p|) <= 0x10_0000_0000_0000
  }

  lemma SplitAddress(base: nat, d: nat, j: nat)
    requires 1 <= d <= 2 && j < 512
    requires base % PAGE_SIZE == 0 && base + LeafSize(d) <= 0x10_0000_0000_0000
    ensures (base + j * LeafSize(d + 1)) % PAGE_SIZE == 0
    ensures FrameOf(base + j * LeafSize(d + 1)) == base + j * LeafSize(d + 1)
  {
    FrameOfAligned(base + j * LeafSize(d + 1));
  }

  lemma SplitEntryMeaning(base: nat, d: nat, flags: PageFlags, j: nat)
    requires 1 <= d <= 2 && j < 512 && SplitFlags(d, flags)
    requires base % PAGE_SIZE == 0 && base + LeafSize(d) <= 0x10_0000_0000_0000
    ensures var e := SplitEntry(base, d, flags, j);
      Decode(e, d + 1) == Leaf && FrameOf(e) == base + j * LeafSize(d + 1)
  {
    var a := base + j * LeafSize(d + 1);
    SplitAddress(base, d, j);
    LeafEntry(a, flags);
    AndOverOr(a, flags, HUGE_PAGE);
    OrAtLeast(And(a, HUGE_PAGE), And(flags, HUGE_PAGE));
  }

  lemma FrameAligned(e: nat)
    ensures FrameOf(e) % PAGE_SIZE == 0
  {
    FrameIsField(e);
  }

  predicate CanSplit(s: Space, p: seq<nat>, t: nat, i: nat, n: nat, flags: PageFlags) {
    HugeAt(s, p, t, i) && SplitFlags(|p|, flags) && n % PAGE_SIZE == 0 && n < 0x10_0000_0000_0000
  }

  lemma SplitIsGraft(s: Space, p: seq<nat>, t: nat, i: nat, n: nat, flags: PageFlags)
    requires CanSplit(s, p, t, i, n, flags) && Outside(X64(), s.mem, s.root, n)
    ensures IsGraft(X64(), s.mem, s.root, p, i, n, SplitEntries(FrameOf(Load(s, t, i)), |p|, flags), TableEntry(n),
                    Split(s, t, i, |p|, n, flags).mem)
  {
    var d := |p|;
    var base := FrameOf(Load(s, t, i));
    var page := SplitEntries(base, d, flags);
    TableEntryPoints(n, d);
    FrameAligned(Load(s, t, i));
    forall j | j in page
      ensures Decode(page[j], d + 1) == Leaf
    {
      SplitEntryMeaning(base, d, flags, j);
    }
    FillWriteIsGraft(X64(), s.mem, s.root, p, i, n, page, TableEntry(n));
  }

  /** Splitting a huge page keeps the tree, with the new table where the page was, and changes no walk elsewhere. */
  lemma SplitTree(s: Space, p: seq<nat>, t: nat, i: nat, n: nat, flags: PageFlags, s1: Space)
    requires NoSharing(X64(), s.mem, s.root) && CanSplit(s, p, t, i, n, flags) && Outside(X64(), s.mem, s.root, n)
    requires s1 == Split(s, t, i, |p|, n, flags)
    ensures NoSharing(X64(), s1.mem, s.root) && TableOf(s1, p + [i]) == Some(n)
    ensures forall q | |q| == 4 && !(p + [i] <= q) :: Lookup(s1, q) == Lookup(s, q)
    ensures forall q | |q| == 4 && p + [i] <= q ::
      Lookup(s1, q) ==
        LeafOf(X64(), WordOf(X64(), SplitEntries(FrameOf(Load(s, t, i)), |p|, flags), q[|p| + 1]), |p| + 1)
  {
    X64Proper();
    SplitIsGraft(s, p, t, i, n, flags);
    Graft(X64(), s.mem, s.root, p, i, n, SplitEntries(FrameOf(Load(s, t, i)), |p|, flags), TableEntry(n), s1.mem);
  }

  /** A page inside a huge page has the leaf of that page. */
  lemma HugeLeaf(s: Space, p: seq<nat>, t: nat, i: nat, q: seq<nat>)
    requires HugeAt(s, p, t, i) && |q| == 4 && p + [i] <= q
    ensures Lookup(s, q) == Some((Load(s, t, i), |p|))
  {
    var d := |p|;
    assert q[..d + 1] == p + [i];
    assert q[..d] == q[..d + 1][..d] == p && q[d] == q[..d + 1][d];
    FindFrom(X64(), s.mem, s.root, q, d);
  }

  /** On the pages inside it, the huge leaf is replaced by the leaf of the smaller page. */
  lemma SplitLookups(s: Space, p: seq<nat>, t: nat, i: nat, n: nat, flags: PageFlags, q: seq<nat>, s1: Space)
    requires NoSharing(X64(), s.mem, s.root) && CanSplit(s, p, t, i, n, flags) && Outside(X64(), s.mem, s.root, n)
    requires |q| == 4 && q[|p| + 1] < 512 && s1 == Split(s, t, i, |p|, n, flags)
    ensures !(p + [i] <= q) ==> Lookup(s1, q) == Lookup(s, q)
    ensures p + [i] <= q ==> Lookup(s, q) == Some((Load(s, t, i), |p|))
    ensures p + [i] <= q ==>
      Lookup(s1, q) == Some((SplitEntry(FrameOf(Load(s, t, i)), |p|, flags, q[|p| + 1]), |p| + 1))
  {
    SplitTree(s, p, t, i, n, flags, s1);
    if p + [i] <= q {
      HugeLeaf(s, p, t, i, q);
      FrameAligned(Load(s, t, i));
      SplitEntryMeaning(FrameOf(Load(s, t, i)), |p|, flags, q[|p| + 1]);
    }
  }

  lemma LargeOffset(w: nat)
    ensures w / 0x1000 % 512 * 0x1000 + w % 0x1000 == w % 0x20_0000
  {
  }

  lemma GiantOffset(w: nat)
    ensures w / 0x1000 / 512 % 512 * 0x20_0000 + w % 0x20_0000 == w % 0x4000_0000
  {
    assert w / 0x1000 / 512 == w / 0x20_0000;
  }

  lemma OffsetSplits(w: nat, d: nat)
    requires 1 <= d <= 2
    ensures PageOf(w)[d + 1] < 512
    ensures PageOf(w)[d + 1] * LeafSize(d + 1) + w % LeafSize(d + 1) == w % LeafSize(d)
  {
    PageDigits(w);
    if d == 2 {
      LargeOffset(w);
    } else {
      GiantOffset(w);
    }
  }

  lemma SplitTarget(e: nat, d: nat, flags: PageFlags, w: nat)
    requires 1 <= d <= 2 && SplitFlags(d, flags) && FrameOf(e) + LeafSize(d) <= 0x10_0000_0000_0000
    ensures Target(Some((SplitEntry(FrameOf(e), d, flags, PageOf(w)[d + 1]), d + 1)), w) == Target(Some((e, d)), w)
  {
    FrameAligned(e);
    OffsetSplits(w, d);
    SplitEntryMeaning(FrameOf(e), d, flags, PageOf(w)[d + 1]);
    OffsetIsRemainder(w, d);
    OffsetIsRemainder(w, d + 1);
  }

  /** A huge page translates as the table of 512 smaller pages that covers the same bytes: splitting it changes no
      translation. */
  lemma SplitKeepsTranslations(s: Space, p: seq<nat>, t: nat, i: nat, n: nat, flags: PageFlags, w: nat)
    requires NoSharing(X64(), s.mem, s.root) && CanSplit(s, p, t, i, n, flags) && Outside(X64(), s.mem, s.root, n)
    ensures Translate(Split(s, t, i, |p|, n, flags), w) == Translate(s, w)
  {
    OffsetSplits(w, |p|);
    SplitLookups(s, p, t, i, n, flags, PageOf(w), Split(s, t, i, |p|, n, flags));
    TranslateIsLookup(s, w);
    TranslateIsLookup(Split(s, t, i, |p|, n, flags), w);
    SplitTarget(Load(s, t, i), |p|, flags, w);
  }

  lemma SplitLoad(s: Space, t: nat, i: nat, d: nat, n: nat, flags: PageFlags, j: nat)
    requires t != n && j < 512
    ensures Load(Split(s, t, i, d, n, flags), n, j) == SplitEntry(FrameOf(Load(s, t, i)), d, flags, j)
  {
    ReadFill(X64(), s.mem, n, SplitEntries(FrameOf(Load(s, t, i)), d, flags), n, j);
  }

  /** The frame of the 2 MB part `j` of a 1 GB page, and of the 4 KB part `k` of that. */
  lemma PartFrames(base: nat, large: PageFlags, j: nat, k: nat)
    requires j < 512 && k < 512 && base % PAGE_SIZE == 0 && base + LeafSize(1) <= 0x10_0000_0000_0000
    requires SplitFlags(1, large)
    ensures var e := SplitEntry(base, 1, large, j);
      && Decode(e, 2) == Leaf && FrameOf(e) + LeafSize(2) <= 0x10_0000_0000_0000
      && FrameOf(e) + k * LeafSize(3) == base + (j * 512 + k) * 4096
  {
    SplitEntryMeaning(base, 1, large, j);
  }

  lemma PartTarget(e: nat, part: nat, flags: PageFlags, w: nat, k: nat)
    requires Present(flags) && FrameOf(part) + LeafSize(2) <= 0x10_0000_0000_0000
    requires FrameOf(part) + PageOf(w)[3] * LeafSize(3) == FrameOf(e) + k * 4096
    ensures Target(Some((Or(FrameOf(e) + k * 4096, flags), 3)), w) == Target(Some((part, 2)), w)
  {
    SplitTarget(part, 2, flags, w);
  }

  /** Address `w` through the leaf of a 1 GB page is `w` through the 4 KB page of its number in it. */
  lemma GiantExpansion(e: nat, large: PageFlags, flags: PageFlags, w: nat, k: nat)
    requires SplitFlags(1, large) && Present(flags) && FrameOf(e) + LeafSize(1) <= 0x10_0000_0000_0000
    requires k == PageOf(w)[2] * 512 + PageOf(w)[3]
    ensures Target(Some((Or(FrameOf(e) + k * 4096, flags), 3)), w) == Target(Some((e, 1)), w)
  {
    FrameAligned(e);
    OffsetSplits(w, 1);
    OffsetSplits(w, 2);
    PartFrames(FrameOf(e), large, PageOf(w)[2], PageOf(w)[3]);
    SplitTarget(e, 1, large, w);
    PartTarget(e, SplitEntry(FrameOf(e), 1, large, PageOf(w)[2]), flags, w, k);
  }

  /** `s` with the 1 GB page at entry `i` of table `t` replaced by the table `n` of 2 MB pages, and part `j` of these by
      the table `m` of 4 KB pages. */
  function Expand(s: Space, t: nat, i: nat, n: nat, large: PageFlags, j: nat, m: nat, flags: PageFlags): Space {
    Split(Split(s, t, i, 1, n, large), n, j, 2, m, flags)
  }

  lemma PartCanSplit(
    s: Space, p: seq<nat>, t: nat, i: nat, n: nat, large: PageFlags, j: nat, m: nat, flags: PageFlags, s1: Space)
    requires NoSharing(X64(), s.mem, s.root) && CanSplit(s, p, t, i, n, large) && Outside(X64(), s.mem, s.root, n)
    requires |p| == 1 && s1 == Split(s, t, i, 1, n, large) && j < 512
    requires Present(flags) && m % PAGE_SIZE == 0 && m < 0x10_0000_0000_0000
    ensures NoSharing(X64(), s1.mem, s.root) && CanSplit(s1, p + [i], n, j, m, flags)
    ensures Load(s1, n, j) == SplitEntry(FrameOf(Load(s, t, i)), 1, large, j)
  {
    var base := FrameOf(Load(s, t, i));
    SplitTree(s, p, t, i, n, large, s1);
    assert TableOf(s, p) != Some(n);
    SplitLoad(s, t, i, 1, n, large, j);
    FrameAligned(Load(s, t, i));
    PartFrames(base, large, j, 0);
  }

  /** What an expansion starts from: a 1 GB page and two pages that hold no table. */
  ghost predicate CanExpand(
    s: Space, p: seq<nat>, t: nat, i: nat, n: nat, large: PageFlags, j: nat, m: nat, flags: PageFlags)
  {
    && NoSharing(X64(), s.mem, s.root) && CanSplit(s, p, t, i, n, large) && Outside(X64(), s.mem, s.root, n)
    && |p| == 1 && j < 512 && Present(flags) && m % PAGE_SIZE == 0 && m < 0x10_0000_0000_0000
    && Outside(X64(), Split(s, t, i, 1, n, large).mem, s.root, m)
  }

  /** Expanding a 1 GB page into 2 MB pages and one of these into 4 KB pages changes no translation. */
  lemma ExpansionTranslates(
    s: Space, p: seq<nat>, t: nat, i: nat, n: nat, large: PageFlags, j: nat, m: nat, flags: PageFlags, w: nat)
    requires CanExpand(s, p, t, i, n, large, j, m, flags)
    ensures Translate(Expand(s, t, i, n, large, j, m, flags), w) == Translate(s, w)
  {
    var s1 := Split(s, t, i, 1, n, large);
    PartCanSplit(s, p, t, i, n, large, j, m, flags, s1);
    SplitKeepsTranslations(s, p, t, i, n, large, w);
    SplitKeepsTranslations(s1, p + [i], n, j, m, flags, w);
  }

  lemma PartEntries(s1: Space, r: seq<nat>, n: nat, j: nat, m: nat, flags: PageFlags, k: nat, q: seq<nat>, s2: Space)
    requires NoSharing(X64(), s1.mem, s1.root) && CanSplit(s1, r, n, j, m, flags) && Outside(X64(), s1.mem, s1.root, m)
    requires |r| == 2 && k < 512 && q == r + [j] + [k] && s2 == Split(s1, n, j, |r|, m, flags)
    ensures Lookup(s2, q) == Some((SplitEntry(FrameOf(Load(s1, n, j)), 2, flags, k), 3))
  {
    assert q[3] == k && r + [j] <= q;
    SplitLookups(s1, r, n, j, m, flags, q, s2);
  }

  lemma SameEntry(base: nat, large: PageFlags, j: nat, k: nat, flags: PageFlags, e: nat, frame: nat)
    requires SplitFlags(1, large) && j < 512 && k < 512 && base % PAGE_SIZE == 0
    requires base + LeafSize(1) <= 0x10_0000_0000_0000 && e == SplitEntry(base, 1, large, j)
    requires frame == base + (j * 512 + k) * 4096
    ensures SplitEntry(FrameOf(e), 2, flags, k) == Or(frame, flags)
  {
    PartFrames(base, large, j, k);
  }

  /** Every page of the part is then mapped by an entry of its own, to the frame of its number in the 1 GB page. */
  lemma ExpansionEntries(
    s: Space, p: seq<nat>, t: nat, i: nat, n: nat, large: PageFlags, j: nat, m: nat, flags: PageFlags, k: nat,
    frame: nat)
    requires CanExpand(s, p, t, i, n, large, j, m, flags) && k < 512
    requires frame == FrameOf(Load(s, t, i)) + (j * 512 + k) * 4096
    ensures Lookup(Expand(s, t, i, n, large, j, m, flags), p + [i] + [j] + [k]) == Some((Or(frame, flags), 3))
  {
    var s1 := Split(s, t, i, 1, n, large);
    PartCanSplit(s, p, t, i, n, large, j, m, flags, s1);
    PartEntries(s1, p + [i], n, j, m, flags, k, p + [i] + [j] + [k], Expand(s, t, i, n, large, j, m, flags));
    FrameAligned(Load(s, t, i));
    SameEntry(FrameOf(Load(s, t, i)), large, j, k, flags, Load(s1, n, j), frame);
  }

  // ---------------------------------------------------------------- the boot tables

  function BootEntry(j: nat): nat { Or(j * 0x20_0000, 0x83) }

  predicate BootLayout(p4: nat, p3: nat, p2: nat) {
    && p4 != p3 && p3 != p2 && p2 != p4
    && p4 % PAGE_SIZE == 0 && p3 % PAGE_SIZE == 0 && p2 % PAGE_SIZE == 0
    && p4 < 0x1_0000_0000 && p3 < 0x1_0000_0000 && p2 < 0x1_0000_0000
    && !(POOL_BASE <= p4 < POOL_END) && !(POOL_BASE <= p3 < POOL_END) && !(POOL_BASE <= p2 < POOL_END)
  }

  /** The tables of `setup_page_tables`: one PDPT entry, one page directory of 512 identity-mapped 2 MB pages. */
  ghost predicate BootTables(s: Space, p4: nat, p3: nat, p2: nat) {
    && BootLayout(p4, p3, p2)
    && s.root == p4
    && s.next == POOL_BASE
    && (forall i: nat :: Load(s, p4, i) == if i == 0 then TableEntry(p3) else 0)
    && (forall i: nat :: Load(s, p3, i) == if i == 0 then TableEntry(p2) else 0)
    && (forall i: nat :: Load(s, p2, i) == if i < 512 then BootEntry(i) else 0)
  }

  lemma BootEntryMeaning(j: nat)
    requires j < 512
    ensures Decode(BootEntry(j), 2) == Leaf && FrameOf(BootEntry(j)) == j * 0x20_0000
  {
    var a := j * 0x20_0000;
    LeafEntry(a, 0x83);
    FrameOfAligned(a);
    AndOverOr(a, 0x83, HUGE_PAGE);
    OrAtLeast(And(a, HUGE_PAGE), And(0x83, HUGE_PAGE));
  }

  /** The boot tables, page by page. */
  lemma BootLookup(s: Space, p4: nat, p3: nat, p2: nat, q: seq<nat>)
    requires BootTables(s, p4, p3, p2) && |q| == 4 && q[2] < 512
    ensures Lookup(s, q) == if q[0] == 0 && q[1] == 0 then Some((BootEntry(q[2]), 2)) else None
  {
    TableEntryPoints(p3, 0);
    TableEntryPoints(p2, 1);
    BootEntryMeaning(q[2]);
    FindStep(s, p4, q, 0);
    FindStep(s, p3, q, 1);
    FindStep(s, p2, q, 2);
  }

  lemma HighDigits(n: nat)
    ensures n / 0x800_0000 % 512 == 0 && n / 0x4_0000 % 512 == 0 <==> n % 0x10_0000_0000 < 0x4_0000
  {
    var a := n / 0x4_0000 % 512;
    var b := n / 0x800_0000 % 512;
    assert n % 0x800_0000 == a * 0x4_0000 + n % 0x4_0000;
    assert n % 0x10_0000_0000 == b * 0x800_0000 + n % 0x800_0000;
  }

  lemma FirstGigabyte(w: nat)
    requires w < 0x1_0000_0000_0000
    ensures PageOf(w)[0] == 0 && PageOf(w)[1] == 0 <==> w < 0x4000_0000
  {
    PageDigits(w);
    HighDigits(w / 0x1000);
  }

  lemma PartOfGiant(e: nat, j: nat, w: nat)
    requires j == w / 0x1000 / 512 % 512 && FrameOf(e) == j * 0x20_0000
    ensures Target(Some((e, 2)), w) == Some(w % 0x4000_0000)
  {
    OffsetIsRemainder(w, 2);
    GiantOffset(w);
  }

  lemma BootTarget(j: nat, w: nat)
    requires j == w / 0x1000 / 512 % 512
    ensures Target(Some((BootEntry(j), 2)), w) == Some(w % 0x4000_0000)
  {
    BootEntryMeaning(j);
    PartOfGiant(BootEntry(j), j, w);
  }

  lemma BootPage(s: Space, p4: nat, p3: nat, p2: nat, q: seq<nat>, w: nat)
    requires BootTables(s, p4, p3, p2) && |q| == 4
    requires q[2] == w / 0x1000 / 512 % 512 && (q[0] == 0 && q[1] == 0 <==> w < 0x4000_0000)
    ensures Target(Lookup(s, q), w) == if w < 0x4000_0000 then Some(w) else None
  {
    BootLookup(s, p4, p3, p2, q);
    BootLeafTarget(Lookup(s, q), q[2], w);
  }

  lemma BootLeafTarget(leaf: Option<(nat, nat)>, j: nat, w: nat)
    requires j == w / 0x1000 / 512 % 512
    requires leaf == if w < 0x4000_0000 then Some((BootEntry(j), 2)) else None
    ensures Target(leaf, w) == if w < 0x4000_0000 then Some(w) else None
  {
    if w < 0x4000_0000 {
      BootTarget(j, w);
      SmallMod(w, 0x4000_0000);
    }
  }

  lemma ThirdIndex(w: nat)
    ensures PageOf(w)[2] == w / 0x1000 / 512 % 512
  {
    PageDigits(w);
  }

  /** The boot tables translate every address below 1 GB to itself and no other address below 2^48. */
  lemma BootTranslates(s: Space, p4: nat, p3: nat, p2: nat, w: nat)
    requires BootTables(s, p4, p3, p2) && w < 0x1_0000_0000_0000
    ensures Translate(s, w) == if w < 0x4000_0000 then Some(w) else None
  {
    FirstGigabyte(w);
    ThirdIndex(w);
    BootPage(s, p4, p3, p2, PageOf(w), w);
    TranslateIsLookup(s, w);
  }

  /** The boot tables are a tree of three tables, so `map_page` and its companions may be used on them. */
  lemma BootIsTree(s: Space, p4: nat, p3: nat, p2: nat)
    requires BootTables(s, p4, p3, p2)
    ensures Tree(s)
    ensures forall p | |p| <= HEIGHT :: TableOf(s, p) == BootTableOf(p4, p3, p2, p)
  {
    forall p | |p| <= HEIGHT
      ensures TableOf(s, p) == BootTableOf(p4, p3, p2, p)
    {
      BootTable(s, p4, p3, p2, p);
    }
  }

  function BootTableOf(p4: nat, p3: nat, p2: nat, p: seq<nat>): Option<nat> {
    if p == [] then Some(p4) else if p == [0] then Some(p3) else if p == [0, 0] then Some(p2) else None
  }

  lemma {:induction false} BootTable(s: Space, p4: nat, p3: nat, p2: nat, p: seq<nat>)
    requires BootTables(s, p4, p3, p2) && |p| <= HEIGHT
    ensures TableOf(s, p) == BootTableOf(p4, p3, p2, p)
    decreases |p|
  {
    if p != [] {
      var k := |p| - 1;
      assert p == p[..k] + [p[k]];
      BootTable(s, p4, p3, p2, p[..k]);
      TableAtStep(X64(), s.mem, s.root, p[..k], p[k]);
      if p[..k] == [] {
        assert Load(s, p4, p[k]) == if p[k] == 0 then TableEntry(p3) else 0;
        TableEntryPoints(p3, 0);
      } else if p[..k] == [0] {
        assert Load(s, p3, p[k]) == if p[k] == 0 then TableEntry(p2) else 0;
        TableEntryPoints(p2, 1);
      } else if p[..k] == [0, 0] {
        assert Load(s, p2, p[k]) == if p[k] < 512 then BootEntry(p[k]) else 0;
        if p[k] < 512 { BootEntryMeaning(p[k]); }
      }
    }
  }

  /** The words of the `n` pages from `start` on. */
  predicate InPages(t: nat, start: nat, n: nat) { start <= t < start + n * PAGE_SIZE && (t - start) % PAGE_SIZE == 0 }

  /** `rep stosd` of zeroes over `n` pages from `start` on */
  method Clear(mem0: Memory<nat>, start: nat, n: nat) returns (mem: Memory<nat>)
    ensures forall t, i: nat :: Read(X64(), mem, t, i) == if InPages(t, start, n) then 0 else Read(X64(), mem0, t, i)
  {
    mem := mem0;
    for k := 0 to n
      invariant forall t, i: nat ::
        Read(X64(), mem, t, i) == if InPages(t, start, k) then 0 else Read(X64(), mem0, t, i)
    {
      ghost var was := mem;
      mem := Fill(mem, start + k * PAGE_SIZE, map[]);
      forall t, i: nat
        ensures Read(X64(), mem, t, i) == if InPages(t, start, k + 1) then 0 else Read(X64(), mem0, t, i)
      {
        ReadFill(X64(), was, start + k * PAGE_SIZE, map[], t, i);
        LastPageOf(t, start, k);
      }
    }
  }

  lemma LastPageOf(t: nat, start: nat, k: nat)
    ensures InPages(t, start, k + 1) <==> InPages(t, start, k) || t == start + k * PAGE_SIZE
  {
    if start <= t {
      var d := t - start;
      QuotientTimes(d, PAGE_SIZE);
      DivMultiple(0, PAGE_SIZE, k);
    }
  }

  /** The count of dwords that `setup_page_tables` clears from each table on covers four pages, not one. */
  const CLEARED: nat := 4

  lemma FirstInPages(t: nat)
    ensures InPages(t, t, CLEARED)
  {
  }

  /** The loop over the entries of the page directory */
  method MapLargePages(mem0: Memory<nat>, p2: nat) returns (mem: Memory<nat>)
    requires forall i: nat :: Read(X64(), mem0, p2, i) == 0
    ensures forall t, i: nat | t != p2 :: Read(X64(), mem, t, i) == Read(X64(), mem0, t, i)
    ensures forall i: nat :: Read(X64(), mem, p2, i) == if i < 512 then BootEntry(i) else 0
  {
    mem := mem0;
    var ecx := 0;
    while ecx != 512
      invariant ecx <= 512
      invariant forall t, i: nat | t != p2 :: Read(X64(), mem, t, i) == Read(X64(), mem0, t, i)
      invariant forall i: nat :: Read(X64(), mem, p2, i) == if i < ecx then BootEntry(i) else 0
      decreases 512 - ecx
    {
      mem := Write(mem, p2, ecx, Or(0x20_0000 * ecx, 0x83));
      ecx := ecx + 1;
    }
  }

  lemma TablesWritten(cleared: Memory<nat>, mem: Memory<nat>, p4: nat, p3: nat, p2: nat)
    requires BootLayout(p4, p3, p2)
    requires forall t, i: nat | t == p4 || t == p3 :: Read(X64(), cleared, t, i) == 0
    requires forall t, i: nat | t != p2 ::
      Read(X64(), mem, t, i) == Read(X64(), Write(Write(cleared, p4, 0, TableEntry(p3)), p3, 0, TableEntry(p2)), t, i)
    requires forall i: nat :: Read(X64(), mem, p2, i) == if i < 512 then BootEntry(i) else 0
    ensures BootTables(Space(mem, p4, POOL_BASE), p4, p3, p2)
  {
    forall i: nat
      ensures Read(X64(), mem, p4, i) == if i == 0 then TableEntry(p3) else 0
      ensures Read(X64(), mem, p3, i) == if i == 0 then TableEntry(p2) else 0
    {
      assert Read(X64(), cleared, p4, i) == 0 && Read(X64(), cleared, p3, i) == 0;
    }
  }

  /** `setup_page_tables` on memory that holds anything: the result is the boot tables, and outside of the pages cleared
      nothing changed. */
  method SetupPageTables(mem0: Memory<nat>, p4: nat, p3: nat, p2: nat) returns (mem: Memory<nat>)
    requires BootLayout(p4, p3, p2)
    ensures BootTables(Space(mem, p4, POOL_BASE), p4, p3, p2)
    ensures forall t, i: nat | !InPages(t, p4, CLEARED) && !InPages(t, p3, CLEARED) && !InPages(t, p2, CLEARED) ::
      Read(X64(), mem, t, i) == Read(X64(), mem0, t, i)
  {
    mem := Clear(mem0, p4, CLEARED);
    mem := Clear(mem, p3, CLEARED);
    mem := Clear(mem, p2, CLEARED);
    ghost var cleared := mem;
    FirstInPages(p4);
    FirstInPages(p3);
    FirstInPages(p2);
    mem := Write(mem, p4, 0, TableEntry(p3));
    mem := Write(mem, p3, 0, TableEntry(p2));
    assert forall i: nat :: Read(X64(), mem, p2, i) == Read(X64(), cleared, p2, i);
    mem := MapLargePages(mem, p2);
    TablesWritten(cleared, mem, p4, p3, p2);
  }

  lemma PageAt(start: nat, k: nat, n: nat)
    ensures InPages(start + k * PAGE_SIZE, start, n) <==> k < n
  {
    DivMultiple(0, PAGE_SIZE, k);
  }

  /** With the tables and the 16 KB boot stack one after the other, the clearing covers the stack but for its last page,
      which holds the return address. */
  lemma StackTopSpared(p4: nat, k: nat)
    requires 3 <= k < 7
    ensures var t := p4 + k * PAGE_SIZE;
      InPages(t, p4, CLEARED) || InPages(t, p4 + 0x1000, CLEARED) || InPages(t, p4 + 0x2000, CLEARED) <==> k < 6
  {
    PageAt(p4, k, CLEARED);
    PageAt(p4 + 0x1000, k - 1, CLEARED);
    PageAt(p4 + 0x2000, k - 2, CLEARED);
  }
}
