/**
 Four-level page tables (src/memory/vmm.rs) in the 4-level paging format of section 4.5 of the
 Intel SDM, volume 3A.

 Physical memory is a map from (page address, index) to 64-bit words; a word never written is zero.
 Every table address the code computes has its low 12 bits clear, so two distinct table addresses never overlap.
 */
module Paging {
  import opened Kernel
  import opened Bits
  import opened Radix

  const PRESENT: nat := 0x1
  const WRITABLE: nat := 0x2
  const HUGE_PAGE: nat := 0x80
  const FRAME_MASK: nat := 0x000F_FFFF_FFFF_F000

  /** The page-table pool: NEXT_PAGE_ADDR starts at POOL_BASE and stops at POOL_END. */
  const POOL_BASE: nat := 0x70_0000
  const POOL_END: nat := 0x80_0000

  /** A `PageFlags` value: bits 0 to 8 and bit 63. */
  type PageFlags = f: nat | f % 0x8000_0000_0000_0000 < 512 && f < 0x1_0000_0000_0000_0000

  predicate Present(e: nat) { And(e, PRESENT) != 0 }
  predicate Huge(e: nat) { And(e, HUGE_PAGE) != 0 }
  function FrameOf(e: nat): nat { And(e, FRAME_MASK) }

  /** The meaning of an entry.  In a PDPT or a page directory (depth 1 and 2) bit 7 makes it a leaf;
      in the PML4 (depth 0) and in a page table (depth 3) nobody looks at bit 7. */
  function Decode(e: nat, depth: nat): Slot<nat> {
    if !Present(e) then Empty
    else if depth >= HEIGHT || (depth > 0 && Huge(e)) then Leaf
    else Pointer(FrameOf(e))
  }

  function X64(): Format<nat> { Format(0, Decode) }

  lemma X64Proper()
    ensures Proper(X64())
  {
  }

  /** The translation state: memory, the PML4 address, and NEXT_PAGE_ADDR. */
  datatype Space = Space(mem: Memory<nat>, root: nat, next: nat)

  // ---------------------------------------------------------------- addresses

  /** The page of an address: the four table indices on its walk. */
  function PageOf(virt: nat): (p: seq<nat>)
    ensures |p| == 4
  {
    [And(Shr(virt, 39), 0x1FF), And(Shr(virt, 30), 0x1FF), And(Shr(virt, 21), 0x1FF), And(Shr(virt, 12), 0x1FF)]
  }

  /** Addresses with the same bits 12 to 47. */
  predicate SamePage(v: nat, w: nat) {
    v / 0x1000 % 0x10_0000_0000 == w / 0x1000 % 0x10_0000_0000
  }

  lemma IndexIsDigit(virt: nat, k: nat, p: nat)
    requires Pow2(k) == p
    ensures And(Shr(virt, 12 + k), 0x1FF) == virt / 0x1000 / p % 512
  {
    ShrShr(virt, 12, k);
    ShrIsDiv(virt, 12);
    ShrIsDiv(virt / 0x1000, k);
    AndLowMask(Shr(virt, 12 + k), 9);
    assert Pow2(12) == 0x1000 && Pow2(9) == 512;
  }

  lemma Shifts()
    ensures Pow2(9) == 512 && Pow2(12) == 0x1000 && Pow2(18) == 0x4_0000
    ensures Pow2(21) == 0x20_0000 && Pow2(27) == 0x800_0000 && Pow2(30) == 0x4000_0000
  {
    Pow2Add(9, 9);
    Pow2Add(12, 9);
    Pow2Add(18, 9);
    Pow2Add(21, 9);
  }

  /** The indices are the base-512 digits of the page number. */
  lemma PageDigits(u: nat)
    ensures var n := u / 0x1000;
      PageOf(u) == [n / 0x800_0000 % 512, n / 0x4_0000 % 512, n / 512 % 512, n % 512]
  {
    Shifts();
    IndexIsDigit(u, 27, 0x800_0000);
    IndexIsDigit(u, 18, 0x4_0000);
    IndexIsDigit(u, 9, 512);
    IndexIsDigit(u, 0, 1);
  }

  lemma SameSeq4(a: seq<nat>, b: seq<nat>)
    requires |a| == |b| == 4
    ensures a == b <==> a[0] == b[0] && a[1] == b[1] && a[2] == b[2] && a[3] == b[3]
  {
  }

  /** Four base-512 digits determine a number below 512^4. */
  lemma SameDigits(x: nat, y: nat)
    ensures (x / 0x800_0000 % 512 == y / 0x800_0000 % 512 && x / 0x4_0000 % 512 == y / 0x4_0000 % 512
      && x / 512 % 512 == y / 512 % 512 && x % 512 == y % 512)
      <==> x % 0x10_0000_0000 == y % 0x10_0000_0000
  {
    DigitsOf(x);
    DigitsOf(y);
    SameSum(x / 0x800_0000 % 512, x / 0x4_0000 % 512, x / 512 % 512, x % 512,
            y / 0x800_0000 % 512, y / 0x4_0000 % 512, y / 512 % 512, y % 512);
  }

  /** The remainder by `a * b` in terms of the digit above `a`. */
  lemma ModSplit(z: nat, a: nat, b: nat)
    requires a > 0 && b > 0
    ensures a * b > 0 && z % (a * b) == z / a % b * a + z % a
  {
    QuotientTimes(z, a);
    QuotientTimes(z / a, b);
    ModFrom(z, a, b, z / a, z % a, z / a / b, z / a % b);
  }

  lemma ModFrom(z: nat, a: nat, b: nat, q: nat, r: nat, h: nat, d: nat)
    requires z == q * a + r && r < a && q == h * b + d && d < b
    ensures a * b > 0 && z % (a * b) == d * a + r
  {
    MulStep(d, b, a);
    Regroup(h, b, d, a);
    DivUnique(z, a * b, h, d * a + r);
  }

  lemma Regroup(h: nat, b: nat, d: nat, a: nat)
    ensures (h * b + d) * a == h * (a * b) + d * a
  {
    assert (h * b + d) * a == h * b * a + d * a;
    assert h * b * a == h * (b * a);
  }

  lemma DigitsOf(z: nat)
    ensures z % 0x10_0000_0000 ==
      z / 0x800_0000 % 512 * 0x800_0000 + z / 0x4_0000 % 512 * 0x4_0000 + z / 512 % 512 * 512 + z % 512
  {
    ModSplit(z, 512, 512);
    ModSplit(z, 0x4_0000, 512);
    ModSplit(z, 0x800_0000, 512);
  }

  lemma SameSum(a: nat, b: nat, c: nat, d: nat, e: nat, f: nat, g: nat, h: nat)
    requires a < 512 && b < 512 && c < 512 && d < 512 && e < 512 && f < 512 && g < 512 && h < 512
    ensures a == e && b == f && c == g && d == h <==>
      a * 0x800_0000 + b * 0x4_0000 + c * 512 + d == e * 0x800_0000 + f * 0x4_0000 + g * 512 + h
  {
  }

  /** Two addresses walk the same indices exactly when their bits 12 to 47 agree. */
  lemma SamePageSameWalk(v: nat, w: nat)
    ensures PageOf(v) == PageOf(w) <==> SamePage(v, w)
  {
    PageDigits(v);
    PageDigits(w);
    SameDigits(v / 0x1000, w / 0x1000);
    SameSeq4(PageOf(v), PageOf(w));
  }

  // ---------------------------------------------------------------- translate

  /** What the tables say about page `p`: the leaf entry and its depth (3: 4 KB, 2: 2 MB, 1: 1 GB). */
  function Lookup(s: Space, p: seq<nat>): Option<(nat, nat)>
    requires |p| == 4
  {
    Find(X64(), s.mem, s.root, p, 0)
  }

  /** The page is not inside a 2 MB or 1 GB mapping. */
  predicate NotHuge(s: Space, p: seq<nat>)
    requires |p| == 4
  {
    Lookup(s, p).Some? ==> Lookup(s, p).value.1 == HEIGHT
  }

  function Load(s: Space, t: nat, i: nat): nat { Read(X64(), s.mem, t, i) }

  /** `get_next_table_addr` */
  function NextTable(entry: nat): Option<nat> {
    if And(entry, PRESENT) == 0 then None else Some(And(entry, FRAME_MASK))
  }

  /** `check_huge_page` */
  function CheckHugePage(entry: nat, virt: nat, shift: nat): Option<nat> {
    if And(entry, HUGE_PAGE) != 0 && And(entry, PRESENT) != 0
    then Some(And(entry, FRAME_MASK) + And(virt, Pow2(shift) - 1))
    else None
  }

  /** `translate` on page `p`: the read of the page table */
  function TranslateInPt(s: Space, pt: nat, p: seq<nat>, virt: nat): Option<nat>
    requires |p| == 4
  {
    var entry := Load(s, pt, p[3]);
    if And(entry, PRESENT) == 0 then None else Some(And(entry, FRAME_MASK) + And(virt, 0xFFF))
  }

  /** ... from the page directory down */
  function TranslateInPd(s: Space, pd: nat, p: seq<nat>, virt: nat): Option<nat>
    requires |p| == 4
  {
    var entry := Load(s, pd, p[2]);
    var large := CheckHugePage(entry, virt, 21);
    if large.Some? then large
    else match NextTable(entry)
      case None => None
      case Some(pt) => TranslateInPt(s, pt, p, virt)
  }

  /** ... from the PDPT down */
  function TranslateInPdpt(s: Space, pdpt: nat, p: seq<nat>, virt: nat): Option<nat>
    requires |p| == 4
  {
    var entry := Load(s, pdpt, p[1]);
    var giant := CheckHugePage(entry, virt, 30);
    if giant.Some? then giant
    else match NextTable(entry)
      case None => None
      case Some(pd) => TranslateInPd(s, pd, p, virt)
  }

  /** `translate` */
  function Translate(s: Space, virt: nat): Option<nat> {
    var p := PageOf(virt);
    match NextTable(Load(s, s.root, p[0]))
    case None => None
    case Some(pdpt) => TranslateInPdpt(s, pdpt, p, virt)
  }

  /** The part of an address below the page size of a leaf at depth `d`. */
  function Offset(virt: nat, d: nat): nat {
    if d == 1 then And(virt, Pow2(30) - 1) else if d == 2 then And(virt, Pow2(21) - 1) else And(virt, 0xFFF)
  }

  function Target(leaf: Option<(nat, nat)>, virt: nat): Option<nat> {
    match leaf
    case None => None
    case Some((e, d)) => Some(FrameOf(e) + Offset(virt, d))
  }

  /** The size of the page that a leaf at depth `d` maps. */
  function LeafSize(d: nat): nat {
    if d == 1 then 0x4000_0000 else if d == 2 then 0x20_0000 else 0x1000
  }

  lemma OffsetIsRemainder(virt: nat, d: nat)
    ensures Offset(virt, d) == virt % LeafSize(d)
  {
    Shifts();
    if d == 1 {
      AndLowMask(virt, 30);
    } else if d == 2 {
      AndLowMask(virt, 21);
    } else {
      AndLowMask(virt, 12);
    }
  }

  lemma FindStep(s: Space, t: nat, p: seq<nat>, d: nat)
    requires |p| == 4 && d <= 3
    ensures var e := Load(s, t, p[d]);
      Find(X64(), s.mem, t, p, d) ==
        if And(e, PRESENT) == 0 then None
        else if d == 3 || (d > 0 && And(e, HUGE_PAGE) != 0) then Some((e, d))
        else Find(X64(), s.mem, And(e, FRAME_MASK), p, d + 1)
  {
  }

  lemma TranslateInPtIsFind(s: Space, pt: nat, p: seq<nat>, virt: nat)
    requires |p| == 4
    ensures TranslateInPt(s, pt, p, virt) == Target(Find(X64(), s.mem, pt, p, 3), virt)
  {
    FindStep(s, pt, p, 3);
  }

  lemma TranslateInPdIsFind(s: Space, pd: nat, p: seq<nat>, virt: nat)
    requires |p| == 4
    ensures TranslateInPd(s, pd, p, virt) == Target(Find(X64(), s.mem, pd, p, 2), virt)
  {
    FindStep(s, pd, p, 2);
    TranslateInPtIsFind(s, FrameOf(Load(s, pd, p[2])), p, virt);
  }

  lemma TranslateInPdptIsFind(s: Space, pdpt: nat, p: seq<nat>, virt: nat)
    requires |p| == 4
    ensures TranslateInPdpt(s, pdpt, p, virt) == Target(Find(X64(), s.mem, pdpt, p, 1), virt)
  {
    FindStep(s, pdpt, p, 1);
    TranslateInPdIsFind(s, FrameOf(Load(s, pdpt, p[1])), p, virt);
  }

  /** `translate` is the leaf of the radix tree for the page, plus the offset that the leaf's depth leaves. */
  lemma TranslateIsLookup(s: Space, virt: nat)
    ensures Translate(s, virt) == Target(Lookup(s, PageOf(virt)), virt)
  {
    var p := PageOf(virt);
    FindStep(s, s.root, p, 0);
    TranslateInPdptIsFind(s, FrameOf(Load(s, s.root, p[0])), p, virt);
  }
}
