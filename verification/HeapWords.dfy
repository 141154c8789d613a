/** The arithmetic of src/memory/heap.rs on 64-bit words, and when it is the arithmetic of numbers. */
module HeapWords {
  import opened Kernel
  import opened Bits
  import opened Heap

  /** `(offset + align - 1) & !(align - 1)` on words */
  function AlignWord(offset: nat, log: nat): nat
    requires log < WORD
  {
    Pow2Monotone(log, WORD);
    And((offset + Pow2(log) - 1) % TWO_64, Not(Pow2(log) - 1, WORD))
  }

  /** The rest of `alloc_bump` on words: sums are taken modulo 2^64 */
  function BumpWord(h: Heap, aligned: nat, size: nat): (Heap, Option<nat>) {
    var next := (aligned + size) % TWO_64;
    if next > h.size then (h, None) else (h.(bump := next), Some((h.start + aligned) % TWO_64))
  }

  /** `alloc_bump` on words */
  function AllocBumpWord(h: Heap, size: nat, log: nat): (Heap, Option<nat>)
    requires log < WORD
  {
    BumpWord(h, AlignWord(h.bump, log), size)
  }

  /** `alloc` on words */
  function AllocWord(h: Heap, l: Layout): (Heap, Option<nat>)
    requires WellShaped(h) && l.log < WORD
  {
    ClassInRange(AlignedSize(l));
    var c := ClassOf(l);
    if c.Some? && h.slabs[c.value].blockSize >= Align(l) then AllocFromSlab(h, c.value)
    else AllocBumpWord(h, AlignedSize(l), l.log)
  }

  // ---------------------------------------------------------------- when sums do not wrap

  lemma DividesProduct(m: nat, n: nat, t: nat)
    requires m > 0 && t == n * m
    ensures t % m == 0
  {
    DivMultiple(0, m, n);
  }

  lemma Divides(log: nat)
    requires log < WORD
    ensures TWO_64 % Pow2(log) == 0
  {
    WordRange();
    Pow2Add(WORD - log, log);
    DividesProduct(Pow2(log), Pow2(WORD - log), TWO_64);
  }

  lemma WrappedWord(x: nat)
    requires TWO_64 <= x < 2 * TWO_64
    ensures x % TWO_64 == x - TWO_64
  {
  }

  /** A sum that wraps rounds to 2^64, which is 0. */
  lemma WrapsToZero(offset: nat, log: nat, m: nat)
    requires log < WORD && m == Pow2(log) && offset < TWO_64 <= offset + m - 1
    ensures AlignWord(offset, log) == 0 && AlignUp(offset, m) == TWO_64
  {
    WordRange();
    Pow2Monotone(log, WORD);
    Divides(log);
    AlignUpBounds(offset, m);
    AlignUpMultiple(offset, m);
    if AlignUp(offset, m) <= TWO_64 {
      MultipleUnique(AlignUp(offset, m), TWO_64, m);
    } else {
      MultipleUnique(TWO_64, AlignUp(offset, m), m);
    }
    var y := offset + m - 1 - TWO_64;
    WrappedWord(offset + m - 1);
    AndHighMask(y, log, WORD);
    SmallMod(y, m);
  }

  /** Aligning on words is aligning modulo 2^64. */
  lemma AlignWordMeaning(offset: nat, log: nat)
    requires log < WORD && offset < TWO_64
    ensures AlignWord(offset, log) == AlignUp(offset, Pow2(log)) % TWO_64
  {
    var m := Pow2(log);
    WordRange();
    if offset + m - 1 < TWO_64 {
      SmallMod(offset + m - 1, TWO_64);
      AlignUpByMask(offset, log, WORD);
      AlignUpBounds(offset, m);
      SmallMod(AlignUp(offset, m), TWO_64);
    } else {
      WrapsToZero(offset, log, m);
    }
  }

  lemma SumMod(a: nat, b: nat, n: nat)
    requires n > 0
    ensures (a % n + b) % n == (a + b) % n
  {
    QuotientTimes(a, n);
    DivMultiple(a % n + b, n, a / n);
  }

  /** `alloc_bump` on numbers after the offset is aligned. */
  function Bump(h: Heap, aligned: nat, size: nat): (Heap, Option<nat>) {
    if aligned + size > h.size then (h, None) else (h.(bump := aligned + size), Some(h.start + aligned))
  }

  /** No sum wraps, or one does and the remainder is still beyond the end of the heap. */
  predicate Exact(h: Heap, aligned: nat, size: nat) {
    if aligned + size < TWO_64 then aligned + size <= h.size ==> h.start + aligned < TWO_64
    else (aligned + size) % TWO_64 > h.size
  }

  lemma BumpExactIff(h: Heap, aligned: nat, word: nat, size: nat)
    requires h.size < TWO_64 && word == aligned % TWO_64
    ensures BumpWord(h, word, size) == Bump(h, aligned, size) <==> Exact(h, aligned, size)
  {
    SumMod(aligned, size, TWO_64);
    if aligned + size < TWO_64 {
      SmallMod(aligned, TWO_64);
      SmallMod(aligned + size, TWO_64);
      WrapsIff(h.start + aligned);
    }
  }

  lemma AllocBumpIs(h: Heap, size: nat, m: nat, aligned: nat)
    requires m > 0 && aligned == AlignUp(h.bump, m)
    ensures AllocBump(h, size, m) == Bump(h, aligned, size)
  {
  }

  /** `alloc_bump` on words answers as on numbers if and only if no sum wraps, or one does and the remainder is still
      beyond the end of the heap. */
  lemma AllocBumpExactIff(h: Heap, size: nat, log: nat, aligned: nat)
    requires log < WORD && h.size < TWO_64 && h.bump < TWO_64 && aligned == AlignUp(h.bump, Pow2(log))
    ensures AllocBumpWord(h, size, log) == AllocBump(h, size, Pow2(log)) <==> Exact(h, aligned, size)
  {
    AlignWordMeaning(h.bump, log);
    AllocBumpIs(h, size, Pow2(log), aligned);
    BumpExactIff(h, aligned, AlignWord(h.bump, log), size);
  }

  lemma WrapsIff(x: nat)
    ensures x % TWO_64 == x <==> x < TWO_64
  {
    if x < TWO_64 { SmallMod(x, TWO_64); }
  }

  /** A `Layout` that Rust lets callers make: its size, not zero, rounded up to its alignment, is below 2^63. */
  predicate ValidLayout(l: Layout) { 1 <= l.size && l.size + Align(l) <= TWO_63 }

  lemma HalfRange(k: nat)
    requires k + 2 == WORD
    ensures Pow2(k + 1) == TWO_63 && Pow2(k) == 0x4000_0000_0000_0000
  {
    WordRange();
    assert Pow2(k + 2) == 2 * Pow2(k + 1) && Pow2(k + 1) == 2 * Pow2(k);
  }

  lemma ValidLog(l: Layout, k: nat)
    requires ValidLayout(l) && k + 2 == WORD
    ensures l.log <= k && Align(l) <= 0x4000_0000_0000_0000
  {
    HalfRange(k);
    if l.log > k { Pow2Monotone(k + 1, l.log); } else { Pow2Monotone(l.log, k); }
  }

  /** On a heap smaller than 2^62 bytes that ends by 2^64, `alloc` of a layout that Rust allows never wraps. */
  lemma AllocNeverWraps(h: Heap, l: Layout)
    requires WellShaped(h) && ValidLayout(l) && h.start < TWO_64
    requires h.bump <= h.size < 0x4000_0000_0000_0000 && h.start + h.size <= TWO_64
    ensures l.log < WORD && AllocWord(h, l) == Alloc(h, l)
  {
    ValidLog(l, WORD - 2);
    var aligned := AlignUp(h.bump, Align(l));
    AlignUpBounds(h.bump, Align(l));
    AllocBumpExactIff(h, AlignedSize(l), l.log, aligned);
    assert AlignedSize(l) > 0;
  }
}
