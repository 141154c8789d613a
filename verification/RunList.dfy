/**
 The arithmetic of `parse_run_list` of src/fs/ntfs.rs.  A word is a number below 2^64; as in a release build the amount
 of a shift is taken modulo 64.
 */
module RunList {
  import opened Kernel
  import opened Bits
  import opened LittleEndian

  /** `x` shifted left by `n` places, dropping what leaves the word. */
  function ShlBits(x: nat, n: nat): (r: nat)
    ensures r < TWO_64
    decreases n, x
  {
    if n == 0 then x % TWO_64 else 2 * ShlBits(x, n - 1) % TWO_64
  }

  /** `x << n` */
  function Shl64(x: nat, n: nat): (r: nat)
    ensures r < TWO_64
  {
    ShlBits(x, n % WORD)
  }

  /** A word read as an `i64`. */
  function Signed(x: nat): int { if x < TWO_63 then x else x - TWO_64 }

  // ---------------------------------------------------------------- shifts

  lemma {:induction false} ShlIsMul(x: nat, n: nat)
    requires x * Pow2(n) < TWO_64
    ensures ShlBits(x, n) == x * Pow2(n)
    decreases n
  {
    if n > 0 {
      assert x * Pow2(n) == 2 * (x * Pow2(n - 1));
      ShlIsMul(x, n - 1);
    }
  }

  lemma ByteFits(x: Byte, n: nat)
    requires n + 8 <= WORD
    ensures x * Pow2(n) < TWO_64
  {
    WordRange();
    Pow2Plus8(n);
    Pow2Monotone(n + 8, WORD);
    MulStep(x, 256, Pow2(n));
  }

  /** A byte shifted to one of the eight places of a word. */
  lemma ShiftFits(x: Byte, i: nat, n: nat)
    requires i < 8 && n == 8 * i
    ensures Shl64(x, n) == x * Pow2(n)
  {
    ByteFits(x, n);
    SmallMod(n, WORD);
    ShlIsMul(x, n);
  }

  lemma ShiftWraps(x: nat, i: nat)
    ensures Shl64(x, 8 * (i + 8)) == Shl64(x, 8 * i)
  {
    assert (8 * (i + 8)) % WORD == (8 * i) % WORD;
  }

  lemma {:induction false} OnesShifted(n: nat)
    requires n <= WORD
    ensures Pow2(n) <= TWO_64 && ShlBits(TWO_64 - 1, n) == (TWO_64 - Pow2(n)) % TWO_64
    decreases n
  {
    WordRange();
    Pow2Monotone(n, WORD);
    if n > 0 {
      OnesShifted(n - 1);
      Doubled(Pow2(n - 1));
    }
  }

  lemma Doubled(p: nat)
    requires 0 < p && 2 * p <= TWO_64
    ensures 2 * ((TWO_64 - p) % TWO_64) % TWO_64 == (TWO_64 - 2 * p) % TWO_64
  {
    SmallMod(TWO_64 - p, TWO_64);
    SmallMod(TWO_64 - 2 * p, TWO_64);
    DivUnique(2 * (TWO_64 - p), TWO_64, 1, TWO_64 - 2 * p);
  }

  /** The mask of ones from bit `n` on. */
  lemma FillMask(n: nat)
    requires n < WORD
    ensures Pow2(n) <= TWO_64 && Shl64(TWO_64 - 1, n) == TWO_64 - Pow2(n)
  {
    OnesShifted(n);
    SmallMod(n, WORD);
    SmallMod(TWO_64 - Pow2(n), TWO_64);
  }

  // ---------------------------------------------------------------- the loops over bytes

  /** The word after `n` rounds of `word |= byte << (i * 8)` */
  function Gather(b: seq<Byte>, n: nat): (r: nat)
    requires n <= |b|
    ensures r < TWO_64
    decreases n
  {
    if n == 0 then 0
    else
      WordRange();
      OrBound(Gather(b, n - 1), Shl64(b[n - 1], 8 * (n - 1)), WORD);
      Or(Gather(b, n - 1), Shl64(b[n - 1], 8 * (n - 1)))
  }

  lemma PrefixStep(b: seq<Byte>, n: nat)
    requires n < |b|
    ensures Value(b[..n + 1]) == Value(b[..n]) + b[n] * Pow2(8 * n)
  {
    assert b[..n + 1] == b[..n] + [b[n]];
    ValueAppend(b[..n], [b[n]]);
    ValueOfOne(b[n]);
  }

  lemma PlaceByte(x: nat, y: Byte, m: nat, n: nat)
    requires m < 8 && n == 8 * m && x < Pow2(n)
    ensures Or(x, Shl64(y, n)) == x + y * Pow2(n)
  {
    ShiftFits(y, m, n);
    OrDisjoint(y, x, n);
    OrCommutes(y * Pow2(n), x);
  }

  /** Up to eight bytes are gathered to their little-endian value. */
  lemma {:induction false} GatherIsValue(b: seq<Byte>, n: nat)
    requires n <= |b| && n <= 8
    ensures Gather(b, n) == Value(b[..n])
    decreases n
  {
    if n > 0 {
      var m := n - 1;
      GatherIsValue(b, m);
      ValueBound(b[..m]);
      PlaceByte(Gather(b, m), b[m], m, 8 * m);
      PrefixStep(b, m);
    }
  }

  /** The bytes after the eighth are gathered over the first ones. */
  lemma {:induction false} GatherWraps(b: seq<Byte>, n: nat)
    requires 8 <= n <= |b|
    ensures Gather(b, n) == Or(Gather(b, 8), Gather(b[8..], n - 8))
    decreases n
  {
    if n > 8 {
      var m, k := n - 1, n - 9;
      GatherWraps(b, m);
      ShiftWraps(b[m], k);
      assert b[8..][k] == b[m];
      OrAssociates(Gather(b, 8), Gather(b[8..], k), Shl64(b[m], 8 * m));
    }
  }

  // ---------------------------------------------------------------- lengths

  function DecodeLength(b: seq<Byte>): nat { Gather(b, |b|) }

  lemma ValueSplits(b: seq<Byte>)
    requires 8 <= |b|
    ensures Value(b) == Value(b[..8]) + TWO_64 * Value(b[8..])
    ensures Value(b[..8]) < TWO_64
  {
    WordRange();
    assert b == b[..8] + b[8..];
    ValueAppend(b[..8], b[8..]);
    ValueBound(b[..8]);
  }

  lemma WideGather(b: seq<Byte>)
    requires 8 <= |b| < 16
    ensures Gather(b, |b|) == Or(Value(b[..8]), Value(b[8..]))
  {
    GatherWraps(b, |b|);
    GatherIsValue(b, 8);
    assert b[8..][..|b| - 8] == b[8..];
    GatherIsValue(b[8..], |b| - 8);
  }

  /** The gathered word is the little-endian value of the bytes if and only if that value fits in a word. */
  lemma LengthCorrectIff(b: seq<Byte>)
    requires |b| < 16
    ensures DecodeLength(b) == Value(b) <==> Value(b) < TWO_64
  {
    if |b| <= 8 {
      assert b[..|b|] == b;
      GatherIsValue(b, |b|);
    } else {
      ValueSplits(b);
      WideGather(b);
    }
  }

  // ---------------------------------------------------------------- offsets

  /** The word before it is read as an `i64`. */
  function OffsetWord(b: seq<Byte>): (r: nat)
    requires b != []
    ensures r < TWO_64
  {
    WordRange();
    OrBound(Gather(b, |b|), Shl64(TWO_64 - 1, 8 * |b|), WORD);
    if And(b[|b| - 1], 0x80) != 0 then Or(Gather(b, |b|), Shl64(TWO_64 - 1, 8 * |b|)) else Gather(b, |b|)
  }

  function DecodeOffset(b: seq<Byte>): int
    requires b != []
  {
    Signed(OffsetWord(b))
  }

  /** The number that bytes stand for in two's complement. */
  function TwosComplement(b: seq<Byte>): int
    requires b != []
  {
    if b[|b| - 1] < 128 then Value(b) else Value(b) - Pow2(8 * |b|)
  }

  lemma TopBit(x: Byte)
    ensures And(x, 0x80) != 0 <==> x >= 128
  {
    AndFieldMask(x, 7, 1);
    ShrIsDiv(x, 7);
    assert Pow2(7) == 128 && Pow2(1) == 2;
    assert Shl(1, 7) == 0x80;
  }

  lemma OrFill(x: nat, n: nat, d: nat)
    requires x < Pow2(n)
    ensures Pow2(d + n) >= Pow2(n) && Or(x, Pow2(d + n) - Pow2(n)) == Pow2(d + n) - Pow2(n) + x
  {
    var q, p := Pow2(d), Pow2(n);
    Pow2Add(d, n);
    Factor(q, p);
    OrDisjoint(q - 1, x, n);
    OrCommutes(x, (q - 1) * p);
  }

  lemma Factor(q: nat, p: nat)
    requires q > 0
    ensures (q - 1) * p == q * p - p >= 0
  {
  }

  /** The mask above the bits of a word fills it up. */
  lemma FillAbove(x: nat, n: nat)
    requires n < WORD && x < Pow2(n)
    ensures Or(x, Shl64(TWO_64 - 1, n)) == TWO_64 - Pow2(n) + x
  {
    WordRange();
    FillMask(n);
    OrFill(x, n, WORD - n);
  }

  /** Offsets of up to seven bytes are read as they should be. */
  lemma NarrowOffset(b: seq<Byte>)
    requires 1 <= |b| <= 7
    ensures DecodeOffset(b) == TwosComplement(b)
  {
    var n := 8 * |b|;
    assert b[..|b|] == b;
    GatherIsValue(b, |b|);
    ValueBound(b);
    TopBit(b[|b| - 1]);
    NarrowRange(n);
    if b[|b| - 1] >= 128 { FillAbove(Value(b), n); }
  }

  lemma NarrowRange(n: nat)
    requires n <= 56
    ensures Pow2(n) <= TWO_63
  {
    WordRange();
    Pow2Monotone(n, 56);
    Pow2Plus8(56);
  }

  /** A mask that fills up one part of a word fills it up with more bits set. */
  lemma FillMore(low: nat, high: nat, mask: nat, w: nat, ones: nat)
    requires low <= ones == Pow2(w) - 1 && Or(high, mask) == ones
    ensures Or(Or(low, high), mask) == ones
  {
    OrAssociates(low, high, mask);
    OrOnes(low, w, ones);
  }

  lemma OrOnes(low: nat, w: nat, ones: nat)
    requires low <= ones == Pow2(w) - 1
    ensures Or(low, ones) == ones
  {
    OrAtLeast(low, ones);
    OrBound(low, ones, w);
  }

  lemma FillOnes(low: nat, n: nat)
    requires low < TWO_64 && n < WORD
    ensures Or(Or(low, Pow2(n) - 1), Shl64(TWO_64 - 1, n)) == TWO_64 - 1
  {
    WordRange();
    FillAbove(Pow2(n) - 1, n);
    FillMore(low, Pow2(n) - 1, Shl64(TWO_64 - 1, n), WORD, TWO_64 - 1);
  }

  lemma WideMask(b: seq<Byte>, k: nat)
    requires |b| == 8 + k
    ensures Shl64(TWO_64 - 1, 8 * |b|) == Shl64(TWO_64 - 1, 8 * k)
    ensures Pow2(8 * |b|) == TWO_64 * Pow2(8 * k)
  {
    WordRange();
    ShiftWraps(TWO_64 - 1, k);
    Pow2Add(WORD, 8 * k);
  }

  lemma NegativeWord(b: seq<Byte>, k: nat)
    requires |b| == 8 + k && k < 8 && b[|b| - 1] >= 128
    ensures OffsetWord(b) == Or(Or(Value(b[..8]), Value(b[8..])), Shl64(TWO_64 - 1, 8 * k))
  {
    TopBit(b[|b| - 1]);
    WideGather(b);
    WideMask(b, k);
  }

  lemma FilledWord(low: nat, high: nat, n: nat, word: nat)
    requires low < TWO_64 && n < WORD && high == Pow2(n) - 1 && word == Or(Or(low, high), Shl64(TWO_64 - 1, n))
    ensures word == TWO_64 - 1
  {
    FillOnes(low, n);
  }

  lemma WideWord(b: seq<Byte>, k: nat)
    requires |b| == 8 + k && k < 8 && b[|b| - 1] >= 128 && Value(b[8..]) == Pow2(8 * k) - 1
    ensures OffsetWord(b) == TWO_64 - 1
  {
    NegativeWord(b, k);
    ValueSplits(b);
    FilledWord(Value(b[..8]), Value(b[8..]), 8 * k, OffsetWord(b));
  }

  /** How far below zero eight bytes or more can reach. */
  lemma WideValueNegative(b: seq<Byte>, k: nat)
    requires |b| == 8 + k
    ensures Value(b) < Pow2(8 * |b|)
    ensures Value(b[8..]) != Pow2(8 * k) - 1 ==> Value(b) + TWO_64 < Pow2(8 * |b|)
  {
    ValueSplits(b);
    ValueBound(b[8..]);
    WideMask(b, k);
  }

  lemma WideOffsetNegative(b: seq<Byte>)
    requires 8 <= |b| < 16 && b[|b| - 1] >= 128
    ensures TwosComplement(b) < 0 && (DecodeOffset(b) == TwosComplement(b) <==> TwosComplement(b) == -1)
  {
    var k := |b| - 8;
    WideValueNegative(b, k);
    if Value(b[8..]) == Pow2(8 * k) - 1 { WideWord(b, k); }
  }

  lemma WideOffsetPositive(b: seq<Byte>)
    requires 8 <= |b| < 16 && b[|b| - 1] < 128
    ensures DecodeOffset(b) == TwosComplement(b) <==> TwosComplement(b) < TWO_63
  {
    ValueSplits(b);
    WideGather(b);
    TopBit(b[|b| - 1]);
  }

  /** An offset is read as the two's complement number its bytes stand for if and only if it has at most seven bytes,
      or the number is not negative and fits in an `i64`, or it is -1. */
  lemma OffsetCorrectIff(b: seq<Byte>)
    requires 1 <= |b| < 16
    ensures var v := TwosComplement(b);
      DecodeOffset(b) == v <==> |b| <= 7 || 0 <= v < TWO_63 || v == -1
  {
    if |b| <= 7 {
      NarrowOffset(b);
    } else if b[|b| - 1] < 128 {
      WideOffsetPositive(b);
    } else {
      WideOffsetNegative(b);
    }
  }
}
