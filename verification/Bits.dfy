/**
 Bitwise operations of the source's unsigned integers, on naturals: `&`, `|`, `!`, `<<`, `>>` and the value of
 single bits.  The operations are defined bit by bit; the lemmas are the algebra that the other modules use in place
 of the definitions.
 */
module Bits {

  function Pow2(n: nat): (r: nat)
    ensures r > 0
  {
    if n == 0 then 1 else 2 * Pow2(n - 1)
  }

  function BitValue(b: bool): nat { if b then 1 else 0 }

  /** Bit `i` of `x`. */
  predicate Bit(x: nat, i: nat)
    decreases x, i
  {
    if i == 0 then x % 2 == 1 else Bit(x / 2, i - 1)
  }

  /** `x & y` */
  function And(x: nat, y: nat): nat {
    if x == 0 || y == 0 then 0 else BitValue(x % 2 == 1 && y % 2 == 1) + 2 * And(x / 2, y / 2)
  }

  /** `x | y` */
  function Or(x: nat, y: nat): nat {
    if x == 0 then y else if y == 0 then x else BitValue(x % 2 == 1 || y % 2 == 1) + 2 * Or(x / 2, y / 2)
  }

  /** `!x` in an unsigned type of `w` bits */
  function Not(x: nat, w: nat): nat
    requires x < Pow2(w)
  {
    Pow2(w) - 1 - x
  }

  /** `x << n` without the cut at the type's width */
  function Shl(x: nat, n: nat): nat { x * Pow2(n) }

  /** `x >> n` */
  function Shr(x: nat, n: nat): nat
    decreases x, n
  {
    if n == 0 then x else Shr(x / 2, n - 1)
  }

  // ---------------------------------------------------------------- powers of two

  lemma {:induction false} Pow2Add(a: nat, b: nat)
    ensures Pow2(a + b) == Pow2(a) * Pow2(b)
  {
    if a > 0 {
      Pow2Add(a - 1, b);
      assert Pow2(a + b) == 2 * (Pow2(a - 1) * Pow2(b));
    }
  }

  lemma Pow2Plus8(n: nat)
    ensures Pow2(n + 8) == 256 * Pow2(n)
  {
    assert Pow2(8) == 256;
    Pow2Add(8, n);
  }

  lemma {:induction false} Pow2Monotone(a: nat, b: nat)
    requires a <= b
    ensures Pow2(a) <= Pow2(b)
    decreases b
  {
    if a < b { Pow2Monotone(a, b - 1); }
  }

  // ---------------------------------------------------------------- single bits

  lemma {:induction false} BitAnd(x: nat, y: nat, i: nat)
    ensures Bit(And(x, y), i) <==> Bit(x, i) && Bit(y, i)
    decreases i
  {
    if x == 0 || y == 0 {
      BitZero(i);
    } else if i > 0 {
      BitAnd(x / 2, y / 2, i - 1);
    }
  }

  lemma {:induction false} BitOr(x: nat, y: nat, i: nat)
    ensures Bit(Or(x, y), i) <==> Bit(x, i) || Bit(y, i)
    decreases i
  {
    if x == 0 || y == 0 {
      BitZero(i);
    } else if i > 0 {
      BitOr(x / 2, y / 2, i - 1);
    }
  }

  lemma {:induction false} BitZero(i: nat)
    ensures !Bit(0, i)
  {
    if i > 0 { BitZero(i - 1); }
  }

  /** A number below 2^w has no bit at or above `w`. */
  lemma {:induction false} BitBound(x: nat, w: nat, i: nat)
    requires x < Pow2(w) && w <= i
    ensures !Bit(x, i)
    decreases i
  {
    if w == 0 {
      BitZero(i);
    } else {
      BitBound(x / 2, w - 1, i - 1);
    }
  }

  lemma {:induction false} BitNot(x: nat, w: nat, i: nat)
    requires x < Pow2(w) && i < w
    ensures Bit(Not(x, w), i) <==> !Bit(x, i)
    decreases i
  {
    if i > 0 {
      BitNot(x / 2, w - 1, i - 1);
      assert Not(x, w) / 2 == Not(x / 2, w - 1);
    }
  }

  /** The bits of `1 << n`. */
  lemma {:induction false} BitPow2(n: nat, i: nat)
    ensures Bit(Pow2(n), i) <==> i == n
    decreases i
  {
    if n == 0 {
      if i > 0 { BitZero(i - 1); }
    } else if i > 0 {
      BitPow2(n - 1, i - 1);
    }
  }

  /** Bit `i` is the lowest bit of `x >> i`. */
  lemma {:induction false} BitShr(x: nat, i: nat)
    ensures Bit(x, i) <==> Shr(x, i) % 2 == 1
    decreases i
  {
    if i > 0 { BitShr(x / 2, i - 1); }
  }

  lemma {:induction false} ShrShr(x: nat, a: nat, b: nat)
    ensures Shr(x, a + b) == Shr(Shr(x, a), b)
    decreases a
  {
    if a > 0 { ShrShr(x / 2, a - 1, b); }
  }

  /** Shifting right by `n` divides by 2^n. */
  lemma {:induction false} ShrIsDiv(x: nat, n: nat)
    ensures Shr(x, n) == x / Pow2(n)
    decreases n
  {
    if n > 0 {
      ShrIsDiv(x / 2, n - 1);
      HalfDiv(x, Pow2(n - 1));
    }
  }

  // ---------------------------------------------------------------- division

  lemma MulStep(q: nat, k: nat, a: nat)
    requires q < k
    ensures q * a + a <= k * a
  {
    var d := k - q - 1;
    assert k * a == (q + 1 + d) * a == q * a + a + d * a;
  }

  lemma DivUnique(x: nat, a: nat, q: nat, r: nat)
    requires a > 0 && r < a && x == q * a + r
    ensures x / a == q && x % a == r
  {
    var k := x / a;
    assert k * a == a * k;
    if k < q {
      MulStep(k, q, a);
    } else if k > q {
      MulStep(q, k, a);
    }
  }

  lemma DivMultiple(r: nat, a: nat, k: nat)
    requires a > 0
    ensures (k * a + r) / a == k + r / a
    ensures (k * a + r) % a == r % a
  {
    assert r == (r / a) * a + r % a;
    assert k * a + r == (k + r / a) * a + r % a;
    DivUnique(k * a + r, a, k + r / a, r % a);
  }

  lemma HalfDiv(x: nat, b: nat)
    requires b > 0
    ensures x / 2 / b == x / (2 * b)
  {
    var q := x / 2 / b;
    var r := x / 2 % b;
    assert x / 2 == q * b + r;
    DivUnique(x, 2 * b, q, 2 * r + x % 2);
  }

  /** Numbers with the same bits are equal. */
  lemma {:induction false} SameBits(x: nat, y: nat)
    requires forall i: nat :: Bit(x, i) <==> Bit(y, i)
    ensures x == y
    decreases x + y
  {
    if x > 0 || y > 0 {
      assert Bit(x, 0) <==> Bit(y, 0);
      forall i: nat
        ensures Bit(x / 2, i) <==> Bit(y / 2, i)
      {
        assert Bit(x, i + 1) <==> Bit(y, i + 1);
      }
      SameBits(x / 2, y / 2);
    }
  }

  // ---------------------------------------------------------------- algebra of & and |

  lemma AndOverOr(x: nat, y: nat, z: nat)
    ensures And(Or(x, y), z) == Or(And(x, z), And(y, z))
  {
    forall i: nat
      ensures Bit(And(Or(x, y), z), i) <==> Bit(Or(And(x, z), And(y, z)), i)
    {
      BitOr(x, y, i);
      BitAnd(x, z, i);
      BitAnd(y, z, i);
      BitAnd(Or(x, y), z, i);
      BitOr(And(x, z), And(y, z), i);
    }
    SameBits(And(Or(x, y), z), Or(And(x, z), And(y, z)));
  }

  lemma {:induction false} OrCommutes(x: nat, y: nat)
    ensures Or(x, y) == Or(y, x)
  {
    if x > 0 && y > 0 { OrCommutes(x / 2, y / 2); }
  }

  lemma OrAssociates(x: nat, y: nat, z: nat)
    ensures Or(Or(x, y), z) == Or(x, Or(y, z))
  {
    forall i: nat
      ensures Bit(Or(Or(x, y), z), i) <==> Bit(Or(x, Or(y, z)), i)
    {
      BitOr(x, y, i);
      BitOr(y, z, i);
      BitOr(Or(x, y), z, i);
      BitOr(x, Or(y, z), i);
    }
    SameBits(Or(Or(x, y), z), Or(x, Or(y, z)));
  }

  lemma {:induction false} OrAtLeast(x: nat, y: nat)
    ensures Or(x, y) >= x && Or(x, y) >= y
  {
    if x > 0 && y > 0 { OrAtLeast(x / 2, y / 2); }
  }

  lemma {:induction false} OrBound(x: nat, y: nat, w: nat)
    requires x < Pow2(w) && y < Pow2(w)
    ensures Or(x, y) < Pow2(w)
    decreases w
  {
    if x > 0 && y > 0 { OrBound(x / 2, y / 2, w - 1); }
  }

  lemma {:induction false} AndAtMost(x: nat, y: nat)
    ensures And(x, y) <= x
  {
    if x > 0 && y > 0 { AndAtMost(x / 2, y / 2); }
  }

  lemma AndOddMask(x: nat, m: nat)
    requires m > 0
    ensures And(x, 2 * m - 1) == x % 2 + 2 * And(x / 2, m - 1)
  {
    assert (2 * m - 1) / 2 == m - 1 && (2 * m - 1) % 2 == 1;
  }

  lemma ModHalf(x: nat, m: nat)
    requires m > 0
    ensures x % (2 * m) == x % 2 + 2 * (x / 2 % m)
  {
    var q := x / 2 / m;
    var r := x / 2 % m;
    assert x / 2 == q * m + r;
    assert x == q * (2 * m) + (x % 2 + 2 * r);
    DivUnique(x, 2 * m, q, x % 2 + 2 * r);
  }

  lemma LowMaskStep(x: nat, m: nat, n: nat)
    requires m > 0 && n == 2 * m && And(x / 2, m - 1) == x / 2 % m
    ensures And(x, n - 1) == x % n
  {
    AndOddMask(x, m);
    ModHalf(x, m);
  }

  /** Masking with 2^k - 1 keeps the remainder by 2^k. */
  lemma {:induction false} AndLowMask(x: nat, k: nat)
    ensures And(x, Pow2(k) - 1) == x % Pow2(k)
    decreases k
  {
    if k > 0 {
      var m := Pow2(k - 1);
      AndLowMask(x / 2, k - 1);
      LowMaskStep(x, m, Pow2(k));
    }
  }

  /** Or of a multiple of 2^k and a number below 2^k is their sum. */
  lemma {:induction false} OrDisjoint(x: nat, y: nat, k: nat)
    requires y < Pow2(k)
    ensures Or(x * Pow2(k), y) == x * Pow2(k) + y
    decreases k
  {
    if k > 0 && x > 0 && y > 0 {
      var m := x * Pow2(k - 1);
      assert x * Pow2(k) == 2 * m;
      assert m > 0;
      OrDisjoint(x, y / 2, k - 1);
    }
  }

  /** Masking with 2^k - 1 shifted left by `j` keeps the `k` bits from bit `j` in their place. */
  lemma {:induction false} AndFieldMask(x: nat, j: nat, k: nat)
    ensures And(x, Shl(Pow2(k) - 1, j)) == Shl(Shr(x, j) % Pow2(k), j)
    decreases j
  {
    if j == 0 {
      AndLowMask(x, k);
    } else {
      AndFieldMask(x / 2, j - 1, k);
      ShlStep(Pow2(k) - 1, j);
      ShlStep(Shr(x, j) % Pow2(k), j);
      AndEvenMask(x, Shl(Pow2(k) - 1, j - 1));
    }
  }

  lemma ShlStep(x: nat, j: nat)
    requires j > 0
    ensures Shl(x, j) == 2 * Shl(x, j - 1)
  {
  }

  lemma AndEvenMask(x: nat, m: nat)
    ensures And(x, 2 * m) == 2 * And(x / 2, m)
  {
    assert (2 * m) / 2 == m && (2 * m) % 2 == 0;
  }

  lemma MulMonotone(n: nat, q: nat, m: nat)
    requires n <= q
    ensures n * m <= q * m
  {
    if n < q { MulStep(n, q, m); }
  }

  lemma DivBelow(x: nat, m: nat, n: nat)
    requires m > 0 && x < n * m
    ensures x / m < n
  {
    var q := x / m;
    assert x == q * m + x % m;
    if q >= n { MulMonotone(n, q, m); }
  }

  lemma HighMaskShape(k: nat, d: nat)
    ensures Pow2(k) - 1 < Pow2(d + k)
    ensures Not(Pow2(k) - 1, d + k) == Shl(Pow2(d) - 1, k)
  {
    var m := Pow2(k);
    Pow2Add(d, k);
    MulMonotone(1, Pow2(d), m);
    assert (Pow2(d) - 1) * m == Pow2(d) * m - m;
  }

  /** Masking a `w`-bit number with `!(2^k - 1)` rounds it down to a multiple of 2^k. */
  lemma AndHighMask(x: nat, k: nat, w: nat)
    requires k <= w && x < Pow2(w)
    ensures Pow2(k) - 1 < Pow2(w)
    ensures And(x, Not(Pow2(k) - 1, w)) == x - x % Pow2(k)
  {
    var d := w - k;
    HighMaskShape(k, d);
    AndFieldMask(x, k, d);
    ShrIsDiv(x, k);
    Pow2Add(d, k);
    DivBelow(x, Pow2(k), Pow2(d));
    SmallMod(x / Pow2(k), Pow2(d));
    QuotientTimes(x, Pow2(k));
  }

  lemma SmallMod(q: nat, n: nat)
    requires q < n
    ensures q % n == q
  {
  }

  lemma QuotientTimes(x: nat, m: nat)
    requires m > 0
    ensures (x / m) * m == x - x % m
  {
  }

  // ---------------------------------------------------------------- machine words

  const WORD: nat := 64
  const TWO_63: nat := 0x8000_0000_0000_0000
  const TWO_64: nat := 0x1_0000_0000_0000_0000

  lemma WordRange()
    ensures Pow2(WORD) == TWO_64
  {
    HalfWord();
    Pow2Add(32, 32);
  }

  lemma HalfWord()
    ensures Pow2(32) == 0x1_0000_0000
  {
    Pow2Plus8(0);
    Pow2Plus8(8);
    Pow2Plus8(16);
    Pow2Plus8(24);
  }
}
