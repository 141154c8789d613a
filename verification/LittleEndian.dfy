/** Byte strings read as little-endian numbers. */
module LittleEndian {
  import opened Kernel
  import opened Bits

  function Value(b: seq<Byte>): nat { if b == [] then 0 else b[0] + 256 * Value(b[1..]) }

  /** The low `w` bytes of `x`. */
  function Digits(x: nat, w: nat): (r: seq<Byte>)
    ensures |r| == w
    decreases w, x
  {
    if w == 0 then [] else [x % 256] + Digits(x / 256, w - 1)
  }

  lemma {:induction false} ValueBound(b: seq<Byte>)
    ensures Value(b) < Pow2(8 * |b|)
  {
    if b != [] {
      ValueBound(b[1..]);
      Pow2Plus8(8 * |b[1..]|);
    }
  }

  lemma Carry(x: nat, rest: nat, p: nat, v: nat, q: nat)
    requires q == 256 * p
    ensures x + 256 * (rest + p * v) == x + 256 * rest + q * v
  {
    assert q * v == 256 * (p * v);
  }

  lemma {:induction false} ValueAppend(a: seq<Byte>, b: seq<Byte>)
    ensures Value(a + b) == Value(a) + Pow2(8 * |a|) * Value(b)
  {
    if a == [] {
      assert a + b == b;
    } else {
      ValueAppend(a[1..], b);
      assert (a + b)[1..] == a[1..] + b;
      Pow2Plus8(8 * |a[1..]|);
      Carry(a[0], Value(a[1..]), Pow2(8 * |a[1..]|), Value(b), Pow2(8 * |a|));
    }
  }

  /** Digits are read back as the number, when it fits. */
  lemma {:induction false} ValueOfDigits(x: nat, w: nat)
    requires x < Pow2(8 * w)
    ensures Value(Digits(x, w)) == x
    decreases w
  {
    if w > 0 {
      var v := w - 1;
      Pow2Plus8(8 * v);
      DivBelow(x, 256, Pow2(8 * v));
      ValueOfDigits(x / 256, v);
      assert Digits(x, w)[1..] == Digits(x / 256, v);
    }
  }

  /** Bytes are the digits of their value. */
  lemma {:induction false} DigitsOfValue(b: seq<Byte>)
    ensures Digits(Value(b), |b|) == b
  {
    if b != [] {
      DigitsOfValue(b[1..]);
      DivUnique(Value(b), 256, Value(b[1..]), b[0]);
    }
  }

  lemma ValueOfOne(x: Byte)
    ensures Value([x]) == x
  {
    assert [x][1..] == [];
  }

  lemma SliceOfSlice(data: seq<Byte>, at: nat, m: nat, i: nat, n: nat)
    requires at + m <= |data| && i + n <= m
    ensures data[at..at + m][i..i + n] == data[at + i..at + i + n]
  {
    var a, b := data[at..at + m][i..i + n], data[at + i..at + i + n];
    forall k | 0 <= k < n ensures a[k] == b[k] { assert a[k] == data[at..at + m][i + k]; }
  }
}
