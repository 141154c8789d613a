/** A walk over items that stand one after the other: each says how long it is, and so where the next one starts. */
module Tiling {
  import opened Kernel

  /** What is found at an offset. */
  datatype Look<A> = Stop | Fault | Item(size: nat, value: A)

  /** Every item takes some room and ends by `limit`. */
  ghost predicate Bounded<A(!new)>(look: nat -> Look<A>, limit: nat) {
    forall at: nat :: look(at).Item? ==> 0 < look(at).size && at + look(at).size <= limit
  }

  /** The values of the items from `at` on, or none at all if the walk comes to a fault. */
  ghost function Walk<A(!new)>(look: nat -> Look<A>, limit: nat, at: nat): Option<seq<A>>
    requires Bounded(look, limit)
    decreases limit - at
  {
    match look(at)
    case Stop => Some([])
    case Fault => None
    case Item(size, value) =>
      match Walk(look, limit, at + size)
      case None => None
      case Some(rest) => Some([value] + rest)
  }

  /** The offsets that the walk comes to. */
  ghost function Starts<A(!new)>(look: nat -> Look<A>, limit: nat, at: nat): seq<nat>
    requires Bounded(look, limit)
    decreases limit - at
  {
    [at] + if look(at).Item? then Starts(look, limit, at + look(at).size) else []
  }

  /** The walk fails if and only if it comes to a fault. */
  lemma {:induction false} WalkFailsIff<A(!new)>(look: nat -> Look<A>, limit: nat, at: nat)
    requires Bounded(look, limit)
    ensures Walk(look, limit, at).None? <==> exists s | s in Starts(look, limit, at) :: look(s).Fault?
    decreases limit - at
  {
    match look(at) {
      case Stop =>
      case Fault => assert at in Starts(look, limit, at);
      case Item(size, _) =>
        WalkFailsIff(look, limit, at + size);
        assert forall s :: s in Starts(look, limit, at) <==> s == at || s in Starts(look, limit, at + size);
    }
  }

  // ---------------------------------------------------------------- items that know their size

  /** Every value tells the size of its item. */
  ghost predicate Sized<A(!new)>(look: nat -> Look<A>, size: A -> nat) {
    forall at: nat :: look(at).Item? ==> look(at).size == size(look(at).value)
  }

  /** The room that the first `k` values take. */
  function Span<A>(values: seq<A>, size: A -> nat, k: nat): nat
    requires k <= |values|
  {
    if k == 0 then 0 else Span(values, size, k - 1) + size(values[k - 1])
  }

  /** What is to be found where the first `k` values end. */
  function ItemOrStop<A>(values: seq<A>, size: A -> nat, k: nat): Look<A>
    requires k <= |values|
  {
    if k < |values| then Item(size(values[k]), values[k]) else Stop
  }

  lemma {:induction false} SpanCons<A>(values: seq<A>, size: A -> nat, k: nat)
    requires k < |values|
    ensures Span(values, size, k + 1) == size(values[0]) + Span(values[1..], size, k)
    decreases k
  {
    if k > 0 { SpanCons(values, size, k - 1); }
  }

  /** Value `k` is found where the room of those before it ends, and the stop where the last one ends. */
  lemma {:induction false} FoundWhere<A(!new)>(
    look: nat -> Look<A>, limit: nat, size: A -> nat, at: nat, values: seq<A>, k: nat)
    requires Bounded(look, limit) && Sized(look, size) && Walk(look, limit, at) == Some(values) && k <= |values|
    ensures look(at + Span(values, size, k)) == ItemOrStop(values, size, k)
    decreases k
  {
    if k > 0 {
      SpanCons(values, size, k - 1);
      FoundWhere(look, limit, size, at + look(at).size, values[1..], k - 1);
    }
  }

  /** Values that stand one after the other from `at` on, with a stop after the last. */
  ghost predicate Laid<A(!new)>(look: nat -> Look<A>, size: A -> nat, at: nat, values: seq<A>) {
    forall k | 0 <= k <= |values| :: look(at + Span(values, size, k)) == ItemOrStop(values, size, k)
  }

  lemma {:induction false} LaidFound<A(!new)>(
    look: nat -> Look<A>, limit: nat, size: A -> nat, at: nat, values: seq<A>, k: nat)
    requires Bounded(look, limit) && Laid(look, size, at, values) && k <= |values|
    ensures Walk(look, limit, at + Span(values, size, k)) == Some(values[k..])
    decreases |values| - k
  {
    var s := at + Span(values, size, k);
    assert look(s) == ItemOrStop(values, size, k);
    if k < |values| {
      LaidFound(look, limit, size, at, values, k + 1);
      assert [values[k]] + values[k + 1..] == values[k..];
    }
  }

  /** The walk finds exactly the values that stand one after the other. */
  lemma FoundIffLaid<A(!new)>(look: nat -> Look<A>, limit: nat, size: A -> nat, at: nat, values: seq<A>)
    requires Bounded(look, limit) && Sized(look, size)
    ensures Walk(look, limit, at) == Some(values) <==> Laid(look, size, at, values)
  {
    if Walk(look, limit, at) == Some(values) {
      forall k | 0 <= k <= |values| ensures look(at + Span(values, size, k)) == ItemOrStop(values, size, k) {
        FoundWhere(look, limit, size, at, values, k);
      }
    }
    if Laid(look, size, at, values) {
      LaidFound(look, limit, size, at, values, 0);
      assert values[0..] == values;
    }
  }
}
