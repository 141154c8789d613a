/**
 A four-level radix tree kept in flat memory, the shape of the page tables of src/memory/vmm.rs.

 A table at address `a` is the words `(a, i)` of memory.  The meaning of a word depends on the depth of
 the table that holds it: nothing, a pointer to a table one level down, or a leaf.  A word that was never written is
 `zero`, so memory is total.

 A table is named by the sequence of indices that leads to it from the root.  The module proves what
 writing one word does to every table and to every leaf, from one hypothesis: no table is reached by two paths.
 */
module Radix {
  import opened Kernel

  datatype Slot<+W> = Empty | Pointer(child: W) | Leaf

  type Memory<!W(==)> = map<(W, W), W>

  /** How words are read: `decode(e, d)` is the meaning of word `e` in a table at depth `d`. */
  datatype Format<!W> = Format(zero: W, decode: (W, nat) -> Slot<W>)

  const HEIGHT: nat := 3   // the depth of the last tables

  ghost predicate Proper<W(!new)>(f: Format<W>) {
    && (forall d: nat :: f.decode(f.zero, d) == Empty)
    && (forall e: W :: !f.decode(e, HEIGHT).Pointer?)
  }

  function Read<W(!new)>(f: Format<W>, mem: Memory<W>, t: W, i: W): W {
    if (t, i) in mem then mem[(t, i)] else f.zero
  }

  function Write<W(!new)>(mem: Memory<W>, t: W, i: W, e: W): Memory<W> {
    mem[(t, i) := e]
  }

  /** Memory with page `n` overwritten: the words of `page`, then zeroes. */
  function Fill<W(!new)>(mem: Memory<W>, n: W, page: map<W, W>): Memory<W> {
    (map k | k in mem && k.0 != n :: mem[k]) + (map i | i in page :: (n, i) := page[i])
  }

  lemma ReadFill<W(!new)>(f: Format<W>, mem: Memory<W>, n: W, page: map<W, W>, t: W, i: W)
    ensures Read(f, Fill(mem, n, page), t, i) ==
      if t != n then Read(f, mem, t, i) else WordOf(f, page, i)
  {
    var g: map<(W, W), W> := map j | j in page :: (n, j) := page[j];
    assert t == n && i in page ==> (n, i) in g;
  }

  function Child<W(!new)>(f: Format<W>, e: W, depth: nat): Option<W> {
    match f.decode(e, depth)
    case Pointer(a) => Some(a)
    case _ => None
  }

  /** The table that path `p` leads to, if every word on the way is a pointer. */
  function TableAt<W(!new)>(f: Format<W>, mem: Memory<W>, root: W, p: seq<W>): Option<W>
    decreases |p|
  {
    if p == [] then Some(root)
    else
      var k := |p| - 1;
      match TableAt(f, mem, root, p[..k])
      case None => None
      case Some(t) => Child(f, Read(f, mem, t, p[k]), k)
  }

  /** The leaf found by walking the indices `p[d..]` down from table `t`, with its depth. */
  function Find<W(!new)>(f: Format<W>, mem: Memory<W>, t: W, p: seq<W>, d: nat): Option<(W, nat)>
    requires |p| == HEIGHT + 1 && d <= HEIGHT
    decreases HEIGHT - d
  {
    var e := Read(f, mem, t, p[d]);
    match f.decode(e, d)
    case Empty => None
    case Leaf => Some((e, d))
    case Pointer(a) => if d < HEIGHT then Find(f, mem, a, p, d + 1) else None
  }

  /** No table is reached by two paths. */
  ghost predicate NoSharing<W(!new)>(f: Format<W>, mem: Memory<W>, root: W) {
    forall p, q | |p| <= HEIGHT && |q| <= HEIGHT && TableAt(f, mem, root, p).Some? ::
      TableAt(f, mem, root, p) == TableAt(f, mem, root, q) ==> p == q
  }

  /** Address `n` is not the address of a table of the tree. */
  ghost predicate Outside<W(!new)>(f: Format<W>, mem: Memory<W>, root: W, n: W) {
    forall p | |p| <= HEIGHT :: TableAt(f, mem, root, p) != Some(n)
  }

  // ---------------------------------------------------------------- paths

  lemma TableAtStep<W(!new)>(f: Format<W>, mem: Memory<W>, root: W, p: seq<W>, i: W)
    ensures TableAt(f, mem, root, p + [i]) ==
      match TableAt(f, mem, root, p)
      case None => None
      case Some(t) => Child(f, Read(f, mem, t, i), |p|)
  {
    assert (p + [i])[..|p|] == p;
  }

  /** A table below `p` is reached through the table at `p`. */
  lemma {:induction false} TableAtPrefix<W(!new)>(f: Format<W>, mem: Memory<W>, root: W, p: seq<W>, q: seq<W>)
    requires p <= q
    requires TableAt(f, mem, root, p).None?
    ensures TableAt(f, mem, root, q).None?
    decreases |q|
  {
    if p != q {
      TableAtPrefix(f, mem, root, p, q[..|q| - 1]);
    }
  }

  /** A walk may be resumed at any table on its way. */
  lemma {:induction false} FindFrom<W(!new)>(f: Format<W>, mem: Memory<W>, root: W, q: seq<W>, d: nat)
    requires |q| == HEIGHT + 1 && d <= HEIGHT
    requires TableAt(f, mem, root, q[..d]).Some?
    ensures Find(f, mem, root, q, 0) == Find(f, mem, TableAt(f, mem, root, q[..d]).value, q, d)
    decreases d
  {
    if d == 0 {
      assert q[..0] == [];
    } else {
      assert q[..d][..d - 1] == q[..d - 1];
      FindFrom(f, mem, root, q, d - 1);
    }
  }

  /** The walk of `q` gives the same leaf in two memories that hold the same tables and the same words on its way. */
  lemma {:induction false} SameFind<W(!new)>(f: Format<W>, m1: Memory<W>, m2: Memory<W>, root: W, q: seq<W>, d: nat)
    requires |q| == HEIGHT + 1 && d <= HEIGHT
    requires TableAt(f, m1, root, q[..d]).Some?
    requires forall k | d <= k <= HEIGHT :: TableAt(f, m1, root, q[..k]) == TableAt(f, m2, root, q[..k])
    requires forall k | d <= k <= HEIGHT && TableAt(f, m1, root, q[..k]).Some? ::
      var t := TableAt(f, m1, root, q[..k]).value; Read(f, m1, t, q[k]) == Read(f, m2, t, q[k])
    ensures Find(f, m1, TableAt(f, m1, root, q[..d]).value, q, d)
      == Find(f, m2, TableAt(f, m1, root, q[..d]).value, q, d)
    decreases HEIGHT - d
  {
    if d < HEIGHT {
      assert q[..d + 1][..d] == q[..d];
      if TableAt(f, m1, root, q[..d + 1]).Some? {
        SameFind(f, m1, m2, root, q, d + 1);
      }
    }
  }

  // ---------------------------------------------------------------- writing one word

  /** Writing word `i` of the table at `p` moves no table outside the subtree below `p + [i]`. */
  lemma {:induction false} WriteKeepsTable<W(!new)>(
    f: Format<W>, mem: Memory<W>, root: W, p: seq<W>, i: W, e: W, q: seq<W>)
    requires NoSharing(f, mem, root)
    requires |p| <= HEIGHT && |q| <= HEIGHT
    requires TableAt(f, mem, root, p).Some?
    requires !(p + [i] <= q)
    ensures TableAt(f, Write(mem, TableAt(f, mem, root, p).value, i, e), root, q) == TableAt(f, mem, root, q)
    decreases |q|
  {
    if q != [] {
      var k := |q| - 1;
      var r := q[..k];
      assert !(p + [i] <= r);
      WriteKeepsTable(f, mem, root, p, i, e, r);
      if TableAt(f, mem, root, r) == TableAt(f, mem, root, p) {
        assert r == p;
        assert q == p + [q[k]];
      }
    }
  }

  /** Same tables on the way and same words read there: the same leaf from the root. */
  lemma SameFindFromRoot<W(!new)>(f: Format<W>, m1: Memory<W>, m2: Memory<W>, root: W, q: seq<W>)
    requires |q| == HEIGHT + 1
    requires forall k | 0 <= k <= HEIGHT :: TableAt(f, m1, root, q[..k]) == TableAt(f, m2, root, q[..k])
    requires forall k | 0 <= k <= HEIGHT && TableAt(f, m1, root, q[..k]).Some? ::
      var t := TableAt(f, m1, root, q[..k]).value; Read(f, m1, t, q[k]) == Read(f, m2, t, q[k])
    ensures Find(f, m1, root, q, 0) == Find(f, m2, root, q, 0)
  {
    assert q[..0] == [];
    SameFind(f, m1, m2, root, q, 0);
  }

  /** Writing word `i` of the table at `p` changes no walk that does not pass through it. */
  lemma WriteElsewhere<W(!new)>(f: Format<W>, mem: Memory<W>, root: W, p: seq<W>, i: W, e: W, q: seq<W>)
    requires NoSharing(f, mem, root)
    requires |p| <= HEIGHT && TableAt(f, mem, root, p).Some?
    requires |q| == HEIGHT + 1 && !(p + [i] <= q)
    ensures Find(f, Write(mem, TableAt(f, mem, root, p).value, i, e), root, q, 0) == Find(f, mem, root, q, 0)
  {
    var t := TableAt(f, mem, root, p).value;
    var m := Write(mem, t, i, e);
    forall k | 0 <= k <= HEIGHT
      ensures TableAt(f, m, root, q[..k]) == TableAt(f, mem, root, q[..k])
      ensures TableAt(f, mem, root, q[..k]).Some? ==>
        var u := TableAt(f, mem, root, q[..k]).value; Read(f, mem, u, q[k]) == Read(f, m, u, q[k])
    {
      assert q[..k + 1] == q[..k] + [q[k]];
      assert p + [i] <= q[..k] ==> p + [i] <= q;
      WriteKeepsTable(f, mem, root, p, i, e, q[..k]);
      if TableAt(f, mem, root, q[..k]) == Some(t) {
        assert q[..k] == p;
        assert q[..k + 1] <= q;
      }
    }
    SameFindFromRoot(f, mem, m, root, q);
  }

  /** Writing a word of a last-level table changes one leaf and no table. */
  lemma LeafWrite<W(!new)>(f: Format<W>, mem: Memory<W>, root: W, p: seq<W>, i: W, e: W)
    requires Proper(f) && NoSharing(f, mem, root)
    requires |p| == HEIGHT && TableAt(f, mem, root, p).Some?
    ensures var m := Write(mem, TableAt(f, mem, root, p).value, i, e);
      && (forall q | |q| <= HEIGHT :: TableAt(f, m, root, q) == TableAt(f, mem, root, q))
      && NoSharing(f, m, root)
      && (forall q | |q| == HEIGHT + 1 && q != p + [i] :: Find(f, m, root, q, 0) == Find(f, mem, root, q, 0))
      && Find(f, m, root, p + [i], 0) == if f.decode(e, HEIGHT).Leaf? then Some((e, HEIGHT)) else None
  {
    var t := TableAt(f, mem, root, p).value;
    var m := Write(mem, t, i, e);
    forall q | |q| <= HEIGHT
      ensures TableAt(f, m, root, q) == TableAt(f, mem, root, q)
    {
      WriteKeepsTable(f, mem, root, p, i, e, q);
    }
    forall q | |q| == HEIGHT + 1 && q != p + [i]
      ensures Find(f, m, root, q, 0) == Find(f, mem, root, q, 0)
    {
      assert p + [i] <= q ==> q == p + [i];
      WriteElsewhere(f, mem, root, p, i, e, q);
    }
    assert (p + [i])[..HEIGHT] == p;
    FindFrom(f, m, root, p + [i], HEIGHT);
  }

  /** Writing a leaf over any word: the walks through it end there, and the tables are those that were not below it. */
  lemma LeafPut<W(!new)>(f: Format<W>, mem: Memory<W>, root: W, p: seq<W>, i: W, e: W, m: Memory<W>)
    requires NoSharing(f, mem, root) && |p| <= HEIGHT && TableAt(f, mem, root, p).Some?
    requires f.decode(e, |p|).Leaf? && m == Write(mem, TableAt(f, mem, root, p).value, i, e)
    ensures forall q | |q| <= HEIGHT ::
      TableAt(f, m, root, q) == if p + [i] <= q then None else TableAt(f, mem, root, q)
    ensures forall q | |q| == HEIGHT + 1 && p + [i] <= q :: Find(f, m, root, q, 0) == Some((e, |p|))
  {
    forall q | |q| <= HEIGHT
      ensures TableAt(f, m, root, q) == if p + [i] <= q then None else TableAt(f, mem, root, q)
    {
      WriteKeepsTable(f, mem, root, p, i, e, p);
      if p + [i] <= q {
        TableAtStep(f, m, root, p, i);
        TableAtPrefix(f, m, root, p + [i], q);
      } else {
        WriteKeepsTable(f, mem, root, p, i, e, q);
      }
    }
    forall q | |q| == HEIGHT + 1 && p + [i] <= q
      ensures Find(f, m, root, q, 0) == Some((e, |p|))
    {
      var d := |p|;
      assert q[..d + 1] == p + [i];
      assert q[..d] == q[..d + 1][..d] == p && q[d] == q[..d + 1][d];
      WriteKeepsTable(f, mem, root, p, i, e, p);
      FindFrom(f, m, root, q, d);
    }
  }

  /** Writing a pointer over a pointer to the same table moves no table. */
  lemma {:induction false} PointerPutTable<W(!new)>(
    f: Format<W>, mem: Memory<W>, root: W, p: seq<W>, i: W, e: W, m: Memory<W>, q: seq<W>)
    requires NoSharing(f, mem, root) && |p| <= HEIGHT && TableAt(f, mem, root, p).Some? && |q| <= HEIGHT
    requires m == Write(mem, TableAt(f, mem, root, p).value, i, e)
    requires f.decode(e, |p|) == f.decode(Read(f, mem, TableAt(f, mem, root, p).value, i), |p|)
    ensures TableAt(f, m, root, q) == TableAt(f, mem, root, q)
    decreases |q|
  {
    if q != [] {
      var k := |q| - 1;
      PointerPutTable(f, mem, root, p, i, e, m, q[..k]);
      if TableAt(f, mem, root, q[..k]) == TableAt(f, mem, root, p) { assert q[..k] == p; }
    }
  }

  /** ... and changes no walk. */
  lemma PointerPut<W(!new)>(
    f: Format<W>, mem: Memory<W>, root: W, p: seq<W>, i: W, e: W, m: Memory<W>, q: seq<W>)
    requires NoSharing(f, mem, root) && |p| < HEIGHT && TableAt(f, mem, root, p).Some? && |q| == HEIGHT + 1
    requires m == Write(mem, TableAt(f, mem, root, p).value, i, e) && f.decode(e, |p|).Pointer?
    requires f.decode(e, |p|) == f.decode(Read(f, mem, TableAt(f, mem, root, p).value, i), |p|)
    ensures Find(f, m, root, q, 0) == Find(f, mem, root, q, 0)
  {
    if p + [i] <= q {
      var d := |p| + 1;
      assert q[..d] == p + [i];
      TableAtStep(f, mem, root, p, i);
      forall k | d <= k <= HEIGHT
        ensures TableAt(f, mem, root, q[..k]) == TableAt(f, m, root, q[..k])
        ensures TableAt(f, mem, root, q[..k]).Some? ==>
          var u := TableAt(f, mem, root, q[..k]).value; Read(f, mem, u, q[k]) == Read(f, m, u, q[k])
      {
        PointerPutTable(f, mem, root, p, i, e, m, q[..k]);
        assert q[..k] != p;
      }
      SameFind(f, mem, m, root, q, d);
      FindFrom(f, mem, root, q, d);
      FindFrom(f, m, root, q, d);
    } else {
      WriteElsewhere(f, mem, root, p, i, e, q);
    }
  }

  /** The word at index `j` of a page whose remaining words are zero. */
  function WordOf<W>(f: Format<W>, page: map<W, W>, j: W): W {
    if j in page then page[j] else f.zero
  }

  function LeafOf<W>(f: Format<W>, e: W, d: nat): Option<(W, nat)> {
    if f.decode(e, d).Leaf? then Some((e, d)) else None
  }

  /** `m` is `mem` with page `n` overwritten by `page` and word `i` of the table at `p` set to `e`. Page `n` is outside
      the tree, the word was not a pointer, `e` points to `n`, and no word of `page` is a pointer one level down. */
  ghost predicate IsGraft<W(!new)>(
    f: Format<W>, mem: Memory<W>, root: W, p: seq<W>, i: W, n: W, page: map<W, W>, e: W, m: Memory<W>)
  {
    && Outside(f, mem, root, n)
    && |p| < HEIGHT
    && TableAt(f, mem, root, p).Some?
    && !f.decode(Read(f, mem, TableAt(f, mem, root, p).value, i), |p|).Pointer?
    && f.decode(e, |p|) == Pointer(n)
    && (forall j | j in page :: !f.decode(page[j], |p| + 1).Pointer?)
    && (forall u, j :: Read(f, m, u, j) ==
          if u == TableAt(f, mem, root, p).value && j == i then e
          else if u == n then WordOf(f, page, j)
          else Read(f, mem, u, j))
  }

  lemma FillWriteIsGraft<W(!new)>(f: Format<W>, mem: Memory<W>, root: W, p: seq<W>, i: W, n: W, page: map<W, W>, e: W)
    requires Outside(f, mem, root, n)
    requires |p| < HEIGHT && TableAt(f, mem, root, p).Some?
    requires !f.decode(Read(f, mem, TableAt(f, mem, root, p).value, i), |p|).Pointer?
    requires f.decode(e, |p|) == Pointer(n)
    requires forall j | j in page :: !f.decode(page[j], |p| + 1).Pointer?
    ensures IsGraft(f, mem, root, p, i, n, page, e, Write(Fill(mem, n, page), TableAt(f, mem, root, p).value, i, e))
  {
    forall u, j
      ensures Read(f, Fill(mem, n, page), u, j) == if u == n then WordOf(f, page, j) else Read(f, mem, u, j)
    {
      ReadFill(f, mem, n, page, u, j);
    }
  }

  /** Grafting a page adds one table, keeps the tree, and changes only the leaves below the graft: there the
      walk ends at the grafted page. */
  lemma Graft<W(!new)>(
    f: Format<W>, mem: Memory<W>, root: W, p: seq<W>, i: W, n: W, page: map<W, W>, e: W, m: Memory<W>)
    requires Proper(f) && NoSharing(f, mem, root) && IsGraft(f, mem, root, p, i, n, page, e, m)
    ensures forall q | |q| <= HEIGHT ::
      TableAt(f, m, root, q) == if q == p + [i] then Some(n) else TableAt(f, mem, root, q)
    ensures NoSharing(f, m, root)
    ensures forall q | |q| == HEIGHT + 1 && !(p + [i] <= q) :: Find(f, m, root, q, 0) == Find(f, mem, root, q, 0)
    ensures forall q | |q| == HEIGHT + 1 && p + [i] <= q ::
      Find(f, m, root, q, 0) == LeafOf(f, WordOf(f, page, q[|p| + 1]), |p| + 1)
  {
    forall q | |q| <= HEIGHT
      ensures TableAt(f, m, root, q) == if q == p + [i] then Some(n) else TableAt(f, mem, root, q)
    {
      GraftTable(f, mem, root, p, i, n, page, e, m, q);
    }
    forall q | |q| == HEIGHT + 1 && !(p + [i] <= q)
      ensures Find(f, m, root, q, 0) == Find(f, mem, root, q, 0)
    {
      GraftFindElsewhere(f, mem, root, p, i, n, page, e, m, q);
    }
    forall q | |q| == HEIGHT + 1 && p + [i] <= q
      ensures Find(f, m, root, q, 0) == LeafOf(f, WordOf(f, page, q[|p| + 1]), |p| + 1)
    {
      GraftFindBelow(f, mem, root, p, i, n, page, e, m, q);
    }
  }

  /** No table hangs from the grafted page. */
  lemma GraftStepBelow<W(!new)>(
    f: Format<W>, mem: Memory<W>, root: W, p: seq<W>, i: W, n: W, page: map<W, W>, e: W, m: Memory<W>, j: W)
    requires Proper(f) && IsGraft(f, mem, root, p, i, n, page, e, m)
    requires TableAt(f, m, root, p + [i]) == Some(n)
    ensures TableAt(f, m, root, p + [i] + [j]) == None == TableAt(f, mem, root, p + [i] + [j])
  {
    assert TableAt(f, mem, root, p) != Some(n);
    TableAtStep(f, m, root, p + [i], j);
    TableAtStep(f, mem, root, p + [i], j);
    TableAtStep(f, mem, root, p, i);
  }

  /** The table that gets the graft. */
  lemma GraftStepAt<W(!new)>(
    f: Format<W>, mem: Memory<W>, root: W, p: seq<W>, i: W, n: W, page: map<W, W>, e: W, m: Memory<W>, j: W)
    requires IsGraft(f, mem, root, p, i, n, page, e, m) && TableAt(f, m, root, p) == TableAt(f, mem, root, p)
    ensures TableAt(f, m, root, p + [j]) == if j == i then Some(n) else TableAt(f, mem, root, p + [j])
  {
    assert TableAt(f, mem, root, p) != Some(n);
    TableAtStep(f, m, root, p, j);
    TableAtStep(f, mem, root, p, j);
  }

  /** Every other table. */
  lemma GraftStepElsewhere<W(!new)>(
    f: Format<W>, mem: Memory<W>, root: W, p: seq<W>, i: W, n: W, page: map<W, W>, e: W, m: Memory<W>, r: seq<W>, j: W)
    requires NoSharing(f, mem, root) && IsGraft(f, mem, root, p, i, n, page, e, m)
    requires r != p && |r| <= HEIGHT && TableAt(f, m, root, r) == TableAt(f, mem, root, r)
    ensures TableAt(f, m, root, r + [j]) == TableAt(f, mem, root, r + [j])
  {
    assert TableAt(f, mem, root, r) != Some(n);
    assert TableAt(f, mem, root, r) != TableAt(f, mem, root, p);
    TableAtStep(f, m, root, r, j);
    TableAtStep(f, mem, root, r, j);
  }

  lemma {:induction false} GraftTable<W(!new)>(
    f: Format<W>, mem: Memory<W>, root: W, p: seq<W>, i: W, n: W, page: map<W, W>, e: W, m: Memory<W>, q: seq<W>)
    requires Proper(f) && NoSharing(f, mem, root) && IsGraft(f, mem, root, p, i, n, page, e, m)
    requires |q| <= HEIGHT
    ensures TableAt(f, m, root, q) == if q == p + [i] then Some(n) else TableAt(f, mem, root, q)
    decreases |q|
  {
    if q != [] {
      var k := |q| - 1;
      var r, j := q[..k], q[k];
      assert q == r + [j];
      GraftTable(f, mem, root, p, i, n, page, e, m, r);
      if r == p + [i] {
        GraftStepBelow(f, mem, root, p, i, n, page, e, m, j);
      } else if r == p {
        GraftStepAt(f, mem, root, p, i, n, page, e, m, j);
      } else {
        GraftStepElsewhere(f, mem, root, p, i, n, page, e, m, r, j);
      }
    }
  }

  /** Below the graft the walk ends at the grafted page. */
  lemma GraftFindBelow<W(!new)>(
    f: Format<W>, mem: Memory<W>, root: W, p: seq<W>, i: W, n: W, page: map<W, W>, e: W, m: Memory<W>, q: seq<W>)
    requires Proper(f) && NoSharing(f, mem, root) && IsGraft(f, mem, root, p, i, n, page, e, m)
    requires |q| == HEIGHT + 1 && p + [i] <= q
    ensures Find(f, m, root, q, 0) == LeafOf(f, WordOf(f, page, q[|p| + 1]), |p| + 1)
  {
    var d := |p|;
    assert q[..d + 1] == p + [i];
    GraftTable(f, mem, root, p, i, n, page, e, m, q[..d + 1]);
    FindFrom(f, m, root, q, d + 1);
    assert n != TableAt(f, mem, root, p).value by { assert TableAt(f, mem, root, p) != Some(n); }
  }

  lemma GraftFindElsewhere<W(!new)>(
    f: Format<W>, mem: Memory<W>, root: W, p: seq<W>, i: W, n: W, page: map<W, W>, e: W, m: Memory<W>, q: seq<W>)
    requires Proper(f) && NoSharing(f, mem, root) && IsGraft(f, mem, root, p, i, n, page, e, m)
    requires |q| == HEIGHT + 1 && !(p + [i] <= q)
    ensures Find(f, m, root, q, 0) == Find(f, mem, root, q, 0)
  {
    forall k | 0 <= k <= HEIGHT
      ensures TableAt(f, mem, root, q[..k]) == TableAt(f, m, root, q[..k])
      ensures TableAt(f, mem, root, q[..k]).Some? ==>
        var u := TableAt(f, mem, root, q[..k]).value; Read(f, mem, u, q[k]) == Read(f, m, u, q[k])
    {
      assert q[..k + 1] == q[..k] + [q[k]];
      GraftWord(f, mem, root, p, i, n, page, e, m, q[..k], q[k]);
    }
    SameFindFromRoot(f, mem, m, root, q);
  }

  lemma GraftWord<W(!new)>(
    f: Format<W>, mem: Memory<W>, root: W, p: seq<W>, i: W, n: W, page: map<W, W>, e: W, m: Memory<W>, r: seq<W>, j: W)
    requires Proper(f) && NoSharing(f, mem, root) && IsGraft(f, mem, root, p, i, n, page, e, m)
    requires |r| <= HEIGHT && !(p + [i] <= r + [j])
    ensures TableAt(f, mem, root, r) == TableAt(f, m, root, r)
    ensures TableAt(f, mem, root, r).Some? ==>
      var u := TableAt(f, mem, root, r).value; Read(f, mem, u, j) == Read(f, m, u, j)
  {
    assert p + [i] <= r ==> p + [i] <= r + [j];
    GraftTable(f, mem, root, p, i, n, page, e, m, r);
    assert TableAt(f, mem, root, r) != Some(n);
    if TableAt(f, mem, root, r) == TableAt(f, mem, root, p) {
      assert r == p;
    }
  }

  /** Hanging a zeroed page from an empty word adds one table and changes no leaf at all. */
  lemma Install<W(!new)>(f: Format<W>, mem: Memory<W>, root: W, p: seq<W>, i: W, n: W, e: W, m: Memory<W>)
    requires Proper(f) && NoSharing(f, mem, root) && IsGraft(f, mem, root, p, i, n, map[], e, m)
    requires f.decode(Read(f, mem, TableAt(f, mem, root, p).value, i), |p|) == Empty
    ensures forall q | |q| <= HEIGHT ::
      TableAt(f, m, root, q) == if q == p + [i] then Some(n) else TableAt(f, mem, root, q)
    ensures NoSharing(f, m, root)
    ensures forall q | |q| == HEIGHT + 1 :: Find(f, m, root, q, 0) == Find(f, mem, root, q, 0)
  {
    Graft(f, mem, root, p, i, n, map[], e, m);
    forall q | |q| == HEIGHT + 1 && p + [i] <= q
      ensures Find(f, mem, root, q, 0) == None
    {
      assert q[..|p| + 1] == p + [i];
      assert q[..|p|] == q[..|p| + 1][..|p|] == p;
      assert q[|p|] == q[..|p| + 1][|p|];
      FindFrom(f, mem, root, q, |p|);
    }
  }

  /** Writing a word of a page outside the tree changes no table and no leaf. */
  lemma ForeignWrite<W(!new)>(f: Format<W>, mem: Memory<W>, root: W, n: W, i: W, e: W)
    requires Outside(f, mem, root, n)
    ensures forall q | |q| <= HEIGHT :: TableAt(f, Write(mem, n, i, e), root, q) == TableAt(f, mem, root, q)
    ensures forall q | |q| == HEIGHT + 1 :: Find(f, Write(mem, n, i, e), root, q, 0) == Find(f, mem, root, q, 0)
  {
    var m := Write(mem, n, i, e);
    forall q | |q| <= HEIGHT
      ensures TableAt(f, m, root, q) == TableAt(f, mem, root, q)
    {
      ForeignWriteTable(f, mem, root, n, i, e, q);
    }
    forall q | |q| == HEIGHT + 1
      ensures Find(f, m, root, q, 0) == Find(f, mem, root, q, 0)
    {
      assert forall k | 0 <= k <= HEIGHT :: TableAt(f, mem, root, q[..k]) != Some(n);
      SameFindFromRoot(f, mem, m, root, q);
    }
  }

  lemma {:induction false} ForeignWriteTable<W(!new)>(
    f: Format<W>, mem: Memory<W>, root: W, n: W, i: W, e: W, q: seq<W>)
    requires Outside(f, mem, root, n) && |q| <= HEIGHT
    ensures TableAt(f, Write(mem, n, i, e), root, q) == TableAt(f, mem, root, q)
    decreases |q|
  {
    if q != [] {
      ForeignWriteTable(f, mem, root, n, i, e, q[..|q| - 1]);
      assert TableAt(f, mem, root, q[..|q| - 1]) != Some(n);
    }
  }
}
