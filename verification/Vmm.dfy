/** The virtual memory manager as the kernel runs it (src/memory/vmm.rs): entries and NEXT_PAGE_ADDR changed in place.
    Every method is proved equal to its function in Mapping, where the properties are. */
module Vmm {
  import opened Kernel
  import opened Bits
  import opened Radix
  import opened Paging
  import opened Mapping
  import IdentityMapping

  class Vmm {
    var mem: Memory<nat>
    const pml4: nat
    var next: nat   // NEXT_PAGE_ADDR

    constructor (mem: Memory<nat>, pml4: nat)
      ensures Valid() && State() == Space(mem, pml4, POOL_BASE)
    {
      this.mem := mem;
      this.pml4 := pml4;
      this.next := POOL_BASE;
    }

    ghost predicate Valid()
      reads this
    {
      next % PAGE_SIZE == 0 && POOL_BASE <= next <= POOL_END
    }

    function State(): Space
      reads this
    {
      Space(mem, pml4, next)
    }

    function Entry(table: nat, index: nat): nat
      reads this
    {
      Load(State(), table, index)
    }

    /** `alloc_page_table` */
    method AllocPageTable() returns (r: Result<nat>)
      requires Valid()
      modifies this
      ensures Valid()
      ensures (State(), r) == AllocTable(old(State()))
    {
      if next + PAGE_SIZE > POOL_END {
        return Err(OutOfMemory);
      }
      var addr := next;
      next := next + PAGE_SIZE;
      mem := Fill(mem, addr, map[]);
      r := Ok(addr);
    }

    /** One level of `map_page`: hang a new table from an absent entry, then read the entry back. */
    method DescendTo(table: nat, index: nat) returns (r: Result<nat>)
      requires Valid()
      modifies this
      ensures Valid()
      ensures (State(), r) == Descend(old(State()), table, index)
    {
      if And(Entry(table, index), PRESENT) == 0 {
        var t := AllocPageTable();
        if t.Err? { return Err(t.error); }
        mem := Write(mem, table, index, TableEntry(t.value));
        TableEntryPoints(t.value, 0);
        assert Entry(table, index) == TableEntry(t.value);
      }
      r := Ok(And(Entry(table, index), FRAME_MASK));
    }

    method MapPage(virt: nat, phys: nat, flags: PageFlags) returns (r: Result<Unit>)
      requires Valid()
      modifies this
      ensures Valid()
      ensures (State(), r) == Mapping.MapPage(old(State()), virt, phys, flags)
    {
      if virt % PAGE_SIZE != 0 || phys % PAGE_SIZE != 0 {
        return Err(InvalidArgument);
      }
      var p := PageOf(virt);
      ghost var s := State();
      var pdpt := DescendTo(pml4, p[0]);
      assert (State(), pdpt) == Grow(s, p, 1);
      if pdpt.Err? {
        assert Grow(s, p, 2) == (State(), pdpt);
        return Err(pdpt.error);
      }
      var pd := DescendTo(pdpt.value, p[1]);
      assert (State(), pd) == Grow(s, p, 2);
      if pd.Err? { return Err(pd.error); }
      var pt := DescendTo(pd.value, p[2]);
      assert (State(), pt) == Grow(s, p, 3);
      if pt.Err? { return Err(pt.error); }

      if And(Entry(pt.value, p[3]), PRESENT) != 0 {
        return Err(PageAlreadyMapped);
      }
      mem := Write(mem, pt.value, p[3], Or(phys, flags));
      r := Ok(Unit);
    }

    method UnmapPage(virt: nat) returns (r: Result<nat>)
      requires Valid()
      modifies this
      ensures Valid()
      ensures (State(), r) == Mapping.UnmapPage(old(State()), virt)
    {
      if virt % PAGE_SIZE != 0 {
        return Err(InvalidArgument);
      }
      var p := PageOf(virt);
      var pdpt := NextTable(Entry(pml4, p[0]));
      if pdpt.None? { return Err(PageNotMapped); }
      var pd := NextTable(Entry(pdpt.value, p[1]));
      if pd.None? { return Err(PageNotMapped); }
      var pt := NextTable(Entry(pd.value, p[2]));
      if pt.None? { return Err(PageNotMapped); }

      var entry := Entry(pt.value, p[3]);
      if And(entry, PRESENT) == 0 {
        return Err(PageNotMapped);
      }
      mem := Write(mem, pt.value, p[3], 0);
      r := Ok(And(entry, FRAME_MASK));
    }

    method UpdateFlags(virt: nat, flags: PageFlags) returns (r: Result<Unit>)
      requires Valid()
      modifies this
      ensures Valid()
      ensures (State(), r) == Mapping.UpdateFlags(old(State()), virt, flags)
    {
      if virt % PAGE_SIZE != 0 {
        return Err(InvalidArgument);
      }
      var p := PageOf(virt);
      var pdpt := NextTable(Entry(pml4, p[0]));
      if pdpt.None? { return Err(PageNotMapped); }
      var pd := NextTable(Entry(pdpt.value, p[1]));
      if pd.None? { return Err(PageNotMapped); }
      var pt := NextTable(Entry(pd.value, p[2]));
      if pt.None? { return Err(PageNotMapped); }

      var entry := Entry(pt.value, p[3]);
      if And(entry, PRESENT) == 0 {
        return Err(PageNotMapped);
      }
      mem := Write(mem, pt.value, p[3], Or(And(entry, FRAME_MASK), flags));
      r := Ok(Unit);
    }

    method IdentityMap(start: nat, end: nat, flags: PageFlags) returns (r: Result<Unit>)
      requires Valid()
      modifies this
      ensures Valid()
      ensures (State(), r) == IdentityMapping.IdentityMap(old(State()), start, end, flags)
    {
      ghost var s := State();
      IdentityMapping.Width(64);
      var addr := And(start, Not(PAGE_SIZE - 1, 64));
      ghost var first := addr;
      while addr < end
        invariant Valid()
        invariant IdentityMapping.MapFrom(s, first, end, flags) == IdentityMapping.MapFrom(State(), addr, end, flags)
        decreases end - addr
      {
        r := MapPage(addr, addr, flags);
        if r.Err? { return; }
        addr := addr + PAGE_SIZE;
      }
      r := Ok(Unit);
    }
  }
}
