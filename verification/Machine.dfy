/** The virtual memory manager as the kernel runs it: entries are written one at a time into physical
    memory, tables are filled by loops. Each method is proved to do what the function of the same purpose in
    `Vmm` or `Spaces` does, and so has the properties proved there. */
module Machine {
  import opened Wrappers
  import opened Bits
  import opened Paging
  import opened Vmm
  import opened Rights
  import opened Spaces
  import Pmm

  class VirtualMemory {
    var pages: map<nat, Page>
    const pmm: Pmm.PhysicalMemory

    constructor (pages: map<nat, Page>, pmm: Pmm.PhysicalMemory)
      ensures this.pages == pages && this.pmm == pmm
    {
      this.pages, this.pmm := pages, pmm;
    }

    ghost predicate Valid()
      reads pmm.bitmap
    {
      pmm.Valid()
    }

    ghost function State(): Memory
      reads this, pmm, pmm.bitmap
    {
      Memory(pages, pmm.State())
    }

    /** `entry_mut(i).set_address(addr, flags)` on the table in frame `f`. */
    method WriteEntry(f: nat, i: nat, addr: nat, flags: Word)
      requires f in pages && pages[f].TablePage? && i < TABLE_LEN
      modifies this
      ensures State() == SetEntry(old(State()), f, i, SetAddress(addr, flags))
    {
      pages := pages[f := TablePage(pages[f].entries[i := SetAddress(addr, flags)])];
    }

    /** `translate`. */
    method TranslateAddress(root: nat, virt: nat) returns (r: Option<nat>)
      requires Valid()
      ensures r == Translate(State(), root, virt)
    {
      var pml4e := ReadEntry(root, Index(virt, 4));
      if PRESENT !in pml4e.flags { return None; }
      assert Walk(State(), pml4e.frame, 3, virt) == Translate(State(), root, virt);
      var pdpte := ReadEntry(pml4e.frame, Index(virt, 3));
      if PRESENT !in pdpte.flags { return None; }
      if HUGE_PAGE in pdpte.flags { return Some(pdpte.frame * 4096 + virt % 0x4000_0000); }
      assert Walk(State(), pdpte.frame, 2, virt) == Translate(State(), root, virt);
      var pde := ReadEntry(pdpte.frame, Index(virt, 2));
      if PRESENT !in pde.flags { return None; }
      if HUGE_PAGE in pde.flags { return Some(pde.frame * 4096 + virt % 0x20_0000); }
      assert Walk(State(), pde.frame, 1, virt) == Translate(State(), root, virt);
      var pte := ReadEntry(pde.frame, Index(virt, 1));
      if PRESENT !in pte.flags { return None; }
      return Some(pte.frame * 4096 + virt % 0x1000);
    }

    method ReadEntry(f: nat, i: nat) returns (e: Entry)
      requires i < TABLE_LEN
      ensures e == EntryAt(State(), f, i)
    {
      if f in pages && pages[f].TablePage? { return pages[f].entries[i]; }
      return EMPTY;
    }

    /** `split_1gib_page` (`l` = 3) and `split_2mib_page` (`l` = 2) of entry `i` of table `parent`. */
    method SplitPage(parent: nat, i: nat, want: Word, l: nat) returns (r: Result<nat, Error>)
      requires Valid() && IsTable(State(), parent) && i < TABLE_LEN && 2 <= l <= 3
      modifies this, pmm, pmm.bitmap
      ensures (r, State()) == AddTable(old(State()), parent, i, want, SplitTable(EntryAt(old(State()), parent, i), want, l))
    {
      ghost var m := State();
      var e := ReadEntry(parent, i);
      var a := pmm.AllocPage();
      if a.None? { return Err(OutOfMemory); }
      var f := a.value;
      FillTable(f, e, want, l);
      WriteEntry(parent, i, f * 4096, TableFlags(want));
      return Ok(f);
    }

    /** Clears frame `f` and writes the 512 smaller pages of huge page `e` into it. */
    method FillTable(f: nat, e: Entry, want: Word, l: nat)
      requires 2 <= l <= 3
      modifies this`pages
      ensures pages == old(pages)[f := TablePage(SplitTable(e, want, l))]
    {
      var flags := SplitFlags(e, want, l);
      var table: Table := EmptyTable();
      pages := pages[f := TablePage(table)];
      for j := 0 to TABLE_LEN
        invariant f in pages && pages[f].TablePage? && pages == old(pages)[f := pages[f]]
        invariant forall k :: 0 <= k < j ==> pages[f].entries[k] == SplitTable(e, want, l)[k]
      {
        pages := pages[f := TablePage(pages[f].entries[j := SetAddress(e.frame * 4096 + j * Size(l - 1), flags)])];
      }
      assert pages[f].entries == SplitTable(e, want, l);
    }

    /** `get_or_create_table`. */
    method GetOrCreateTable(parent: nat, i: nat, want: Word, l: nat) returns (r: Result<nat, Error>)
      requires Valid() && IsTable(State(), parent) && i < TABLE_LEN && 2 <= l <= 4
      modifies this, pmm, pmm.bitmap
      ensures (r, State()) == GetOrCreate(old(State()), parent, i, want, l)
      ensures r.Ok? ==> IsTable(State(), parent) && {PRESENT} + want * {USER, WRITABLE} <= EntryAt(State(), parent, i).flags
    {
      GetOrCreateGrants(State(), parent, i, want, l);
      var e := ReadEntry(parent, i);
      if PRESENT in e.flags {
        if HUGE_PAGE in e.flags {
          if l == 4 { return Err(UnexpectedHugePage); }
          r := SplitPage(parent, i, want, l);
          return;
        }
        if !(Needed(want) <= e.flags) {
          WriteEntry(parent, i, e.frame * 4096, e.flags + Needed(want));
        }
        return Ok(e.frame);
      }
      var a := pmm.AllocPage();
      if a.None? { return Err(OutOfMemory); }
      var f := a.value;
      pages := pages[f := TablePage(EmptyTable())];
      WriteEntry(parent, i, f * 4096, TableFlags(want));
      return Ok(f);
    }

    /** The walk and the final write shared by `map_page_with_flags`, `map_page` and `map_user_page`. */
    method InstallPage(ghost lay: Layout, ghost places: Places, root: nat, virt: nat, phys: nat, flags: Word)
      returns (r: Result<(), Error>)
      requires Valid() && Tree(State(), lay, places) && IsRoot(places, root) && Ordinary(virt)
      modifies this, pmm, pmm.bitmap
      ensures (r, State()) == Map(old(State()), root, virt, phys, flags)
    {
      ghost var m4, leaf := State(), SetAddress(phys, flags);
      var pdpt := GetOrCreateTable(root, Index(virt, 4), flags, 4);
      ghost var places3 := Descend(m4, lay, places, root, root, virt, leaf, flags, 4);
      if pdpt.Err? { return Err(pdpt.error); }

      ghost var m3 := State();
      var pd := GetOrCreateTable(pdpt.value, Index(virt, 3), flags, 3);
      ghost var places2 := Descend(m3, lay, places3, root, pdpt.value, virt, leaf, flags, 3);
      if pd.Err? { return Err(pd.error); }

      ghost var m2 := State();
      var pt := GetOrCreateTable(pd.value, Index(virt, 2), flags, 2);
      ghost var places1 := Descend(m2, lay, places2, root, pd.value, virt, leaf, flags, 2);
      if pt.Err? { return Err(pt.error); }

      WriteEntry(pt.value, Index(virt, 1), phys, flags);
      return Ok(());
    }

    /** `map_page_with_flags`: either the page now translates to the frame of `phys` (not at all without
        PRESENT) and nothing else changed, or the call failed and no translation changed. */
    method MapPageWithFlags(ghost lay: Layout, ghost places: Places, root: nat, virt: nat, phys: nat, flags: Word)
      returns (r: Result<(), Error>, ghost places': Places)
      requires Valid() && Tree(State(), lay, places) && IsRoot(places, root) && Ordinary(virt)
      modifies this, pmm, pmm.bitmap
      ensures (r, State()) == Map(old(State()), root, virt, phys, flags)
      ensures ShapeKept(old(State()), State(), lay, places, places')
      ensures r.Ok? ==> PageAt(State(), root, virt, if PRESENT in flags then Some(phys / 4096 % FRAMES * 4096) else None)
      ensures r.Ok? ==> OthersKept(old(State()), State(), places, root, virt)
      ensures r.Err? ==> AllKept(old(State()), State(), places)
      ensures r.Err? ==> FailedFor(old(State()), State(), root, 4, virt, r.error)
      ensures r.Ok? ==> Flagged(State(), root, 4, virt, flags) && RightsGiven(State(), root, virt, flags)
      ensures OthersRights(old(State()), State(), places, root, virt, flags, r.Ok?)
      ensures OthersFlagged(old(State()), State(), places, root, virt)
    {
      InstallFails(State(), lay, places, root, root, virt, SetAddress(phys, flags), flags);
      places' := MapExact(State(), lay, places, root, virt, phys, flags);
      r := InstallPage(lay, places, root, virt, phys, flags);
    }

    /** `map_user_page`. */
    method MapUserPage(ghost lay: Layout, ghost places: Places, root: nat, virt: nat, onDemand: bool)
      returns (r: Result<(), Error>)
      requires Valid() && Tree(State(), lay, places) && IsRoot(places, root) && Ordinary(virt)
      modifies this, pmm, pmm.bitmap
      ensures (r, State()) == if onDemand then Reserve(old(State()), root, virt) else MapFresh(old(State()), root, virt)
      ensures r.Ok? && !onDemand ==> UserWritable(State(), root, virt) && exists f: nat :: MapsFresh(old(State()), State(), root, virt, f)
    {
      ghost var places' := MapFreshExact(State(), lay, places, root, virt);
      if onDemand {
        r := InstallPage(lay, places, root, virt, 0, RESERVE_FLAGS);
      } else {
        ghost var m := State();
        var a := pmm.AllocPage();
        if a.None? { return Err(OutOfMemory); }
        FreshPage(m, State(), lay, places, a.value);
        r := InstallPage(lay, places, root, virt, a.value * 4096, MapFlags(true));
      }
    }

    /** The walk of `handle_fault` and `unmap_page` to the page table. */
    method FindPageTable(root: nat, virt: nat) returns (r: Option<nat>)
      ensures r == LeafTable(State(), root, 4, virt)
    {
      var pml4e := ReadEntry(root, Index(virt, 4));
      if PRESENT !in pml4e.flags { return None; }
      assert LeafTable(State(), pml4e.frame, 3, virt) == LeafTable(State(), root, 4, virt);
      var pdpte := ReadEntry(pml4e.frame, Index(virt, 3));
      if PRESENT !in pdpte.flags { return None; }
      assert LeafTable(State(), pdpte.frame, 2, virt) == LeafTable(State(), root, 4, virt);
      var pde := ReadEntry(pdpte.frame, Index(virt, 2));
      if PRESENT !in pde.flags { return None; }
      assert LeafTable(State(), pde.frame, 1, virt) == LeafTable(State(), root, 4, virt);
      return Some(pde.frame);
    }

    /** `handle_fault`. A write to a frame that holds no table is a write to data, which the model does not keep. */
    method HandleFault(root: nat, virt: nat) returns (r: Result<(), Error>)
      requires Valid()
      modifies this, pmm, pmm.bitmap
      ensures (r, State()) == Fault(old(State()), root, virt)
    {
      var t := FindPageTable(root, virt);
      if t.None? { return Err(NotPresent); }
      var i := Index(virt, 1);
      var e := ReadEntry(t.value, i);
      if !Reserved(e) { return Err(NotOnDemand); }
      var a := pmm.AllocPage();
      if a.None? { return Err(OutOfMemory); }
      pages := pages[a.value := DataPage(ZeroPage())];
      if pages[t.value].TablePage? {
        WriteEntry(t.value, i, a.value * 4096, FaultFlags(e.flags));
      }
      return Ok(());
    }

    /** `unmap_page`. */
    method UnmapPage(root: nat, virt: nat) returns (r: Result<nat, Error>)
      requires Valid()
      modifies this
      ensures (r, State()) == Unmap(old(State()), root, virt)
    {
      var t := FindPageTable(root, virt);
      if t.None? { return Err(NotPresent); }
      var e := ReadEntry(t.value, Index(virt, 1));
      if PRESENT !in e.flags && ON_DEMAND !in e.flags { return Err(NotPresent); }
      WriteEntry(t.value, Index(virt, 1), 0, {});
      return Ok(e.frame * 4096);
    }

    /** `create_user_page_table`. */
    method CreateUserPageTable(kernel: nat) returns (r: Option<nat>)
      requires Valid() && IsTable(State(), kernel) && !(kernel < |State().frames.free| && State().frames.free[kernel])
      modifies this, pmm, pmm.bitmap
      ensures (r, State()) == CreateSpace(old(State()), kernel)
    {
      ghost var kernelTable := pages[kernel].entries;
      r := pmm.AllocPage();
      if r.None? { return; }
      var f := r.value;
      ghost var frames := pmm.State();
      pages := pages[f := TablePage(EmptyTable())];
      for i := KERNEL_HALF to TABLE_LEN
        invariant f in pages && pages[f].TablePage? && pages == old(pages)[f := pages[f]]
        invariant kernel in pages && pages[kernel] == TablePage(kernelTable) && pmm.State() == frames
        invariant forall j :: 0 <= j < KERNEL_HALF || i <= j < TABLE_LEN ==> pages[f].entries[j] == EMPTY
        invariant forall j :: KERNEL_HALF <= j < i ==>
                    pages[f].entries[j] == if PRESENT in kernelTable[j].flags then kernelTable[j] else EMPTY
      {
        var e := pages[kernel].entries[i];
        if PRESENT in e.flags {
          pages := pages[f := TablePage(pages[f].entries[i := e])];
        }
      }
      WriteEntry(f, RECURSIVE, f * 4096, {PRESENT, WRITABLE, NO_EXECUTE});
      assert pages[f].entries == SpaceTable(kernelTable, f);
      assert pages == old(pages)[f := TablePage(SpaceTable(kernelTable, f))];
    }
  }
}
