/** The operations of the virtual memory manager on whole address spaces: mapping, demand paging, unmapping
    and new address spaces. An address space is named by the frame of its PML4. */
module Spaces {
  import opened Wrappers
  import opened Bits
  import opened Paging
  import opened Vmm
  import opened Rights
  import Pmm

  // ---- Operations ---------------------------------------------------------------------------------

  function MapFlags(user: bool): Word {
    {PRESENT, WRITABLE} + if user then {USER} else {}
  }

  const RESERVE_FLAGS: Word := {USER, WRITABLE, ON_DEMAND}

  /** `map_page_with_flags`; `map_page` is the case of MapFlags. */
  function Map(m: Memory, root: nat, virt: nat, phys: nat, flags: Word): (Result<(), Error>, Memory)
    requires IsTable(m, root)
  {
    Install(m, root, 4, virt, SetAddress(phys, flags), flags)
  }

  /** `map_user_page` with `on_demand`: the page is reserved without a frame. */
  function Reserve(m: Memory, root: nat, virt: nat): (Result<(), Error>, Memory)
    requires IsTable(m, root)
  {
    Install(m, root, 4, virt, SetAddress(0, RESERVE_FLAGS), RESERVE_FLAGS)
  }

  /** `map_user_page` without `on_demand`. */
  function MapFresh(m: Memory, root: nat, virt: nat): (Result<(), Error>, Memory)
    requires IsTable(m, root)
  {
    match Pmm.Alloc(m.frames)
    case (None, _) => (Err(OutOfMemory), m)
    case (Some(f), frames) =>
      Map(Memory(m.pages, frames), root, virt, f * 4096, MapFlags(true))
  }

  function FaultFlags(flags: Word): Word {
    flags - {ON_DEMAND, NO_EXECUTE} + {PRESENT}
  }

  predicate Reserved(e: Entry) {
    PRESENT !in e.flags && ON_DEMAND in e.flags
  }

  /** `handle_fault`. */
  function Fault(m: Memory, root: nat, virt: nat): (Result<(), Error>, Memory) {
    match LeafTable(m, root, 4, virt)
    case None => (Err(NotPresent), m)
    case Some(t) =>
      var e := EntryAt(m, t, Index(virt, 1));
      if !Reserved(e) then (Err(NotOnDemand), m)
      else
        match Pmm.Alloc(m.frames)
        case (None, _) => (Err(OutOfMemory), m)
        case (Some(f), frames) => (Ok(()), Resolve(m, t, Index(virt, 1), f, frames))
  }

  /** Frame `f` is zeroed and entry `i` of page table `t` made to map it. */
  function Resolve(m: Memory, t: nat, i: nat, f: nat, frames: Pmm.Frames): Memory
    requires i < TABLE_LEN
  {
    var zeroed := Memory(m.pages[f := DataPage(ZeroPage())], frames);
    if IsTable(zeroed, t)
    then SetEntry(zeroed, t, i, SetAddress(f * 4096, FaultFlags(EntryAt(m, t, i).flags)))
    else zeroed
  }

  /** `unmap_page`. */
  function Unmap(m: Memory, root: nat, virt: nat): (Result<nat, Error>, Memory) {
    match LeafTable(m, root, 4, virt)
    case None => (Err(NotPresent), m)
    case Some(t) =>
      var e := EntryAt(m, t, Index(virt, 1));
      if !IsTable(m, t) || (PRESENT !in e.flags && ON_DEMAND !in e.flags) then (Err(NotPresent), m)
      else (Ok(e.frame * 4096), SetEntry(m, t, Index(virt, 1), SetAddress(0, {})))
  }

  /** The PML4 of a new address space: the kernel's upper half, with the recursive slot its own. */
  function SpaceTable(kernelTable: Table, f: nat): Table {
    seq(TABLE_LEN, i requires 0 <= i < TABLE_LEN =>
      if i == RECURSIVE then SetAddress(f * 4096, {PRESENT, WRITABLE, NO_EXECUTE})
      else if i >= KERNEL_HALF && PRESENT in kernelTable[i].flags then kernelTable[i]
      else EMPTY)
  }

  /** `create_user_page_table`. */
  function CreateSpace(m: Memory, kernel: nat): (Option<nat>, Memory)
    requires IsTable(m, kernel)
  {
    match Pmm.Alloc(m.frames)
    case (None, _) => (None, m)
    case (Some(f), frames) => (Some(f), Memory(m.pages[f := TablePage(SpaceTable(m.pages[kernel].entries, f))], frames))
  }

  // ---- Mapping ------------------------------------------------------------------------------------

  /** No translation changes in any space, except that of the page of `virt` in `root`, which all spaces
      share when it is a kernel page. */
  ghost predicate OthersKept(m: Memory, m': Memory, places: Places, root: nat, virt: nat) {
    forall r, v :: IsRoot(places, r) && Ordinary(v) && !(SamePage(v, virt) && (r == root || Index(v, 4) >= KERNEL_HALF)) ==>
      Translate(m', r, v) == Translate(m, r, v)
  }

  ghost predicate AllKept(m: Memory, m': Memory, places: Places) {
    forall r, v :: IsRoot(places, r) && Ordinary(v) ==> Translate(m', r, v) == Translate(m, r, v)
  }

  /** All addresses of the page of `virt` translate through `leaf`. */
  ghost predicate PageIs(m: Memory, root: nat, virt: nat, leaf: Entry) {
    forall v :: SamePage(v, virt) ==> Translate(m, root, v) == LeafTranslation(leaf, v)
  }

  /** All addresses of the page of `virt` translate to `base` plus their offset, or not at all. */
  ghost predicate PageAt(m: Memory, root: nat, virt: nat, base: Option<nat>) {
    forall v: nat :: SamePage(v, virt) ==>
      Translate(m, root, v) == if base.Some? then Some(base.value + v % 4096) else None
  }

  /** The tables keep their shape, places are only added, and used frames that are not tables keep their
      contents. */
  ghost predicate ShapeKept(m: Memory, m': Memory, lay: Layout, places: Places, places': Places) {
    Tree(m', lay, places') && Grown(m, places, places') && UsedKept(m, m', places)
  }

  lemma StepOthers(m: Memory, m': Memory, lay: Layout, places: Places, root: nat, virt: nat)
    requires SameExcept(m, m', lay, places, Some(At(lay.kernel, root, 0, virt)))
    ensures OthersKept(m, m', places, root, virt)
  {
    forall r, v | IsRoot(places, r) && Ordinary(v) && !(SamePage(v, virt) && (r == root || Index(v, 4) >= KERNEL_HALF))
      ensures Translate(m', r, v) == Translate(m, r, v)
    {
      PagesOf(lay.kernel, r, v, root, virt);
    }
  }

  lemma PageMappedIs(m: Memory, root: nat, virt: nat, leaf: Entry)
    requires PageMapped(m, root, 4, virt, leaf)
    ensures PageIs(m, root, virt, leaf)
  {
    forall v | SamePage(v, virt)
      ensures Translate(m, root, v) == LeafTranslation(leaf, v)
    {
      PageNumber(v);
      PageNumber(virt);
    }
  }

  /** Mapping a page makes all its addresses translate through the new entry and changes no other
      translation; a mapping that fails, at whatever level, changes no translation at all. */
  lemma InstallExact(m: Memory, lay: Layout, places: Places, root: nat, virt: nat, leaf: Entry, want: Word)
    returns (places': Places)
    requires Tree(m, lay, places) && IsRoot(places, root) && Ordinary(virt)
    ensures var (r, m') := Install(m, root, 4, virt, leaf, want);
            && ShapeKept(m, m', lay, places, places')
            && if r.Ok? then PageIs(m', root, virt, leaf) && LeafIs(m', root, 4, virt, leaf) && OthersKept(m, m', places, root, virt)
               else AllKept(m, m', places)
  {
    var (r, m') := Install(m, root, 4, virt, leaf, want);
    places' := InstallKeeps(m, lay, places, root, root, virt, leaf, want);
    if r.Ok? {
      StepOthers(m, m', lay, places, root, virt);
      PageMappedIs(m', root, virt, leaf);
    }
  }

  /** `map_page_with_flags`: the page translates to the given frame plus the offset, or not at all when the
      flags lack PRESENT. */
  lemma MapExact(m: Memory, lay: Layout, places: Places, root: nat, virt: nat, phys: nat, flags: Word)
    returns (places': Places)
    requires Tree(m, lay, places) && IsRoot(places, root) && Ordinary(virt)
    ensures var (r, m') := Map(m, root, virt, phys, flags);
            && ShapeKept(m, m', lay, places, places')
            && (r.Ok? ==>
                  && OthersKept(m, m', places, root, virt)
                  && PageAt(m', root, virt, if PRESENT in flags then Some(phys / 4096 % FRAMES * 4096) else None)
                  && Flagged(m', root, 4, virt, flags) && RightsGiven(m', root, virt, flags))
            && (r.Err? ==> AllKept(m, m', places))
            && OthersRights(m, m', places, root, virt, flags, r.Ok?) && OthersFlagged(m, m', places, root, virt)
  {
    var leaf := SetAddress(phys, flags);
    var (r, m') := Install(m, root, 4, virt, leaf, flags);
    places' := InstallExact(m, lay, places, root, virt, leaf, flags);
    MapRights(m, lay, places, root, virt, leaf, flags);
    if r.Ok? {
      LeafPageAt(m', root, virt, leaf);
      FlagsAllow(m', root, 4, virt, flags);
    }
  }

  /** A mapping that succeeds takes user access from another page if and only if it splits the huge page that page is in
      and does not ask for user access itself; it takes nothing else from any page. */
  lemma RightsKept(m: Memory, lay: Layout, places: Places, root: nat, virt: nat, phys: nat, flags: Word, r: nat, v: nat)
    requires Tree(m, lay, places) && IsRoot(places, root) && Ordinary(virt) && Map(m, root, virt, phys, flags).0.Ok?
    requires IsRoot(places, r) && Ordinary(v) && !(SamePage(v, virt) && (r == root || Index(v, 4) >= KERNEL_HALF))
    requires Allowed(m, r, 4, v).Some?
    ensures var a, b := Allowed(m, r, 4, v), Allowed(Map(m, root, virt, phys, flags).1, r, 4, v);
            && b.Some? && b.value.executable == a.value.executable && (a.value.writable ==> b.value.writable)
            && (a.value.user ==> (b.value.user <==> USER in flags || !Shares(m, r, 4, v, root, 4, virt)))
  {
    MapRights(m, lay, places, root, virt, SetAddress(phys, flags), flags);
  }

  /** The page translates to a frame that was free and is used now. */
  ghost predicate MapsFresh(m: Memory, m': Memory, root: nat, virt: nat, f: nat) {
    f < |m.frames.free| == |m'.frames.free| && m.frames.free[f] && !m'.frames.free[f] && PageAt(m', root, virt, Some(f * 4096))
  }

  /** `map_user_page` without `on_demand`: the page maps a frame that was free, with user access and writing, and no other
      translation changes. */
  lemma MapFreshExact(m: Memory, lay: Layout, places: Places, root: nat, virt: nat) returns (places': Places)
    requires Tree(m, lay, places) && IsRoot(places, root) && Ordinary(virt)
    ensures var (r, m') := MapFresh(m, root, virt);
            && ShapeKept(m, m', lay, places, places')
            && (r.Ok? ==>
                  && OthersKept(m, m', places, root, virt)
                  && (exists f: nat :: MapsFresh(m, m', root, virt, f)) && UserWritable(m', root, virt))
            && (r.Err? ==> AllKept(m, m', places))
  {
    var (a, frames) := Pmm.Alloc(m.frames);
    places' := places;
    if a.Some? {
      FreshPage(m, Memory(m.pages, frames), lay, places, a.value);
      places' := MapTaken(m, Memory(m.pages, frames), lay, places, root, virt, a.value);
    }
  }

  lemma BaseOf(f: nat)
    requires f < FRAMES
    ensures f * 4096 / 4096 % FRAMES * 4096 == f * 4096 && {PRESENT, WRITABLE, USER} <= MapFlags(true)
  {
    assert f * 4096 / 4096 == f;
  }

  /** Mapping a frame that was taken for it. */
  lemma MapTaken(m: Memory, m1: Memory, lay: Layout, places: Places, root: nat, virt: nat, f: nat) returns (places': Places)
    requires IsRoot(places, root) && Ordinary(virt) && ShapeKept(m, m1, lay, places, places) && AllKept(m, m1, places)
    requires f < |m.frames.free| == |m1.frames.free| <= FRAMES && m.frames.free[f] && !m1.frames.free[f]
    ensures var (r, m') := Map(m1, root, virt, f * 4096, MapFlags(true));
            && ShapeKept(m, m', lay, places, places')
            && (r.Ok? ==>
                  && OthersKept(m, m', places, root, virt) && MapsFresh(m, m', root, virt, f)
                  && UserWritable(m', root, virt))
            && (r.Err? ==> AllKept(m, m', places))
  {
    var (r, m') := Map(m1, root, virt, f * 4096, MapFlags(true));
    BaseOf(f);
    places' := MapExact(m1, lay, places, root, virt, f * 4096, MapFlags(true));
    KeptCompose(m, m1, m', lay, places, places', root, virt);
  }

  lemma LeafPageAt(m: Memory, root: nat, virt: nat, leaf: Entry)
    requires PageIs(m, root, virt, leaf)
    ensures PageAt(m, root, virt, if PRESENT in leaf.flags then Some(leaf.frame * 4096) else None)
  {
    forall v: nat | SamePage(v, virt)
      ensures Translate(m, root, v) == LeafTranslation(leaf, v)
    {
    }
  }

  // ---- Walks to the page table --------------------------------------------------------------------

  /** Without a huge page on the way, the walk of `handle_fault` and `unmap_page` ends at the page table of
      the address, and ends early exactly when nothing on the page translates. */
  lemma {:induction false} LeafTablePlace(m: Memory, lay: Layout, places: Places, root: nat, f: nat, virt: nat)
    requires Tree(m, lay, places) && f in places && Ordinary(virt)
    requires places[f] == At(lay.kernel, root, places[f].level, virt) && NoHuge(m, f, places[f].level, virt)
    ensures var l := places[f].level;
            match LeafTable(m, f, l, virt)
            case Some(t) =>
              && t in places && places[t] == At(lay.kernel, root, 1, virt)
              && forall v :: SamePage(v, virt) ==> Walk(m, f, l, v) == LeafTranslation(EntryAt(m, t, Index(virt, 1)), v)
            case None => forall v :: SamePage(v, virt) ==> Walk(m, f, l, v) == None
    decreases places[f].level
  {
    var l := places[f].level;
    var e := EntryAt(m, f, Index(virt, l));
    assert EntryFits(m, lay, places, f, Index(virt, l));
    if l > 1 && PRESENT in e.flags {
      ChildAt(lay.kernel, root, l, virt);
      LeafTablePlace(m, lay, places, root, e.frame, virt);
    }
    forall v | SamePage(v, virt)
      ensures Index(v, l) == Index(virt, l)
    {
      PageNumber(v);
      PageNumber(virt);
      PrefixIndexes(v, virt, 0);
    }
  }

  /** In a space without huge pages below its user half, no user address has one on its way. */
  lemma {:induction false} FlatNoHuge(m: Memory, lay: Layout, places: Places, root: nat, f: nat, virt: nat)
    requires Tree(m, lay, places) && f in places && root in lay.flat && Index(virt, 4) < KERNEL_HALF
    requires places[f] == At(lay.kernel, root, places[f].level, virt)
    ensures NoHuge(m, f, places[f].level, virt)
    decreases places[f].level
  {
    var l := places[f].level;
    var e := EntryAt(m, f, Index(virt, l));
    assert EntryFits(m, lay, places, f, Index(virt, l));
    if l > 1 && PRESENT in e.flags {
      ChildAt(lay.kernel, root, l, virt);
      FlatNoHuge(m, lay, places, root, e.frame, virt);
    }
  }

  // ---- Unmapping ----------------------------------------------------------------------------------

  /** The page table of an address, seen from the root. */
  lemma LeafOfRoot(m: Memory, lay: Layout, places: Places, root: nat, virt: nat)
    requires Tree(m, lay, places) && IsRoot(places, root) && Ordinary(virt) && NoHuge(m, root, 4, virt)
    ensures var leaf := LeafTable(m, root, 4, virt);
            if leaf.None? then Translate(m, root, virt) == None
            else
              && leaf.value in places && places[leaf.value] == At(lay.kernel, root, 1, virt)
              && Translate(m, root, virt) == LeafTranslation(EntryAt(m, leaf.value, Index(virt, 1)), virt)
  {
    LeafTablePlace(m, lay, places, root, root, virt);
    assert SamePage(virt, virt);
  }

  /** `unmap_page` on an address without a huge page on the way: on a page that translates it gives back the frame; on
      any page it succeeds on, it leaves the page untranslatable and changes no other translation; otherwise it changes
      nothing. */
  lemma UnmapClears(m: Memory, lay: Layout, places: Places, root: nat, virt: nat)
    requires Tree(m, lay, places) && IsRoot(places, root) && Ordinary(virt) && NoHuge(m, root, 4, virt)
    ensures var r := Unmap(m, root, virt).0;
            Translate(m, root, virt).Some? ==> r.Ok? && Translate(m, root, virt) == Some(r.value + virt % 4096)
    ensures var (r, m') := Unmap(m, root, virt);
            if r.Err? then m' == m
            else
              && ShapeKept(m, m', lay, places, places)
              && OthersKept(m, m', places, root, virt) && PageAt(m', root, virt, None)
  {
    LeafOfRoot(m, lay, places, root, virt);
    var leaf := LeafTable(m, root, 4, virt);
    if leaf.Some? {
      LeafCleared(m, lay, places, root, leaf.value, virt);
    }
  }

  lemma LeafCleared(m: Memory, lay: Layout, places: Places, root: nat, t: nat, virt: nat)
    requires Tree(m, lay, places) && IsRoot(places, root) && Ordinary(virt) && NoHuge(m, root, 4, virt)
    requires LeafTable(m, root, 4, virt) == Some(t) && t in places && places[t] == At(lay.kernel, root, 1, virt)
    ensures var m' := SetEntry(m, t, Index(virt, 1), SetAddress(0, {}));
            && ShapeKept(m, m', lay, places, places)
            && OthersKept(m, m', places, root, virt) && PageAt(m', root, virt, None)
  {
    var m' := SetEntry(m, t, Index(virt, 1), SetAddress(0, {}));
    LeafWritten(m, lay, places, root, t, virt, SetAddress(0, {}));
    LeafPageAt(m', root, virt, SetAddress(0, {}));
  }

  /** `unmap_page` on any address, for any address in any space: a translation is lost if and only if its walk reads the
      entry that is cleared, and no translation changes otherwise. */
  lemma UnmapEverywhere(m: Memory, root: nat, virt: nat, r: nat, v: nat)
    ensures var (u, m') := Unmap(m, root, virt);
            if u.Err? then m' == m
            else
              Translate(m', r, v) ==
              if ReadsAt(m, r, 4, v, LeafTable(m, root, 4, virt).value, Index(virt, 1)).Some? then None
              else Translate(m, r, v)
  {
    var (u, m') := Unmap(m, root, virt);
    if u.Ok? {
      var t, i := LeafTable(m, root, 4, virt).value, Index(virt, 1);
      assert OneEntry(m, m', t, i);
      if ReadsAt(m, r, 4, v, t, i).Some? {
        WalkHitsWrite(m, m', r, 4, v, t, i);
      } else {
        WalkMissesWrite(m, m', r, 4, v, t, i);
      }
    }
  }

  /** The walk of `unmap_page` ends at an entry that is present or reserved. */
  predicate MappedAt(m: Memory, root: nat, virt: nat) {
    var t := LeafTable(m, root, 4, virt);
    t.Some? && var e := EntryAt(m, t.value, Index(virt, 1)); PRESENT in e.flags || ON_DEMAND in e.flags
  }

  lemma UnmapSucceeds(m: Memory, root: nat, virt: nat)
    ensures var r := Unmap(m, root, virt).0;
            && (r.Ok? <==> MappedAt(m, root, virt))
            && (r.Ok? ==> r.value == EntryAt(m, LeafTable(m, root, 4, virt).value, Index(virt, 1)).frame * 4096)
  {
  }

  /** Below a huge page on no table in use, nothing that any walk reads is cleared. */
  lemma UnmapStrays(m: Memory, lay: Layout, places: Places, root: nat, virt: nat)
    requires Tree(m, lay, places) && Unmap(m, root, virt).0.Ok? && LeafTable(m, root, 4, virt).value !in places
    ensures var m' := Unmap(m, root, virt).1; TablesSame(m, m', places) && AllKept(m, m', places)
  {
    var m' := Unmap(m, root, virt).1;
    forall r, v | IsRoot(places, r) && Ordinary(v)
      ensures Translate(m', r, v) == Translate(m, r, v)
    {
      UnmapMisses(m, lay, places, root, virt, r, v);
    }
  }

  /** `unmap_page` succeeds exactly when its walk ends at such an entry, and answers the frame of that. It takes the
      contents of a huge page for a table, and leaves the entry of the huge page in place. Below a huge page it clears an
      entry of a table in use, or nothing that any walk reads. */
  lemma UnmapExact(m: Memory, lay: Layout, places: Places, root: nat, virt: nat)
    requires Tree(m, lay, places) && IsRoot(places, root) && Ordinary(virt)
    ensures var (r, m') := Unmap(m, root, virt);
            && (r.Ok? <==> MappedAt(m, root, virt))
            && (r.Ok? ==> r.value == EntryAt(m, LeafTable(m, root, 4, virt).value, Index(virt, 1)).frame * 4096)
            && (r.Err? ==> m' == m)
            && (NoHuge(m, root, 4, virt) ==>
                  && (Translate(m, root, virt).Some? ==> r.Ok? && Translate(m, root, virt) == Some(r.value + virt % 4096))
                  && (r.Ok? ==> ShapeKept(m, m', lay, places, places) && OthersKept(m, m', places, root, virt)
                                && PageAt(m', root, virt, None)))
            && (!NoHuge(m, root, 4, virt) ==>
                  && Translate(m, root, virt).Some?
                  && (r.Ok? && LeafTable(m, root, 4, virt).value !in places ==>
                        TablesSame(m, m', places) && AllKept(m, m', places)))
  {
    UnmapSucceeds(m, root, virt);
    if NoHuge(m, root, 4, virt) {
      UnmapClears(m, lay, places, root, virt);
    } else {
      HugeTranslates(m, root, 4, virt);
      if Unmap(m, root, virt).0.Ok? && LeafTable(m, root, 4, virt).value !in places {
        UnmapStrays(m, lay, places, root, virt);
      }
    }
  }

  lemma UnmapMisses(m: Memory, lay: Layout, places: Places, root: nat, virt: nat, r: nat, v: nat)
    requires Tree(m, lay, places) && IsRoot(places, r) && Ordinary(v)
    requires Unmap(m, root, virt).0.Ok? && LeafTable(m, root, 4, virt).value !in places
    ensures Translate(Unmap(m, root, virt).1, r, v) == Translate(m, r, v)
  {
    var t, i := LeafTable(m, root, 4, virt).value, Index(virt, 1);
    UnmapEverywhere(m, root, virt, r, v);
    if ReadsAt(m, r, 4, v, t, i).Some? {
      ReadsTablesInUse(m, lay, places, r, r, v, t, i);
    }
  }

  /** Unmapping a page that translates makes it untranslatable if and only if the walk of `unmap_page` ends at an entry
      that the walk of `translate` reads. Without a huge page on the way it does. */
  lemma UnmapNeedsNoHuge(m: Memory, root: nat, virt: nat)
    requires Translate(m, root, virt).Some?
    ensures var t := LeafTable(m, root, 4, virt);
            Translate(Unmap(m, root, virt).1, root, virt) == None <==>
            t.Some? && ReadsAt(m, root, 4, virt, t.value, Index(virt, 1)).Some?
    ensures NoHuge(m, root, 4, virt) ==> Translate(Unmap(m, root, virt).1, root, virt) == None
  {
    var t, i := LeafTable(m, root, 4, virt), Index(virt, 1);
    UnmapEverywhere(m, root, virt, root, virt);
    if t.Some? && ReadsAt(m, root, 4, virt, t.value, i).Some? && PRESENT !in EntryAt(m, t.value, i).flags {
      WalkReadsAbsent(m, root, 4, virt, t.value, i);
    }
    if NoHuge(m, root, 4, virt) {
      TranslatesHasLeaf(m, root, 4, virt);
      NoHugeReads(m, root, 4, virt);
    }
  }

  /** After the entry of a page is written in its page table, the page goes through the new entry. */
  lemma LeafWritten(m: Memory, lay: Layout, places: Places, root: nat, t: nat, virt: nat, leaf: Entry)
    requires Tree(m, lay, places) && IsRoot(places, root) && Ordinary(virt) && NoHuge(m, root, 4, virt)
    requires LeafTable(m, root, 4, virt) == Some(t) && t in places && places[t] == At(lay.kernel, root, 1, virt)
    ensures var m' := SetEntry(m, t, Index(virt, 1), leaf);
            && ShapeKept(m, m', lay, places, places) && OthersKept(m, m', places, root, virt)
            && PageIs(m', root, virt, leaf) && LeafTable(m', root, 4, virt) == Some(t) && NoHuge(m', root, 4, virt)
  {
    var m' := SetEntry(m, t, Index(virt, 1), leaf);
    assert OnlyTable(m, m', places, t);
    PathKept(m, m', lay, places, root, root, virt, t);
    SetLeafStep(m, lay, places, root, t, virt, leaf);
    StepOthers(m, m', lay, places, root, virt);
    LeafTablePlace(m', lay, places, root, root, virt);
  }

  lemma {:induction false} PathKept(m: Memory, m': Memory, lay: Layout, places: Places, root: nat, f: nat, virt: nat, t: nat)
    requires Tree(m, lay, places) && f in places && Ordinary(virt)
    requires places[f] == At(lay.kernel, root, places[f].level, virt) && NoHuge(m, f, places[f].level, virt)
    requires t in places && places[t].level == 1 && OnlyTable(m, m', places, t)
    ensures NoHuge(m', f, places[f].level, virt)
    ensures LeafTable(m', f, places[f].level, virt) == LeafTable(m, f, places[f].level, virt)
    decreases places[f].level
  {
    var l := places[f].level;
    if l > 1 {
      var e := EntryAt(m, f, Index(virt, l));
      assert EntryAt(m', f, Index(virt, l)) == e;
      assert EntryFits(m, lay, places, f, Index(virt, l));
      if PRESENT in e.flags {
        ChildAt(lay.kernel, root, l, virt);
        PathKept(m, m', lay, places, root, e.frame, virt, t);
      }
    }
  }

  // ---- Demand paging ------------------------------------------------------------------------------

  /** All tables have the entries they had. */
  ghost predicate TablesSame(m: Memory, m': Memory, places: Places) {
    forall g, i :: g in places && 0 <= i < TABLE_LEN ==> EntryAt(m', g, i) == EntryAt(m, g, i)
  }

  lemma {:induction false} WalksSame(m: Memory, m': Memory, lay: Layout, places: Places, root: nat, f: nat, virt: nat)
    requires Tree(m, lay, places) && f in places && Ordinary(virt) && TablesSame(m, m', places)
    requires places[f] == At(lay.kernel, root, places[f].level, virt)
    ensures Walk(m', f, places[f].level, virt) == Walk(m, f, places[f].level, virt)
    ensures NoHuge(m, f, places[f].level, virt) ==>
              && NoHuge(m', f, places[f].level, virt)
              && LeafTable(m', f, places[f].level, virt) == LeafTable(m, f, places[f].level, virt)
    decreases places[f].level
  {
    var l := places[f].level;
    var e := EntryAt(m, f, Index(virt, l));
    assert EntryAt(m', f, Index(virt, l)) == e;
    assert EntryFits(m, lay, places, f, Index(virt, l));
    if l > 1 && PRESENT in e.flags && (l == 4 || HUGE_PAGE !in e.flags) {
      ChildAt(lay.kernel, root, l, virt);
      WalksSame(m, m', lay, places, root, e.frame, virt);
    }
  }

  /** A fresh frame may be taken and filled without any effect on the tables. */
  lemma FreshPage(m: Memory, m': Memory, lay: Layout, places: Places, f: nat)
    requires Tree(m, lay, places) && f < |m.frames.free| && m.frames.free[f]
    requires m'.frames.free == m.frames.free[f := false]
    requires m'.pages == m.pages || exists bytes :: m'.pages == m.pages[f := DataPage(bytes)]
    ensures TablesSame(m, m', places) && ShapeKept(m, m', lay, places, places) && AllKept(m, m', places)
  {
    assert f !in places;
    assert TablesSame(m, m', places);
    forall g, j | g in places && 0 <= j < TABLE_LEN
      ensures EntryFits(m', lay, places, g, j)
    {
      assert EntryFits(m, lay, places, g, j);
    }
    forall r, v | IsRoot(places, r) && Ordinary(v)
      ensures Translate(m', r, v) == Translate(m, r, v)
    {
      WalksSame(m, m', lay, places, r, r, v);
    }
  }

  lemma KeptCompose(m: Memory, m1: Memory, m2: Memory, lay: Layout, places: Places, places': Places, root: nat, virt: nat)
    requires ShapeKept(m, m1, lay, places, places) && AllKept(m, m1, places)
    requires ShapeKept(m1, m2, lay, places, places') && UsedKept(m, m1, places)
    ensures ShapeKept(m, m2, lay, places, places')
    ensures OthersKept(m1, m2, places, root, virt) ==> OthersKept(m, m2, places, root, virt)
    ensures AllKept(m1, m2, places) ==> AllKept(m, m2, places)
  {
    forall g | g in places' && g !in places
      ensures g < |m.frames.free| && m.frames.free[g]
    {
      assert m1.frames.free[g];
    }
    forall r, v | IsRoot(places, r) && Ordinary(v)
      ensures Translate(m1, r, v) == Translate(m, r, v)
    {
    }
  }

  /** The entry that a fault resolved: present, no longer reserved, executable, and every other flag as it was. */
  ghost predicate EntryResolved(m: Memory, m': Memory, root: nat, virt: nat) {
    var t, i := LeafTable(m, root, 4, virt), Index(virt, 1);
    && t.Some? && LeafTable(m', root, 4, virt) == t
    && var flags, flags' := EntryAt(m, t.value, i).flags, EntryAt(m', t.value, i).flags;
    && PRESENT in flags' && ON_DEMAND !in flags' && NO_EXECUTE !in flags'
    && forall b :: b !in {PRESENT, ON_DEMAND, NO_EXECUTE} && (b < 12 || 52 <= b) ==> (b in flags' <==> b in flags)
  }

  /** What a resolved fault leaves behind: the page maps a frame that was free and is now zeroed and used. */
  ghost predicate FaultResolved(m: Memory, m': Memory, root: nat, virt: nat, f: nat) {
    && f < |m.frames.free| == |m'.frames.free| && m.frames.free[f] && !m'.frames.free[f]
    && f in m'.pages && m'.pages[f] == DataPage(ZeroPage())
    && PageAt(m', root, virt, Some(f * 4096)) && EntryResolved(m, m', root, virt)
  }

  lemma ResolveExact(m: Memory, lay: Layout, places: Places, root: nat, virt: nat, t: nat)
    requires Tree(m, lay, places) && IsRoot(places, root) && Ordinary(virt) && NoHuge(m, root, 4, virt)
    requires LeafTable(m, root, 4, virt) == Some(t) && t in places && places[t] == At(lay.kernel, root, 1, virt)
    requires Pmm.Alloc(m.frames).0.Some?
    ensures var (f, frames) := Pmm.Alloc(m.frames);
            var m' := Resolve(m, t, Index(virt, 1), f.value, frames);
            && ShapeKept(m, m', lay, places, places) && OthersKept(m, m', places, root, virt)
            && FaultResolved(m, m', root, virt, f.value)
            && NoHuge(m', root, 4, virt) && LeafTable(m', root, 4, virt) == Some(t)
            && PRESENT in EntryAt(m', t, Index(virt, 1)).flags
  {
    var (a, frames) := Pmm.Alloc(m.frames);
    var f, i := a.value, Index(virt, 1);
    var m1 := Memory(m.pages[f := DataPage(ZeroPage())], frames);
    var leaf := SetAddress(f * 4096, FaultFlags(EntryAt(m, t, i).flags));
    FreshPage(m, m1, lay, places, f);
    FreshPath(m, m1, lay, places, root, virt, t);
    WriteAfterFresh(m, m1, lay, places, root, virt, t, leaf);
    FrameRoundTrip(f, FaultFlags(EntryAt(m, t, i).flags));
    LeafPageAt(SetEntry(m1, t, i, leaf), root, virt, leaf);
    FlagsResolved(EntryAt(m, t, i).flags);
  }

  lemma FlagsResolved(flags: Word)
    ensures var flags' := FlagBits(FaultFlags(flags));
            && PRESENT in flags' && ON_DEMAND !in flags' && NO_EXECUTE !in flags'
            && forall b :: b !in {PRESENT, ON_DEMAND, NO_EXECUTE} && (b < 12 || 52 <= b) ==> (b in flags' <==> b in flags)
  {
  }

  lemma FreshPath(m: Memory, m1: Memory, lay: Layout, places: Places, root: nat, virt: nat, t: nat)
    requires Tree(m, lay, places) && IsRoot(places, root) && Ordinary(virt) && NoHuge(m, root, 4, virt)
    requires LeafTable(m, root, 4, virt) == Some(t) && TablesSame(m, m1, places)
    ensures NoHuge(m1, root, 4, virt) && LeafTable(m1, root, 4, virt) == Some(t)
  {
    WalksSame(m, m1, lay, places, root, root, virt);
  }

  lemma WriteAfterFresh(m: Memory, m1: Memory, lay: Layout, places: Places, root: nat, virt: nat, t: nat, leaf: Entry)
    requires ShapeKept(m, m1, lay, places, places) && AllKept(m, m1, places) && IsRoot(places, root) && Ordinary(virt)
    requires NoHuge(m1, root, 4, virt) && LeafTable(m1, root, 4, virt) == Some(t)
    requires t in places && places[t] == At(lay.kernel, root, 1, virt)
    ensures var m' := SetEntry(m1, t, Index(virt, 1), leaf);
            && ShapeKept(m, m', lay, places, places) && OthersKept(m, m', places, root, virt)
            && PageIs(m', root, virt, leaf) && LeafTable(m', root, 4, virt) == Some(t) && NoHuge(m', root, 4, virt)
  {
    LeafWritten(m1, lay, places, root, t, virt, leaf);
    KeptCompose(m, m1, SetEntry(m1, t, Index(virt, 1), leaf), lay, places, places, root, virt);
  }

  /** Writing a page table keeps the permissions of the tables above it. */
  lemma {:induction false} GrantsKept(m: Memory, m': Memory, lay: Layout, places: Places, root: nat, f: nat, virt: nat, t: nat,
                                      want: Word, want': Word)
    requires Tree(m, lay, places) && f in places && Ordinary(virt)
    requires places[f] == At(lay.kernel, root, places[f].level, virt) && Grants(m, f, places[f].level, virt, want)
    requires t in places && places[t].level == 1 && OnlyTable(m, m', places, t)
    requires want' * {USER, WRITABLE} <= want
    ensures Grants(m', f, places[f].level, virt, want')
    decreases places[f].level
  {
    var l := places[f].level;
    if l > 1 {
      assert EntryAt(m', f, Index(virt, l)) == EntryAt(m, f, Index(virt, l));
      TableBelow(m, lay, places, root, f, virt);
      GrantsKept(m, m', lay, places, root, EntryAt(m, f, Index(virt, l)).frame, virt, t, want, want');
    }
  }

  /** `handle_fault` on an address without a huge page on the way: after success the page maps a fresh zeroed frame, no
      other translation changes, and a second fault on it is refused. A fault that fails changes nothing. */
  lemma FaultResolves(m: Memory, lay: Layout, places: Places, root: nat, virt: nat)
    requires Tree(m, lay, places) && IsRoot(places, root) && Ordinary(virt) && NoHuge(m, root, 4, virt)
    ensures var (r, m') := Fault(m, root, virt);
            if r.Err? then m' == m
            else
              && Translate(m, root, virt) == None
              && ShapeKept(m, m', lay, places, places) && OthersKept(m, m', places, root, virt)
              && (exists f: nat :: FaultResolved(m, m', root, virt, f))
              && NoHuge(m', root, 4, virt) && Fault(m', root, virt) == (Err(NotOnDemand), m')
  {
    LeafOfRoot(m, lay, places, root, virt);
    var leaf, alloc := LeafTable(m, root, 4, virt), Pmm.Alloc(m.frames);
    if leaf.Some? && Reserved(EntryAt(m, leaf.value, Index(virt, 1))) && alloc.0.Some? {
      ResolveExact(m, lay, places, root, virt, leaf.value);
    }
  }

  /** The walk of `handle_fault` ends at an entry that is marked as reserved. */
  predicate ReservedAt(m: Memory, root: nat, virt: nat) {
    var t := LeafTable(m, root, 4, virt);
    t.Some? && Reserved(EntryAt(m, t.value, Index(virt, 1)))
  }

  lemma FaultSucceeds(m: Memory, root: nat, virt: nat, leaf: Entry)
    requires LeafIs(m, root, 4, virt, leaf)
    ensures ReservedAt(m, root, virt) <==> Reserved(leaf)
    ensures Fault(m, root, virt).0.Ok? <==> Reserved(leaf) && Pmm.Alloc(m.frames).0.Some?
  {
  }

  /** The fault makes entry `i` of table `t` present: a walk that reads it at this level then translates. */
  predicate Opens(m: Memory, t: nat, i: nat, level: nat)
    requires i < TABLE_LEN
  {
    level == 1 || (level < 4 && HUGE_PAGE in EntryAt(m, t, i).flags)
  }

  /** `handle_fault` on any address, for any address in any space: a translation changes if and only if its walk reads
      the entry written at a level where that maps a page; it then appears, on the fresh frame. */
  lemma FaultEverywhere(m: Memory, lay: Layout, places: Places, root: nat, virt: nat, r: nat, v: nat)
    requires Tree(m, lay, places) && IsRoot(places, r) && Ordinary(v)
    ensures var (u, m') := Fault(m, root, virt);
            if u.Err? then m' == m
            else
              var t, i := LeafTable(m, root, 4, virt).value, Index(virt, 1);
              match ReadsAt(m, r, 4, v, t, i)
              case Some(k) =>
                && Translate(m, r, v) == None
                && Translate(m', r, v) ==
                   if Opens(m, t, i, k) then Some(Pmm.Alloc(m.frames).0.value * 4096 + v % Size(k)) else None
              case None => Translate(m', r, v) == Translate(m, r, v)
  {
    if Fault(m, root, virt).0.Ok? {
      var t, i := LeafTable(m, root, 4, virt).value, Index(virt, 1);
      var (a, frames) := Pmm.Alloc(m.frames);
      var m1 := Memory(m.pages[a.value := DataPage(ZeroPage())], frames);
      FreshPage(m, m1, lay, places, a.value);
      ReadsSame(m, m1, lay, places, r, r, v, t, i);
      if ReadsAt(m, r, 4, v, t, i).Some? {
        FaultHits(m, m1, lay, places, root, virt, r, v);
      } else if IsTable(m1, t) {
        WalkMissesWrite(m1, Fault(m, root, virt).1, r, 4, v, t, i);
      }
    }
  }

  lemma FaultHits(m: Memory, m1: Memory, lay: Layout, places: Places, root: nat, virt: nat, r: nat, v: nat)
    requires Tree(m, lay, places) && IsRoot(places, r) && Ordinary(v) && Fault(m, root, virt).0.Ok?
    requires var (a, frames) := Pmm.Alloc(m.frames); m1 == Memory(m.pages[a.value := DataPage(ZeroPage())], frames)
    requires var t, i := LeafTable(m, root, 4, virt).value, Index(virt, 1);
             ReadsAt(m, r, 4, v, t, i).Some? && ReadsAt(m1, r, 4, v, t, i) == ReadsAt(m, r, 4, v, t, i)
    ensures var t, i := LeafTable(m, root, 4, virt).value, Index(virt, 1);
            var k := ReadsAt(m, r, 4, v, t, i).value;
            && Translate(m, r, v) == None
            && Translate(Fault(m, root, virt).1, r, v) ==
               if Opens(m, t, i, k) then Some(Pmm.Alloc(m.frames).0.value * 4096 + v % Size(k)) else None
  {
    var t, i, f := LeafTable(m, root, 4, virt).value, Index(virt, 1), Pmm.Alloc(m.frames).0.value;
    ReadsTablesInUse(m, lay, places, r, r, v, t, i);
    WalkReadsAbsent(m, r, 4, v, t, i);
    FrameRoundTrip(f, FaultFlags(EntryAt(m, t, i).flags));
    WalkHitsWrite(m1, Fault(m, root, virt).1, r, 4, v, t, i);
  }

  lemma {:induction false} ReadsSame(m: Memory, m': Memory, lay: Layout, places: Places, root: nat, f: nat, virt: nat, t: nat, i: nat)
    requires Tree(m, lay, places) && f in places && Ordinary(virt) && TablesSame(m, m', places)
    requires places[f] == At(lay.kernel, root, places[f].level, virt)
    ensures ReadsAt(m', f, places[f].level, virt, t, i) == ReadsAt(m, f, places[f].level, virt, t, i)
    decreases places[f].level
  {
    var l := places[f].level;
    var e := EntryAt(m, f, Index(virt, l));
    assert EntryAt(m', f, Index(virt, l)) == e;
    if l > 1 && PRESENT in e.flags && !(l < 4 && HUGE_PAGE in e.flags) {
      TableBelow(m, lay, places, root, f, virt);
      ReadsSame(m, m', lay, places, root, e.frame, virt, t, i);
    }
  }

  /** `handle_fault` succeeds exactly when its walk ends at a reserved entry and a frame is free. A page that a fault
      succeeds on did not translate before if and only if no huge page is on the way; then it maps a fresh zeroed frame,
      no other translation changes, and a second fault on it is refused. Below a huge page it keeps all translations
      unless it took a table in use for its page table. */
  lemma FaultExact(m: Memory, lay: Layout, places: Places, root: nat, virt: nat)
    requires Tree(m, lay, places) && IsRoot(places, root) && Ordinary(virt)
    ensures var (r, m') := Fault(m, root, virt);
            && (r.Ok? <==> ReservedAt(m, root, virt) && Pmm.Alloc(m.frames).0.Some?)
            && (r.Err? ==> m' == m)
            && (r.Ok? ==> (Translate(m, root, virt) == None <==> NoHuge(m, root, 4, virt)))
            && (r.Ok? && NoHuge(m, root, 4, virt) ==>
                  && ShapeKept(m, m', lay, places, places) && OthersKept(m, m', places, root, virt)
                  && (exists f: nat :: FaultResolved(m, m', root, virt, f))
                  && Fault(m', root, virt) == (Err(NotOnDemand), m'))
            && (r.Ok? && LeafTable(m, root, 4, virt).value !in places ==> TablesSame(m, m', places) && AllKept(m, m', places))
  {
    var (r, m') := Fault(m, root, virt);
    if NoHuge(m, root, 4, virt) {
      FaultResolves(m, lay, places, root, virt);
    } else {
      HugeTranslates(m, root, 4, virt);
    }
    if r.Ok? && LeafTable(m, root, 4, virt).value !in places {
      FaultStrays(m, lay, places, root, virt);
    }
  }

  lemma FaultStrays(m: Memory, lay: Layout, places: Places, root: nat, virt: nat)
    requires Tree(m, lay, places) && Fault(m, root, virt).0.Ok? && LeafTable(m, root, 4, virt).value !in places
    ensures var m' := Fault(m, root, virt).1; TablesSame(m, m', places) && AllKept(m, m', places)
  {
    var m' := Fault(m, root, virt).1;
    forall s, v | IsRoot(places, s) && Ordinary(v)
      ensures Translate(m', s, v) == Translate(m, s, v)
    {
      FaultMisses(m, lay, places, root, virt, s, v);
    }
  }

  lemma FaultMisses(m: Memory, lay: Layout, places: Places, root: nat, virt: nat, r: nat, v: nat)
    requires Tree(m, lay, places) && IsRoot(places, r) && Ordinary(v)
    requires Fault(m, root, virt).0.Ok? && LeafTable(m, root, 4, virt).value !in places
    ensures Translate(Fault(m, root, virt).1, r, v) == Translate(m, r, v)
  {
    var t, i := LeafTable(m, root, 4, virt).value, Index(virt, 1);
    FaultEverywhere(m, lay, places, root, virt, r, v);
    if ReadsAt(m, r, 4, v, t, i).Some? {
      ReadsTablesInUse(m, lay, places, r, r, v, t, i);
    }
  }

  /** A reserved page does not translate; reserving it changes no other translation. */
  lemma ReserveExact(m: Memory, lay: Layout, places: Places, root: nat, virt: nat) returns (places': Places)
    requires Tree(m, lay, places) && IsRoot(places, root) && Ordinary(virt)
    ensures var (r, m') := Reserve(m, root, virt);
            && ShapeKept(m, m', lay, places, places')
            && (r.Err? ==> AllKept(m, m', places))
            && (r.Ok? ==>
                  && LeafIs(m', root, 4, virt, SetAddress(0, RESERVE_FLAGS))
                  && PageAt(m', root, virt, None) && OthersKept(m, m', places, root, virt))
  {
    places' := InstallAbsent(m, lay, places, root, virt, SetAddress(0, RESERVE_FLAGS), RESERVE_FLAGS);
  }

  /** Unmapping a page that is reserved, as ReserveExact leaves it, succeeds and answers address 0. */
  lemma UnmapReserved(m: Memory, root: nat, virt: nat)
    requires LeafIs(m, root, 4, virt, SetAddress(0, RESERVE_FLAGS))
    ensures Unmap(m, root, virt).0 == Ok(0)
  {
    ReserveFlagsReserve();
    UnmapSucceeds(m, root, virt);
  }

  lemma InstallAbsent(m: Memory, lay: Layout, places: Places, root: nat, virt: nat, leaf: Entry, want: Word)
    returns (places': Places)
    requires Tree(m, lay, places) && IsRoot(places, root) && Ordinary(virt) && PRESENT !in leaf.flags
    ensures var (r, m') := Install(m, root, 4, virt, leaf, want);
            && ShapeKept(m, m', lay, places, places')
            && (r.Err? ==> AllKept(m, m', places))
            && (r.Ok? ==>
                  && LeafIs(m', root, 4, virt, leaf)
                  && PageAt(m', root, virt, None) && OthersKept(m, m', places, root, virt))
  {
    var (r, m') := Install(m, root, 4, virt, leaf, want);
    places' := InstallExact(m, lay, places, root, virt, leaf, want);
    if r.Ok? {
      LeafPageAt(m', root, virt, leaf);
    }
  }

  lemma FaultThenUnmap(m: Memory, lay: Layout, places: Places, root: nat, virt: nat, leaf: Entry)
    requires Tree(m, lay, places) && IsRoot(places, root) && Ordinary(virt)
    requires LeafIs(m, root, 4, virt, leaf) && Reserved(leaf)
    ensures Fault(m, root, virt).0.Ok? <==> Pmm.Alloc(m.frames).0.Some?
    ensures Fault(m, root, virt).0.Ok? ==> Resolved(m, Fault(m, root, virt).1, places, root, virt)
  {
    FaultSucceeds(m, root, virt, leaf);
    FaultResolves(m, lay, places, root, virt);
    if Fault(m, root, virt).0.Ok? {
      UnmapAfterFault(m, Fault(m, root, virt).1, lay, places, root, virt);
    }
  }

  /** After the first fault of a page: it maps a fresh zeroed frame, a second fault is refused, and unmapping
      gives back that frame and leaves the page untranslatable; no other translation changes. */
  ghost predicate Resolved(m: Memory, m': Memory, places: Places, root: nat, virt: nat) {
    var (unmapped, m'') := Unmap(m', root, virt);
    && OthersKept(m, m', places, root, virt)
    && Fault(m', root, virt) == (Err(NotOnDemand), m')
    && (exists f: nat :: FaultResolved(m, m', root, virt, f) && unmapped == Ok(f * 4096))
    && PageAt(m'', root, virt, None) && OthersKept(m', m'', places, root, virt)
  }

  /** The life of a demand page: reserved, it does not translate; its first fault succeeds exactly while a
      frame is free, and then the page is as Resolved says. */
  lemma LifeCycle(m: Memory, lay: Layout, places: Places, root: nat, virt: nat)
    requires Tree(m, lay, places) && IsRoot(places, root) && Ordinary(virt)
    requires Reserve(m, root, virt).0.Ok?
    ensures var m1 := Reserve(m, root, virt).1;
            && PageAt(m1, root, virt, None) && OthersKept(m, m1, places, root, virt)
            && (Fault(m1, root, virt).0.Ok? <==> Pmm.Alloc(m1.frames).0.Some?)
            && (Fault(m1, root, virt).0.Ok? ==>
                  Resolved(m1, Fault(m1, root, virt).1, places, root, virt) && UserWritable(Fault(m1, root, virt).1, root, virt))
  {
    var m1 := Reserve(m, root, virt).1;
    var places1 := ReserveExact(m, lay, places, root, virt);
    ReserveFlagsReserve();
    FaultThenUnmap(m1, lay, places1, root, virt, SetAddress(0, RESERVE_FLAGS));
    var m2 := Fault(m1, root, virt).1;
    if Fault(m1, root, virt).0.Ok? {
      FewerPlaces(m1, m2, places, places1, root, virt);
      FewerPlaces(m2, Unmap(m2, root, virt).1, places, places1, root, virt);
      MapRights(m, lay, places, root, virt, SetAddress(0, RESERVE_FLAGS), RESERVE_FLAGS);
      FaultRights(m1, lay, places1, root, virt);
    }
  }

  lemma FaultWrites(m: Memory, lay: Layout, places: Places, root: nat, virt: nat)
    requires Tree(m, lay, places) && Fault(m, root, virt).0.Ok? && LeafTable(m, root, 4, virt).value in places
    ensures var t, m' := LeafTable(m, root, 4, virt).value, Fault(m, root, virt).1;
            && OnlyTable(m, m', places, t)
            && EntryAt(m', t, Index(virt, 1)).flags == FlagBits(FaultFlags(EntryAt(m, t, Index(virt, 1)).flags))
  {
    var (a, frames) := Pmm.Alloc(m.frames);
    assert a.value !in places;
  }

  /** A fault gives the page the rights of its reservation. */
  lemma FaultRights(m: Memory, lay: Layout, places: Places, root: nat, virt: nat)
    requires Tree(m, lay, places) && IsRoot(places, root) && Ordinary(virt)
    requires LeafIs(m, root, 4, virt, SetAddress(0, RESERVE_FLAGS)) && Grants(m, root, 4, virt, RESERVE_FLAGS)
    requires Fault(m, root, virt).0.Ok?
    ensures UserWritable(Fault(m, root, virt).1, root, virt)
  {
    var m', flags := Fault(m, root, virt).1, FaultFlags(FlagBits(RESERVE_FLAGS));
    var t := LeafTable(m, root, 4, virt).value;
    LeafOfRoot(m, lay, places, root, virt);
    FaultWrites(m, lay, places, root, virt);
    GrantsKept(m, m', lay, places, root, root, virt, t, RESERVE_FLAGS, flags);
    PathKept(m, m', lay, places, root, root, virt, t);
    FlagsAllow(m', root, 4, virt, flags);
  }

  lemma ReserveFlagsReserve()
    ensures Reserved(SetAddress(0, RESERVE_FLAGS))
  {
  }

  lemma FewerPlaces(m: Memory, m': Memory, places: Places, places': Places, root: nat, virt: nat)
    requires OthersKept(m, m', places', root, virt) && forall g :: g in places ==> g in places' && places'[g] == places[g]
    ensures OthersKept(m, m', places, root, virt)
  {
    forall r, v | IsRoot(places, r) && Ordinary(v) && !(SamePage(v, virt) && (r == root || Index(v, 4) >= KERNEL_HALF))
      ensures Translate(m', r, v) == Translate(m, r, v)
    {
      assert IsRoot(places', r);
    }
  }

  lemma UnmapAfterFault(m1: Memory, m2: Memory, lay: Layout, places: Places, root: nat, virt: nat)
    requires Tree(m2, lay, places) && IsRoot(places, root) && Ordinary(virt) && NoHuge(m2, root, 4, virt)
    requires exists f: nat :: FaultResolved(m1, m2, root, virt, f)
    ensures var (unmapped, m3) := Unmap(m2, root, virt);
            && (exists f: nat :: FaultResolved(m1, m2, root, virt, f) && unmapped == Ok(f * 4096))
            && PageAt(m3, root, virt, None) && OthersKept(m2, m3, places, root, virt)
  {
    var f: nat :| FaultResolved(m1, m2, root, virt, f);
    PageBase(m2, root, virt, f * 4096);
    UnmapClears(m2, lay, places, root, virt);
  }

  lemma PageBase(m: Memory, root: nat, virt: nat, base: nat)
    requires PageAt(m, root, virt, Some(base))
    ensures Translate(m, root, virt) == Some(base + virt % 4096)
  {
    assert SamePage(virt, virt);
  }

  // ---- New address spaces -------------------------------------------------------------------------

  lemma SpaceTree(m: Memory, lay: Layout, places: Places)
    requires Tree(m, lay, places) && Pmm.Alloc(m.frames).0.Some?
    ensures var (a, m') := CreateSpace(m, lay.kernel);
            var f := a.value;
            && f !in places && TablesSame(m, m', places)
            && Tree(m', Layout(lay.kernel, lay.flat + {f}), places[f := Place(f, 4, 0)])
            && Grown(m, places, places[f := Place(f, 4, 0)]) && UsedKept(m, m', places)
  {
    var (a, m') := CreateSpace(m, lay.kernel);
    var f := a.value;
    var lay', places' := Layout(lay.kernel, lay.flat + {f}), places[f := Place(f, 4, 0)];
    assert f !in places;
    assert TablesSame(m, m', places);
    forall g, j | g in places' && 0 <= j < TABLE_LEN
      ensures EntryFits(m', lay', places', g, j)
    {
      assert EntryFits(m, lay, places, if g == f then lay.kernel else g, j);
    }
  }

  /** `create_user_page_table`: outside the recursive slot the new space translates the kernel half as the
      kernel does and nothing in the user half, and no existing translation changes. */
  lemma CreateSpaceExact(m: Memory, lay: Layout, places: Places)
    requires Tree(m, lay, places)
    ensures var (a, m') := CreateSpace(m, lay.kernel);
            if a.None? then m' == m
            else
              var f := a.value;
              var lay', places' := Layout(lay.kernel, lay.flat + {f}), places[f := Place(f, 4, 0)];
              && f !in places && Tree(m', lay', places') && Grown(m, places, places') && IsRoot(places', f)
              && AllKept(m, m', places)
              && (forall v :: Ordinary(v) ==>
                    Translate(m', f, v) ==
                    if Index(v, 4) >= KERNEL_HALF then Translate(m, lay.kernel, v) else None)
  {
    var (a, m') := CreateSpace(m, lay.kernel);
    if a.Some? {
      SpaceTree(m, lay, places);
      forall r, v | IsRoot(places, r) && Ordinary(v)
        ensures Translate(m', r, v) == Translate(m, r, v)
      {
        WalksSame(m, m', lay, places, r, r, v);
      }
      forall v | Ordinary(v)
        ensures Translate(m', a.value, v) == if Index(v, 4) >= KERNEL_HALF then Translate(m, lay.kernel, v) else None
      {
        NewSpaceWalk(m, m', lay, places, a.value, v);
      }
    }
  }

  lemma NewSpaceWalk(m: Memory, m': Memory, lay: Layout, places: Places, f: nat, v: nat)
    requires Tree(m, lay, places) && CreateSpace(m, lay.kernel) == (Some(f), m') && TablesSame(m, m', places) && Ordinary(v)
    ensures Walk(m', f, 4, v) == if Index(v, 4) >= KERNEL_HALF then Walk(m, lay.kernel, 4, v) else None
  {
    var i := Index(v, 4);
    var e := EntryAt(m, lay.kernel, i);
    assert EntryFits(m, lay, places, lay.kernel, i);
    assert EntryAt(m', f, i) == if i >= KERNEL_HALF && PRESENT in e.flags then e else EMPTY;
    if i >= KERNEL_HALF && PRESENT in e.flags {
      ChildAt(lay.kernel, lay.kernel, 4, v);
      WalksSame(m, m', lay, places, lay.kernel, e.frame, v);
    }
  }

  lemma {:induction false} AllowedSame(m: Memory, m': Memory, lay: Layout, places: Places, root: nat, f: nat, virt: nat)
    requires Tree(m, lay, places) && f in places && Ordinary(virt) && TablesSame(m, m', places)
    requires places[f] == At(lay.kernel, root, places[f].level, virt)
    ensures Allowed(m', f, places[f].level, virt) == Allowed(m, f, places[f].level, virt)
    decreases places[f].level
  {
    var l := places[f].level;
    var e := EntryAt(m, f, Index(virt, l));
    assert EntryAt(m', f, Index(virt, l)) == e;
    if PRESENT in e.flags && !Stops(e, l) {
      TableBelow(m, lay, places, root, f, virt);
      AllowedSame(m, m', lay, places, root, e.frame, virt);
    }
  }

  /** A new space allows in the kernel half what the kernel's own tables allow; its recursive slot leads back to it and is
      closed to users and to execution. */
  lemma NewSpaceRights(m: Memory, lay: Layout, places: Places, v: nat)
    requires Tree(m, lay, places) && CreateSpace(m, lay.kernel).0.Some? && Ordinary(v)
    ensures var (a, m') := CreateSpace(m, lay.kernel);
            var self := EntryAt(m', a.value, RECURSIVE);
            && Allowed(m', a.value, 4, v) == (if Index(v, 4) >= KERNEL_HALF then Allowed(m, lay.kernel, 4, v) else None)
            && self.frame == a.value && PRESENT in self.flags && Own(self) == Access(false, true, false)
  {
    var (a, m') := CreateSpace(m, lay.kernel);
    var i := Index(v, 4);
    var e := EntryAt(m, lay.kernel, i);
    SpaceTree(m, lay, places);
    FrameRoundTrip(a.value, {PRESENT, WRITABLE, NO_EXECUTE});
    assert EntryFits(m, lay, places, lay.kernel, i);
    assert EntryAt(m', a.value, i) == if i >= KERNEL_HALF && PRESENT in e.flags then e else EMPTY;
    if i >= KERNEL_HALF && PRESENT in e.flags {
      ChildAt(lay.kernel, lay.kernel, 4, v);
      AllowedSame(m, m', lay, places, lay.kernel, e.frame, v);
    }
  }

  // ---- Isolation ----------------------------------------------------------------------------------

  datatype Op =
    | DoMap(virt: nat, phys: nat, flags: Word)
    | DoMapFresh(virt: nat)
    | DoReserve(virt: nat)
    | DoFault(virt: nat)
    | DoUnmap(virt: nat)

  /** An operation in an address space, or the birth of one. */
  datatype Event = Event(space: nat, op: Op) | Birth

  function Perform(m: Memory, kernel: nat, e: Event): Memory {
    match e
    case Birth => if IsTable(m, kernel) then CreateSpace(m, kernel).1 else m
    case Event(space, DoFault(virt)) => Fault(m, space, virt).1
    case Event(space, DoUnmap(virt)) => Unmap(m, space, virt).1
    case Event(space, DoMap(virt, phys, flags)) => if IsTable(m, space) then Map(m, space, virt, phys, flags).1 else m
    case Event(space, DoMapFresh(virt)) => if IsTable(m, space) then MapFresh(m, space, virt).1 else m
    case Event(space, DoReserve(virt)) => if IsTable(m, space) then Reserve(m, space, virt).1 else m
  }

  /** The user spaces after an event. */
  function SpacesAfter(m: Memory, kernel: nat, spaces: set<nat>, e: Event): set<nat> {
    if e.Birth? && IsTable(m, kernel) && CreateSpace(m, kernel).0.Some? then spaces + {CreateSpace(m, kernel).0.value} else spaces
  }

  function PerformAll(m: Memory, kernel: nat, events: seq<Event>): Memory
    decreases |events|
  {
    if events == [] then m else PerformAll(Perform(m, kernel, events[0]), kernel, events[1..])
  }

  /** The event is a birth, or in the user half of one of these spaces. */
  predicate UserEvent(spaces: set<nat>, e: Event) {
    e.Birth? || (e.space in spaces && Index(e.op.virt, 4) < KERNEL_HALF)
  }

  /** Every event is in the user half of a space born by then, and none in space `r`. */
  predicate UserRun(m: Memory, kernel: nat, spaces: set<nat>, events: seq<Event>, r: nat)
    decreases |events|
  {
    events == [] ||
    var e := events[0];
    && UserEvent(spaces, e) && (e.Event? ==> e.space != r)
    && UserRun(Perform(m, kernel, e), kernel, SpacesAfter(m, kernel, spaces, e), events[1..], r)
  }

  /** The user spaces are roots without huge pages in their user half. */
  predicate SpacesOk(lay: Layout, places: Places, spaces: set<nat>) {
    forall s :: s in spaces ==> IsRoot(places, s) && s in lay.flat
  }

  /** Every translation in every space other than `space` is kept. */
  ghost predicate OtherSpacesKept(m: Memory, m': Memory, places: Places, space: nat) {
    forall r, v :: IsRoot(places, r) && r != space && Ordinary(v) ==> Translate(m', r, v) == Translate(m, r, v)
  }

  lemma UserPageOthers(m: Memory, m': Memory, places: Places, space: nat, virt: nat)
    requires OthersKept(m, m', places, space, virt) && Index(virt, 4) < KERNEL_HALF
    ensures OtherSpacesKept(m, m', places, space)
  {
    forall r, v | IsRoot(places, r) && r != space && Ordinary(v)
      ensures Translate(m', r, v) == Translate(m, r, v)
    {
      if SamePage(v, virt) {
        PageNumber(v);
        PageNumber(virt);
        PrefixIndexes(v, virt, 0);
      }
    }
  }

  lemma InstallIsolated(m: Memory, lay: Layout, places: Places, space: nat, virt: nat, leaf: Entry, want: Word)
    returns (places': Places)
    requires Tree(m, lay, places) && IsRoot(places, space) && Index(virt, 4) < KERNEL_HALF
    ensures var m' := Install(m, space, 4, virt, leaf, want).1;
            ShapeKept(m, m', lay, places, places') && OtherSpacesKept(m, m', places, space)
  {
    var (r, m') := Install(m, space, 4, virt, leaf, want);
    places' := InstallExact(m, lay, places, space, virt, leaf, want);
    if r.Ok? {
      UserPageOthers(m, m', places, space, virt);
    }
  }

  lemma MapFreshIsolated(m: Memory, lay: Layout, places: Places, space: nat, virt: nat) returns (places': Places)
    requires Tree(m, lay, places) && IsRoot(places, space) && Index(virt, 4) < KERNEL_HALF
    ensures var m' := MapFresh(m, space, virt).1;
            ShapeKept(m, m', lay, places, places') && OtherSpacesKept(m, m', places, space)
  {
    var (a, frames) := Pmm.Alloc(m.frames);
    if a.None? {
      places' := places;
    } else {
      var m1 := Memory(m.pages, frames);
      var leaf := SetAddress(a.value * 4096, MapFlags(true));
      FreshPage(m, m1, lay, places, a.value);
      places' := InstallIsolated(m1, lay, places, space, virt, leaf, MapFlags(true));
      KeptCompose(m, m1, MapFresh(m, space, virt).1, lay, places, places', space, virt);
    }
  }

  /** An event in the user half of one space keeps every translation in every other. */
  lemma EventIsolated(m: Memory, lay: Layout, places: Places, space: nat, op: Op) returns (places': Places)
    requires Tree(m, lay, places) && IsRoot(places, space) && space in lay.flat && Index(op.virt, 4) < KERNEL_HALF
    ensures var m' := Perform(m, lay.kernel, Event(space, op));
            ShapeKept(m, m', lay, places, places') && OtherSpacesKept(m, m', places, space)
  {
    var virt, m' := op.virt, Perform(m, lay.kernel, Event(space, op));
    places' := places;
    match op
    case DoMap(_, phys, flags) =>
      places' := InstallIsolated(m, lay, places, space, virt, SetAddress(phys, flags), flags);
    case DoReserve(_) =>
      places' := InstallIsolated(m, lay, places, space, virt, SetAddress(0, RESERVE_FLAGS), RESERVE_FLAGS);
    case DoMapFresh(_) =>
      places' := MapFreshIsolated(m, lay, places, space, virt);
    case DoFault(_) =>
      FlatNoHuge(m, lay, places, space, space, virt);
      FaultResolves(m, lay, places, space, virt);
      if Fault(m, space, virt).0.Ok? {
        UserPageOthers(m, m', places, space, virt);
      }
    case DoUnmap(_) =>
      FlatNoHuge(m, lay, places, space, space, virt);
      UnmapClears(m, lay, places, space, virt);
      if Unmap(m, space, virt).0.Ok? {
        UserPageOthers(m, m', places, space, virt);
      }
  }

  /** One event of a run, a birth included: the shape stays, and so do all translations in `r`. */
  lemma EventStep(m: Memory, lay: Layout, places: Places, spaces: set<nat>, e: Event, r: nat, v: nat)
    returns (lay': Layout, places': Places)
    requires Tree(m, lay, places) && SpacesOk(lay, places, spaces) && IsRoot(places, r) && Ordinary(v)
    requires UserEvent(spaces, e) && (e.Event? ==> e.space != r)
    ensures var m' := Perform(m, lay.kernel, e);
            && Tree(m', lay', places') && lay'.kernel == lay.kernel && IsRoot(places', r)
            && SpacesOk(lay', places', SpacesAfter(m, lay.kernel, spaces, e))
            && Translate(m', r, v) == Translate(m, r, v)
  {
    lay', places' := lay, places;
    if e.Birth? {
      CreateSpaceExact(m, lay, places);
      var a := CreateSpace(m, lay.kernel).0;
      if a.Some? {
        lay', places' := Layout(lay.kernel, lay.flat + {a.value}), places[a.value := Place(a.value, 4, 0)];
      }
    } else {
      places' := EventIsolated(m, lay, places, e.space, e.op);
    }
  }

  /** Over every run of births and user-half events in any spaces other than `r`, no translation in `r` changes. */
  lemma {:induction false} RunIsolated(m: Memory, lay: Layout, places: Places, spaces: set<nat>, events: seq<Event>, r: nat, v: nat)
    requires Tree(m, lay, places) && SpacesOk(lay, places, spaces) && IsRoot(places, r) && Ordinary(v)
    requires UserRun(m, lay.kernel, spaces, events, r)
    ensures Translate(PerformAll(m, lay.kernel, events), r, v) == Translate(m, r, v)
    decreases |events|
  {
    if events != [] {
      var lay', places' := EventStep(m, lay, places, spaces, events[0], r, v);
      RunIsolated(Perform(m, lay.kernel, events[0]), lay', places', SpacesAfter(m, lay.kernel, spaces, events[0]), events[1..], r, v);
    }
  }

  /** A kernel root as `new` leaves an empty one: with its recursive slot only. */
  function Boot(root: nat, frames: Pmm.Frames): Memory {
    Memory(map[root := TablePage(EmptyTable()[RECURSIVE := SetAddress(root * 4096, {PRESENT, WRITABLE, NO_EXECUTE})])], frames)
  }

  /** It is where runs can start. */
  lemma BootTree(root: nat, frames: Pmm.Frames)
    requires root < |frames.free| <= FRAMES && !frames.free[root]
    ensures var lay, places := Layout(root, {}), map[root := Place(root, 4, 0)];
            Tree(Boot(root, frames), lay, places) && IsRoot(places, root) && SpacesOk(lay, places, {})
  {
  }

  /** The user spaces after a run. */
  function SpacesAfterAll(m: Memory, kernel: nat, spaces: set<nat>, events: seq<Event>): set<nat>
    decreases |events|
  {
    if events == [] then spaces
    else SpacesAfterAll(Perform(m, kernel, events[0]), kernel, SpacesAfter(m, kernel, spaces, events[0]), events[1..])
  }

  /** The shape stays over every run. */
  lemma {:induction false} RunTree(m: Memory, lay: Layout, places: Places, spaces: set<nat>, events: seq<Event>)
    returns (lay': Layout, places': Places)
    requires Tree(m, lay, places) && SpacesOk(lay, places, spaces) && UserRun(m, lay.kernel, spaces, events, lay.kernel)
    ensures Tree(PerformAll(m, lay.kernel, events), lay', places') && lay'.kernel == lay.kernel
    ensures SpacesOk(lay', places', SpacesAfterAll(m, lay.kernel, spaces, events))
    decreases |events|
  {
    lay', places' := lay, places;
    if events != [] {
      var lay1, places1 := EventStep(m, lay, places, spaces, events[0], lay.kernel, 0);
      lay', places' := RunTree(Perform(m, lay.kernel, events[0]), lay1, places1, SpacesAfter(m, lay.kernel, spaces, events[0]), events[1..]);
    }
  }

  /** From boot: after any run, any further run in other spaces keeps the translations of a space born in it. */
  lemma BootIsolated(root: nat, frames: Pmm.Frames, before: seq<Event>, after: seq<Event>, r: nat, v: nat)
    requires root < |frames.free| <= FRAMES && !frames.free[root] && Ordinary(v)
    requires var m := Boot(root, frames);
             && UserRun(m, root, {}, before, root)
             && r in SpacesAfterAll(m, root, {}, before)
             && UserRun(PerformAll(m, root, before), root, SpacesAfterAll(m, root, {}, before), after, r)
    ensures var m := PerformAll(Boot(root, frames), root, before);
            Translate(PerformAll(m, root, after), r, v) == Translate(m, r, v)
  {
    BootTree(root, frames);
    var m := Boot(root, frames);
    var lay, places := RunTree(m, Layout(root, {}), map[root := Place(root, 4, 0)], {}, before);
    RunIsolated(PerformAll(m, root, before), lay, places, SpacesAfterAll(m, root, {}, before), after, r, v);
  }
}
