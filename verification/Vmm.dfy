/** The virtual memory manager: physical memory as frames that hold a page table or data, and the page-table
    operations as functions on it. The direct map of physical memory is the identity, so a physical address
    is `frame * 4096 + offset` and a table is named by its frame. */
module Vmm {
  import opened Wrappers
  import opened Bits
  import opened Paging
  import Pmm

  /** The PML4 slot that maps the PML4 itself. */
  const RECURSIVE: nat := 510
  /** PML4 slots from here up belong to the kernel and are shared by all address spaces. */
  const KERNEL_HALF: nat := 256


  datatype Page = TablePage(entries: Table) | DataPage(bytes: seq<Byte>)

  datatype Memory = Memory(pages: map<nat, Page>, frames: Pmm.Frames)

  datatype Error = OutOfMemory | UnexpectedHugePage | NotPresent | NotOnDemand

  function EmptyTable(): (t: Table)
    ensures forall i :: 0 <= i < TABLE_LEN ==> t[i] == EMPTY
  {
    seq(TABLE_LEN, _ => EMPTY)
  }

  function ZeroPage(): (b: seq<Byte>)
    ensures |b| == 4096 && forall i :: 0 <= i < 4096 ==> b[i] == 0
  {
    seq(4096, _ => 0)
  }

  // ---- Reading and writing entries ----------------------------------------------------------------

  predicate IsTable(m: Memory, f: nat) {
    f in m.pages && m.pages[f].TablePage?
  }

  function EntryAt(m: Memory, f: nat, i: nat): Entry
    requires i < TABLE_LEN
  {
    if IsTable(m, f) then m.pages[f].entries[i] else EMPTY
  }

  function SetEntry(m: Memory, f: nat, i: nat, e: Entry): (r: Memory)
    requires IsTable(m, f) && i < TABLE_LEN
    ensures forall g: nat :: IsTable(m, g) <==> IsTable(r, g)
    ensures EntryAt(r, f, i) == e
    ensures forall g: nat, j: nat :: j < TABLE_LEN && (g != f || j != i) ==> EntryAt(r, g, j) == EntryAt(m, g, j)
  {
    Memory(m.pages[f := TablePage(m.pages[f].entries[i := e])], m.frames)
  }

  /** Where `translate` ends up from table `f` of level `l`. */
  function Walk(m: Memory, f: nat, l: nat, virt: nat): Option<nat>
    requires 1 <= l <= 4
    decreases l, m
  {
    var e := EntryAt(m, f, Index(virt, l));
    if PRESENT !in e.flags then None
    else if l == 1 || (l < 4 && HUGE_PAGE in e.flags) then Some(e.frame * 4096 + virt % Size(l))
    else Walk(m, e.frame, l - 1, virt)
  }

  function Translate(m: Memory, root: nat, virt: nat): Option<nat> {
    Walk(m, root, 4, virt)
  }

  // ---- Creating tables ----------------------------------------------------------------------------

  /** Flags of an entry that points to a table. */
  function TableFlags(want: Word): Word {
    {PRESENT, WRITABLE} + want * {USER}
  }

  /** The permissions that every table on the way to a page must have. */
  function Needed(want: Word): Word {
    want * {USER, WRITABLE}
  }

  /** The 512 smaller pages that replace a huge page in an entry of a level-`l` table. */
  function SplitTable(e: Entry, want: Word, l: nat): Table
    requires 2 <= l <= 3
  {
    seq(TABLE_LEN, i requires 0 <= i < TABLE_LEN => SetAddress(e.frame * 4096 + i * Size(l - 1), SplitFlags(e, want, l)))
  }

  function SplitFlags(e: Entry, want: Word, l: nat): Word {
    (e.flags + Needed(want)) - {HUGE_PAGE} + (if l == 3 then {HUGE_PAGE} else {})
  }

  /** A fresh frame becomes `table` and entry `i` of `parent` points to it. */
  function AddTable(m: Memory, parent: nat, i: nat, want: Word, table: Table): (Result<nat, Error>, Memory)
    requires IsTable(m, parent) && i < TABLE_LEN
  {
    match Pmm.Alloc(m.frames)
    case (None, _) => (Err(OutOfMemory), m)
    case (Some(f), frames) =>
      var m' := Memory(m.pages[f := TablePage(table)], frames);
      (Ok(f), SetEntry(m', parent, i, SetAddress(f * 4096, TableFlags(want))))
  }

  /** `get_or_create_table` for entry `i` of the level-`l` table `parent`. */
  function GetOrCreate(m: Memory, parent: nat, i: nat, want: Word, l: nat): (Result<nat, Error>, Memory)
    requires IsTable(m, parent) && i < TABLE_LEN && 2 <= l <= 4
  {
    var e := EntryAt(m, parent, i);
    if PRESENT !in e.flags then AddTable(m, parent, i, want, EmptyTable())
    else if HUGE_PAGE in e.flags then
      if l == 4 then (Err(UnexpectedHugePage), m) else AddTable(m, parent, i, want, SplitTable(e, want, l))
    else
      (Ok(e.frame), if Needed(want) <= e.flags then m
                    else SetEntry(m, parent, i, SetAddress(e.frame * 4096, e.flags + Needed(want))))
  }

  /** The walk of the mapping functions: tables are created with the flags `want`, and the page's entry
      becomes `leaf`. */
  function Install(m: Memory, f: nat, l: nat, virt: nat, leaf: Entry, want: Word): (Result<(), Error>, Memory)
    requires IsTable(m, f) && 1 <= l <= 4
    decreases l, m
  {
    if l == 1 then (Ok(()), SetEntry(m, f, Index(virt, 1), leaf))
    else
      match GetOrCreate(m, f, Index(virt, l), want, l)
      case (Err(e), m') => (Err(e), m')
      case (Ok(g), m') => if IsTable(m', g) then Install(m', g, l - 1, virt, leaf, want) else (Err(NotPresent), m')
  }

  // ---- The shape of the tables --------------------------------------------------------------------

  /** The place of a table: whose it is, its level, and the indexes that lead to it. A root belongs to
      itself, a table below the kernel half to the kernel, a table below the user half to its root. */
  datatype Place = Place(owner: nat, level: nat, prefix: nat)

  function Child(kernel: nat, p: Place, i: nat): Place
    requires p.level > 0
  {
    Place(if p.level == 4 && i >= KERNEL_HALF then kernel else p.owner, p.level - 1, p.prefix * 512 + i)
  }

  /** The place of the level-`l` table on the walk of `virt` from `root`; for `l` = 0, of the page itself. */
  function At(kernel: nat, root: nat, l: nat, virt: nat): Place
    requires l <= 4
  {
    Place(if l == 4 || Index(virt, 4) < KERNEL_HALF then root else kernel, l, Prefix(virt, l))
  }

  lemma ChildAt(kernel: nat, root: nat, l: nat, virt: nat)
    requires 1 <= l <= 4
    ensures Child(kernel, At(kernel, root, l, virt), Index(virt, l)) == At(kernel, root, l - 1, virt)
  {
  }

  /** Two addresses are on the same page of the same address space, or on the same shared kernel page. */
  lemma PagesOf(kernel: nat, r: nat, virt: nat, r': nat, virt': nat)
    ensures At(kernel, r, 0, virt) == At(kernel, r', 0, virt')
       <==> SamePage(virt, virt') && (r == r' || Index(virt, 4) >= KERNEL_HALF)
  {
    PageNumber(virt);
    PageNumber(virt');
    if SamePage(virt, virt') {
      PrefixIndexes(virt, virt', 0);
    }
  }

  type Places = map<nat, Place>

  /** The kernel's root, and the spaces known to have no huge page below their user half. */
  datatype Layout = Layout(kernel: nat, flat: set<nat>)

  /** Entry `i` of table `f` fits the place of `f`: it is absent, or a huge page that ends below 2^52, or
      points to a table with the place below. */
  ghost predicate EntryFits(m: Memory, lay: Layout, places: Places, f: nat, i: nat)
    requires f in places && i < TABLE_LEN
  {
    var p, e := places[f], EntryAt(m, f, i);
    1 < p.level <= 4 && PRESENT in e.flags && !(p.level == 4 && i == RECURSIVE) ==>
      if p.level < 4 && HUGE_PAGE in e.flags then p.owner !in lay.flat && e.frame * 4096 + Size(p.level) <= PHYS_LIMIT
      else e.frame in places && places[e.frame] == Child(lay.kernel, p, i)
  }

  /** Every table has one place only, is marked used, and its entries fit. As `places` is a map from
      frames, no table can be reached in two ways. */
  ghost predicate Tree(m: Memory, lay: Layout, places: Places) {
    && |m.frames.free| <= FRAMES && IsRoot(places, lay.kernel)
    && (forall f :: f in places ==>
          && IsTable(m, f) && f < |m.frames.free| && !m.frames.free[f]
          && IsRoot(places, places[f].owner) && 1 <= places[f].level <= 4 && (places[f].level == 4 ==> places[f] == Place(f, 4, 0)))
    && (forall f, i :: f in places && 0 <= i < TABLE_LEN ==> EntryFits(m, lay, places, f, i))
  }

  predicate IsRoot(places: Places, r: nat) {
    r in places && places[r].level == 4
  }

  /** The addresses whose translation the theorems speak of: those outside the recursive slot. */
  predicate Ordinary(virt: nat) {
    Index(virt, 4) != RECURSIVE
  }

  /** No address translates differently in any address space, except those of page `page`. */
  ghost predicate SameExcept(m: Memory, m': Memory, lay: Layout, places: Places, page: Option<Place>) {
    forall r, virt :: IsRoot(places, r) && Ordinary(virt) && Some(At(lay.kernel, r, 0, virt)) != page ==>
      Translate(m', r, virt) == Translate(m, r, virt)
  }

  /** The entries of all tables but `f0` are as before. */
  ghost predicate OnlyTable(m: Memory, m': Memory, places: Places, f0: nat) {
    forall g, i :: g in places && g != f0 && 0 <= i < TABLE_LEN ==> EntryAt(m', g, i) == EntryAt(m, g, i)
  }

  // ---- Walks and changes to one table -------------------------------------------------------------

  /** A walk that is already below the level of the changed table does not meet it. */
  lemma {:induction false} WalkBelow(m: Memory, m': Memory, lay: Layout, places: Places, f0: nat, f: nat, virt: nat)
    requires Tree(m, lay, places) && f0 in places && f in places && places[f].level < places[f0].level
    requires OnlyTable(m, m', places, f0)
    ensures Walk(m', f, places[f].level, virt) == Walk(m, f, places[f].level, virt)
    decreases places[f].level
  {
    var l := places[f].level;
    var e := EntryAt(m, f, Index(virt, l));
    assert EntryAt(m', f, Index(virt, l)) == e;
    assert EntryFits(m, lay, places, f, Index(virt, l));
    if l > 1 && PRESENT in e.flags && HUGE_PAGE !in e.flags {
      WalkBelow(m, m', lay, places, f0, e.frame, virt);
    }
  }

  /** The table an entry on the walk of `virt` points to is the one of the place below. */
  lemma TableBelow(m: Memory, lay: Layout, places: Places, root: nat, f: nat, virt: nat)
    requires Tree(m, lay, places) && f in places && Ordinary(virt) && places[f].level > 1
    requires places[f] == At(lay.kernel, root, places[f].level, virt)
    requires var l := places[f].level; var e := EntryAt(m, f, Index(virt, l));
             PRESENT in e.flags && !(l < 4 && HUGE_PAGE in e.flags)
    ensures var l := places[f].level; var g := EntryAt(m, f, Index(virt, l)).frame;
            g in places && places[g] == At(lay.kernel, root, l - 1, virt)
  {
    assert EntryFits(m, lay, places, f, Index(virt, places[f].level));
    ChildAt(lay.kernel, root, places[f].level, virt);
  }

  /** A change to one table changes a walk only through what it does to walks from that table. */
  lemma {:induction false} WalkThrough(m: Memory, m': Memory, lay: Layout, places: Places, f0: nat,
                                       root: nat, f: nat, virt: nat)
    requires Tree(m, lay, places) && f0 in places && f in places && Ordinary(virt)
    requires OnlyTable(m, m', places, f0)
    requires places[f] == At(lay.kernel, root, places[f].level, virt)
    requires var l0 := places[f0].level;
             places[f0] == At(lay.kernel, root, l0, virt) ==> Walk(m', f0, l0, virt) == Walk(m, f0, l0, virt)
    ensures Walk(m', f, places[f].level, virt) == Walk(m, f, places[f].level, virt)
    decreases places[f].level
  {
    var l := places[f].level;
    if f != f0 {
      var e := EntryAt(m, f, Index(virt, l));
      assert EntryAt(m', f, Index(virt, l)) == e;
      if l > 1 && PRESENT in e.flags && !(l < 4 && HUGE_PAGE in e.flags) {
        TableBelow(m, lay, places, root, f, virt);
        WalkThrough(m, m', lay, places, f0, root, e.frame, virt);
      }
    }
  }

  /** The same for one entry: walks from the table through its other entries are unchanged. */
  lemma WalkOtherEntry(m: Memory, m': Memory, lay: Layout, places: Places, f0: nat, i0: nat, virt: nat)
    requires Tree(m, lay, places) && f0 in places && OnlyTable(m, m', places, f0)
    requires var l0 := places[f0].level;
             && (l0 == 4 ==> Ordinary(virt)) && Index(virt, l0) != i0
             && EntryAt(m', f0, Index(virt, l0)) == EntryAt(m, f0, Index(virt, l0))
    ensures Walk(m', f0, places[f0].level, virt) == Walk(m, f0, places[f0].level, virt)
  {
    var l0 := places[f0].level;
    var e := EntryAt(m, f0, Index(virt, l0));
    assert EntryFits(m, lay, places, f0, Index(virt, l0));
    if l0 > 1 && PRESENT in e.flags && !(l0 < 4 && HUGE_PAGE in e.flags) {
      WalkBelow(m, m', lay, places, f0, e.frame, virt);
    }
  }

  /** Table `f0` was changed at entry `i0` only, and walks through that entry give what they gave: then no
      translation changed. */
  lemma EntryChange(m: Memory, m': Memory, lay: Layout, places: Places, f0: nat, i0: nat)
    requires Tree(m, lay, places) && f0 in places && OnlyTable(m, m', places, f0) && i0 < TABLE_LEN
    requires forall j :: 0 <= j < TABLE_LEN && j != i0 ==> EntryAt(m', f0, j) == EntryAt(m, f0, j)
    requires var l0 := places[f0].level;
             forall virt :: Index(virt, l0) == i0 && (l0 == 4 ==> Ordinary(virt)) ==>
               Walk(m', f0, l0, virt) == Walk(m, f0, l0, virt)
    ensures SameExcept(m, m', lay, places, None)
  {
    forall r, virt | IsRoot(places, r) && Ordinary(virt)
      ensures Translate(m', r, virt) == Translate(m, r, virt)
    {
      if Index(virt, places[f0].level) != i0 {
        WalkOtherEntry(m, m', lay, places, f0, i0, virt);
      }
      WalkThrough(m, m', lay, places, f0, r, r, virt);
    }
  }

  // ---- Creating a table changes no translation ----------------------------------------------------

  /** The translation through a table whose present entries all map pages. */
  function TableWalk(t: Table, l: nat, virt: nat): Option<nat>
    requires 1 <= l <= 3
  {
    var e := t[Index(virt, l)];
    if PRESENT in e.flags then Some(e.frame * 4096 + virt % Size(l)) else None
  }

  /** The present entries of `t` all map pages, huge ones ending below 2^52. */
  ghost predicate MapsPages(lay: Layout, t: Table, p: Place)
    requires 1 <= p.level <= 3
  {
    forall i :: 0 <= i < TABLE_LEN && PRESENT in t[i].flags && p.level > 1 ==>
      HUGE_PAGE in t[i].flags && p.owner !in lay.flat && t[i].frame * 4096 + Size(p.level) <= PHYS_LIMIT
  }

  /** `m'` is `m` with entry `i` of `parent` pointing to the fresh table `t` in frame `f`. */
  ghost predicate Added(m: Memory, m': Memory, places: Places, parent: nat, i: nat, f: nat, t: Table)
    requires i < TABLE_LEN
  {
    && f !in places && f < |m'.frames.free| && !m'.frames.free[f] && IsTable(m', f) && m'.pages[f].entries == t
    && OnlyTable(m, m', places, parent)
    && (forall g :: g in places ==> IsTable(m', g))
    && (forall j :: 0 <= j < TABLE_LEN && j != i ==> EntryAt(m', parent, j) == EntryAt(m, parent, j))
    && (var e := EntryAt(m', parent, i); e.frame == f && PRESENT in e.flags && HUGE_PAGE !in e.flags)
  }

  lemma AddTableAdds(m: Memory, lay: Layout, places: Places, parent: nat, i: nat, want: Word, t: Table)
    requires Tree(m, lay, places) && parent in places && i < TABLE_LEN
    ensures var (r, m') := AddTable(m, parent, i, want, t);
            if r.Err? then m' == m
            else Added(m, m', places, parent, i, r.value, t) && UsedKept(m, m', places)
  {
    var (r, m') := AddTable(m, parent, i, want, t);
    if r.Ok? {
      var f := r.value;
      assert f < |m.frames.free| && m.frames.free[f];
      assert f !in places;
      assert f * 4096 / 4096 % FRAMES == f;
    }
  }

  lemma AddedTree(m: Memory, m': Memory, lay: Layout, places: Places, parent: nat, i: nat, f: nat, t: Table)
    requires Tree(m, lay, places) && parent in places && places[parent].level >= 2 && i < TABLE_LEN
    requires MapsPages(lay, t, Child(lay.kernel, places[parent], i))
    requires Added(m, m', places, parent, i, f, t) && UsedKept(m, m', places)
    ensures Tree(m', lay, places[f := Child(lay.kernel, places[parent], i)])
  {
    var places' := places[f := Child(lay.kernel, places[parent], i)];
    forall g, j | g in places' && 0 <= j < TABLE_LEN
      ensures EntryFits(m', lay, places', g, j)
    {
      if g == f {
        assert EntryAt(m', f, j) == t[j];
      } else {
        assert EntryFits(m, lay, places, g, j);
        assert (g != parent || j != i) ==> EntryAt(m', g, j) == EntryAt(m, g, j);
      }
    }
  }

  lemma AddedWalk(m: Memory, parent: nat, f: nat, l: nat, t: Table, virt: nat)
    requires 2 <= l <= 4 && IsTable(m, f) && m.pages[f].entries == t
    requires var e := EntryAt(m, parent, Index(virt, l)); e.frame == f && PRESENT in e.flags && HUGE_PAGE !in e.flags
    requires var e := t[Index(virt, l - 1)]; PRESENT in e.flags && l > 2 ==> HUGE_PAGE in e.flags
    ensures Walk(m, parent, l, virt) == TableWalk(t, l - 1, virt)
  {
    assert Walk(m, parent, l, virt) == Walk(m, f, l - 1, virt);
  }

  lemma AddedSame(m: Memory, m': Memory, lay: Layout, places: Places, parent: nat, i: nat, f: nat, t: Table)
    requires Tree(m, lay, places) && parent in places && places[parent].level >= 2 && i < TABLE_LEN
    requires MapsPages(lay, t, Child(lay.kernel, places[parent], i))
    requires var l := places[parent].level;
             forall virt :: Index(virt, l) == i ==> Walk(m, parent, l, virt) == TableWalk(t, l - 1, virt)
    requires Added(m, m', places, parent, i, f, t)
    ensures SameExcept(m, m', lay, places, None)
  {
    var l := places[parent].level;
    forall virt | Index(virt, l) == i
      ensures Walk(m', parent, l, virt) == Walk(m, parent, l, virt)
    {
      AddedWalk(m', parent, f, l, t, virt);
    }
    EntryChange(m, m', lay, places, parent, i);
  }

  /** Pointing an entry at a fresh table that translates as the entry did keeps the shape of the tables,
      all translations, and the pages of all other used frames. */
  lemma AddTableKeeps(m: Memory, lay: Layout, places: Places, parent: nat, i: nat, want: Word, t: Table)
    requires Tree(m, lay, places) && parent in places && places[parent].level >= 2 && i < TABLE_LEN
    requires MapsPages(lay, t, Child(lay.kernel, places[parent], i))
    requires var l := places[parent].level;
             forall virt :: Index(virt, l) == i ==> Walk(m, parent, l, virt) == TableWalk(t, l - 1, virt)
    ensures var (r, m') := AddTable(m, parent, i, want, t);
            if r.Err? then m' == m
            else
              && Added(m, m', places, parent, i, r.value, t) && UsedKept(m, m', places)
              && Tree(m', lay, places[r.value := Child(lay.kernel, places[parent], i)])
              && SameExcept(m, m', lay, places, None)
  {
    var (r, m') := AddTable(m, parent, i, want, t);
    AddTableAdds(m, lay, places, parent, i, want, t);
    if r.Ok? {
      AddedTree(m, m', lay, places, parent, i, r.value, t);
      AddedSame(m, m', lay, places, parent, i, r.value, t);
    }
  }

  /** Used frames outside the tables keep their contents and stay used. */
  ghost predicate UsedKept(m: Memory, m': Memory, places: Places) {
    && |m'.frames.free| == |m.frames.free|
    && forall g :: 0 <= g < |m.frames.free| && !m.frames.free[g] ==>
         !m'.frames.free[g]
         && (g !in places ==> (g in m.pages <==> g in m'.pages) && (g in m.pages ==> m'.pages[g] == m.pages[g]))
  }

  // ---- Splitting a huge page ----------------------------------------------------------------------

  lemma ChunkAligned(frame: nat, i: nat, l: nat)
    requires 1 <= l <= 2
    ensures (frame * 4096 + i * Size(l)) % 4096 == 0
  {
    assert l == 2 ==> i * Size(l) == (i * 512) * 4096;
  }

  lemma SplitEntryExact(e: Entry, want: Word, l: nat, virt: nat)
    requires 2 <= l <= 3 && PRESENT in e.flags
    ensures TableWalk(SplitTable(e, want, l), l - 1, virt) == Some(e.frame * 4096 + virt % Size(l))
       <==> e.frame * 4096 + Index(virt, l - 1) * Size(l - 1) < PHYS_LIMIT
  {
    var i := Index(virt, l - 1);
    var addr := e.frame * 4096 + i * Size(l - 1);
    OffsetSplit(virt, l - 1);
    ChunkAligned(e.frame, i, l - 1);
    AddressRoundTrip(addr, SplitFlags(e, want, l));
    assert SplitTable(e, want, l)[i] == SetAddress(addr, SplitFlags(e, want, l));
  }

  /** Splitting a huge page keeps the translation of all its addresses exactly when the last of the 512
      smaller pages starts below 2^52. The base needs no alignment. */
  lemma SplitPreserves(e: Entry, want: Word, l: nat)
    requires 2 <= l <= 3 && PRESENT in e.flags
    ensures (forall virt: nat :: TableWalk(SplitTable(e, want, l), l - 1, virt) == Some(e.frame * 4096 + virt % Size(l)))
       <==> e.frame * 4096 + 511 * Size(l - 1) < PHYS_LIMIT
  {
    var last := 511 * Size(l - 1);
    assert Index(last, l - 1) == 511;
    SplitEntryExact(e, want, l, last);
    forall virt: nat
      ensures e.frame * 4096 + last < PHYS_LIMIT ==>
                TableWalk(SplitTable(e, want, l), l - 1, virt) == Some(e.frame * 4096 + virt % Size(l))
    {
      SplitEntryExact(e, want, l, virt);
    }
  }

  lemma SplitMapsPages(lay: Layout, e: Entry, want: Word, l: nat, p: Place)
    requires 2 <= l <= 3 && p.level == l - 1 && p.owner !in lay.flat && PRESENT in e.flags && e.frame * 4096 + Size(l) <= PHYS_LIMIT
    ensures MapsPages(lay, SplitTable(e, want, l), p)
  {
    var t := SplitTable(e, want, l);
    forall i | 0 <= i < TABLE_LEN && l == 3
      ensures HUGE_PAGE in t[i].flags && t[i].frame * 4096 + Size(l - 1) <= PHYS_LIMIT
    {
      var addr := e.frame * 4096 + i * Size(l - 1);
      ChunkAligned(e.frame, i, l - 1);
      AddressRoundTrip(addr, SplitFlags(e, want, l));
    }
  }

  // ---- The mapping walk ---------------------------------------------------------------------------

  /** Places are only added, and only for frames that were free. */
  ghost predicate Grown(m: Memory, places: Places, places': Places) {
    && (forall g :: g in places ==> g in places' && places'[g] == places[g])
    && (forall g :: g in places' && g !in places ==> g < |m.frames.free| && m.frames.free[g])
  }

  /** What a change within the tables may do: the shape holds, tables above level `l` are not touched, and
      no translation changes but that of `page`. */
  ghost predicate Step(m: Memory, m': Memory, lay: Layout, places: Places, places': Places, l: nat, page: Option<Place>) {
    && Tree(m', lay, places') && Grown(m, places, places') && UsedKept(m, m', places)
    && (forall g, i :: g in places && places[g].level > l && 0 <= i < TABLE_LEN ==> EntryAt(m', g, i) == EntryAt(m, g, i))
    && SameExcept(m, m', lay, places, page)
  }

  lemma KeptTwice(m0: Memory, m: Memory, m': Memory, places0: Places, places: Places, places': Places)
    requires Grown(m0, places0, places) && UsedKept(m0, m, places0) && Grown(m, places, places') && UsedKept(m, m', places)
    ensures Grown(m0, places0, places') && UsedKept(m0, m', places0)
  {
    forall g | g in places' && g !in places0
      ensures g < |m0.frames.free| && m0.frames.free[g]
    {
      if g !in places {
        assert m.frames.free[g];
      }
    }
    forall g | 0 <= g < |m0.frames.free| && !m0.frames.free[g] && g !in places0
      ensures !m'.frames.free[g] && (g in m0.pages <==> g in m'.pages) && (g in m0.pages ==> m'.pages[g] == m0.pages[g])
    {
      assert g !in places;
    }
  }

  lemma StepCompose(m: Memory, m1: Memory, m2: Memory, lay: Layout, places: Places, places1: Places, places2: Places,
                    l: nat, page: Option<Place>)
    requires Step(m, m1, lay, places, places1, l, None) && Step(m1, m2, lay, places1, places2, l, page)
    ensures Step(m, m2, lay, places, places2, l, page)
  {
    forall r, virt | IsRoot(places, r) && Ordinary(virt) && Some(At(lay.kernel, r, 0, virt)) != page
      ensures Translate(m2, r, virt) == Translate(m, r, virt)
    {
      assert IsRoot(places1, r);
      assert Translate(m1, r, virt) == Translate(m, r, virt);
    }
    KeptTwice(m, m1, m2, places, places1, places2);
  }

  /** Entries that point to the same table may differ in permissions: the shape stays. */
  lemma WidenTree(m: Memory, lay: Layout, places: Places, parent: nat, i: nat, e': Entry)
    requires Tree(m, lay, places) && parent in places && places[parent].level >= 2 && i < TABLE_LEN
    requires !(places[parent].level == 4 && i == RECURSIVE)
    requires var e := EntryAt(m, parent, i); PRESENT in e.flags && HUGE_PAGE !in e.flags && e.frame == e'.frame
    requires PRESENT in e'.flags && HUGE_PAGE !in e'.flags
    ensures Tree(SetEntry(m, parent, i, e'), lay, places)
  {
    var m' := SetEntry(m, parent, i, e');
    assert EntryFits(m, lay, places, parent, i);
    forall g, j | g in places && 0 <= j < TABLE_LEN
      ensures EntryFits(m', lay, places, g, j)
    {
      assert EntryFits(m, lay, places, g, j);
    }
  }

  /** And so do all translations. */
  lemma WidenSame(m: Memory, lay: Layout, places: Places, parent: nat, i: nat, e': Entry)
    requires Tree(m, lay, places) && parent in places && places[parent].level >= 2 && i < TABLE_LEN
    requires !(places[parent].level == 4 && i == RECURSIVE)
    requires var e := EntryAt(m, parent, i); PRESENT in e.flags && HUGE_PAGE !in e.flags && e.frame == e'.frame
    requires PRESENT in e'.flags && HUGE_PAGE !in e'.flags
    ensures SameExcept(m, SetEntry(m, parent, i, e'), lay, places, None)
  {
    var l, m' := places[parent].level, SetEntry(m, parent, i, e');
    assert EntryFits(m, lay, places, parent, i);
    assert OnlyTable(m, m', places, parent);
    forall virt | Index(virt, l) == i
      ensures Walk(m', parent, l, virt) == Walk(m, parent, l, virt)
    {
      WalkBelow(m, m', lay, places, parent, e'.frame, virt);
    }
    EntryChange(m, m', lay, places, parent, i);
  }

  /** Adding permissions to an entry that points to a table. */
  lemma WidenKeeps(m: Memory, lay: Layout, places: Places, parent: nat, i: nat, flags: Word)
    requires Tree(m, lay, places) && parent in places && places[parent].level >= 2 && i < TABLE_LEN
    requires !(places[parent].level == 4 && i == RECURSIVE)
    requires var e := EntryAt(m, parent, i); PRESENT in e.flags && HUGE_PAGE !in e.flags
    requires PRESENT in flags && HUGE_PAGE !in flags
    ensures var m' := SetEntry(m, parent, i, SetAddress(EntryAt(m, parent, i).frame * 4096, flags));
            Step(m, m', lay, places, places, places[parent].level, None)
  {
    var e := EntryAt(m, parent, i);
    var e' := SetAddress(e.frame * 4096, flags);
    assert EntryFits(m, lay, places, parent, i);
    assert e'.frame == e.frame;
    WidenTree(m, lay, places, parent, i, e');
    WidenSame(m, lay, places, parent, i, e');
  }

  /** The result of a call for entry `i` of `parent`: the table of the place below, reached through the entry. */
  ghost predicate Linked(m: Memory, lay: Layout, places: Places, parent: nat, i: nat, f: nat)
    requires parent in places && places[parent].level >= 2 && i < TABLE_LEN
  {
    && f in places && places[f] == Child(lay.kernel, places[parent], i)
    && var e := EntryAt(m, parent, i); e.frame == f && PRESENT in e.flags && HUGE_PAGE !in e.flags
  }

  lemma AddTableStep(m: Memory, lay: Layout, places: Places, parent: nat, i: nat, want: Word, t: Table) returns (places': Places)
    requires Tree(m, lay, places) && parent in places && places[parent].level >= 2 && i < TABLE_LEN
    requires MapsPages(lay, t, Child(lay.kernel, places[parent], i))
    requires var l := places[parent].level;
             forall virt :: Index(virt, l) == i ==> Walk(m, parent, l, virt) == TableWalk(t, l - 1, virt)
    ensures var (r, m') := AddTable(m, parent, i, want, t);
            && Step(m, m', lay, places, places', places[parent].level, None)
            && (r.Ok? ==> Grown(m, places, places') && Linked(m', lay, places', parent, i, r.value))
  {
    var (r, m') := AddTable(m, parent, i, want, t);
    AddTableKeeps(m, lay, places, parent, i, want, t);
    places' := if r.Ok? then places[r.value := Child(lay.kernel, places[parent], i)] else places;
  }

  lemma CreateStep(m: Memory, lay: Layout, places: Places, parent: nat, i: nat, want: Word) returns (places': Places)
    requires Tree(m, lay, places) && parent in places && places[parent].level >= 2 && i < TABLE_LEN
    requires PRESENT !in EntryAt(m, parent, i).flags
    ensures var (r, m') := AddTable(m, parent, i, want, EmptyTable());
            && Step(m, m', lay, places, places', places[parent].level, None)
            && (r.Ok? ==> Grown(m, places, places') && Linked(m', lay, places', parent, i, r.value))
  {
    var t, l := EmptyTable(), places[parent].level;
    forall virt | Index(virt, l) == i
      ensures Walk(m, parent, l, virt) == TableWalk(t, l - 1, virt)
    {
      assert t[Index(virt, l - 1)] == EMPTY;
    }
    assert MapsPages(lay, t, Child(lay.kernel, places[parent], i));
    places' := AddTableStep(m, lay, places, parent, i, want, t);
  }

  lemma SplitStep(m: Memory, lay: Layout, places: Places, parent: nat, i: nat, want: Word) returns (places': Places)
    requires Tree(m, lay, places) && parent in places && 2 <= places[parent].level <= 3 && i < TABLE_LEN
    requires var e := EntryAt(m, parent, i); PRESENT in e.flags && HUGE_PAGE in e.flags
    ensures var l, e := places[parent].level, EntryAt(m, parent, i);
            var (r, m') := AddTable(m, parent, i, want, SplitTable(e, want, l));
            && Step(m, m', lay, places, places', l, None)
            && (r.Ok? ==> Grown(m, places, places') && Linked(m', lay, places', parent, i, r.value))
  {
    var l, e := places[parent].level, EntryAt(m, parent, i);
    assert EntryFits(m, lay, places, parent, i);
    SplitPreserves(e, want, l);
    SplitMapsPages(lay, e, want, l, Child(lay.kernel, places[parent], i));
    places' := AddTableStep(m, lay, places, parent, i, want, SplitTable(e, want, l));
  }

  /** The entry a call goes through points to a table and has the permissions asked for, whatever the call had to do. */
  lemma GetOrCreateGrants(m: Memory, parent: nat, i: nat, want: Word, l: nat)
    requires IsTable(m, parent) && i < TABLE_LEN && 2 <= l <= 4
    ensures var (r, m') := GetOrCreate(m, parent, i, want, l);
            var flags := EntryAt(m', parent, i).flags;
            r.Ok? ==> PRESENT in flags && HUGE_PAGE !in flags && want * {USER, WRITABLE} <= flags
  {
    var e := EntryAt(m, parent, i);
    assert PRESENT in e.flags ==> PRESENT in FlagBits(e.flags + Needed(want));
  }

  /** `get_or_create_table` gives the table of the place below, whatever it had to do, through an entry with the permissions
      asked for, and changes no translation, also when it fails. */
  lemma GetOrCreateKeeps(m: Memory, lay: Layout, places: Places, parent: nat, i: nat, want: Word) returns (places': Places)
    requires Tree(m, lay, places) && parent in places && places[parent].level >= 2 && i < TABLE_LEN
    requires !(places[parent].level == 4 && i == RECURSIVE)
    ensures var l := places[parent].level;
            var (r, m') := GetOrCreate(m, parent, i, want, l);
            && Step(m, m', lay, places, places', l, None)
            && (r.Ok? ==>
                  && Grown(m, places, places') && Linked(m', lay, places', parent, i, r.value)
                  && want * {USER, WRITABLE} <= EntryAt(m', parent, i).flags)
  {
    var l, e := places[parent].level, EntryAt(m, parent, i);
    GetOrCreateGrants(m, parent, i, want, l);
    if PRESENT !in e.flags {
      places' := CreateStep(m, lay, places, parent, i, want);
    } else if HUGE_PAGE in e.flags && l < 4 {
      places' := SplitStep(m, lay, places, parent, i, want);
    } else {
      places' := places;
      assert EntryFits(m, lay, places, parent, i);
      if HUGE_PAGE !in e.flags && !(Needed(want) <= e.flags) {
        WidenKeeps(m, lay, places, parent, i, e.flags + Needed(want));
      }
    }
  }

  /** Where an address goes through page-table entry `leaf`. */
  function LeafTranslation(leaf: Entry, virt: nat): Option<nat> {
    if PRESENT in leaf.flags then Some(leaf.frame * 4096 + virt % 4096) else None
  }

  /** Writing the entry of a page in its page table changes the translation of that page only. */
  lemma SetLeafStep(m: Memory, lay: Layout, places: Places, root: nat, f: nat, virt: nat, leaf: Entry)
    requires Tree(m, lay, places) && f in places && Ordinary(virt) && places[f] == At(lay.kernel, root, 1, virt)
    ensures Step(m, SetEntry(m, f, Index(virt, 1), leaf), lay, places, places, 1, Some(At(lay.kernel, root, 0, virt)))
  {
    var m' := SetEntry(m, f, Index(virt, 1), leaf);
    assert OnlyTable(m, m', places, f);
    forall r, virt' | IsRoot(places, r) && Ordinary(virt') && At(lay.kernel, r, 0, virt') != At(lay.kernel, root, 0, virt)
      ensures Translate(m', r, virt') == Translate(m, r, virt')
    {
      ChildAt(lay.kernel, root, 1, virt);
      ChildAt(lay.kernel, r, 1, virt');
      WalkThrough(m, m', lay, places, f, r, r, virt');
    }
    forall g, j | g in places && 0 <= j < TABLE_LEN
      ensures EntryFits(m', lay, places, g, j)
    {
      assert EntryFits(m, lay, places, g, j);
    }
  }

  /** The level at which a walk reads entry `i` of table `t`, if it does. */
  function ReadsAt(m: Memory, f: nat, l: nat, virt: nat, t: nat, i: nat): (r: Option<nat>)
    requires 1 <= l <= 4
    ensures r.Some? ==> 1 <= r.value <= l
    decreases l, m
  {
    if f == t && Index(virt, l) == i then Some(l)
    else
      var e := EntryAt(m, f, Index(virt, l));
      if PRESENT !in e.flags || l == 1 || (l < 4 && HUGE_PAGE in e.flags) then None
      else ReadsAt(m, e.frame, l - 1, virt, t, i)
  }

  /** All entries but one are as before. */
  ghost predicate OneEntry(m: Memory, m': Memory, t: nat, i: nat) {
    forall g: nat, j: nat :: j < TABLE_LEN && (g != t || j != i) ==> EntryAt(m', g, j) == EntryAt(m, g, j)
  }

  /** Where a walk goes that reads entry `e` at level `k`. */
  function Onward(m: Memory, e: Entry, k: nat, virt: nat): Option<nat>
    requires 1 <= k <= 4
  {
    if PRESENT !in e.flags then None
    else if k == 1 || (k < 4 && HUGE_PAGE in e.flags) then Some(e.frame * 4096 + virt % Size(k))
    else Walk(m, e.frame, k - 1, virt)
  }

  /** Whatever entry is written, a walk that does not read it is as before. */
  lemma {:induction false} WalkMissesWrite(m: Memory, m': Memory, f: nat, l: nat, virt: nat, t: nat, i: nat)
    requires 1 <= l <= 4 && OneEntry(m, m', t, i) && ReadsAt(m, f, l, virt, t, i).None?
    ensures Walk(m', f, l, virt) == Walk(m, f, l, virt)
    decreases l
  {
    var e := EntryAt(m, f, Index(virt, l));
    assert EntryAt(m', f, Index(virt, l)) == e;
    if PRESENT in e.flags && l > 1 && !(l < 4 && HUGE_PAGE in e.flags) {
      WalkMissesWrite(m, m', e.frame, l - 1, virt, t, i);
    }
  }

  /** A walk that reads it goes on from the new entry. */
  lemma {:induction false} WalkHitsWrite(m: Memory, m': Memory, f: nat, l: nat, virt: nat, t: nat, i: nat)
    requires 1 <= l <= 4 && i < TABLE_LEN && OneEntry(m, m', t, i) && ReadsAt(m, f, l, virt, t, i).Some?
    ensures Walk(m', f, l, virt) == Onward(m', EntryAt(m', t, i), ReadsAt(m, f, l, virt, t, i).value, virt)
    decreases l
  {
    if !(f == t && Index(virt, l) == i) {
      var e := EntryAt(m, f, Index(virt, l));
      assert EntryAt(m', f, Index(virt, l)) == e;
      WalkHitsWrite(m, m', e.frame, l - 1, virt, t, i);
    }
  }

  /** A walk that reads an absent entry ends there. */
  lemma {:induction false} WalkReadsAbsent(m: Memory, f: nat, l: nat, virt: nat, t: nat, i: nat)
    requires 1 <= l <= 4 && i < TABLE_LEN && ReadsAt(m, f, l, virt, t, i).Some? && PRESENT !in EntryAt(m, t, i).flags
    ensures Walk(m, f, l, virt) == None
    decreases l
  {
    if !(f == t && Index(virt, l) == i) {
      WalkReadsAbsent(m, EntryAt(m, f, Index(virt, l)).frame, l - 1, virt, t, i);
    }
  }

  /** A walk reads tables in use only. */
  lemma {:induction false} ReadsTablesInUse(m: Memory, lay: Layout, places: Places, root: nat, f: nat, virt: nat, t: nat, i: nat)
    requires Tree(m, lay, places) && f in places && Ordinary(virt) && places[f] == At(lay.kernel, root, places[f].level, virt)
    requires ReadsAt(m, f, places[f].level, virt, t, i).Some?
    ensures t in places
    decreases places[f].level
  {
    var l := places[f].level;
    if !(f == t && Index(virt, l) == i) {
      TableBelow(m, lay, places, root, f, virt);
      ReadsTablesInUse(m, lay, places, root, EntryAt(m, f, Index(virt, l)).frame, virt, t, i);
    }
  }

  /** The walk of `handle_fault` and `unmap_page` to a page table; it follows every present entry, also that
      of a huge page. */
  function LeafTable(m: Memory, f: nat, l: nat, virt: nat): Option<nat>
    requires 1 <= l <= 4
    decreases l, m
  {
    if l == 1 then Some(f)
    else
      var e := EntryAt(m, f, Index(virt, l));
      if PRESENT in e.flags then LeafTable(m, e.frame, l - 1, virt) else None
  }

  /** No entry on that walk is a huge page. */
  predicate NoHuge(m: Memory, f: nat, l: nat, virt: nat)
    requires 1 <= l <= 4
    decreases l, m
  {
    l == 1 ||
    var e := EntryAt(m, f, Index(virt, l));
    PRESENT in e.flags ==> (l < 4 ==> HUGE_PAGE !in e.flags) && NoHuge(m, e.frame, l - 1, virt)
  }

  /** Below a huge page, every address translates. */
  lemma {:induction false} HugeTranslates(m: Memory, f: nat, l: nat, virt: nat)
    requires 1 <= l <= 4 && !NoHuge(m, f, l, virt)
    ensures Walk(m, f, l, virt).Some?
    decreases l
  {
    var e := EntryAt(m, f, Index(virt, l));
    if !(l < 4 && HUGE_PAGE in e.flags) {
      HugeTranslates(m, e.frame, l - 1, virt);
    }
  }

  /** Without one, an address that translates has a page table. */
  lemma {:induction false} TranslatesHasLeaf(m: Memory, f: nat, l: nat, virt: nat)
    requires 1 <= l <= 4 && NoHuge(m, f, l, virt) && Walk(m, f, l, virt).Some?
    ensures LeafTable(m, f, l, virt).Some?
    decreases l
  {
    if l > 1 {
      TranslatesHasLeaf(m, EntryAt(m, f, Index(virt, l)).frame, l - 1, virt);
    }
  }

  /** And its walk reads the entry of the page table it ends at. */
  lemma {:induction false} NoHugeReads(m: Memory, f: nat, l: nat, virt: nat)
    requires 1 <= l <= 4 && NoHuge(m, f, l, virt) && LeafTable(m, f, l, virt).Some?
    ensures ReadsAt(m, f, l, virt, LeafTable(m, f, l, virt).value, Index(virt, 1)).Some?
    decreases l
  {
    if l > 1 {
      NoHugeReads(m, EntryAt(m, f, Index(virt, l)).frame, l - 1, virt);
    }
  }

  /** The walk to the page table meets no huge page, and the entry of `virt` there is `leaf`. */
  ghost predicate LeafIs(m: Memory, f: nat, l: nat, virt: nat, leaf: Entry)
    requires 1 <= l <= 4
  {
    var t := LeafTable(m, f, l, virt);
    NoHuge(m, f, l, virt) && t.Some? && EntryAt(m, t.value, Index(virt, 1)) == leaf
  }

  /** All addresses of the page of `virt` go through `leaf`. */
  ghost predicate PageMapped(m: Memory, f: nat, l: nat, virt: nat, leaf: Entry)
    requires 1 <= l <= 4
  {
    && LeafIs(m, f, l, virt, leaf)
    && forall v :: Prefix(v, 0) == Prefix(virt, 0) ==> Walk(m, f, l, v) == LeafTranslation(leaf, v)
  }

  lemma StepRaise(m: Memory, m': Memory, lay: Layout, places: Places, places': Places, l: nat, page: Option<Place>)
    requires l > 0 && Step(m, m', lay, places, places', l - 1, page)
    ensures Step(m, m', lay, places, places', l, page)
  {
  }

  /** One level of the walk: the table below was found or made (`m1`), then the walk went on from it (`m2`). */
  lemma InstallCompose(m: Memory, m1: Memory, m2: Memory, lay: Layout, places: Places, places1: Places, places2: Places,
                       f: nat, g: nat, virt: nat, leaf: Entry, page: Option<Place>)
    requires f in places && 2 <= places[f].level <= 4 && f in places1 && places1[f] == places[f]
    requires Step(m, m1, lay, places, places1, places[f].level, None)
    requires Linked(m1, lay, places1, f, Index(virt, places[f].level), g)
    requires Step(m1, m2, lay, places1, places2, places[f].level - 1, page)
    requires page.Some? ==> PageMapped(m2, g, places[f].level - 1, virt, leaf)
    ensures Step(m, m2, lay, places, places2, places[f].level, page)
    ensures page.Some? ==> PageMapped(m2, f, places[f].level, virt, leaf)
  {
    var l := places[f].level;
    assert EntryAt(m2, f, Index(virt, l)) == EntryAt(m1, f, Index(virt, l));
    if page.Some? {
      InstallLinked(m2, f, l, virt, leaf, g);
    }
    StepRaise(m1, m2, lay, places1, places2, l, page);
    StepCompose(m, m1, m2, lay, places, places1, places2, l, page);
  }

  lemma InstallLeaf(m: Memory, lay: Layout, places: Places, root: nat, f: nat, virt: nat, leaf: Entry)
    requires Tree(m, lay, places) && f in places && Ordinary(virt) && places[f] == At(lay.kernel, root, 1, virt)
    ensures var m' := SetEntry(m, f, Index(virt, 1), leaf);
            && Step(m, m', lay, places, places, 1, Some(At(lay.kernel, root, 0, virt)))
            && PageMapped(m', f, 1, virt, leaf)
  {
    var m' := SetEntry(m, f, Index(virt, 1), leaf);
    SetLeafStep(m, lay, places, root, f, virt, leaf);
    forall v | Prefix(v, 0) == Prefix(virt, 0)
      ensures Walk(m', f, 1, v) == LeafTranslation(leaf, v)
    {
      PrefixIndexes(v, virt, 0);
    }
  }

  /** The mapping walk from any table on the way: it changes the translation of one page, or of none when
      it fails, at whatever level that happens. */
  lemma {:induction false} InstallKeeps(m: Memory, lay: Layout, places: Places, root: nat, f: nat, virt: nat,
                                        leaf: Entry, want: Word) returns (places': Places)
    requires Tree(m, lay, places) && f in places && Ordinary(virt)
    requires places[f] == At(lay.kernel, root, places[f].level, virt)
    ensures var (r, m') := Install(m, f, places[f].level, virt, leaf, want);
            && Step(m, m', lay, places, places', places[f].level,
                    if r.Ok? then Some(At(lay.kernel, root, 0, virt)) else None)
            && (r.Ok? ==> PageMapped(m', f, places[f].level, virt, leaf))
    decreases places[f].level
  {
    var l := places[f].level;
    if l == 1 {
      places' := places;
      InstallLeaf(m, lay, places, root, f, virt, leaf);
    } else {
      var (r1, m1) := GetOrCreate(m, f, Index(virt, l), want, l);
      var places1 := GetOrCreateKeeps(m, lay, places, f, Index(virt, l), want);
      if r1.Err? {
        places' := places1;
      } else {
        var g := r1.value;
        ChildAt(lay.kernel, root, l, virt);
        var (r, m') := Install(m1, g, l - 1, virt, leaf, want);
        places' := InstallKeeps(m1, lay, places1, root, g, virt, leaf, want);
        InstallCompose(m, m1, m', lay, places, places1, places', f, g, virt, leaf,
                       if r.Ok? then Some(At(lay.kernel, root, 0, virt)) else None);
      }
    }
  }

  /** Why a mapping failed: no frame is left, or, with nothing changed, the entry of the root is marked huge. */
  predicate FailedFor(m: Memory, m': Memory, f: nat, l: nat, virt: nat, error: Error)
    requires IsTable(m, f)
  {
    || (error == OutOfMemory && Pmm.Alloc(m'.frames).0.None?)
    || (error == UnexpectedHugePage && l == 4 && m' == m && {PRESENT, HUGE_PAGE} <= EntryAt(m, f, Index(virt, 4)).flags)
  }

  /** One step down on the walk of a mapping: the table below is where the walk of `virt` goes on. */
  lemma Descend(m: Memory, lay: Layout, places: Places, root: nat, f: nat, virt: nat, leaf: Entry, want: Word, l: nat)
    returns (places': Places)
    requires Tree(m, lay, places) && f in places && Ordinary(virt) && 2 <= l <= 4
    requires places[f] == At(lay.kernel, root, l, virt)
    ensures var (r, m') := GetOrCreate(m, f, Index(virt, l), want, l);
            if r.Ok? then
              && Tree(m', lay, places') && r.value in places' && places'[r.value] == At(lay.kernel, root, l - 1, virt)
              && Install(m, f, l, virt, leaf, want) == Install(m', r.value, l - 1, virt, leaf, want)
            else Install(m, f, l, virt, leaf, want) == (Err(r.error), m')
  {
    places' := GetOrCreateKeeps(m, lay, places, f, Index(virt, l), want);
    ChildAt(lay.kernel, root, l, virt);
  }

  lemma CreateFails(m: Memory, f: nat, virt: nat, want: Word, l: nat)
    requires IsTable(m, f) && 2 <= l <= 4
    ensures var (r, m') := GetOrCreate(m, f, Index(virt, l), want, l); r.Err? ==> FailedFor(m, m', f, l, virt, r.error)
  {
  }

  /** A mapping fails for these reasons only. */
  lemma {:induction false} InstallFails(m: Memory, lay: Layout, places: Places, root: nat, f: nat, virt: nat,
                                        leaf: Entry, want: Word)
    requires Tree(m, lay, places) && f in places && Ordinary(virt)
    requires places[f] == At(lay.kernel, root, places[f].level, virt)
    ensures var (r, m') := Install(m, f, places[f].level, virt, leaf, want);
            r.Err? ==> FailedFor(m, m', f, places[f].level, virt, r.error)
    decreases places[f].level
  {
    var l := places[f].level;
    if l > 1 {
      var (r1, m1) := GetOrCreate(m, f, Index(virt, l), want, l);
      var places1 := Descend(m, lay, places, root, f, virt, leaf, want, l);
      CreateFails(m, f, virt, want, l);
      if r1.Ok? {
        InstallFails(m1, lay, places1, root, r1.value, virt, leaf, want);
      }
    }
  }

  lemma InstallLinked(m: Memory, f: nat, l: nat, virt: nat, leaf: Entry, g: nat)
    requires 2 <= l <= 4 && PageMapped(m, g, l - 1, virt, leaf)
    requires var e := EntryAt(m, f, Index(virt, l)); e.frame == g && PRESENT in e.flags && HUGE_PAGE !in e.flags
    ensures PageMapped(m, f, l, virt, leaf)
  {
    forall v | Prefix(v, 0) == Prefix(virt, 0)
      ensures Walk(m, f, l, v) == LeafTranslation(leaf, v)
    {
      PrefixIndexes(v, virt, 0);
    }
  }
}
