/** Addresses below a huge page: `handle_fault` and `unmap_page` do not look for one. */
module HugePages {
  import opened Wrappers
  import opened Bits
  import opened Paging
  import opened Vmm
  import opened Rights
  import opened Spaces
  import Pmm

  const PT: nat := 512

  /** One address space, in frames 0, 1 and 2: its first 2 MiB are a huge page on frame 512, as a direct map of physical
      memory has one, and frame 512 is the page table of the next 2 MiB, with one entry. Frame 3 is free. */
  function Overlaid(e: Entry): Memory {
    Memory(map[0 := TablePage(EmptyTable()[0 := Entry(1, {PRESENT, WRITABLE})]),
               1 := TablePage(EmptyTable()[0 := Entry(2, {PRESENT, WRITABLE})]),
               2 := TablePage(EmptyTable()[0 := Entry(PT, {PRESENT, WRITABLE, HUGE_PAGE})][1 := Entry(PT, {PRESENT, WRITABLE})]),
               PT := TablePage(EmptyTable()[0 := e])],
           Pmm.Frames(seq(1024, i => i == 3), 1))
  }

  const KERNEL: Layout := Layout(0, {})

  function Tables(): Places {
    map[0 := Place(0, 4, 0), 1 := Place(0, 3, 0), 2 := Place(0, 2, 0), PT := Place(0, 1, 1)]
  }

  lemma OverlaidTree(e: Entry)
    ensures Tree(Overlaid(e), KERNEL, Tables()) && IsRoot(Tables(), 0)
  {
    var m, places := Overlaid(e), Tables();
    forall f, i | f in places && 0 <= i < TABLE_LEN
      ensures EntryFits(m, KERNEL, places, f, i)
    {
    }
  }

  lemma OverlaidWalks(e: Entry)
    ensures Index(0, 1) == 0 && Index(0x20_0000, 1) == 0 && Ordinary(0) && Ordinary(0x20_0000)
    ensures LeafTable(Overlaid(e), 0, 4, 0) == Some(PT) && !NoHuge(Overlaid(e), 0, 4, 0)
    ensures Translate(Overlaid(e), 0, 0) == Some(PT * 4096)
    ensures Translate(Overlaid(e), 0, 0x20_0000) == if PRESENT in e.flags then Some(e.frame * 4096) else None
    ensures ReadsAt(Overlaid(e), 0, 4, 0x20_0000, PT, 0) == Some(1)
    ensures ReadsAt(Overlaid(e), 0, 4, 0, PT, 0) == None
  {
    var m := Overlaid(e);
    assert Walk(m, 0, 4, 0) == Walk(m, 1, 3, 0) == Walk(m, 2, 2, 0);
    assert Walk(m, 0, 4, 0x20_0000) == Walk(m, 1, 3, 0x20_0000) == Walk(m, 2, 2, 0x20_0000) == Walk(m, PT, 1, 0x20_0000);
    assert LeafTable(m, 0, 4, 0) == LeafTable(m, 1, 3, 0) == LeafTable(m, 2, 2, 0) == LeafTable(m, PT, 1, 0);
    assert NoHuge(m, 0, 4, 0) == NoHuge(m, 1, 3, 0) == NoHuge(m, 2, 2, 0);
    assert ReadsAt(m, 0, 4, 0, PT, 0) == ReadsAt(m, 1, 3, 0, PT, 0) == ReadsAt(m, 2, 2, 0, PT, 0);
    assert ReadsAt(m, 0, 4, 0x20_0000, PT, 0) == ReadsAt(m, 1, 3, 0x20_0000, PT, 0) == ReadsAt(m, 2, 2, 0x20_0000, PT, 0)
        == ReadsAt(m, PT, 1, 0x20_0000, PT, 0);
  }

  /** A fault at address 0, which translates, succeeds when the page table it overlies has a reserved entry, and gives
      a frame to a page 2 MiB further on. */
  lemma FaultHitsOther(e: Entry)
    requires Reserved(e)
    ensures var m := Overlaid(e);
            var (r, m') := Fault(m, 0, 0);
            && Tree(m, KERNEL, Tables()) && IsRoot(Tables(), 0) && Ordinary(0) && Ordinary(0x20_0000)
            && r.Ok? && Translate(m, 0, 0).Some?
            && Translate(m, 0, 0x20_0000) == None && Translate(m', 0, 0x20_0000) == Some(3 * 4096)
  {
    var m := Overlaid(e);
    OverlaidTree(e);
    OverlaidWalks(e);
    assert EntryAt(m, PT, 0) == e;
    assert m.frames.free[3];
    FaultEverywhere(m, KERNEL, Tables(), 0, 0, 0, 0x20_0000);
  }

  /** Unmapping address 0 succeeds when the page table it overlies has a present entry: address 0 still translates, and a
      page 2 MiB further on is lost. */
  lemma UnmapHitsOther(e: Entry)
    requires PRESENT in e.flags
    ensures var m := Overlaid(e);
            var (r, m') := Unmap(m, 0, 0);
            && Tree(m, KERNEL, Tables()) && IsRoot(Tables(), 0) && Ordinary(0) && Ordinary(0x20_0000)
            && r.Ok? && Translate(m', 0, 0) == Translate(m, 0, 0) == Some(PT * 4096)
            && Translate(m, 0, 0x20_0000) == Some(e.frame * 4096) && Translate(m', 0, 0x20_0000) == None
  {
    var m := Overlaid(e);
    OverlaidTree(e);
    OverlaidWalks(e);
    assert EntryAt(m, PT, 0) == e;
    UnmapEverywhere(m, 0, 0, 0, 0);
    UnmapEverywhere(m, 0, 0, 0, 0x20_0000);
  }

  /** The page at address 0 of a root with one 1 GiB page. */
  function OneGiB(f: nat): Memory {
    Memory(map[0 := TablePage(EmptyTable()[0 := Entry(1, {PRESENT, WRITABLE})]),
               1 := TablePage(EmptyTable()[0 := Entry(f, {PRESENT, WRITABLE, HUGE_PAGE})])],
           Pmm.Frames(seq(2, _ => false), 0))
  }

  /** Unmapping it leaves it mapped, wherever it lies apart from the two tables. */
  lemma UnmapLeavesHuge(f: nat)
    requires 2 <= f && f * 4096 + 0x4000_0000 <= PHYS_LIMIT
    ensures var m, places := OneGiB(f), map[0 := Place(0, 4, 0), 1 := Place(0, 3, 0)];
            && Tree(m, KERNEL, places) && IsRoot(places, 0) && Ordinary(0)
            && Translate(m, 0, 0) == Some(f * 4096) && Unmap(m, 0, 0) == (Err(NotPresent), m)
  {
    var m := OneGiB(f);
    assert Walk(m, 0, 4, 0) == Walk(m, 1, 3, 0);
    assert LeafTable(m, 0, 4, 0) == LeafTable(m, 1, 3, 0) == LeafTable(m, f, 2, 0) == None;
  }

  /** One address space whose first 2 MiB are a huge page with user access. Frame 3 is free. */
  function UserHuge(): Memory {
    Memory(map[0 := TablePage(EmptyTable()[0 := Entry(1, {PRESENT, WRITABLE, USER})]),
               1 := TablePage(EmptyTable()[0 := Entry(2, {PRESENT, WRITABLE, USER})]),
               2 := TablePage(EmptyTable()[0 := Entry(PT, {PRESENT, WRITABLE, USER, HUGE_PAGE})])],
           Pmm.Frames(seq(1024, i => i == 3), 1))
  }

  lemma UserHugeWalks()
    ensures var m := UserHuge();
            && Ordinary(0) && Ordinary(0x1000) && !SamePage(0x1000, 0)
            && Shares(m, 0, 4, 0x1000, 0, 4, 0) && Allowed(m, 0, 4, 0x1000) == Some(Access(true, true, true))
  {
    var m := UserHuge();
    assert Allowed(m, 2, 2, 0x1000) == Some(Access(true, true, true)) == Allowed(m, 1, 3, 0x1000);
    assert ReadsAt(m, 0, 4, 0, 2, 0) == ReadsAt(m, 1, 3, 0, 2, 0) == ReadsAt(m, 2, 2, 0, 2, 0) == Some(2);
    assert Shares(m, 0, 4, 0x1000, 0, 4, 0) == Shares(m, 1, 3, 0x1000, 0, 4, 0) == Shares(m, 2, 2, 0x1000, 0, 4, 0);
  }

  function UserTables(): Places {
    map[0 := Place(0, 4, 0), 1 := Place(0, 3, 0), 2 := Place(0, 2, 0)]
  }

  lemma UserHugeTree()
    ensures Tree(UserHuge(), KERNEL, UserTables()) && IsRoot(UserTables(), 0)
  {
    var m, places := UserHuge(), UserTables();
    forall f, i | f in places && 0 <= i < TABLE_LEN
      ensures EntryFits(m, KERNEL, places, f, i)
    {
    }
  }

  /** Mapping its first page for the kernel succeeds, and takes user access from the page beside it. */
  lemma SplitTakesUser()
    ensures var m := UserHuge();
            var (r, m') := Map(m, 0, 0, 0, {PRESENT, WRITABLE});
            && Tree(m, KERNEL, UserTables()) && IsRoot(UserTables(), 0) && r.Ok?
            && Allowed(m, 0, 4, 0x1000) == Some(Access(true, true, true))
            && Allowed(m', 0, 4, 0x1000) == Some(Access(false, true, true))
  {
    UserHugeTree();
    UserHugeWalks();
    UserHugeSplits();
    RightsKept(UserHuge(), KERNEL, UserTables(), 0, 0, 0, {PRESENT, WRITABLE}, 0, 0x1000);
  }

  lemma UserHugeSplits()
    ensures Map(UserHuge(), 0, 0, 0, {PRESENT, WRITABLE}).0.Ok?
  {
    var m, want := UserHuge(), {PRESENT, WRITABLE};
    var leaf := SetAddress(0, want);
    assert m.frames.free[3];
    assert Install(m, 0, 4, 0, leaf, want) == Install(m, 1, 3, 0, leaf, want) == Install(m, 2, 2, 0, leaf, want);
  }
}
