/** Loading a PT_LOAD segment of an ELF file (System V gABI, chapter 5, "Program Header"): the client of the
    frame allocator and the page tables. */
module Elf {
  import opened Wrappers
  import opened Arith
  import opened Bits
  import opened Paging
  import opened Vmm
  import opened Rights
  import opened Spaces
  import opened Machine
  import Pmm


  datatype Segment = Segment(vaddr: nat, offset: nat, filesz: nat, memsz: nat, writable: bool, executable: bool)

  datatype LoadError = ReadFailed | NoMemory

  function Start(s: Segment): nat {
    s.vaddr / 4096 * 4096
  }

  function PageCount(s: Segment): nat {
    ((s.vaddr + s.memsz + 4095) / 4096 * 4096 - Start(s)) / 4096
  }

  function SegmentFlags(s: Segment): Word {
    {PRESENT, USER} + (if s.writable then {WRITABLE} else {}) + (if s.executable then {} else {NO_EXECUTE})
  }

  /** The addresses of the segment; an empty one that is not page aligned counts as one address, for it gets a page. */
  predicate InSegment(s: Segment, a: nat) {
    s.vaddr <= a < s.vaddr + s.memsz || (s.memsz == 0 && s.vaddr % 4096 != 0 && a == s.vaddr)
  }

  /** The segment has an address on the page of `a`. */
  ghost predicate Spans(s: Segment, a: nat) {
    exists b: nat :: InSegment(s, b) && b / 4096 == a / 4096
  }

  /** The same for pages as a walk tells them apart, by the low 48 bits. */
  ghost predicate HasPage(s: Segment, a: nat) {
    exists b: nat :: InSegment(s, b) && SamePage(a, b)
  }

  /** The pages that get mapped are the pages of the segment's addresses. */
  lemma SpansExact(s: Segment, a: nat)
    ensures Spans(s, a) <==> Start(s) <= a < Start(s) + PageCount(s) * 4096
  {
    if Start(s) <= a < Start(s) + PageCount(s) * 4096 {
      var b := if a < s.vaddr then s.vaddr else if a < s.vaddr + s.memsz then a
               else if s.memsz == 0 then s.vaddr else s.vaddr + s.memsz - 1;
      assert InSegment(s, b) && b / 4096 == a / 4096;
    }
  }

  lemma HasPageExact(s: Segment, a: nat)
    ensures HasPage(s, a) <==> exists k :: 0 <= k < PageCount(s) && SamePage(a, PageAddr(Start(s), k))
  {
    if HasPage(s, a) {
      var b: nat :| InSegment(s, b) && SamePage(a, b);
      assert Spans(s, b);
      SpansExact(s, b);
      var k := (b - Start(s)) / 4096;
      InPage(Start(s), k, b);
      assert 0 <= k < PageCount(s) && SamePage(a, PageAddr(Start(s), k));
    }
    if k :| 0 <= k < PageCount(s) && SamePage(a, PageAddr(Start(s), k)) {
      var page := PageAddr(Start(s), k);
      SpansExact(s, page);
      var b: nat :| InSegment(s, b) && b / 4096 == page / 4096;
      PageOfAddress(page);
      PageOfAddress(b);
      assert SamePage(a, b);
    }
  }

  /** Every page that gets mapped has an address of the segment, if and only if the segment is not empty or is aligned. */
  lemma NoStrayPage(s: Segment)
    ensures (forall a: nat :: Spans(s, a) ==> exists b: nat :: s.vaddr <= b < s.vaddr + s.memsz && b / 4096 == a / 4096)
       <==> s.memsz > 0 || s.vaddr % 4096 == 0
  {
    if s.memsz == 0 && s.vaddr % 4096 != 0 {
      assert InSegment(s, s.vaddr) && Spans(s, s.vaddr);
    } else {
      forall a: nat | Spans(s, a)
        ensures exists b: nat :: s.vaddr <= b < s.vaddr + s.memsz && b / 4096 == a / 4096
      {
        var b: nat :| InSegment(s, b) && b / 4096 == a / 4096;
      }
    }
  }

  /** What the program may do at `a`: use it, write it and execute it as the segment says, unless a table entry on the way
      forbids execution. */
  predicate Permits(m: Memory, root: nat, s: Segment, a: nat) {
    Allowed(m, root, 4, a) == Some(Access(true, s.writable, s.executable && Runs(m, root, 4, a)))
  }

  /** What a program must find at address `a` of the segment's pages: the file's byte inside the file range,
      zero elsewhere. */
  function SegmentByte(s: Segment, data: seq<Byte>, a: nat): Byte {
    if s.vaddr <= a < s.vaddr + s.filesz && s.offset + (a - s.vaddr) < |data| then data[s.offset + (a - s.vaddr)] else 0
  }

  function SegmentPage(s: Segment, data: seq<Byte>, page: nat): (b: seq<Byte>)
    ensures |b| == 4096 && forall o :: 0 <= o < 4096 ==> b[o] == SegmentByte(s, data, page + o)
  {
    seq<Byte>(4096, o requires 0 <= o < 4096 => SegmentByte(s, data, page + o))
  }

  function PageAddr(base: nat, k: nat): nat {
    base + k * 4096
  }

  ghost predicate OrdinaryPages(base: nat, count: nat) {
    forall k :: 0 <= k < count ==> Ordinary(PageAddr(base, k))
  }

  /** Addresses fit in 64 bits and avoid the recursive slot. */
  ghost predicate Loadable(s: Segment) {
    && s.vaddr + s.memsz + 4095 < U64 && s.vaddr + s.filesz + 4096 < U64 && s.offset + s.filesz < U64
    && OrdinaryPages(Start(s), PageCount(s))
  }

  /** The byte a program reads at `a`. */
  function ReadByte(m: Memory, root: nat, a: nat): Option<Byte> {
    match Translate(m, root, a)
    case None => None
    case Some(p) =>
      if p / 4096 in m.pages && m.pages[p / 4096].DataPage? && p % 4096 < |m.pages[p / 4096].bytes|
      then Some(m.pages[p / 4096].bytes[p % 4096]) else None
  }

  /** An address translates as before, and keeps the flags of its page-table entry and the permissions on the way to it. */
  ghost predicate AddressKept(m: Memory, m': Memory, r: nat, v: nat) {
    && Translate(m', r, v) == Translate(m, r, v)
    && forall flags :: Flagged(m, r, 4, v, flags) ==> Flagged(m', r, 4, v, flags)
  }

  predicate OutsidePage(page: nat, root: nat, r: nat, v: nat) {
    !(SamePage(v, page) && (r == root || Index(v, 4) >= KERNEL_HALF))
  }

  /** All addresses are kept but those of page `page` of `root`. */
  ghost predicate OthersStay(m: Memory, m': Memory, places: Places, root: nat, page: nat) {
    forall r, v :: IsRoot(places, r) && Ordinary(v) && OutsidePage(page, root, r, v) ==> AddressKept(m, m', r, v)
  }

  ghost predicate AllStay(m: Memory, m': Memory, places: Places) {
    forall r, v :: IsRoot(places, r) && Ordinary(v) ==> AddressKept(m, m', r, v)
  }

  // ---- Pages --------------------------------------------------------------------------------------

  lemma StayTwice(m: Memory, m1: Memory, m2: Memory, places: Places, places': Places, root: nat, page: nat)
    requires OthersStay(m, m1, places, root, page) && OthersStay(m1, m2, places', root, page)
    requires forall g :: g in places ==> g in places' && places'[g] == places[g]
    ensures OthersStay(m, m2, places, root, page)
  {
    forall r, v | IsRoot(places, r) && Ordinary(v) && OutsidePage(page, root, r, v)
      ensures AddressKept(m, m2, r, v)
    {
      assert IsRoot(places', r);
      assert AddressKept(m, m1, r, v) && AddressKept(m1, m2, r, v);
    }
  }

  lemma {:induction false} FlaggedSame(m: Memory, m': Memory, lay: Layout, places: Places, root: nat, f: nat, virt: nat, flags: Word)
    requires Tree(m, lay, places) && f in places && Ordinary(virt) && TablesSame(m, m', places)
    requires places[f] == At(lay.kernel, root, places[f].level, virt) && Flagged(m, f, places[f].level, virt, flags)
    ensures Flagged(m', f, places[f].level, virt, flags)
    decreases places[f].level
  {
    var l := places[f].level;
    assert EntryAt(m', f, Index(virt, l)) == EntryAt(m, f, Index(virt, l));
    if l > 1 {
      TableBelow(m, lay, places, root, f, virt);
      FlaggedSame(m, m', lay, places, root, EntryAt(m, f, Index(virt, l)).frame, virt, flags);
      FlagsAbove(m, m', f, l, virt, {}, flags);
    }
  }

  lemma SameStay(m: Memory, m': Memory, lay: Layout, places: Places)
    requires Tree(m, lay, places) && TablesSame(m, m', places)
    ensures AllStay(m, m', places)
  {
    forall r, v | IsRoot(places, r) && Ordinary(v)
      ensures AddressKept(m, m', r, v)
    {
      WalksSame(m, m', lay, places, r, r, v);
      forall flags | Flagged(m, r, 4, v, flags)
        ensures Flagged(m', r, 4, v, flags)
      {
        FlaggedSame(m, m', lay, places, r, r, v, flags);
      }
    }
  }

  /** What a mapping keeps, in these terms. */
  lemma MappedStay(m: Memory, m': Memory, places: Places, root: nat, page: nat)
    requires OthersKept(m, m', places, root, page) || AllKept(m, m', places)
    requires OthersFlagged(m, m', places, root, page)
    ensures OthersStay(m, m', places, root, page)
  {
    forall r, v | IsRoot(places, r) && Ordinary(v) && OutsidePage(page, root, r, v)
      ensures AddressKept(m, m', r, v)
    {
    }
  }

  lemma PagesDiffer(base: nat, j: nat, i: nat)
    requires base % 4096 == 0 && j < i < j + 0x10_0000_0000
    ensures !SamePage(PageAddr(base, j), PageAddr(base, i))
  {
    var b := base / 4096;
    PageOfMultiple(b + j);
    PageOfMultiple(b + i);
    assert base + j * 4096 == (b + j) * 4096 && base + i * 4096 == (b + i) * 4096;
  }

  lemma PageOfMultiple(p: nat)
    ensures (p * 4096) % VIRT_LIMIT / 4096 == p % 0x10_0000_0000
  {
    var q, r := p / 0x10_0000_0000, p % 0x10_0000_0000;
    assert p * 4096 == q * VIRT_LIMIT + r * 4096;
  }

  lemma SamePageOrdinary(v: nat, virt: nat)
    requires SamePage(v, virt) && Ordinary(virt)
    ensures Ordinary(v)
  {
    PageNumber(v);
    PageNumber(virt);
    PrefixIndexes(v, virt, 0);
  }

  /** A mapped page stays mapped while other pages are mapped. */
  lemma PageStays(m: Memory, m': Memory, places: Places, root: nat, virt: nat, base: Option<nat>, other: nat)
    requires PageAt(m, root, virt, base) && IsRoot(places, root) && Ordinary(virt)
    requires AllStay(m, m', places) || (OthersStay(m, m', places, root, other) && !SamePage(virt, other))
    ensures PageAt(m', root, virt, base)
  {
    forall v: nat | SamePage(v, virt)
      ensures Translate(m', root, v) == Translate(m, root, v)
    {
      SamePageOrdinary(v, virt);
      assert AddressKept(m, m', root, v);
    }
  }

  /** Writing data into a used frame that is not a table. */
  lemma WriteData(m: Memory, lay: Layout, places: Places, f: nat, bytes: seq<Byte>)
    requires Tree(m, lay, places) && f !in places
    ensures var m' := Memory(m.pages[f := DataPage(bytes)], m.frames);
            Tree(m', lay, places) && AllStay(m, m', places)
  {
    var m' := Memory(m.pages[f := DataPage(bytes)], m.frames);
    assert TablesSame(m, m', places);
    forall g, j | g in places && 0 <= j < TABLE_LEN
      ensures EntryFits(m', lay, places, g, j)
    {
      assert EntryFits(m, lay, places, g, j);
    }
    SameStay(m, m', lay, places);
  }

  function CopyStart(s: Segment, page: nat): nat {
    if page > s.vaddr then page else s.vaddr
  }

  function CopyEnd(s: Segment, page: nat): nat {
    if page + 4096 < s.vaddr + s.filesz then page + 4096 else s.vaddr + s.filesz
  }

  /** A page that does not meet the file range is all zero. */
  lemma NoOverlap(s: Segment, data: seq<Byte>, page: nat)
    requires CopyStart(s, page) >= CopyEnd(s, page)
    ensures SegmentPage(s, data, page) == ZeroPage()
  {
  }

  /** Otherwise it is a zeroed page with the overlap copied in. */
  lemma Overlap(s: Segment, data: seq<Byte>, page: nat)
    requires var to := CopyEnd(s, page); CopyStart(s, page) < to && s.offset + (to - s.vaddr) <= |data|
    ensures var from, to := CopyStart(s, page), CopyEnd(s, page);
            SegmentPage(s, data, page) ==
            ZeroPage()[..from - page] + data[s.offset + (from - s.vaddr)..s.offset + (to - s.vaddr)] + ZeroPage()[to - page..]
  {
    var from, to := CopyStart(s, page), CopyEnd(s, page);
    var bytes := ZeroPage()[..from - page] + data[s.offset + (from - s.vaddr)..s.offset + (to - s.vaddr)] + ZeroPage()[to - page..];
    assert |bytes| == 4096;
    forall o | 0 <= o < 4096
      ensures bytes[o] == SegmentByte(s, data, page + o)
    {
      if from - page <= o < to - page {
        assert bytes[o] == data[s.offset + (from - s.vaddr)..s.offset + (to - s.vaddr)][o - (from - page)];
      }
    }
  }

  // ---- Loading ------------------------------------------------------------------------------------

  /** What loading one page achieves: the page maps a frame that was free, now holds the segment's bytes, and
      is no table; nothing else changed. */
  ghost predicate PageLoaded(m: Memory, m': Memory, lay: Layout, places: Places, places': Places, root: nat,
                             s: Segment, data: seq<Byte>, page: nat, f: nat) {
    && ShapeKept(m, m', lay, places, places') && OthersStay(m, m', places, root, page)
    && PageAt(m', root, page, Some(f * 4096)) && Flagged(m', root, 4, page, SegmentFlags(s))
    && f < |m.frames.free| == |m'.frames.free| && m.frames.free[f] && !m'.frames.free[f] && f !in places'
    && f in m'.pages && m'.pages[f] == DataPage(SegmentPage(s, data, page))
  }

  lemma FreshIsNoTable(m: Memory, m1: Memory, lay: Layout, places: Places, places': Places, f: nat)
    requires Tree(m, lay, places) && Pmm.Alloc(m.frames) == (Some(f), m1.frames) && Grown(m1, places, places')
    ensures f < |m.frames.free| && m.frames.free[f] && f < |m1.frames.free| && !m1.frames.free[f] && f !in places'
  {
  }

  /** The page maps frame `f`, which was free and is no table; nothing else changed. */
  ghost predicate Prepared(m: Memory, m': Memory, lay: Layout, places: Places, places': Places, root: nat, page: nat, flags: Word,
                           f: nat) {
    && ShapeKept(m, m', lay, places, places') && OthersStay(m, m', places, root, page)
    && PageAt(m', root, page, Some(f * 4096)) && Flagged(m', root, 4, page, flags)
    && f < |m.frames.free| == |m'.frames.free| && m.frames.free[f] && !m'.frames.free[f] && f !in places'
  }

  lemma PreparedSteps(m: Memory, m1: Memory, m2: Memory, lay: Layout, places: Places, places': Places, root: nat, page: nat,
                      flags: Word, f: nat)
    requires Tree(m, lay, places) && Pmm.Alloc(m.frames) == (Some(f), m1.frames) && m1.pages == m.pages
    requires ShapeKept(m1, m2, lay, places, places') && OthersStay(m1, m2, places, root, page)
    requires PageAt(m2, root, page, Some(f * 4096)) && Flagged(m2, root, 4, page, flags)
    ensures Prepared(m, m2, lay, places, places', root, page, flags, f)
  {
    FreshPage(m, m1, lay, places, f);
    SameStay(m, m1, lay, places);
    StayTwice(m, m1, m2, places, places, root, page);
    KeptCompose(m, m1, m2, lay, places, places', root, page);
    FreshIsNoTable(m, m1, lay, places, places', f);
  }

  lemma PreparedLoads(m: Memory, m2: Memory, lay: Layout, places: Places, places': Places, root: nat,
                      s: Segment, data: seq<Byte>, page: nat, f: nat)
    requires Prepared(m, m2, lay, places, places', root, page, SegmentFlags(s), f) && IsRoot(places, root) && Ordinary(page)
    ensures var m3 := Memory(m2.pages[f := DataPage(SegmentPage(s, data, page))], m2.frames);
            PageLoaded(m, m3, lay, places, places', root, s, data, page, f)
  {
    var m3 := Memory(m2.pages[f := DataPage(SegmentPage(s, data, page))], m2.frames);
    WriteData(m2, lay, places', f, SegmentPage(s, data, page));
    PageStays(m2, m3, places', root, page, Some(f * 4096), page);
    assert AddressKept(m2, m3, root, page);
    StayTwice(m, m2, m3, places, places', root, page);
  }

  /** Writing any data into the page's frame keeps all other addresses. */
  lemma PreparedKeeps(m: Memory, m2: Memory, lay: Layout, places: Places, places': Places, root: nat, page: nat, flags: Word, f: nat,
                      bytes: seq<Byte>)
    requires Prepared(m, m2, lay, places, places', root, page, flags, f)
    ensures OthersStay(m, Memory(m2.pages[f := DataPage(bytes)], m2.frames), places, root, page)
  {
    WriteData(m2, lay, places', f, bytes);
    StayTwice(m, m2, Memory(m2.pages[f := DataPage(bytes)], m2.frames), places, places', root, page);
  }

  /** The file has the bytes of the page at `page`. */
  predicate InFile(s: Segment, data: seq<Byte>, page: nat) {
    CopyStart(s, page) >= CopyEnd(s, page) || s.offset + (CopyEnd(s, page) - s.vaddr) <= |data|
  }

  ghost predicate PagesInFile(s: Segment, data: seq<Byte>, base: nat, n: nat) {
    forall k :: 0 <= k < n ==> InFile(s, data, PageAddr(base, k))
  }

  lemma PagesInFileNext(s: Segment, data: seq<Byte>, base: nat, n: nat)
    requires PagesInFile(s, data, base, n) && InFile(s, data, PageAddr(base, n))
    ensures PagesInFile(s, data, base, n + 1)
  {
  }

  /** The file ends before its part of the segment. */
  predicate TooShort(s: Segment, data: seq<Byte>) {
    s.filesz > 0 && s.offset + s.filesz > |data|
  }

  /** No page can be mapped there: no frame is left, or the entry of the root is marked huge. */
  ghost predicate CannotMap(m: Memory, root: nat, page: nat) {
    Pmm.Alloc(m.frames).0.None? || (IsTable(m, root) && {PRESENT, HUGE_PAGE} <= EntryAt(m, root, Index(page, 4)).flags)
  }

  /** Zeroes frame `f` and copies into it what the file has for the page at `page`. */
  method FillPage(vm: VirtualMemory, f: nat, s: Segment, data: seq<Byte>, page: nat) returns (r: Result<(), LoadError>)
    modifies vm`pages
    ensures r.Ok? <==> InFile(s, data, page)
    ensures vm.pages == old(vm.pages)[f := DataPage(if r.Ok? then SegmentPage(s, data, page) else ZeroPage())]
    ensures r.Err? ==> r.error == ReadFailed
  {
    vm.pages := vm.pages[f := DataPage(ZeroPage())];
    var copyStart, copyEnd := CopyStart(s, page), CopyEnd(s, page);
    if copyStart < copyEnd {
      var len := copyEnd - copyStart;
      var inFile := s.offset + (copyStart - s.vaddr);
      var inPage := copyStart - page;
      if inFile + len > |data| { return Err(ReadFailed); }
      Overlap(s, data, page);
      var bytes := ZeroPage();
      vm.pages := vm.pages[f := DataPage(bytes[..inPage] + data[inFile..inFile + len] + bytes[inPage + len..])];
    } else {
      NoOverlap(s, data, page);
    }
    return Ok(());
  }

  /** Takes a frame and maps the page to it. */
  method MapFrame(vm: VirtualMemory, ghost lay: Layout, ghost places: Places, root: nat, s: Segment, page: nat)
    returns (f: Option<nat>, ghost places': Places)
    requires vm.Valid() && Tree(vm.State(), lay, places) && IsRoot(places, root) && Ordinary(page)
    modifies vm, vm.pmm, vm.pmm.bitmap
    ensures f.Some? ==> Prepared(old(vm.State()), vm.State(), lay, places, places', root, page, SegmentFlags(s), f.value)
    ensures f.None? ==> OthersStay(old(vm.State()), vm.State(), places, root, page) && CannotMap(vm.State(), root, page)
  {
    ghost var m := vm.State();
    places' := places;
    f := vm.pmm.AllocPage();
    if f.None? { return; }
    ghost var m1 := vm.State();
    FreshPage(m, m1, lay, places, f.value);
    FrameBase(m.frames, f.value);
    PresentInFlags(s);
    var mapped;
    mapped, places' := vm.MapPageWithFlags(lay, places, root, page, f.value * 4096, SegmentFlags(s));
    MappedStay(m1, vm.State(), places, root, page);
    if mapped.Err? {
      SameStay(m, m1, lay, places);
      StayTwice(m, m1, vm.State(), places, places, root, page);
      f := None;
      return;
    }
    PreparedSteps(m, m1, vm.State(), lay, places, places', root, page, SegmentFlags(s), f.value);
  }

  /** The body of the page loop of `load_segment`. */
  method LoadPage(vm: VirtualMemory, ghost lay: Layout, ghost places: Places, root: nat,
                  s: Segment, data: seq<Byte>, page: nat)
    returns (r: Result<(), LoadError>, ghost places': Places, ghost f: nat)
    requires vm.Valid() && Tree(vm.State(), lay, places) && IsRoot(places, root) && Ordinary(page)
    modifies vm, vm.pmm, vm.pmm.bitmap
    ensures r.Ok? ==> PageLoaded(old(vm.State()), vm.State(), lay, places, places', root, s, data, page, f)
    ensures r.Ok? ==> InFile(s, data, page)
    ensures r.Err? ==> OthersStay(old(vm.State()), vm.State(), places, root, page)
    ensures r == Err(NoMemory) ==> CannotMap(vm.State(), root, page)
    ensures r == Err(ReadFailed) ==> TooShort(s, data)
  {
    ghost var m := vm.State();
    f := 0;
    var frame;
    frame, places' := MapFrame(vm, lay, places, root, s, page);
    if frame.None? { return Err(NoMemory), places', f; }
    f := frame.value;
    ghost var m2 := vm.State();
    PreparedLoads(m, m2, lay, places, places', root, s, data, page, f);
    PreparedKeeps(m, m2, lay, places, places', root, page, SegmentFlags(s), f, ZeroPage());
    r := FillPage(vm, frame.value, s, data, page);
    assert vm.State() == Memory(m2.pages[f := DataPage(if r.Ok? then SegmentPage(s, data, page) else ZeroPage())], m2.frames);
  }

  lemma PresentInFlags(s: Segment)
    ensures PRESENT in SegmentFlags(s)
  {
  }

  lemma FrameBase(frames: Pmm.Frames, f: nat)
    requires |frames.free| <= FRAMES && Pmm.Alloc(frames).0 == Some(f)
    ensures f * 4096 / 4096 % FRAMES * 4096 == f * 4096
  {
    assert f < FRAMES;
  }

  /** The page at address `page` is in memory, in frame `f`. */
  ghost predicate PageHeld(m: Memory, places: Places, root: nat, s: Segment, data: seq<Byte>, page: nat, f: nat) {
    && PageAt(m, root, page, Some(f * 4096)) && Flagged(m, root, 4, page, SegmentFlags(s))
    && f < |m.frames.free| && !m.frames.free[f] && f !in places
    && f in m.pages && m.pages[f] == DataPage(SegmentPage(s, data, page))
  }

  /** The pages from `base` on are in memory, in frames that are all different. */
  ghost predicate Held(m: Memory, places: Places, root: nat, s: Segment, data: seq<Byte>, base: nat, frames: seq<nat>) {
    && (forall k :: 0 <= k < |frames| ==> PageHeld(m, places, root, s, data, PageAddr(base, k), frames[k]))
    && (forall j, k :: 0 <= j < k < |frames| ==> frames[j] != frames[k])
  }

  /** All addresses are kept but those of the first `n` pages from `base`. */
  ghost predicate OutsideKept(m: Memory, m': Memory, places: Places, root: nat, base: nat, n: nat) {
    forall r, v :: IsRoot(places, r) && Ordinary(v) && OutsidePages(base, n, root, r, v) ==> AddressKept(m, m', r, v)
  }

  ghost predicate OutsidePages(base: nat, n: nat, root: nat, r: nat, v: nat) {
    forall k :: 0 <= k < n ==> OutsidePage(PageAddr(base, k), root, r, v)
  }

  lemma HeldBound(m: Memory, places: Places, root: nat, s: Segment, data: seq<Byte>, base: nat, frames: seq<nat>)
    requires Held(m, places, root, s, data, base, frames) && |m.frames.free| == Pmm.MAX_PAGES
    ensures |frames| <= Pmm.MAX_PAGES
  {
    forall k | 0 <= k < |frames| ensures frames[k] < Pmm.MAX_PAGES {
      assert PageHeld(m, places, root, s, data, PageAddr(base, k), frames[k]);
    }
    NoDupBound(frames, Pmm.MAX_PAGES);
  }

  lemma PageHeldStays(m: Memory, m': Memory, lay: Layout, places: Places, places': Places, root: nat,
                      s: Segment, data: seq<Byte>, page: nat, f: nat, held: nat, g: nat)
    requires PageLoaded(m, m', lay, places, places', root, s, data, page, f)
    requires PageHeld(m, places, root, s, data, held, g) && !SamePage(held, page)
    requires IsRoot(places, root) && Ordinary(held)
    ensures PageHeld(m', places', root, s, data, held, g) && g != f
  {
    PageStays(m, m', places, root, held, Some(g * 4096), page);
    assert AddressKept(m, m', root, held);
  }

  lemma HeldNext(m: Memory, m': Memory, lay: Layout, places: Places, places': Places, root: nat,
                 s: Segment, data: seq<Byte>, base: nat, frames: seq<nat>, f: nat, count: nat)
    requires Held(m, places, root, s, data, base, frames) && |m.frames.free| == Pmm.MAX_PAGES && IsRoot(places, root)
    requires PageLoaded(m, m', lay, places, places', root, s, data, PageAddr(base, |frames|), f)
    requires base % 4096 == 0 && |frames| < count && OrdinaryPages(base, count)
    ensures Held(m', places', root, s, data, base, frames + [f])
  {
    HeldBound(m, places, root, s, data, base, frames);
    var n, frames' := |frames|, frames + [f];
    forall k | 0 <= k <= n
      ensures PageHeld(m', places', root, s, data, PageAddr(base, k), frames'[k])
      ensures k < n ==> frames'[k] != f
    {
      if k < n {
        PagesDiffer(base, k, n);
        PageHeldStays(m, m', lay, places, places', root, s, data, PageAddr(base, n), f, PageAddr(base, k), frames[k]);
      }
    }
  }

  lemma OutsideNext(m0: Memory, m: Memory, m': Memory, places0: Places, places: Places, root: nat, base: nat, n: nat)
    requires OutsideKept(m0, m, places0, root, base, n) && OthersStay(m, m', places, root, PageAddr(base, n))
    requires forall g :: g in places0 ==> g in places && places[g] == places0[g]
    ensures OutsideKept(m0, m', places0, root, base, n + 1)
  {
    forall r, v | IsRoot(places0, r) && Ordinary(v) && OutsidePages(base, n + 1, root, r, v)
      ensures AddressKept(m0, m', r, v)
    {
      assert OutsidePage(PageAddr(base, n), root, r, v);
      assert OutsidePages(base, n, root, r, v);
      assert IsRoot(places, r);
      assert AddressKept(m0, m, r, v) && AddressKept(m, m', r, v);
    }
  }

  lemma PageHeldReads(m: Memory, places: Places, root: nat, s: Segment, data: seq<Byte>, page: nat, f: nat, a: nat)
    requires PageHeld(m, places, root, s, data, page, f) && SamePage(a, page) && page <= a < page + 4096 && a % 4096 == a - page
    ensures ReadByte(m, root, a) == Some(SegmentByte(s, data, a))
  {
    var o := a - page;
    assert Translate(m, root, a) == Some(f * 4096 + o);
    assert (f * 4096 + o) / 4096 == f && (f * 4096 + o) % 4096 == o;
    assert SegmentPage(s, data, page)[o] == SegmentByte(s, data, page + o);
  }

  lemma {:induction false} FlaggedPage(m: Memory, f: nat, l: nat, page: nat, a: nat, flags: Word)
    requires 1 <= l <= 4 && Flagged(m, f, l, page, flags) && forall k :: 1 <= k <= 4 ==> Index(a, k) == Index(page, k)
    ensures Flagged(m, f, l, a, flags)
    decreases l
  {
    if l > 1 {
      FlaggedPage(m, EntryAt(m, f, Index(page, l)).frame, l - 1, page, a, flags);
    }
  }

  lemma PageHeldPermits(m: Memory, places: Places, root: nat, s: Segment, data: seq<Byte>, page: nat, f: nat, a: nat)
    requires PageHeld(m, places, root, s, data, page, f) && SamePage(a, page)
    ensures Permits(m, root, s, a)
  {
    PageNumber(a);
    PageNumber(page);
    PrefixIndexes(a, page, 0);
    FlaggedPage(m, root, 4, page, a, SegmentFlags(s));
    FlagsAllow(m, root, 4, a, SegmentFlags(s));
  }

  lemma InPage(base: nat, k: nat, a: nat)
    requires base % 4096 == 0 && base <= a && k == (a - base) / 4096
    ensures var page := PageAddr(base, k); SamePage(a, page) && page <= a < page + 4096 && a % 4096 == a - page
  {
    var b := base / 4096;
    assert a / 4096 == b + k;
    PageOfAddress(a);
    PageOfAddress(PageAddr(base, k));
  }

  lemma PageOfAddress(a: nat)
    ensures a % VIRT_LIMIT / 4096 == a / 4096 % 0x10_0000_0000
  {
  }

  /** Once its pages are held, every address of them reads the byte that the segment has there, with its permissions. */
  lemma HeldReads(m: Memory, places: Places, root: nat, s: Segment, data: seq<Byte>, base: nat, frames: seq<nat>, a: nat)
    requires Held(m, places, root, s, data, base, frames) && base % 4096 == 0 && base <= a < base + |frames| * 4096
    ensures ReadByte(m, root, a) == Some(SegmentByte(s, data, a)) && Permits(m, root, s, a)
  {
    var k := (a - base) / 4096;
    InPage(base, k, a);
    PageHeldReads(m, places, root, s, data, PageAddr(base, k), frames[k], a);
    PageHeldPermits(m, places, root, s, data, PageAddr(base, k), frames[k], a);
  }

  lemma AllRead(m: Memory, places: Places, root: nat, s: Segment, data: seq<Byte>, frames: seq<nat>)
    requires Held(m, places, root, s, data, Start(s), frames) && |frames| == PageCount(s)
    ensures forall a :: Spans(s, a) ==> ReadByte(m, root, a) == Some(SegmentByte(s, data, a)) && Permits(m, root, s, a)
    ensures forall a :: s.vaddr <= a < s.vaddr + s.memsz ==> ReadByte(m, root, a) == Some(SegmentByte(s, data, a))
  {
    forall a | Spans(s, a)
      ensures ReadByte(m, root, a) == Some(SegmentByte(s, data, a)) && Permits(m, root, s, a)
    {
      SpansExact(s, a);
      HeldReads(m, places, root, s, data, Start(s), frames, a);
    }
    forall a | s.vaddr <= a < s.vaddr + s.memsz
      ensures Spans(s, a)
    {
      assert InSegment(s, a);
    }
  }

  /** All addresses are kept but those on the segment's pages. */
  ghost predicate SegmentKept(m: Memory, m': Memory, places: Places, root: nat, s: Segment) {
    forall r, v :: IsRoot(places, r) && Ordinary(v) && !(HasPage(s, v) && (r == root || Index(v, 4) >= KERNEL_HALF)) ==>
      AddressKept(m, m', r, v)
  }

  lemma OutsideSegment(m: Memory, m': Memory, places: Places, root: nat, s: Segment)
    requires OutsideKept(m, m', places, root, Start(s), PageCount(s))
    ensures SegmentKept(m, m', places, root, s)
  {
    forall r, v | IsRoot(places, r) && Ordinary(v) && !(HasPage(s, v) && (r == root || Index(v, 4) >= KERNEL_HALF))
      ensures AddressKept(m, m', r, v)
    {
      HasPageExact(s, v);
      assert OutsidePages(Start(s), PageCount(s), root, r, v);
    }
  }

  /** The state of the page loop: the first pages are held, and nothing outside them changed since `m0`. */
  ghost predicate Progress(m0: Memory, m: Memory, lay: Layout, places0: Places, places: Places, root: nat,
                           s: Segment, data: seq<Byte>, base: nat, frames: seq<nat>) {
    && Held(m, places, root, s, data, base, frames) && Tree(m, lay, places) && IsRoot(places, root)
    && OutsideKept(m0, m, places0, root, base, |frames|)
    && Grown(m0, places0, places) && UsedKept(m0, m, places0)
  }

  lemma ProgressNext(m0: Memory, m: Memory, m': Memory, lay: Layout, places0: Places, places: Places, places': Places,
                     root: nat, s: Segment, data: seq<Byte>, base: nat, frames: seq<nat>, f: nat, count: nat)
    requires Progress(m0, m, lay, places0, places, root, s, data, base, frames) && |m.frames.free| == Pmm.MAX_PAGES
    requires PageLoaded(m, m', lay, places, places', root, s, data, PageAddr(base, |frames|), f)
    requires base % 4096 == 0 && |frames| < count && OrdinaryPages(base, count)
    ensures Progress(m0, m', lay, places0, places', root, s, data, base, frames + [f])
  {
    HeldNext(m, m', lay, places, places', root, s, data, base, frames, f, count);
    OutsideNext(m0, m, m', places0, places, root, base, |frames|);
    KeptTwice(m0, m, m', places0, places, places');
  }

  lemma OutsideMore(m: Memory, m': Memory, places: Places, root: nat, base: nat, n: nat, count: nat)
    requires OutsideKept(m, m', places, root, base, n) && n <= count
    ensures OutsideKept(m, m', places, root, base, count)
  {
    forall r, v | IsRoot(places, r) && Ordinary(v) && OutsidePages(base, count, root, r, v)
      ensures AddressKept(m, m', r, v)
    {
      assert OutsidePages(base, n, root, r, v);
    }
  }

  lemma OutsideStopped(m0: Memory, m: Memory, m': Memory, lay: Layout, places0: Places, places: Places,
                       root: nat, s: Segment, data: seq<Byte>, base: nat, frames: seq<nat>, count: nat)
    requires Progress(m0, m, lay, places0, places, root, s, data, base, frames) && |frames| < count
    requires OthersStay(m, m', places, root, PageAddr(base, |frames|))
    ensures OutsideKept(m0, m', places0, root, base, count)
  {
    OutsideNext(m0, m, m', places0, places, root, base, |frames|);
    OutsideMore(m0, m', places0, root, base, |frames| + 1, count);
  }

  /** A file that has the bytes of every page has those of the segment. */
  lemma WholeFile(s: Segment, data: seq<Byte>)
    requires s.filesz <= s.memsz && PagesInFile(s, data, Start(s), PageCount(s))
    ensures !TooShort(s, data)
  {
    if s.filesz > 0 {
      var last := s.vaddr + s.filesz - 1;
      var k := (last - Start(s)) / 4096;
      assert k < PageCount(s);
      assert InFile(s, data, PageAddr(Start(s), k));
    }
  }

  /** What a load that failed for want of memory leaves. */
  ghost predicate StoppedAt(m: Memory, root: nat, base: nat, count: nat) {
    exists k :: 0 <= k < count && CannotMap(m, root, PageAddr(base, k))
  }

  /** The page loop of `load_segment`. */
  method LoadPages(vm: VirtualMemory, ghost lay: Layout, ghost places: Places, root: nat,
                   s: Segment, data: seq<Byte>, base: nat, count: nat)
    returns (r: Result<(), LoadError>, ghost places': Places, ghost frames: seq<nat>)
    requires vm.Valid() && Tree(vm.State(), lay, places) && IsRoot(places, root)
    requires base % 4096 == 0 && OrdinaryPages(base, count)
    modifies vm, vm.pmm, vm.pmm.bitmap
    ensures r.Ok? ==> |frames| == count
    ensures r.Ok? ==> Progress(old(vm.State()), vm.State(), lay, places, places', root, s, data, base, frames)
    ensures r.Ok? ==> PagesInFile(s, data, base, count)
    ensures OutsideKept(old(vm.State()), vm.State(), places, root, base, count)
    ensures r == Err(NoMemory) ==> StoppedAt(vm.State(), root, base, count)
    ensures r == Err(ReadFailed) ==> TooShort(s, data)
  {
    places', frames := places, [];
    for i := 0 to count
      invariant |frames| == i
      invariant Progress(old(vm.State()), vm.State(), lay, places, places', root, s, data, base, frames)
      invariant PagesInFile(s, data, base, i)
    {
      ghost var m, places1, f := vm.State(), places', 0;
      vm.pmm.StateLength();
      r, places', f := LoadPage(vm, lay, places1, root, s, data, PageAddr(base, i));
      if r.Err? {
        OutsideStopped(old(vm.State()), m, vm.State(), lay, places, places1, root, s, data, base, frames, count);
        return;
      }
      ProgressNext(old(vm.State()), m, vm.State(), lay, places, places1, places', root, s, data, base, frames, f, count);
      PagesInFileNext(s, data, base, i);
      frames := frames + [f];
    }
    r := Ok(());
  }

  /** `load_segment`: after success every address of the segment's pages reads the file's byte inside the file range and
      zero elsewhere, with the segment's permissions; the frames used are different, and none is a page table. It fails
      only when a page cannot be mapped or the file is too short. Either way all other addresses are kept. */
  method LoadSegment(vm: VirtualMemory, ghost lay: Layout, ghost places: Places, root: nat, s: Segment, data: seq<Byte>)
    returns (r: Result<(), LoadError>, ghost places': Places, ghost frames: seq<nat>)
    requires vm.Valid() && Tree(vm.State(), lay, places) && IsRoot(places, root) && Loadable(s)
    modifies vm, vm.pmm, vm.pmm.bitmap
    ensures r.Ok? ==> forall a :: s.vaddr <= a < s.vaddr + s.memsz ==>
                        ReadByte(vm.State(), root, a) == Some(SegmentByte(s, data, a))
    ensures r.Ok? ==> forall a :: Spans(s, a) ==>
                        ReadByte(vm.State(), root, a) == Some(SegmentByte(s, data, a)) && Permits(vm.State(), root, s, a)
    ensures r.Ok? ==> |frames| == PageCount(s) && Held(vm.State(), places', root, s, data, Start(s), frames)
    ensures r.Ok? ==> ShapeKept(old(vm.State()), vm.State(), lay, places, places')
    ensures SegmentKept(old(vm.State()), vm.State(), places, root, s)
    ensures r.Ok? && s.filesz <= s.memsz ==> !TooShort(s, data)
    ensures r == Err(ReadFailed) ==> TooShort(s, data)
    ensures r == Err(NoMemory) ==> StoppedAt(vm.State(), root, Start(s), PageCount(s))
  {
    var base, count := Start(s), PageCount(s);
    r, places', frames := LoadPages(vm, lay, places, root, s, data, base, count);
    OutsideSegment(old(vm.State()), vm.State(), places, root, s);
    if r.Ok? {
      AllRead(vm.State(), places', root, s, data, frames);
      if s.filesz <= s.memsz {
        WholeFile(s, data);
      }
    }
  }
}
