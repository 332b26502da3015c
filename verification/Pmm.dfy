/** The physical memory manager: a bitmap with one bit per 4 KiB page (1 = free) and a counter of free pages.

    `Frames` is the manager seen page by page; its operations are the specification. `PhysicalMemory` is
    the manager as the kernel runs it: 64-bit words, word scans, bit updates, one counter update per page. */
module Pmm {
  import opened Wrappers
  import opened Arith
  import opened Bits

  const PAGE_SIZE: nat := 4096
  const MAX_PAGES: nat := 1024 * 1024
  const BITMAP_WORDS: nat := MAX_PAGES / 64
  /** Pages below 1 MiB are never handed out. */
  const LOW_PAGES: nat := 1024 * 1024 / PAGE_SIZE

  // ---- Page by page -------------------------------------------------------------------------------

  /** `free[p]` says whether page `p` is free; `count` is FREE_PAGES. */
  datatype Frames = Frames(free: seq<bool>, count: int)

  /** The number of free pages. */
  function Count(free: seq<bool>): (n: nat)
    ensures n <= |free|
  {
    if free == [] then 0 else Count(free[..|free| - 1]) + if free[|free| - 1] then 1 else 0
  }

  function LowestFree(free: seq<bool>, from: nat): (r: Option<nat>)
    ensures r.Some? ==> from <= r.value < |free| && free[r.value] && forall q :: from <= q < r.value ==> !free[q]
    ensures r.None? ==> forall q :: from <= q < |free| ==> !free[q]
    decreases |free| - from
  {
    if from >= |free| then None
    else if free[from] then Some(from)
    else LowestFree(free, from + 1)
  }

  predicate Run(free: seq<bool>, start: nat, len: nat) {
    start + len <= |free| && forall q :: start <= q < start + len ==> free[q]
  }

  function LowestRun(free: seq<bool>, len: nat, from: nat): (r: Option<nat>)
    ensures r.Some? ==> from <= r.value && Run(free, r.value, len) && forall s :: from <= s < r.value ==> !Run(free, s, len)
    ensures r.None? ==> forall s :: from <= s ==> !Run(free, s, len)
    decreases |free| - from
  {
    if from > |free| then None
    else if Run(free, from, len) then Some(from)
    else LowestRun(free, len, from + 1)
  }

  function Reserve(free: seq<bool>, start: nat, end: nat): (r: seq<bool>)
    ensures |r| == |free|
  {
    seq(|free|, p requires 0 <= p < |free| => free[p] && !(start <= p < end))
  }

  lemma ReserveEmpty(free: seq<bool>, start: nat, end: nat)
    requires end <= start
    ensures Reserve(free, start, end) == free
  {
  }

  lemma ReserveStep(free: seq<bool>, start: nat, page: nat)
    requires start <= page
    ensures var r := Reserve(free, start, page);
            Reserve(free, start, page + 1) == if page < |free| && r[page] then r[page := false] else r
  {
  }

  /** The lowest free page, as a frame number. */
  function Alloc(f: Frames): (Option<nat>, Frames) {
    match LowestFree(f.free, 0)
    case None => (None, f)
    case Some(p) => (Some(p), Frames(f.free[p := false], f.count - 1))
  }

  function Release(f: Frames, addr: nat): Frames {
    var p := addr / PAGE_SIZE;
    if p >= |f.free| || f.free[p] then f else Frames(f.free[p := true], f.count + 1)
  }

  function AllocRun(f: Frames, len: nat): (Option<nat>, Frames) {
    if len == 0 then (None, f)
    else
      match LowestRun(f.free, len, 0)
      case None => (None, f)
      case Some(s) => (Some(s), Frames(Reserve(f.free, s, s + len), f.count - len))
  }

  lemma {:induction false} CountUpdate(free: seq<bool>, p: nat, b: bool)
    requires p < |free|
    ensures Count(free[p := b]) == Count(free) + (if b then 1 else 0) - (if free[p] then 1 else 0)
  {
    var n := |free| - 1;
    if p == n {
      assert free[p := b][..n] == free[..n];
    } else {
      CountUpdate(free[..n], p, b);
      assert free[p := b][..n] == free[..n][p := b];
    }
  }

  lemma {:induction false} CountReserve(free: seq<bool>, start: nat, end: nat)
    requires start <= end <= |free| && Run(free, start, end - start)
    ensures Count(Reserve(free, start, end)) == Count(free) - (end - start)
    decreases end
  {
    if start == end {
      assert Reserve(free, start, end) == free;
    } else {
      var shorter := Reserve(free, start, end - 1);
      CountReserve(free, start, end - 1);
      CountUpdate(shorter, end - 1, false);
      assert shorter[end - 1 := false] == Reserve(free, start, end);
    }
  }

  // ---- Runs of calls ------------------------------------------------------------------------------

  datatype Call = CallAlloc | CallFree(addr: nat) | CallContiguous(len: nat)

  /** The manager with the frames handed out and not yet given back, each as often as it was. */
  datatype Ledger = Ledger(frames: Frames, held: multiset<nat>)

  function Interval(start: nat, len: nat): (r: set<nat>)
    ensures forall p :: p in r <==> start <= p < start + len
  {
    if len == 0 then {} else Interval(start, len - 1) + {start + len - 1}
  }

  function Apply(l: Ledger, c: Call): Ledger {
    match c
    case CallAlloc =>
      var (r, f) := Alloc(l.frames);
      Ledger(f, if r.Some? then l.held + multiset{r.value} else l.held)
    case CallFree(addr) => Ledger(Release(l.frames, addr), l.held - multiset{addr / PAGE_SIZE})
    case CallContiguous(len) =>
      var (r, f) := AllocRun(l.frames, len);
      Ledger(f, if r.Some? then l.held + multiset(Interval(r.value, len)) else l.held)
  }

  function ApplyAll(l: Ledger, calls: seq<Call>): Ledger
    decreases |calls|
  {
    if calls == [] then l else ApplyAll(Apply(l, calls[0]), calls[1..])
  }

  /** The counter is exact, no frame is both held and free, and none is held twice. */
  ghost predicate Balanced(l: Ledger) {
    && l.frames.count == Count(l.frames.free)
    && forall p :: p in l.held ==> p < |l.frames.free| && !l.frames.free[p] && l.held[p] == 1
  }

  lemma AllocBalanced(l: Ledger)
    requires Balanced(l)
    ensures Balanced(Apply(l, CallAlloc))
    ensures var r := Alloc(l.frames).0; r.Some? ==> r.value !in l.held
  {
    var r := LowestFree(l.frames.free, 0);
    if r.Some? {
      CountUpdate(l.frames.free, r.value, false);
    }
  }

  lemma FreeBalanced(l: Ledger, addr: nat)
    requires Balanced(l)
    ensures Balanced(Apply(l, CallFree(addr)))
  {
    if addr / PAGE_SIZE < |l.frames.free| {
      CountUpdate(l.frames.free, addr / PAGE_SIZE, true);
    }
  }

  /** No page is held twice after a run of free pages is handed out. */
  lemma HeldAfterRun(l: Ledger, start: nat, len: nat, p: nat)
    requires Balanced(l) && start + len <= |l.frames.free| && forall q :: start <= q < start + len ==> l.frames.free[q]
    requires p in l.held + multiset(Interval(start, len))
    ensures p < |l.frames.free| && !Reserve(l.frames.free, start, start + len)[p]
    ensures (l.held + multiset(Interval(start, len)))[p] == 1
  {
    if p in l.held {
      assert p !in Interval(start, len);
    }
  }

  lemma RunHandedOut(l: Ledger, start: nat, len: nat)
    requires Balanced(l) && start + len <= |l.frames.free| && forall q :: start <= q < start + len ==> l.frames.free[q]
    ensures Balanced(Ledger(Frames(Reserve(l.frames.free, start, start + len), l.frames.count - len),
                            l.held + multiset(Interval(start, len))))
    ensures forall p :: p in Interval(start, len) ==> p !in l.held
  {
    var free, held := Reserve(l.frames.free, start, start + len), l.held + multiset(Interval(start, len));
    CountReserve(l.frames.free, start, start + len);
    forall p | p in held
      ensures p < |free| && !free[p] && held[p] == 1
    {
      HeldAfterRun(l, start, len, p);
    }
  }

  lemma ContiguousBalanced(l: Ledger, len: nat)
    requires Balanced(l)
    ensures Balanced(Apply(l, CallContiguous(len)))
    ensures var r := AllocRun(l.frames, len).0; r.Some? ==> forall p :: p in Interval(r.value, len) ==> p !in l.held
  {
    ContiguousApplied(l, len);
    var r := LowestRun(l.frames.free, len, 0);
    if len > 0 && r.Some? {
      RunHandedOut(l, r.value, len);
    }
  }

  lemma ContiguousApplied(l: Ledger, len: nat)
    ensures var r := LowestRun(l.frames.free, len, 0);
            Apply(l, CallContiguous(len)) ==
            if len > 0 && r.Some? then
              Ledger(Frames(Reserve(l.frames.free, r.value, r.value + len), l.frames.count - len),
                     l.held + multiset(Interval(r.value, len)))
            else l
  {
  }

  /** One call keeps the ledger balanced, and what it hands out was not held before. */
  lemma CallBalanced(l: Ledger, c: Call)
    requires Balanced(l)
    ensures Balanced(Apply(l, c))
    ensures c.CallAlloc? ==> var r := Alloc(l.frames).0; r.Some? ==> r.value !in l.held
    ensures c.CallContiguous? ==> var r := AllocRun(l.frames, c.len).0;
                                  r.Some? ==> forall p :: p in Interval(r.value, c.len) ==> p !in l.held
  {
    match c
    case CallAlloc => AllocBalanced(l);
    case CallFree(addr) => FreeBalanced(l, addr);
    case CallContiguous(len) => ContiguousBalanced(l, len);
  }

  /** After every run of calls the counter equals the number of free bits, held frames are apart from free ones, and no
      frame is held twice. */
  lemma {:induction false} RunBalanced(l: Ledger, calls: seq<Call>)
    requires Balanced(l)
    ensures Balanced(ApplyAll(l, calls))
    decreases |calls|
  {
    if calls != [] {
      CallBalanced(l, calls[0]);
      RunBalanced(Apply(l, calls[0]), calls[1..]);
    }
  }

  /** Giving a page straight back undoes its allocation. */
  lemma AllocThenFree(f: Frames)
    ensures var (r, f') := Alloc(f); r.Some? ==> Release(f', r.value * PAGE_SIZE) == f
  {
    var r := LowestFree(f.free, 0);
    if r.Some? {
      assert f.free[r.value := false][r.value := true] == f.free;
    }
  }

  // ---- The memory map -----------------------------------------------------------------------------

  datatype Region = Region(base: nat, length: nat, usable: bool)

  function FirstPage(r: Region): nat {
    (r.base + PAGE_SIZE - 1) / PAGE_SIZE
  }

  function EndPage(r: Region): nat {
    (r.base + r.length) / PAGE_SIZE
  }

  predicate Covers(r: Region, p: nat) {
    r.usable && FirstPage(r) <= p < EndPage(r)
  }

  predicate Covered(regions: seq<Region>, p: nat) {
    exists i :: 0 <= i < |regions| && Covers(regions[i], p)
  }

  /** Page `p` lies in a usable region before the `k`th, or among the pages of the `k`th below `upTo`. */
  predicate CoveredUpTo(regions: seq<Region>, k: nat, upTo: nat, p: nat)
    requires k < |regions|
  {
    Covered(regions[..k], p) || (Covers(regions[k], p) && p < upTo)
  }

  /** The free pages are those of the usable regions. */
  ghost predicate Marks(free: seq<bool>, regions: seq<Region>) {
    forall p :: 0 <= p < |free| ==> (free[p] <==> Covered(regions, p))
  }

  /** All bytes of the page lie in the region. */
  predicate Inside(p: nat, r: Region) {
    r.base <= p * PAGE_SIZE && (p + 1) * PAGE_SIZE <= r.base + r.length
  }

  /** Some byte of the page lies from `start` on and below `end`. */
  predicate Meets(p: nat, start: nat, end: nat) {
    p * PAGE_SIZE < end && start < (p + 1) * PAGE_SIZE
  }

  /** The pages marked for a region are those that lie in it with all their bytes. */
  lemma CoversExact(r: Region, p: nat)
    ensures Covers(r, p) <==> r.usable && Inside(p, r)
  {
  }

  /** The pages taken for the kernel are those that have a byte of it. */
  lemma KernelPages(start: nat, end: nat, p: nat)
    ensures start / PAGE_SIZE <= p < (end + PAGE_SIZE - 1) / PAGE_SIZE <==> Meets(p, start, end)
  {
  }

  ghost predicate Usable(regions: seq<Region>, p: nat) {
    exists i :: 0 <= i < |regions| && regions[i].usable && Inside(p, regions[i])
  }

  /** The free pages are those that lie in a usable region, but for the first MiB and those with a byte of the kernel. */
  ghost predicate FreeAfterInit(free: seq<bool>, regions: seq<Region>, kernelStart: nat, kernelEnd: nat) {
    forall p :: 0 <= p < |free| ==>
      (free[p] <==> Usable(regions, p) && p * PAGE_SIZE >= 0x10_0000 && !Meets(p, kernelStart, kernelEnd))
  }

  lemma CoveredUsable(regions: seq<Region>, p: nat)
    ensures Covered(regions, p) <==> Usable(regions, p)
  {
    forall i | 0 <= i < |regions|
      ensures Covers(regions[i], p) <==> regions[i].usable && Inside(p, regions[i])
    {
      CoversExact(regions[i], p);
    }
  }

  lemma ReservedAfterInit(marked: seq<bool>, regions: seq<Region>, kernelStart: nat, kernelEnd: nat)
    requires Marks(marked, regions)
    ensures var kernelFree := Reserve(marked, kernelStart / PAGE_SIZE, (kernelEnd + PAGE_SIZE - 1) / PAGE_SIZE);
            FreeAfterInit(Reserve(kernelFree, 0, LOW_PAGES), regions, kernelStart, kernelEnd)
  {
    forall p | 0 <= p < |marked|
      ensures marked[p] <==> Usable(regions, p)
      ensures kernelStart / PAGE_SIZE <= p < (kernelEnd + PAGE_SIZE - 1) / PAGE_SIZE <==> Meets(p, kernelStart, kernelEnd)
    {
      CoveredUsable(regions, p);
      KernelPages(kernelStart, kernelEnd, p);
    }
  }

  /** Two usable regions that share a page are not disjoint, such as one region listed twice. */
  lemma OverlapExample(r: Region, p: nat)
    requires Covers(r, p) && p < MAX_PAGES
    ensures !Disjoint([r, r])
    ensures Covers(Region(0, 0x10_0000, true), 0) && !Disjoint([Region(0, 0x10_0000, true), Region(0, 0x10_0000, true)])
  {
    TwiceOverlaps(r, p);
    TwiceOverlaps(Region(0, 0x10_0000, true), 0);
  }

  lemma TwiceOverlaps(r: Region, p: nat)
    requires Covers(r, p) && p < MAX_PAGES
    ensures !Disjoint([r, r])
  {
    var regions := [r, r];
    assert regions[..1] == [r] && Covers([r][0], p);
    assert Covered(regions[..1], p) && p < EndPage(regions[1]) && Covers(regions[1], p);
    assert !NewPages(regions, 1, EndPage(regions[1]));
  }

  lemma MarksNext(free: seq<bool>, free': seq<bool>, regions: seq<Region>, k: nat)
    requires k < |regions| && |free'| == |free| && Marks(free, regions[..k])
    requires forall p :: 0 <= p < |free| ==> (free'[p] <==> free[p] || Covers(regions[k], p))
    ensures Marks(free', regions[..k + 1])
  {
    forall p | 0 <= p < |free|
      ensures free'[p] <==> Covered(regions[..k + 1], p)
    {
      CoveredNext(regions, k, p);
    }
  }

  /** No page the bitmap tracks lies in two usable regions. */
  ghost predicate Disjoint(regions: seq<Region>) {
    forall k :: 0 <= k < |regions| ==> NewPages(regions, k, EndPage(regions[k]))
  }

  /** The pages below `upTo` of the `k`th region lie in no earlier usable region. */
  ghost predicate NewPages(regions: seq<Region>, k: nat, upTo: nat)
    requires k < |regions|
  {
    forall p :: 0 <= p < MAX_PAGES && p < upTo && Covers(regions[k], p) ==> !Covered(regions[..k], p)
  }

  /** The usable regions are marked; `overlaps` marks hit a page already marked. */
  ghost predicate Counted(free: seq<bool>, count: nat, overlaps: nat, regions: seq<Region>) {
    && Marks(free, regions) && count == Count(free) + overlaps
    && (overlaps == 0 <==> Disjoint(regions))
  }

  lemma CoveredNext(regions: seq<Region>, k: nat, p: nat)
    requires k < |regions|
    ensures Covered(regions[..k + 1], p) <==> Covered(regions[..k], p) || Covers(regions[k], p)
  {
    assert regions[..k + 1][..k] == regions[..k];
    if Covered(regions[..k], p) {
      var i :| 0 <= i < k && Covers(regions[..k][i], p);
      assert Covers(regions[..k + 1][i], p);
    }
    if Covers(regions[k], p) {
      assert Covers(regions[..k + 1][k], p);
    }
  }

  lemma DisjointNext(regions: seq<Region>, k: nat)
    requires k < |regions|
    ensures Disjoint(regions[..k + 1]) <==> Disjoint(regions[..k]) && NewPages(regions, k, EndPage(regions[k]))
  {
    forall j | 0 <= j <= k
      ensures NewPages(regions[..k + 1], j, EndPage(regions[j])) <==> NewPages(regions, j, EndPage(regions[j]))
    {
      assert regions[..k + 1][..j] == regions[..j];
    }
    forall j | 0 <= j < k
      ensures NewPages(regions[..k], j, EndPage(regions[j])) <==> NewPages(regions, j, EndPage(regions[j]))
    {
      assert regions[..k][..j] == regions[..j];
    }
  }

  // ---- Words --------------------------------------------------------------------------------------

  /** The bits of all words, in order. */
  function FreeBits(words: seq<Word>): (free: seq<bool>)
    ensures |free| == 64 * |words|
  {
    if words == [] then [] else FreeBits(words[..|words| - 1]) + WordBits(words[|words| - 1])
  }

  function WordBits(w: Word): (bits: seq<bool>)
    ensures |bits| == 64 && forall i :: 0 <= i < 64 ==> bits[i] == (i in w)
  {
    seq(64, i requires 0 <= i < 64 => i in w)
  }

  lemma {:induction false} FreeBitAt(words: seq<Word>, p: nat)
    requires p < 64 * |words|
    ensures FreeBits(words)[p] == (p % 64 in words[p / 64])
  {
    var n := |words| - 1;
    if p < 64 * n {
      FreeBitAt(words[..n], p);
    } else {
      assert p / 64 == n;
    }
  }

  lemma SetBitFree(words: seq<Word>, p: nat)
    requires p < 64 * |words|
    ensures FreeBits(words[p / 64 := words[p / 64] + {p % 64}]) == FreeBits(words)[p := true]
  {
    var words' := words[p / 64 := words[p / 64] + {p % 64}];
    forall q | 0 <= q < 64 * |words|
      ensures FreeBits(words')[q] == FreeBits(words)[p := true][q]
    {
      FreeBitAt(words, q);
      FreeBitAt(words', q);
    }
  }

  lemma ClearBitFree(words: seq<Word>, p: nat)
    requires p < 64 * |words|
    ensures FreeBits(words[p / 64 := words[p / 64] - {p % 64}]) == FreeBits(words)[p := false]
  {
    var words' := words[p / 64 := words[p / 64] - {p % 64}];
    forall q | 0 <= q < 64 * |words|
      ensures FreeBits(words')[q] == FreeBits(words)[p := false][q]
    {
      FreeBitAt(words, q);
      FreeBitAt(words', q);
    }
  }

  /** A word below the first free page of word `i` has no free page; if word `i` has a one bit, the lowest
      one is the lowest free page. */
  lemma WordScan(words: seq<Word>, i: nat, bit: nat)
    requires i < |words| && bit <= 64
    requires forall b :: 0 <= b < bit ==> b !in words[i]
    ensures forall q :: 64 * i <= q < 64 * i + bit ==> !FreeBits(words)[q]
    ensures bit < 64 ==> FreeBits(words)[64 * i + bit] == (bit in words[i])
  {
    forall q | 64 * i <= q < 64 * i + bit
      ensures !FreeBits(words)[q]
    {
      FreeBitAt(words, q);
      DivModUnique(q, 64, i, q - 64 * i);
    }
    if bit < 64 {
      DivModUnique(64 * i + bit, 64, i, bit);
      FreeBitAt(words, 64 * i + bit);
    }
  }

  class PhysicalMemory {
    const bitmap: array<Word>
    var freePages: int
    var totalPages: int

    ghost predicate Valid()
      reads bitmap
    {
      bitmap.Length == BITMAP_WORDS
    }

    ghost function Free(): (free: seq<bool>)
      reads bitmap
    {
      FreeBits(bitmap[..])
    }

    ghost function State(): Frames
      reads this, bitmap
    {
      Frames(Free(), freePages)
    }

    lemma StateLength()
      requires Valid()
      ensures |State().free| == MAX_PAGES
    {
      assert |bitmap[..]| == BITMAP_WORDS;
    }

    constructor ()
      ensures Valid() && fresh(bitmap)
    {
      bitmap := new Word[BITMAP_WORDS](_ => {});
      freePages, totalPages := 0, 0;
    }

    /** `init`: what is free afterwards, and when the counter is exact. */
    method Init(regions: seq<Region>, kernelStart: nat, kernelEnd: nat)
      requires Valid()
      modifies this, bitmap
      ensures FreeAfterInit(Free(), regions, kernelStart, kernelEnd)
      ensures freePages >= Count(Free())
      ensures freePages == Count(Free()) <==> Disjoint(regions)
      ensures totalPages >= freePages
    {
      ClearAll();
      var overlaps := MarkUsable(regions);
      ghost var marked := Free();
      var first, end := kernelStart / PAGE_SIZE, (kernelEnd + PAGE_SIZE - 1) / PAGE_SIZE;
      ReserveRange(first, end);
      ReserveRange(0, LOW_PAGES);
      ReservedAfterInit(marked, regions, kernelStart, kernelEnd);
    }

    method ClearAll()
      requires Valid()
      modifies this, bitmap
      ensures Counted(Free(), 0, 0, [])
    {
      for i := 0 to BITMAP_WORDS
        invariant forall j :: 0 <= j < i ==> bitmap[j] == {}
      {
        bitmap[i] := {};
      }
      forall p | 0 <= p < MAX_PAGES
        ensures !Free()[p]
      {
        FreeBitAt(bitmap[..], p);
      }
      NoneFree(Free());
    }

    /** The inner loop of `init`: marks the pages of one usable region; `doubled` of them were marked before. */
    method MarkPages(regions: seq<Region>, k: nat) returns (marked: nat, ghost doubled: nat)
      requires Valid() && k < |regions| && regions[k].usable
      requires Marks(Free(), regions[..k])
      modifies bitmap
      ensures Marks(Free(), regions[..k + 1])
      ensures Count(Free()) + doubled == old(Count(Free())) + marked
      ensures doubled == 0 <==> NewPages(regions, k, EndPage(regions[k]))
    {
      marked, doubled := 0, 0;
      var page := FirstPage(regions[k]);
      while page < EndPage(regions[k])
        invariant FirstPage(regions[k]) <= page
        invariant FirstPage(regions[k]) <= EndPage(regions[k]) ==> page <= EndPage(regions[k])
        invariant forall p :: 0 <= p < MAX_PAGES ==> (Free()[p] <==> CoveredUpTo(regions, k, page, p))
        invariant Count(Free()) + doubled == old(Count(Free())) + marked
        invariant doubled == 0 <==> NewPages(regions, k, page)
      {
        assert Covers(regions[k], page);
        if page < MAX_PAGES {
          ghost var free := Free();
          CountUpdate(free, page, true);
          doubled := doubled + if free[page] then 1 else 0;
          SetBit(page);
          marked := marked + 1;
        }
        page := page + 1;
      }
      MarksNext(old(Free()), Free(), regions, k);
    }

    /** The body of the region loop. */
    method MarkRegion(regions: seq<Region>, k: nat, count: nat, ghost overlaps: nat) returns (count': nat, ghost overlaps': nat)
      requires Valid() && k < |regions| && Counted(Free(), count, overlaps, regions[..k])
      modifies bitmap
      ensures Counted(Free(), count', overlaps', regions[..k + 1])
    {
      DisjointNext(regions, k);
      if regions[k].usable {
        var marked;
        ghost var doubled;
        marked, doubled := MarkPages(regions, k);
        return count + marked, overlaps + doubled;
      }
      MarksNext(Free(), Free(), regions, k);
      return count, overlaps;
    }

    /** Marks the usable regions free; `overlaps` is the number of pages counted more than once. */
    method MarkUsable(regions: seq<Region>) returns (ghost overlaps: nat)
      requires Valid() && Counted(Free(), 0, 0, [])
      modifies this, bitmap
      ensures freePages == totalPages && freePages >= 0 && Counted(Free(), freePages, overlaps, regions)
    {
      var freeCount := 0;
      overlaps := 0;
      assert regions[..0] == [];
      for k := 0 to |regions|
        invariant Counted(Free(), freeCount, overlaps, regions[..k])
      {
        freeCount, overlaps := MarkRegion(regions, k, freeCount, overlaps);
      }
      assert regions[..|regions|] == regions;
      totalPages := freeCount;
      freePages := freeCount;
    }

    /** The loop body of the two reservations of `init`. */
    method ReserveOne(page: nat)
      requires Valid()
      modifies this, bitmap
      ensures var free := old(Free()); Free() == if page < |free| && free[page] then free[page := false] else free
      ensures freePages - Count(Free()) == old(freePages - Count(Free()))
      ensures freePages <= old(freePages) && totalPages == old(totalPages)
    {
      if page < MAX_PAGES && TestBit(page) {
        CountUpdate(Free(), page, false);
        ClearBit(page);
        freePages := freePages - 1;
      }
    }

    method ReserveRange(start: nat, end: nat)
      requires Valid()
      modifies this, bitmap
      ensures Free() == Reserve(old(Free()), start, end)
      ensures freePages - Count(Free()) == old(freePages - Count(Free()))
      ensures freePages <= old(freePages) && totalPages == old(totalPages)
    {
      ghost var free := Free();
      var page := start;
      ReserveEmpty(free, start, start);
      while page < end
        invariant start <= page && (start <= end ==> page <= end) && (start > end ==> page == start)
        invariant Free() == Reserve(free, start, page)
        invariant freePages - Count(Free()) == old(freePages - Count(Free()))
        invariant freePages <= old(freePages) && totalPages == old(totalPages)
      {
        ReserveStep(free, start, page);
        ReserveOne(page);
        page := page + 1;
      }
      if start > end {
        ReserveEmpty(free, start, end);
      }
    }

    method SetBit(p: nat)
      requires Valid() && p < MAX_PAGES
      modifies bitmap
      ensures Free() == old(Free())[p := true]
    {
      SetBitFree(bitmap[..], p);
      bitmap[p / 64] := bitmap[p / 64] + {p % 64};
      assert bitmap[..] == old(bitmap[..])[p / 64 := old(bitmap[..])[p / 64] + {p % 64}];
    }

    method ClearBit(p: nat)
      requires Valid() && p < MAX_PAGES
      modifies bitmap
      ensures Free() == old(Free())[p := false]
    {
      ClearBitFree(bitmap[..], p);
      bitmap[p / 64] := bitmap[p / 64] - {p % 64};
      assert bitmap[..] == old(bitmap[..])[p / 64 := old(bitmap[..])[p / 64] - {p % 64}];
    }

    predicate TestBit(p: nat)
      requires Valid() && p < MAX_PAGES
      reads bitmap
      ensures TestBit(p) == Free()[p]
    {
      FreeBitAt(bitmap[..], p);
      p % 64 in bitmap[p / 64]
    }

    method AllocPage() returns (r: Option<nat>)
      requires Valid()
      modifies this, bitmap
      ensures (r, State()) == Alloc(old(State()))
      ensures totalPages == old(totalPages)
    {
      for i := 0 to BITMAP_WORDS
        invariant Free() == old(Free()) && freePages == old(freePages) && totalPages == old(totalPages)
        invariant forall q :: 0 <= q < 64 * i ==> !Free()[q]
      {
        if bitmap[i] != {} {
          var bit := LowestBit(bitmap[i], 0);
          var p := i * 64 + bit;
          WordScan(bitmap[..], i, bit);
          LowestFreeUnique(Free(), p);
          ClearBit(p);
          freePages := freePages - 1;
          return Some(p);
        }
        WordScan(bitmap[..], i, 64);
      }
      r := None;
    }

    method FreePage(addr: nat)
      requires Valid()
      modifies this, bitmap
      ensures State() == Release(old(State()), addr)
      ensures totalPages == old(totalPages)
    {
      var p := addr / PAGE_SIZE;
      if p >= MAX_PAGES { return; }
      if !TestBit(p) {
        SetBit(p);
        freePages := freePages + 1;
      }
    }

    method AllocContiguous(len: nat) returns (r: Option<nat>)
      requires Valid()
      modifies this, bitmap
      ensures (r, State()) == AllocRun(old(State()), len)
      ensures totalPages == old(totalPages)
    {
      if len == 0 { return None; }
      ghost var free := Free();
      var runStart, runLen := 0, 0;
      for page := 0 to MAX_PAGES
        invariant Free() == free && freePages == old(freePages) && totalPages == old(totalPages)
        invariant 0 <= runLen < len && runLen <= page && (runLen > 0 ==> runStart == page - runLen)
        invariant forall q :: page - runLen <= q < page ==> free[q]
        invariant runLen < page ==> !free[page - runLen - 1]
        invariant forall s :: 0 <= s < page - runLen ==> !Run(free, s, len)
      {
        if TestBit(page) {
          if runLen == 0 { runStart := page; }
          runLen := runLen + 1;
          if runLen == len {
            LowestRunUnique(free, len, runStart);
            ClearRun(runStart, len);
            return Some(runStart);
          }
        } else {
          assert forall s :: page - runLen <= s <= page ==> !Run(free, s, len);
          runLen := 0;
        }
      }
      assert forall s :: MAX_PAGES - runLen <= s ==> !Run(free, s, len);
      r := None;
    }

    /** The inner loop of `alloc_contiguous`. */
    method ClearRun(start: nat, len: nat)
      requires Valid() && start + len <= MAX_PAGES
      modifies this, bitmap
      ensures State() == Frames(Reserve(old(Free()), start, start + len), old(freePages) - len)
      ensures totalPages == old(totalPages)
    {
      ghost var free := Free();
      assert Reserve(free, start, start) == free;
      for p := start to start + len
        invariant State() == Frames(Reserve(free, start, p), old(freePages) - (p - start))
        invariant totalPages == old(totalPages)
      {
        assert Reserve(free, start, p)[p := false] == Reserve(free, start, p + 1);
        ClearBit(p);
        freePages := freePages - 1;
      }
    }
  }

  lemma {:induction false} NoneFree(free: seq<bool>)
    requires forall p :: 0 <= p < |free| ==> !free[p]
    ensures Count(free) == 0
  {
    if free != [] {
      NoneFree(free[..|free| - 1]);
    }
  }

  lemma {:induction false} LowestFreeUnique(free: seq<bool>, p: nat)
    requires p < |free| && free[p] && forall q :: 0 <= q < p ==> !free[q]
    ensures LowestFree(free, 0) == Some(p)
  {
    assert free[p];
  }

  lemma {:induction false} LowestRunUnique(free: seq<bool>, len: nat, start: nat)
    requires Run(free, start, len) && forall s :: 0 <= s < start ==> !Run(free, s, len)
    ensures LowestRun(free, len, 0) == Some(start)
  {
    assert Run(free, start, len);
  }
}
