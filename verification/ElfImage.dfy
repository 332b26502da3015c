/** Loading all segments of a program, one after the other. */
module ElfImage {
  import opened Wrappers
  import opened Arith
  import opened Bits
  import opened Paging
  import opened Vmm
  import opened Rights
  import opened Spaces
  import opened Machine
  import opened Elf
  import Pmm

  /** Page number `i` of a segment. */
  function PageOf(s: Segment, i: nat): nat {
    PageAddr(Start(s), i)
  }

  ghost predicate AllLoadable(segments: seq<Segment>) {
    forall k :: 0 <= k < |segments| ==> Loadable(segments[k])
  }

  /** No segment after the `k`th, of the first `n`, has this page. */
  ghost predicate LastWith(segments: seq<Segment>, k: nat, n: nat, page: nat)
    requires n <= |segments|
  {
    forall j :: k < j < n ==> !HasPage(segments[j], page)
  }

  /** Of the first `n` segments, the pages that no later one has are in memory. */
  ghost predicate ImageHeld(m: Memory, places: Places, root: nat, segments: seq<Segment>, data: seq<Byte>,
                            frames: seq<seq<nat>>, n: nat) {
    && |frames| == n <= |segments|
    && (forall k :: 0 <= k < n ==> |frames[k]| == PageCount(segments[k]))
    && forall k, i :: 0 <= k < n && 0 <= i < |frames[k]| && LastWith(segments, k, n, PageOf(segments[k], i)) ==>
         PageHeld(m, places, root, segments[k], data, PageOf(segments[k], i), frames[k][i])
  }

  lemma SamePageHas(s: Segment, a: nat, b: nat)
    requires SamePage(a, b) && HasPage(s, a)
    ensures HasPage(s, b)
  {
    var c: nat :| InSegment(s, c) && SamePage(a, c);
    assert SamePage(b, c);
  }

  /** A page in memory stays there while a segment without it is loaded. */
  lemma PageSurvives(m: Memory, m': Memory, lay: Layout, places: Places, places': Places, root: nat,
                     s: Segment, data: seq<Byte>, page: nat, f: nat, next: Segment)
    requires PageHeld(m, places, root, s, data, page, f) && IsRoot(places, root) && Ordinary(page)
    requires ShapeKept(m, m', lay, places, places') && SegmentKept(m, m', places, root, next)
    requires !HasPage(next, page)
    ensures PageHeld(m', places', root, s, data, page, f)
  {
    forall v: nat | SamePage(v, page)
      ensures Translate(m', root, v) == Some(f * 4096 + v % 4096)
    {
      SamePageOrdinary(v, page);
      if HasPage(next, v) {
        SamePageHas(next, v, page);
      }
      assert AddressKept(m, m', root, v);
    }
    assert AddressKept(m, m', root, page);
  }

  lemma ImageNext(m: Memory, m': Memory, lay: Layout, places: Places, places': Places, root: nat,
                  segments: seq<Segment>, data: seq<Byte>, frames: seq<seq<nat>>, n: nat, held: seq<nat>)
    requires ImageHeld(m, places, root, segments, data, frames, n) && n < |segments| && IsRoot(places, root)
    requires AllLoadable(segments)
    requires ShapeKept(m, m', lay, places, places')
    requires SegmentKept(m, m', places, root, segments[n])
    requires |held| == PageCount(segments[n]) && Held(m', places', root, segments[n], data, Start(segments[n]), held)
    ensures ImageHeld(m', places', root, segments, data, frames + [held], n + 1)
  {
    var frames' := frames + [held];
    forall k, i | 0 <= k < n + 1 && 0 <= i < |frames'[k]| && LastWith(segments, k, n + 1, PageOf(segments[k], i))
      ensures PageHeld(m', places', root, segments[k], data, PageOf(segments[k], i), frames'[k][i])
    {
      var page := PageOf(segments[k], i);
      if k < n {
        assert LastWith(segments, k, n, page);
        assert !HasPage(segments[n], page);
        assert Ordinary(page);
        PageSurvives(m, m', lay, places, places', root, segments[k], data, page, frames[k][i], segments[n]);
      }
    }
  }

  /** Segment `k` has the page of this address, and no later one has. */
  ghost predicate Shows(segments: seq<Segment>, k: nat, a: nat) {
    k < |segments| && Spans(segments[k], a) && LastWith(segments, k, |segments|, a)
  }

  /** What a program finds: at every address, the byte and the permissions of the last segment that has its page. */
  ghost predicate ImageReads(m: Memory, root: nat, segments: seq<Segment>, data: seq<Byte>) {
    forall k: nat, a: nat :: Shows(segments, k, a) ==>
      ReadByte(m, root, a) == Some(SegmentByte(segments[k], data, a)) && Permits(m, root, segments[k], a)
  }

  /** All addresses are kept but those on pages of the first `n` segments. */
  ghost predicate ImageOutside(m0: Memory, m: Memory, places0: Places, root: nat, segments: seq<Segment>, n: nat)
    requires n <= |segments|
  {
    forall r, v :: IsRoot(places0, r) && Ordinary(v) && OnNone(segments, n, root, r, v) ==> AddressKept(m0, m, r, v)
  }

  ghost predicate OnNone(segments: seq<Segment>, n: nat, root: nat, r: nat, v: nat)
    requires n <= |segments|
  {
    forall j :: 0 <= j < n ==> !(HasPage(segments[j], v) && (r == root || Index(v, 4) >= KERNEL_HALF))
  }

  lemma OutsideStep(m0: Memory, m: Memory, m': Memory, places0: Places, places: Places, root: nat, segments: seq<Segment>, n: nat)
    requires n < |segments| && ImageOutside(m0, m, places0, root, segments, n)
    requires SegmentKept(m, m', places, root, segments[n])
    requires forall g :: g in places0 ==> g in places && places[g] == places0[g]
    ensures ImageOutside(m0, m', places0, root, segments, n + 1)
  {
    forall r, v | IsRoot(places0, r) && Ordinary(v) && OnNone(segments, n + 1, root, r, v)
      ensures AddressKept(m0, m', r, v)
    {
      assert OnNone(segments, n, root, r, v);
      assert !(HasPage(segments[n], v) && (r == root || Index(v, 4) >= KERNEL_HALF));
      assert AddressKept(m0, m, r, v);
      assert IsRoot(places, r);
      assert AddressKept(m, m', r, v);
    }
  }

  lemma OutsideAll(m0: Memory, m: Memory, places0: Places, root: nat, segments: seq<Segment>, n: nat)
    requires n <= |segments| && ImageOutside(m0, m, places0, root, segments, n)
    ensures ImageOutside(m0, m, places0, root, segments, |segments|)
  {
    forall r, v | IsRoot(places0, r) && Ordinary(v) && OnNone(segments, |segments|, root, r, v)
      ensures AddressKept(m0, m, r, v)
    {
      assert OnNone(segments, n, root, r, v);
    }
  }

  /** The state of the loop over segments. */
  ghost predicate ImageProgress(m0: Memory, m: Memory, lay: Layout, places0: Places, places: Places, root: nat,
                                segments: seq<Segment>, data: seq<Byte>, frames: seq<seq<nat>>, n: nat) {
    && Tree(m, lay, places) && IsRoot(places, root) && ImageHeld(m, places, root, segments, data, frames, n)
    && ImageOutside(m0, m, places0, root, segments, n)
    && forall g :: g in places0 ==> g in places && places[g] == places0[g]
  }

  lemma ProgressStep(m0: Memory, m: Memory, m': Memory, lay: Layout, places0: Places, places: Places, places': Places, root: nat,
                     segments: seq<Segment>, data: seq<Byte>, frames: seq<seq<nat>>, n: nat, held: seq<nat>)
    requires ImageProgress(m0, m, lay, places0, places, root, segments, data, frames, n) && n < |segments|
    requires AllLoadable(segments)
    requires ShapeKept(m, m', lay, places, places')
    requires SegmentKept(m, m', places, root, segments[n])
    requires |held| == PageCount(segments[n]) && Held(m', places', root, segments[n], data, Start(segments[n]), held)
    ensures ImageProgress(m0, m', lay, places0, places', root, segments, data, frames + [held], n + 1)
  {
    ImageNext(m, m', lay, places, places', root, segments, data, frames, n, held);
    OutsideStep(m0, m, m', places0, places, root, segments, n);
  }

  lemma ProgressStops(m0: Memory, m: Memory, m': Memory, lay: Layout, places0: Places, places: Places, root: nat,
                      segments: seq<Segment>, data: seq<Byte>, frames: seq<seq<nat>>, n: nat)
    requires ImageProgress(m0, m, lay, places0, places, root, segments, data, frames, n) && n < |segments|
    requires SegmentKept(m, m', places, root, segments[n])
    ensures ImageOutside(m0, m', places0, root, segments, |segments|)
  {
    OutsideStep(m0, m, m', places0, places, root, segments, n);
    OutsideAll(m0, m', places0, root, segments, n + 1);
  }

  lemma PageReads(m: Memory, places: Places, root: nat, s: Segment, data: seq<Byte>, i: nat, f: nat, a: nat)
    requires PageHeld(m, places, root, s, data, PageOf(s, i), f) && PageOf(s, i) <= a < PageOf(s, i) + 4096
    ensures ReadByte(m, root, a) == Some(SegmentByte(s, data, a)) && Permits(m, root, s, a)
  {
    InPage(Start(s), i, a);
    PageHeldReads(m, places, root, s, data, PageOf(s, i), f, a);
    PageHeldPermits(m, places, root, s, data, PageOf(s, i), f, a);
  }

  lemma HeldIsRead(m: Memory, places: Places, root: nat, segments: seq<Segment>, data: seq<Byte>, frames: seq<seq<nat>>)
    requires ImageHeld(m, places, root, segments, data, frames, |segments|)
    ensures ImageReads(m, root, segments, data)
  {
    forall k: nat, a: nat | Shows(segments, k, a)
      ensures ReadByte(m, root, a) == Some(SegmentByte(segments[k], data, a)) && Permits(m, root, segments[k], a)
    {
      SpansExact(segments[k], a);
      var i := (a - Start(segments[k])) / 4096;
      LastWithPage(segments, k, i, a);
      PageReads(m, places, root, segments[k], data, i, frames[k][i], a);
    }
  }

  lemma LastWithPage(segments: seq<Segment>, k: nat, i: nat, a: nat)
    requires k < |segments| && LastWith(segments, k, |segments|, a)
    requires Start(segments[k]) <= a && i == (a - Start(segments[k])) / 4096
    ensures LastWith(segments, k, |segments|, PageOf(segments[k], i))
  {
    var page := PageOf(segments[k], i);
    InPage(Start(segments[k]), i, a);
    forall j | k < j < |segments|
      ensures !HasPage(segments[j], page)
    {
      if HasPage(segments[j], page) {
        SamePageHas(segments[j], page, a);
      }
    }
  }

  predicate AnyTooShort(segments: seq<Segment>, data: seq<Byte>) {
    exists k :: 0 <= k < |segments| && TooShort(segments[k], data)
  }

  /** Some segment could not be mapped. */
  ghost predicate ImageStopped(m: Memory, root: nat, segments: seq<Segment>) {
    exists k :: 0 <= k < |segments| && StoppedAt(m, root, Start(segments[k]), PageCount(segments[k]))
  }

  /** The loop over the segments to load, in the order of their headers. */
  method LoadImage(vm: VirtualMemory, ghost lay: Layout, ghost places: Places, root: nat, segments: seq<Segment>, data: seq<Byte>)
    returns (r: Result<(), LoadError>, ghost places': Places)
    requires vm.Valid() && Tree(vm.State(), lay, places) && IsRoot(places, root)
    requires AllLoadable(segments)
    modifies vm, vm.pmm, vm.pmm.bitmap
    ensures r.Ok? ==> Tree(vm.State(), lay, places') && ImageReads(vm.State(), root, segments, data)
    ensures ImageOutside(old(vm.State()), vm.State(), places, root, segments, |segments|)
    ensures r == Err(ReadFailed) ==> AnyTooShort(segments, data)
    ensures r == Err(NoMemory) ==> ImageStopped(vm.State(), root, segments)
  {
    places' := places;
    ghost var frames: seq<seq<nat>> := [];
    for n := 0 to |segments|
      invariant ImageProgress(old(vm.State()), vm.State(), lay, places, places', root, segments, data, frames, n)
    {
      ghost var m, places1, held := vm.State(), places', [];
      r, places', held := LoadSegment(vm, lay, places1, root, segments[n], data);
      if r.Err? {
        ProgressStops(old(vm.State()), m, vm.State(), lay, places, places1, root, segments, data, frames, n);
        return;
      }
      ProgressStep(old(vm.State()), m, vm.State(), lay, places, places1, places', root, segments, data, frames, n, held);
      frames := frames + [held];
    }
    HeldIsRead(vm.State(), places', root, segments, data, frames);
    r := Ok(());
  }

  /** An address of a segment reads the byte of that segment when no later segment has its page. */
  lemma OwnBytes(m: Memory, root: nat, segments: seq<Segment>, data: seq<Byte>, k: nat, a: nat)
    requires ImageReads(m, root, segments, data) && k < |segments|
    requires segments[k].vaddr <= a < segments[k].vaddr + segments[k].memsz
    requires forall j :: k < j < |segments| ==> !HasPage(segments[j], a)
    ensures ReadByte(m, root, a) == Some(SegmentByte(segments[k], data, a)) && Permits(m, root, segments[k], a)
  {
    assert InSegment(segments[k], a);
    assert Shows(segments, k, a);
  }

  /** Two segments that meet in one page, as with a file offset of 0 and 1 for two bytes: the second gets a page of its
      own for it, and the bytes of the first there read as zero and lose the permission to execute. */
  lemma SharedPageLoses(data: seq<Byte>, m: Memory, root: nat)
    requires |data| >= 2
    ensures var a, b := Segment(0x1000, 0, 1, 1, false, true), Segment(0x1800, 1, 1, 1, true, false);
            && InSegment(a, 0x1000) && !InSegment(b, 0x1000) && !LastWith([a, b], 0, 2, 0x1000)
            && SegmentByte(a, data, 0x1000) == data[0]
            && (ImageReads(m, root, [a, b], data) ==>
                  && ReadByte(m, root, 0x1000) == Some(0)
                  && Allowed(m, root, 4, 0x1000) == Some(Access(true, true, false)))
  {
    var a, b := Segment(0x1000, 0, 1, 1, false, true), Segment(0x1800, 1, 1, 1, true, false);
    assert [a, b][1] == b && InSegment(b, 0x1800) && SamePage(0x1000, 0x1800);
    assert HasPage([a, b][1], 0x1000) && Spans(b, 0x1000);
    assert Shows([a, b], 1, 0x1000);
  }
}
