/** The frames of user pages over whole runs: each belongs to one page of one space, and none holds a table. The frames
    are those the kernel picks: for fresh mappings and for faults. */
module UserPages {
  import opened Wrappers
  import opened Bits
  import opened Paging
  import opened Vmm
  import opened Spaces
  import Pmm

  /** A user page of one of these spaces that translates into frame `f`. */
  predicate InFrame(m: Memory, spaces: set<nat>, r: nat, v: nat, f: nat) {
    && r in spaces && Index(v, 4) < KERNEL_HALF
    && Translate(m, r, v).Some? && Translate(m, r, v).value / 4096 == f
  }

  /** Frames of user pages are used and hold no table in use. */
  ghost predicate FramesUsed(m: Memory, places: Places, spaces: set<nat>) {
    forall r: nat, v: nat, f: nat :: InFrame(m, spaces, r, v, f) ==> f < |m.frames.free| && !m.frames.free[f] && f !in places
  }

  /** They are reached from one page only. */
  ghost predicate FramesApart(m: Memory, spaces: set<nat>) {
    forall r: nat, v: nat, r': nat, v': nat, f: nat ::
      InFrame(m, spaces, r, v, f) && InFrame(m, spaces, r', v', f) ==> r == r' && SamePage(v, v')
  }

  ghost predicate FramesOk(m: Memory, places: Places, spaces: set<nat>) {
    FramesUsed(m, places, spaces) && FramesApart(m, spaces)
  }

  lemma UserOrdinary(v: nat)
    requires Index(v, 4) < KERNEL_HALF
    ensures Ordinary(v)
  {
  }

  /** While a translation and its frame are kept, so is its place among the user pages. */
  lemma StaysInFrame(m: Memory, m': Memory, lay: Layout, places: Places, places': Places, spaces: set<nat>, r: nat, v: nat, f: nat)
    requires FramesOk(m, places, spaces) && ShapeKept(m, m', lay, places, places')
    requires InFrame(m', spaces, r, v, f) && Translate(m', r, v) == Translate(m, r, v)
    ensures InFrame(m, spaces, r, v, f) && f < |m'.frames.free| && !m'.frames.free[f] && f !in places'
  {
    assert InFrame(m, spaces, r, v, f);
  }

  lemma KeptInFrame(m: Memory, m': Memory, lay: Layout, places: Places, places': Places, spaces: set<nat>, r: nat, v: nat, f: nat)
    requires FramesOk(m, places, spaces) && ShapeKept(m, m', lay, places, places') && AllKept(m, m', places)
    requires SpacesOk(lay, places, spaces) && InFrame(m', spaces, r, v, f)
    ensures InFrame(m, spaces, r, v, f) && f < |m'.frames.free| && !m'.frames.free[f] && f !in places'
  {
    UserOrdinary(v);
    StaysInFrame(m, m', lay, places, places', spaces, r, v, f);
  }

  lemma KeptFrames(m: Memory, m': Memory, lay: Layout, places: Places, places': Places, spaces: set<nat>)
    requires FramesOk(m, places, spaces) && ShapeKept(m, m', lay, places, places') && AllKept(m, m', places)
    requires SpacesOk(lay, places, spaces)
    ensures FramesOk(m', places', spaces)
  {
    forall r: nat, v: nat, f: nat | InFrame(m', spaces, r, v, f)
      ensures f < |m'.frames.free| && !m'.frames.free[f] && f !in places'
    {
      KeptInFrame(m, m', lay, places, places', spaces, r, v, f);
    }
    forall r: nat, v: nat, r': nat, v': nat, f: nat | InFrame(m', spaces, r, v, f) && InFrame(m', spaces, r', v', f)
      ensures r == r' && SamePage(v, v')
    {
      KeptInFrame(m, m', lay, places, places', spaces, r, v, f);
      KeptInFrame(m, m', lay, places, places', spaces, r', v', f);
    }
  }

  /** What an event did to the one page it was about: it does not translate, or it has a frame that was free. */
  ghost predicate PageChanged(m: Memory, m': Memory, places': Places, space: nat, virt: nat, base: Option<nat>) {
    && PageAt(m', space, virt, if base.Some? then Some(base.value * 4096) else None)
    && (base.Some? ==>
          && base.value < |m.frames.free| == |m'.frames.free| && m.frames.free[base.value] && !m'.frames.free[base.value]
          && base.value !in places')
  }

  /** A user page after such an event: the page itself, in the new frame, or one that was there before. */
  lemma AfterChange(m: Memory, m': Memory, lay: Layout, places: Places, places': Places, spaces: set<nat>,
                    space: nat, virt: nat, base: Option<nat>, r: nat, v: nat, f: nat)
    requires FramesOk(m, places, spaces) && ShapeKept(m, m', lay, places, places') && SpacesOk(lay, places, spaces)
    requires OthersKept(m, m', places, space, virt) && PageChanged(m, m', places', space, virt, base)
    requires Index(virt, 4) < KERNEL_HALF && InFrame(m', spaces, r, v, f)
    ensures f < |m'.frames.free| && !m'.frames.free[f] && f !in places'
    ensures if r == space && SamePage(v, virt) then base == Some(f) else InFrame(m, spaces, r, v, f)
  {
    UserOrdinary(v);
    if r == space && SamePage(v, virt) {
      assert base.Some? && Translate(m', r, v) == Some(base.value * 4096 + v % 4096);
    } else {
      assert Translate(m', r, v) == Translate(m, r, v);
      StaysInFrame(m, m', lay, places, places', spaces, r, v, f);
    }
  }

  lemma ChangedFrames(m: Memory, m': Memory, lay: Layout, places: Places, places': Places, spaces: set<nat>,
                      space: nat, virt: nat, base: Option<nat>)
    requires FramesOk(m, places, spaces) && ShapeKept(m, m', lay, places, places') && SpacesOk(lay, places, spaces)
    requires OthersKept(m, m', places, space, virt) && PageChanged(m, m', places', space, virt, base)
    requires Index(virt, 4) < KERNEL_HALF
    ensures FramesOk(m', places', spaces)
  {
    forall r: nat, v: nat, f: nat | InFrame(m', spaces, r, v, f)
      ensures f < |m'.frames.free| && !m'.frames.free[f] && f !in places'
    {
      AfterChange(m, m', lay, places, places', spaces, space, virt, base, r, v, f);
    }
    forall r: nat, v: nat, r': nat, v': nat, f: nat | InFrame(m', spaces, r, v, f) && InFrame(m', spaces, r', v', f)
      ensures r == r' && SamePage(v, v')
    {
      AfterChange(m, m', lay, places, places', spaces, space, virt, base, r, v, f);
      AfterChange(m, m', lay, places, places', spaces, space, virt, base, r', v', f);
    }
  }

  // ---- The events ---------------------------------------------------------------------------------

  /** The kernel picks the frame: all events but mappings of a given frame. */
  predicate KernelPicks(e: Event) {
    e.Birth? || !e.op.DoMap?
  }

  lemma BornInFrame(m: Memory, m': Memory, lay: Layout, places: Places, spaces: set<nat>, f0: nat, r: nat, v: nat, f: nat)
    requires Tree(m, lay, places) && FramesOk(m, places, spaces) && SpacesOk(lay, places, spaces)
    requires CreateSpace(m, lay.kernel) == (Some(f0), m') && InFrame(m', spaces + {f0}, r, v, f)
    ensures InFrame(m, spaces, r, v, f) && f < |m'.frames.free| && !m'.frames.free[f] && f != f0 && f !in places
  {
    UserOrdinary(v);
    CreateSpaceExact(m, lay, places);
    assert r != f0;
    assert Translate(m', r, v) == Translate(m, r, v);
    assert InFrame(m, spaces, r, v, f);
  }

  lemma BirthFrames(m: Memory, m': Memory, lay: Layout, places: Places, spaces: set<nat>, f0: nat)
    requires Tree(m, lay, places) && FramesOk(m, places, spaces) && SpacesOk(lay, places, spaces)
    requires CreateSpace(m, lay.kernel) == (Some(f0), m')
    ensures FramesOk(m', places[f0 := Place(f0, 4, 0)], spaces + {f0})
  {
    forall r: nat, v: nat, f: nat | InFrame(m', spaces + {f0}, r, v, f)
      ensures f < |m'.frames.free| && !m'.frames.free[f] && f !in places[f0 := Place(f0, 4, 0)]
    {
      BornInFrame(m, m', lay, places, spaces, f0, r, v, f);
    }
    forall r: nat, v: nat, r': nat, v': nat, f: nat | InFrame(m', spaces + {f0}, r, v, f) && InFrame(m', spaces + {f0}, r', v', f)
      ensures r == r' && SamePage(v, v')
    {
      BornInFrame(m, m', lay, places, spaces, f0, r, v, f);
      BornInFrame(m, m', lay, places, spaces, f0, r', v', f);
    }
  }

  lemma ReserveFrames(m: Memory, lay: Layout, places: Places, spaces: set<nat>, space: nat, virt: nat) returns (places': Places)
    requires Tree(m, lay, places) && FramesOk(m, places, spaces) && SpacesOk(lay, places, spaces)
    requires space in spaces && Index(virt, 4) < KERNEL_HALF
    ensures var m' := Reserve(m, space, virt).1; ShapeKept(m, m', lay, places, places') && FramesOk(m', places', spaces)
  {
    places' := ReserveExact(m, lay, places, space, virt);
    var (r, m') := Reserve(m, space, virt);
    if r.Ok? {
      ChangedFrames(m, m', lay, places, places', spaces, space, virt, None);
    } else {
      KeptFrames(m, m', lay, places, places', spaces);
    }
  }

  /** A frame taken and then mapped. */
  lemma MapTaken(m: Memory, m1: Memory, m': Memory, lay: Layout, places: Places, places': Places, spaces: set<nat>,
                 space: nat, virt: nat, f: nat)
    requires Tree(m, lay, places) && FramesOk(m, places, spaces) && SpacesOk(lay, places, spaces) && Index(virt, 4) < KERNEL_HALF
    requires Pmm.Alloc(m.frames) == (Some(f), m1.frames) && m1.pages == m.pages
    requires ShapeKept(m1, m', lay, places, places') && OthersKept(m1, m', places, space, virt)
    requires PageAt(m', space, virt, Some(f * 4096))
    ensures ShapeKept(m, m', lay, places, places') && FramesOk(m', places', spaces)
  {
    FreshPage(m, m1, lay, places, f);
    KeptCompose(m, m1, m', lay, places, places', space, virt);
    ChangedFrames(m, m', lay, places, places', spaces, space, virt, Some(f));
  }

  lemma MapFailed(m: Memory, m1: Memory, m': Memory, lay: Layout, places: Places, places': Places, spaces: set<nat>, f: nat)
    requires Tree(m, lay, places) && FramesOk(m, places, spaces) && SpacesOk(lay, places, spaces)
    requires Pmm.Alloc(m.frames) == (Some(f), m1.frames) && m1.pages == m.pages
    requires ShapeKept(m1, m', lay, places, places') && AllKept(m1, m', places)
    ensures ShapeKept(m, m', lay, places, places') && FramesOk(m', places', spaces)
  {
    FreshPage(m, m1, lay, places, f);
    KeptCompose(m, m1, m', lay, places, places', 0, 0);
    KeptFrames(m, m', lay, places, places', spaces);
  }

  /** The result of mapping a frame that was taken for it. */
  lemma MapResult(m: Memory, m1: Memory, lay: Layout, places: Places, spaces: set<nat>, space: nat, virt: nat, f: nat)
    returns (places': Places)
    requires Tree(m, lay, places) && FramesOk(m, places, spaces) && SpacesOk(lay, places, spaces)
    requires space in spaces && Index(virt, 4) < KERNEL_HALF
    requires Pmm.Alloc(m.frames) == (Some(f), m1.frames) && m1.pages == m.pages && Tree(m1, lay, places)
    ensures var m' := Map(m1, space, virt, f * 4096, MapFlags(true)).1;
            ShapeKept(m, m', lay, places, places') && FramesOk(m', places', spaces)
  {
    BaseOf(f);
    UserOrdinary(virt);
    places' := MapExact(m1, lay, places, space, virt, f * 4096, MapFlags(true));
    var (r, m') := Map(m1, space, virt, f * 4096, MapFlags(true));
    if r.Ok? {
      MapTaken(m, m1, m', lay, places, places', spaces, space, virt, f);
    } else {
      MapFailed(m, m1, m', lay, places, places', spaces, f);
    }
  }

  lemma MapFreshFrames(m: Memory, lay: Layout, places: Places, spaces: set<nat>, space: nat, virt: nat) returns (places': Places)
    requires Tree(m, lay, places) && FramesOk(m, places, spaces) && SpacesOk(lay, places, spaces)
    requires space in spaces && Index(virt, 4) < KERNEL_HALF
    ensures var m' := MapFresh(m, space, virt).1; ShapeKept(m, m', lay, places, places') && FramesOk(m', places', spaces)
  {
    places' := places;
    var (a, frames) := Pmm.Alloc(m.frames);
    if a.Some? {
      FreshPage(m, Memory(m.pages, frames), lay, places, a.value);
      places' := MapResult(m, Memory(m.pages, frames), lay, places, spaces, space, virt, a.value);
    }
  }

  lemma FaultFrames(m: Memory, lay: Layout, places: Places, spaces: set<nat>, space: nat, virt: nat)
    requires Tree(m, lay, places) && FramesOk(m, places, spaces) && SpacesOk(lay, places, spaces)
    requires space in spaces && Index(virt, 4) < KERNEL_HALF
    ensures var m' := Fault(m, space, virt).1; ShapeKept(m, m', lay, places, places) && FramesOk(m', places, spaces)
  {
    FlatNoHuge(m, lay, places, space, space, virt);
    FaultResolves(m, lay, places, space, virt);
    var (r, m') := Fault(m, space, virt);
    if r.Ok? {
      var f: nat :| FaultResolved(m, m', space, virt, f);
      assert f !in places;
      ChangedFrames(m, m', lay, places, places, spaces, space, virt, Some(f));
    }
  }

  lemma UnmapFrames(m: Memory, lay: Layout, places: Places, spaces: set<nat>, space: nat, virt: nat)
    requires Tree(m, lay, places) && FramesOk(m, places, spaces) && SpacesOk(lay, places, spaces)
    requires space in spaces && Index(virt, 4) < KERNEL_HALF
    ensures var m' := Unmap(m, space, virt).1; ShapeKept(m, m', lay, places, places) && FramesOk(m', places, spaces)
  {
    FlatNoHuge(m, lay, places, space, space, virt);
    UnmapClears(m, lay, places, space, virt);
    var (r, m') := Unmap(m, space, virt);
    if r.Ok? {
      ChangedFrames(m, m', lay, places, places, spaces, space, virt, None);
    }
  }

  /** Every event keeps the frames of user pages apart. */
  lemma EventFrames(m: Memory, lay: Layout, places: Places, spaces: set<nat>, e: Event) returns (lay': Layout, places': Places)
    requires Tree(m, lay, places) && FramesOk(m, places, spaces) && SpacesOk(lay, places, spaces)
    requires UserEvent(spaces, e) && KernelPicks(e)
    ensures var m', spaces' := Perform(m, lay.kernel, e), SpacesAfter(m, lay.kernel, spaces, e);
            && Tree(m', lay', places') && lay'.kernel == lay.kernel
            && FramesOk(m', places', spaces') && SpacesOk(lay', places', spaces')
  {
    lay', places' := lay, places;
    match e
    case Birth =>
      CreateSpaceExact(m, lay, places);
      var (a, m') := CreateSpace(m, lay.kernel);
      if a.Some? {
        BirthFrames(m, m', lay, places, spaces, a.value);
        lay', places' := Layout(lay.kernel, lay.flat + {a.value}), places[a.value := Place(a.value, 4, 0)];
      }
    case Event(space, DoReserve(virt)) => places' := ReserveFrames(m, lay, places, spaces, space, virt);
    case Event(space, DoMapFresh(virt)) => places' := MapFreshFrames(m, lay, places, spaces, space, virt);
    case Event(space, DoFault(virt)) => FaultFrames(m, lay, places, spaces, space, virt);
    case Event(space, DoUnmap(virt)) => UnmapFrames(m, lay, places, spaces, space, virt);
  }

  lemma {:induction false} RunFrames(m: Memory, lay: Layout, places: Places, spaces: set<nat>, events: seq<Event>)
    returns (lay': Layout, places': Places)
    requires Tree(m, lay, places) && FramesOk(m, places, spaces) && SpacesOk(lay, places, spaces)
    requires UserRun(m, lay.kernel, spaces, events, lay.kernel) && forall i :: 0 <= i < |events| ==> KernelPicks(events[i])
    ensures var m', spaces' := PerformAll(m, lay.kernel, events), SpacesAfterAll(m, lay.kernel, spaces, events);
            Tree(m', lay', places') && FramesOk(m', places', spaces') && SpacesOk(lay', places', spaces')
    decreases |events|
  {
    lay', places' := lay, places;
    if events != [] {
      var lay1, places1 := EventFrames(m, lay, places, spaces, events[0]);
      lay', places' := RunFrames(Perform(m, lay.kernel, events[0]), lay1, places1, SpacesAfter(m, lay.kernel, spaces, events[0]), events[1..]);
    }
  }

  /** From boot, over every run of births, fresh mappings, reservations, faults and unmaps in user halves: two user
      addresses that translate into one frame are on the same page of the same space, and no walk in any space reads a
      table in that frame. */
  lemma BootFrames(root: nat, frames: Pmm.Frames, events: seq<Event>, r: nat, v: nat, r': nat, v': nat, f: nat)
    requires root < |frames.free| <= FRAMES && !frames.free[root]
    requires UserRun(Boot(root, frames), root, {}, events, root) && forall i :: 0 <= i < |events| ==> KernelPicks(events[i])
    requires var m, spaces := PerformAll(Boot(root, frames), root, events), SpacesAfterAll(Boot(root, frames), root, {}, events);
             InFrame(m, spaces, r, v, f) && InFrame(m, spaces, r', v', f)
    ensures r == r' && SamePage(v, v')
    ensures var m, spaces := PerformAll(Boot(root, frames), root, events), SpacesAfterAll(Boot(root, frames), root, {}, events);
            forall s, w, i :: s in spaces && Ordinary(w) && 0 <= i < TABLE_LEN ==> ReadsAt(m, s, 4, w, f, i).None?
  {
    BootTree(root, frames);
    var lay, places := RunFrames(Boot(root, frames), Layout(root, {}), map[root := Place(root, 4, 0)], {}, events);
    var m, spaces := PerformAll(Boot(root, frames), root, events), SpacesAfterAll(Boot(root, frames), root, {}, events);
    forall s, w, i | s in spaces && Ordinary(w) && 0 <= i < TABLE_LEN
      ensures ReadsAt(m, s, 4, w, f, i).None?
    {
      if ReadsAt(m, s, 4, w, f, i).Some? {
        ReadsTablesInUse(m, lay, places, s, s, w, f, i);
      }
    }
  }
}
