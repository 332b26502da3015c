/** What the entries on a walk allow: user access, writing and execution, each only if every entry allows it. */
module Rights {
  import opened Wrappers
  import opened Bits
  import opened Paging
  import opened Vmm
  import Pmm

  datatype Access = Access(user: bool, writable: bool, executable: bool)

  function Own(e: Entry): Access {
    Access(USER in e.flags, WRITABLE in e.flags, NO_EXECUTE !in e.flags)
  }

  /** What is left of `a` through an entry that points to a table. */
  function Through(e: Entry, a: Access): Access {
    Access(a.user && USER in e.flags, a.writable && WRITABLE in e.flags, a.executable && NO_EXECUTE !in e.flags)
  }

  predicate Stops(e: Entry, l: nat) {
    l == 1 || (l < 4 && HUGE_PAGE in e.flags)
  }

  /** What a walk from table `f` of level `l` allows; nothing where it does not translate. */
  function Allowed(m: Memory, f: nat, l: nat, virt: nat): Option<Access>
    requires 1 <= l <= 4
    decreases l, m
  {
    var e := EntryAt(m, f, Index(virt, l));
    if PRESENT !in e.flags then None
    else if Stops(e, l) then Some(Own(e))
    else
      match Allowed(m, e.frame, l - 1, virt)
      case None => None
      case Some(a) => Some(Through(e, a))
  }

  /** The same for a walk that has read entry `e` at level `l`. */
  function Beyond(m: Memory, e: Entry, l: nat, virt: nat): Option<Access>
    requires 1 <= l <= 4
  {
    if PRESENT !in e.flags then None
    else if Stops(e, l) then Some(Own(e))
    else
      match Allowed(m, e.frame, l - 1, virt)
      case None => None
      case Some(a) => Some(Through(e, a))
  }

  lemma {:induction false} AllowedTranslates(m: Memory, f: nat, l: nat, virt: nat)
    requires 1 <= l <= 4
    ensures Allowed(m, f, l, virt).Some? <==> Walk(m, f, l, virt).Some?
    decreases l
  {
    var e := EntryAt(m, f, Index(virt, l));
    if PRESENT in e.flags && !Stops(e, l) {
      AllowedTranslates(m, e.frame, l - 1, virt);
    }
  }

  /** Every table entry on the way to the page table of `virt` has these permissions. */
  predicate Grants(m: Memory, f: nat, l: nat, virt: nat, want: Word)
    requires 1 <= l <= 4
    decreases l, m
  {
    l == 1 ||
    var e := EntryAt(m, f, Index(virt, l));
    && PRESENT in e.flags && !Stops(e, l)
    && (USER in want ==> USER in e.flags) && (WRITABLE in want ==> WRITABLE in e.flags)
    && Grants(m, e.frame, l - 1, virt, want)
  }

  /** And none of them forbids execution. */
  predicate Runs(m: Memory, f: nat, l: nat, virt: nat)
    requires 1 <= l <= 4
    decreases l, m
  {
    l == 1 ||
    var e := EntryAt(m, f, Index(virt, l));
    NO_EXECUTE !in e.flags && Runs(m, e.frame, l - 1, virt)
  }

  /** The page of `virt` has a page-table entry with these flags, below table entries that have the permissions. */
  predicate Flagged(m: Memory, f: nat, l: nat, virt: nat, flags: Word)
    requires 1 <= l <= 4
  {
    var t := LeafTable(m, f, l, virt);
    && Grants(m, f, l, virt, flags) && NoHuge(m, f, l, virt)
    && t.Some? && EntryAt(m, t.value, Index(virt, 1)).flags == FlagBits(flags)
  }

  // ---- How permissions change ---------------------------------------------------------------------

  /** A page off the huge pages that were split: nothing is lost, and nothing is won but what was asked for. */
  predicate Eased(a: Access, b: Access, want: Word) {
    && b.executable == a.executable
    && (if USER in want then a.user ==> b.user else b.user == a.user)
    && (if WRITABLE in want then a.writable ==> b.writable else b.writable == a.writable)
  }

  /** A page in a huge page that was split: user access stays only if it was asked for. */
  predicate Divided(a: Access, b: Access, want: Word) {
    && b.executable == a.executable
    && (if USER in want then a.user ==> b.user else !b.user)
    && (if WRITABLE in want then a.writable ==> b.writable else b.writable == a.writable)
  }

  predicate Change(a: Option<Access>, b: Option<Access>, want: Word, shared: bool, ok: bool) {
    && a.Some? == b.Some?
    && (a.Some? ==>
          || (!(shared && ok) && Eased(a.value, b.value, want))
          || (shared && Divided(a.value, b.value, want)))
  }

  /** An entry that points to a table got the permissions asked for. */
  predicate Widened(e: Entry, e': Entry, want: Word) {
    && e'.frame == e.frame && PRESENT in e'.flags && (HUGE_PAGE in e'.flags <==> HUGE_PAGE in e.flags)
    && (NO_EXECUTE in e'.flags <==> NO_EXECUTE in e.flags)
    && (USER in e'.flags <==> USER in e.flags || USER in want)
    && (WRITABLE in e'.flags <==> WRITABLE in e.flags || WRITABLE in want)
  }

  /** An address that goes through the same level-`j` entry as `virt`, to another page. */
  predicate Beside(v: nat, virt: nat, j: nat)
    requires 1 <= j <= 4
  {
    Prefix(v, j - 1) == Prefix(virt, j - 1) && Prefix(v, 0) != Prefix(virt, 0)
  }

  /** What a walk beside `virt` finds behind an entry that was absent: nothing. */
  ghost predicate StaysAbsent(m: Memory, e: Entry, j: nat, virt: nat)
    requires 1 <= j <= 4
  {
    forall v: nat :: Beside(v, virt, j) ==> Beyond(m, e, j, v) == None
  }

  /** And behind one that was a huge page: its rights, with what was asked for, and user access only if asked for. */
  ghost predicate IsDivided(m: Memory, e: Entry, e': Entry, j: nat, virt: nat, want: Word)
    requires 1 <= j <= 4
  {
    forall v: nat :: Beside(v, virt, j) ==>
      Beyond(m, e', j, v) ==
      Some(Access(USER in want, WRITABLE in e.flags || WRITABLE in want, NO_EXECUTE !in e.flags))
  }

  /** What a mapping does to an entry that the walk of `virt` reads at level `j`. */
  ghost predicate Touched(m: Memory, e: Entry, e': Entry, j: nat, virt: nat, want: Word, ok: bool)
    requires 1 <= j <= 4
  {
    if j == 1 then ok || e' == e
    else if PRESENT !in e.flags then StaysAbsent(m, e', j, virt)
    else if Stops(e, j) then (!ok && e' == e) || IsDivided(m, e, e', j, virt, want)
    else Widened(e, e', want) || (!ok && e' == e)
  }

  /** What a mapping from table `f` does to entry `k` of a table in use. */
  ghost predicate EntryChanged(m: Memory, m': Memory, lay: Layout, places: Places, root: nat, f: nat, virt: nat, want: Word,
                               ok: bool, g: nat, k: nat)
    requires f in places && 1 <= places[f].level <= 4 && g in places && k < TABLE_LEN
  {
    match ReadsAt(m, f, places[f].level, virt, g, k)
    case None => EntryAt(m', g, k) == EntryAt(m, g, k)
    case Some(j) =>
      && places[g] == At(lay.kernel, root, j, virt) && k == Index(virt, j)
      && Touched(m', EntryAt(m, g, k), EntryAt(m', g, k), j, virt, want, ok)
  }

  ghost predicate EntriesChanged(m: Memory, m': Memory, lay: Layout, places: Places, root: nat, f: nat, virt: nat, want: Word, ok: bool)
    requires f in places && 1 <= places[f].level <= 4
  {
    forall g, k :: g in places && 0 <= k < TABLE_LEN ==> EntryChanged(m, m', lay, places, root, f, virt, want, ok, g, k)
  }

  // ---- Comparing walks ----------------------------------------------------------------------------

  /** The walk of `v` ends at a huge page that the walk of `virt` from table `f0` ends at too. */
  predicate Shares(m: Memory, f: nat, l: nat, v: nat, f0: nat, l0: nat, virt: nat)
    requires 1 <= l <= 4 && 1 <= l0 <= 4
    decreases l, m
  {
    var e := EntryAt(m, f, Index(v, l));
    && l > 1 && PRESENT in e.flags
    && if Stops(e, l) then ReadsAt(m, f0, l0, virt, f, Index(v, l)).Some? else Shares(m, e.frame, l - 1, v, f0, l0, virt)
  }

  lemma ThroughSame(e: Entry, a: Option<Access>, b: Option<Access>, want: Word, shared: bool, ok: bool)
    requires Change(a, b, want, shared, ok) && a.Some?
    ensures Change(Some(Through(e, a.value)), Some(Through(e, b.value)), want, shared, ok)
  {
  }

  lemma ThroughWidened(e: Entry, e': Entry, a: Option<Access>, b: Option<Access>, want: Word, shared: bool, ok: bool)
    requires Change(a, b, want, shared, ok) && a.Some? && Widened(e, e', want)
    ensures Change(Some(Through(e, a.value)), Some(Through(e', b.value)), want, shared, ok)
  {
  }

  /** A walk to another page than `virt`'s, in any space, where it meets an entry that the walk of `virt` reads. */
  lemma BesideAt(kernel: nat, root: nat, virt: nat, r: nat, v: nat, l: nat)
    requires 1 <= l <= 4 && At(kernel, r, l, v) == At(kernel, root, l, virt) && Index(v, l) == Index(virt, l)
    requires At(kernel, r, 0, v) != At(kernel, root, 0, virt)
    ensures l > 1 && Beside(v, virt, l)
  {
  }

  lemma {:induction false} AllowedCompare(m: Memory, m': Memory, lay: Layout, places: Places, root: nat, f0: nat, virt: nat,
                                          want: Word, ok: bool, r: nat, f: nat, v: nat)
    requires Tree(m, lay, places) && f0 in places && f in places && Ordinary(v)
    requires EntriesChanged(m, m', lay, places, root, f0, virt, want, ok)
    requires places[f] == At(lay.kernel, r, places[f].level, v) && At(lay.kernel, r, 0, v) != At(lay.kernel, root, 0, virt)
    ensures Change(Allowed(m, f, places[f].level, v), Allowed(m', f, places[f].level, v), want,
                   Shares(m, f, places[f].level, v, f0, places[f0].level, virt), ok)
    decreases places[f].level
  {
    var l := places[f].level;
    var e := EntryAt(m, f, Index(v, l));
    if PRESENT in e.flags && !Stops(e, l) {
      TableBelow(m, lay, places, r, f, v);
      AllowedCompare(m, m', lay, places, root, f0, virt, want, ok, r, e.frame, v);
    }
    CompareLevel(m, m', lay, places, root, f0, virt, want, ok, r, f, v);
  }

  lemma CompareLevel(m: Memory, m': Memory, lay: Layout, places: Places, root: nat, f0: nat, virt: nat, want: Word, ok: bool,
                     r: nat, f: nat, v: nat)
    requires f0 in places && 1 <= places[f0].level <= 4 && f in places && 1 <= places[f].level <= 4
    requires EntriesChanged(m, m', lay, places, root, f0, virt, want, ok)
    requires places[f] == At(lay.kernel, r, places[f].level, v) && At(lay.kernel, r, 0, v) != At(lay.kernel, root, 0, virt)
    requires var l := places[f].level; var e := EntryAt(m, f, Index(v, l));
             PRESENT in e.flags && !Stops(e, l) ==>
               Change(Allowed(m, e.frame, l - 1, v), Allowed(m', e.frame, l - 1, v), want,
                      Shares(m, e.frame, l - 1, v, f0, places[f0].level, virt), ok)
    ensures Change(Allowed(m, f, places[f].level, v), Allowed(m', f, places[f].level, v), want,
                   Shares(m, f, places[f].level, v, f0, places[f0].level, virt), ok)
  {
    var l, k := places[f].level, Index(v, places[f].level);
    var e, e' := EntryAt(m, f, k), EntryAt(m', f, k);
    var shared := Shares(m, f, l, v, f0, places[f0].level, virt);
    assert EntryChanged(m, m', lay, places, root, f0, virt, want, ok, f, k);
    if ReadsAt(m, f0, places[f0].level, virt, f, k).Some? {
      BesideAt(lay.kernel, root, virt, r, v, l);
      CompareTouched(m, m', f, l, v, e, e', virt, want, ok, shared);
    } else {
      CompareSame(m, m', f, l, v, e, want, ok, shared);
    }
  }

  lemma CompareSame(m: Memory, m': Memory, f: nat, l: nat, v: nat, e: Entry, want: Word, ok: bool, shared: bool)
    requires 1 <= l <= 4 && EntryAt(m, f, Index(v, l)) == e == EntryAt(m', f, Index(v, l))
    requires PRESENT in e.flags && Stops(e, l) ==> !shared
    requires PRESENT in e.flags && !Stops(e, l) ==>
               Change(Allowed(m, e.frame, l - 1, v), Allowed(m', e.frame, l - 1, v), want, shared, ok)
    ensures Change(Allowed(m, f, l, v), Allowed(m', f, l, v), want, shared, ok)
  {
    if PRESENT in e.flags && !Stops(e, l) {
      var a, b := Allowed(m, e.frame, l - 1, v), Allowed(m', e.frame, l - 1, v);
      if a.Some? {
        ThroughSame(e, a, b, want, shared, ok);
      }
    }
  }

  lemma CompareTouched(m: Memory, m': Memory, f: nat, l: nat, v: nat, e: Entry, e': Entry, virt: nat, want: Word, ok: bool, shared: bool)
    requires 2 <= l <= 4 && EntryAt(m, f, Index(v, l)) == e && EntryAt(m', f, Index(v, l)) == e'
    requires Touched(m', e, e', l, virt, want, ok) && Beside(v, virt, l)
    requires PRESENT in e.flags && Stops(e, l) ==> shared
    requires PRESENT in e.flags && !Stops(e, l) ==>
               Change(Allowed(m, e.frame, l - 1, v), Allowed(m', e.frame, l - 1, v), want, shared, ok)
    ensures Change(Allowed(m, f, l, v), Allowed(m', f, l, v), want, shared, ok)
  {
    assert Allowed(m', f, l, v) == Beyond(m', e', l, v);
    if PRESENT in e.flags && !Stops(e, l) {
      var a, b := Allowed(m, e.frame, l - 1, v), Allowed(m', e.frame, l - 1, v);
      if a.Some? {
        if Widened(e, e', want) {
          ThroughWidened(e, e', a, b, want, shared, ok);
        } else {
          ThroughSame(e, a, b, want, shared, ok);
        }
      }
    }
  }

  // ---- The mapping walk ---------------------------------------------------------------------------

  /** The entries a walk reads are those of its own places. */
  lemma {:induction false} ReadsOwnPlaces(m: Memory, lay: Layout, places: Places, root: nat, f: nat, virt: nat, g: nat, k: nat)
    requires Tree(m, lay, places) && f in places && Ordinary(virt) && places[f] == At(lay.kernel, root, places[f].level, virt)
    requires ReadsAt(m, f, places[f].level, virt, g, k).Some?
    ensures var j := ReadsAt(m, f, places[f].level, virt, g, k).value;
            g in places && places[g] == At(lay.kernel, root, j, virt) && k == Index(virt, j)
    decreases places[f].level
  {
    var l := places[f].level;
    if !(f == g && Index(virt, l) == k) {
      TableBelow(m, lay, places, root, f, virt);
      ReadsOwnPlaces(m, lay, places, root, EntryAt(m, f, Index(virt, l)).frame, virt, g, k);
    }
  }

  /** What one level of the mapping walk does to the entry it goes through. */
  ghost predicate OneLevel(m: Memory, m1: Memory, places: Places, f: nat, i: nat, l: nat, want: Word, g: nat)
    requires i < TABLE_LEN && 2 <= l <= 4
  {
    var e, e1 := EntryAt(m, f, i), EntryAt(m1, f, i);
    && (forall h, k :: h in places && 0 <= k < TABLE_LEN && (h != f || k != i) ==> EntryAt(m1, h, k) == EntryAt(m, h, k))
    && e1.frame == g && PRESENT in e1.flags && !Stops(e1, l)
    && (if PRESENT in e.flags && !Stops(e, l) then Widened(e, e1, want)
        else
          && g !in places && Widened(Entry(g, {PRESENT, WRITABLE}), e1, want * {USER})
          && FreshTable(m1, e, g, l, want))
  }

  /** Table `g` replaces entry `e` of level `l`: it is empty, or divides a huge page. */
  ghost predicate FreshTable(m: Memory, e: Entry, g: nat, l: nat, want: Word)
    requires l > 1
  {
    forall k :: 0 <= k < TABLE_LEN ==>
      if PRESENT in e.flags then Child512(e, EntryAt(m, g, k), l, want) else EntryAt(m, g, k) == EMPTY
  }

  /** One of the 512 entries that replace a huge page: its permissions, and those asked for. */
  predicate Child512(e: Entry, c: Entry, l: nat, want: Word)
    requires l > 1
  {
    && PRESENT in c.flags && Stops(c, l - 1)
    && (NO_EXECUTE in c.flags <==> NO_EXECUTE in e.flags)
    && (USER in c.flags <==> USER in e.flags || USER in want)
    && (WRITABLE in c.flags <==> WRITABLE in e.flags || WRITABLE in want)
  }

  lemma WidenIs(e: Entry, want: Word)
    requires PRESENT in e.flags && e.frame < FRAMES
    ensures Widened(e, SetAddress(e.frame * 4096, e.flags + Needed(want)), want)
    ensures Needed(want) <= e.flags ==> Widened(e, e, want)
  {
    assert e.frame * 4096 / 4096 == e.frame;
    assert Needed(want) <= e.flags ==> (USER in want ==> USER in Needed(want)) && (WRITABLE in want ==> WRITABLE in Needed(want));
  }

  lemma FreshIs(f: nat, want: Word)
    requires f < FRAMES
    ensures Widened(Entry(f, {PRESENT, WRITABLE}), SetAddress(f * 4096, TableFlags(want)), want * {USER})
  {
    assert f * 4096 / 4096 == f;
  }

  lemma SplitIs(e: Entry, want: Word, l: nat, k: nat)
    requires 2 <= l <= 3 && PRESENT in e.flags && k < TABLE_LEN
    ensures Child512(e, SplitTable(e, want, l)[k], l, want)
  {
  }

  lemma LevelChanges(m: Memory, lay: Layout, places: Places, f: nat, i: nat, want: Word)
    requires Tree(m, lay, places) && f in places && places[f].level >= 2 && i < TABLE_LEN
    requires !(places[f].level == 4 && i == RECURSIVE)
    ensures var l := places[f].level;
            var (r, m1) := GetOrCreate(m, f, i, want, l);
            if r.Ok? then OneLevel(m, m1, places, f, i, l, want, r.value) else m1 == m
  {
    var l, e := places[f].level, EntryAt(m, f, i);
    var (r, m1) := GetOrCreate(m, f, i, want, l);
    assert EntryFits(m, lay, places, f, i);
    if PRESENT in e.flags && !(HUGE_PAGE in e.flags) {
      assert e.frame in places && e.frame < FRAMES;
      WidenIs(e, want);
    } else if r.Ok? {
      var t := if PRESENT in e.flags then SplitTable(e, want, l) else EmptyTable();
      AddTableAdds(m, lay, places, f, i, want, t);
      FreshIs(r.value, want);
      if PRESENT in e.flags {
        forall k | 0 <= k < TABLE_LEN
          ensures Child512(e, EntryAt(m1, r.value, k), l, want)
        {
          SplitIs(e, want, l, k);
        }
      }
    }
  }

  /** A fresh table at the level below: a walk into it meets nothing, or one of the 512 parts. */
  lemma FreshAllowed(m: Memory, e: Entry, g: nat, l: nat, want: Word, v: nat)
    requires 2 <= l <= 4 && (PRESENT in e.flags ==> l < 4)
    requires FreshTable(m, e, g, l, want)
    ensures Allowed(m, g, l - 1, v) ==
            if PRESENT in e.flags
            then Some(Access(USER in e.flags || USER in want, WRITABLE in e.flags || WRITABLE in want, NO_EXECUTE !in e.flags))
            else None
  {
    var k := Index(v, l - 1);
    assert if PRESENT in e.flags then Child512(e, EntryAt(m, g, k), l, want) else EntryAt(m, g, k) == EMPTY;
  }

  lemma FreshReads(m: Memory, e: Entry, g: nat, l: nat, want: Word, v: nat, h: nat, i: nat)
    requires 2 <= l <= 4 && (PRESENT in e.flags ==> l < 4) && h != g && FreshTable(m, e, g, l, want)
    ensures ReadsAt(m, g, l - 1, v, h, i) == None
  {
    var k := Index(v, l - 1);
    assert if PRESENT in e.flags then Child512(e, EntryAt(m, g, k), l, want) else EntryAt(m, g, k) == EMPTY;
  }

  /** The entry that the walk went through at this level, and everything behind it. */
  lemma LevelTouched(m: Memory, m1: Memory, m': Memory, lay: Layout, places: Places, places1: Places, root: nat, f: nat, virt: nat,
                     want: Word, ok: bool, g: nat)
    requires f in places && 2 <= places[f].level <= 4 && Ordinary(virt)
    requires places[f] == At(lay.kernel, root, places[f].level, virt)
    requires var l := places[f].level; var i := Index(virt, l);
             && OneLevel(m, m1, places, f, i, l, want, g) && EntryAt(m', f, i) == EntryAt(m1, f, i)
             && (l == 4 ==> !(PRESENT in EntryAt(m, f, i).flags && HUGE_PAGE in EntryAt(m, f, i).flags))
    requires Tree(m1, lay, places1) && g in places1 && places1[g] == At(lay.kernel, root, places[f].level - 1, virt)
    requires EntriesChanged(m1, m', lay, places1, root, g, virt, want, ok)
    ensures var l := places[f].level; var i := Index(virt, l);
            Touched(m', EntryAt(m, f, i), EntryAt(m', f, i), l, virt, want, ok)
  {
    var l := places[f].level;
    var i := Index(virt, l);
    var e, e' := EntryAt(m, f, i), EntryAt(m', f, i);
    if !(PRESENT in e.flags && !Stops(e, l)) {
      forall v: nat | Beside(v, virt, l)
        ensures Beyond(m', e', l, v) ==
                if PRESENT in e.flags
                then Some(Access(USER in want, WRITABLE in e.flags || WRITABLE in want, NO_EXECUTE !in e.flags)) else None
      {
        BehindFresh(m1, m', lay, places1, root, g, virt, want, ok, e, e', l, v);
      }
    }
  }

  lemma BehindFresh(m1: Memory, m': Memory, lay: Layout, places1: Places, root: nat, g: nat, virt: nat, want: Word, ok: bool,
                    e: Entry, e': Entry, l: nat, v: nat)
    requires 2 <= l <= 4 && Beside(v, virt, l) && Ordinary(virt) && (PRESENT in e.flags ==> l < 4)
    requires Tree(m1, lay, places1) && g in places1 && places1[g] == At(lay.kernel, root, l - 1, virt)
    requires EntriesChanged(m1, m', lay, places1, root, g, virt, want, ok)
    requires e'.frame == g && PRESENT in e'.flags && !Stops(e', l) && Widened(Entry(g, {PRESENT, WRITABLE}), e', want * {USER})
    requires FreshTable(m1, e, g, l, want)
    ensures Beyond(m', e', l, v) ==
            if PRESENT in e.flags
            then Some(Access(USER in want, WRITABLE in e.flags || WRITABLE in want, NO_EXECUTE !in e.flags)) else None
  {
    FreshAllowed(m1, e, g, l, want, v);
    PrefixIndexes(v, virt, l - 1);
    AllowedCompare(m1, m', lay, places1, root, g, virt, want, ok, root, g, v);
    var a, b := Allowed(m1, g, l - 1, v), Allowed(m', g, l - 1, v);
    if a.Some? {
      FreshThrough(e, e', a, b, want, Shares(m1, g, l - 1, v, g, l - 1, virt), ok);
    }
  }

  lemma FreshThrough(e: Entry, e': Entry, a: Option<Access>, b: Option<Access>, want: Word, shared: bool, ok: bool)
    requires Widened(Entry(e'.frame, {PRESENT, WRITABLE}), e', want * {USER}) && Change(a, b, want, shared, ok)
    requires a == Some(Access(USER in e.flags || USER in want, WRITABLE in e.flags || WRITABLE in want, NO_EXECUTE !in e.flags))
    ensures Through(e', b.value) == Access(USER in want, WRITABLE in e.flags || WRITABLE in want, NO_EXECUTE !in e.flags)
  {
  }

  /** Entries that the level did not go through. */
  lemma LevelOther(m: Memory, m1: Memory, m': Memory, lay: Layout, places: Places, places1: Places, root: nat, f: nat, virt: nat,
                   want: Word, ok: bool, g: nat, h: nat, k: nat)
    requires Tree(m, lay, places) && f in places && places[f].level >= 2 && h in places && k < TABLE_LEN && Ordinary(virt)
    requires places[f] == At(lay.kernel, root, places[f].level, virt)
    requires var l := places[f].level; var i := Index(virt, l);
             && OneLevel(m, m1, places, f, i, l, want, g) && (h != f || k != i)
             && (l == 4 ==> !(PRESENT in EntryAt(m, f, i).flags && HUGE_PAGE in EntryAt(m, f, i).flags))
    requires h in places1 && places1[h] == places[h] && g in places1 && places1[g].level == places[f].level - 1
    requires EntryChanged(m1, m', lay, places1, root, g, virt, want, ok, h, k)
    ensures EntryChanged(m, m', lay, places, root, f, virt, want, ok, h, k)
  {
    var l := places[f].level;
    var e := EntryAt(m, f, Index(virt, l));
    if PRESENT in e.flags && !Stops(e, l) {
      TableBelow(m, lay, places, root, f, virt);
      ReadsBelow(m, m1, lay, places, root, f, g, virt, h, k);
    } else {
      FreshReads(m1, e, g, l, want, virt, h, k);
    }
  }

  /** A change to one entry of a table changes no reading below it. */
  lemma {:induction false} ReadsBelow(m: Memory, m1: Memory, lay: Layout, places: Places, root: nat, f: nat, g: nat, virt: nat, h: nat, k: nat)
    requires Tree(m, lay, places) && f in places && g in places && places[g].level < places[f].level && Ordinary(virt)
    requires places[g] == At(lay.kernel, root, places[g].level, virt) && OnlyTable(m, m1, places, f)
    ensures ReadsAt(m1, g, places[g].level, virt, h, k) == ReadsAt(m, g, places[g].level, virt, h, k)
    decreases places[g].level
  {
    var l := places[g].level;
    var e := EntryAt(m, g, Index(virt, l));
    assert EntryAt(m1, g, Index(virt, l)) == e;
    if PRESENT in e.flags && !Stops(e, l) {
      TableBelow(m, lay, places, root, g, virt);
      ReadsBelow(m, m1, lay, places, root, f, e.frame, virt, h, k);
    }
  }

  lemma LeafChanges(m: Memory, lay: Layout, places: Places, root: nat, f: nat, virt: nat, leaf: Entry, want: Word)
    requires Tree(m, lay, places) && f in places && Ordinary(virt) && places[f] == At(lay.kernel, root, 1, virt)
    ensures EntriesChanged(m, SetEntry(m, f, Index(virt, 1), leaf), lay, places, root, f, virt, want, true)
  {
  }

  lemma NothingChanges(m: Memory, lay: Layout, places: Places, root: nat, f: nat, virt: nat, want: Word)
    requires Tree(m, lay, places) && f in places && Ordinary(virt) && places[f] == At(lay.kernel, root, places[f].level, virt)
    ensures EntriesChanged(m, m, lay, places, root, f, virt, want, false)
  {
    forall g, k | g in places && 0 <= k < TABLE_LEN
      ensures EntryChanged(m, m, lay, places, root, f, virt, want, false, g, k)
    {
      if ReadsAt(m, f, places[f].level, virt, g, k).Some? {
        ReadsOwnPlaces(m, lay, places, root, f, virt, g, k);
      }
    }
  }

  /** What a mapping does to every entry of every table in use. */
  lemma {:induction false} InstallChanges(m: Memory, lay: Layout, places: Places, root: nat, f: nat, virt: nat, leaf: Entry, want: Word)
    requires Tree(m, lay, places) && f in places && Ordinary(virt) && places[f] == At(lay.kernel, root, places[f].level, virt)
    ensures var (r, m') := Install(m, f, places[f].level, virt, leaf, want);
            EntriesChanged(m, m', lay, places, root, f, virt, want, r.Ok?)
    decreases places[f].level
  {
    var l := places[f].level;
    if l == 1 {
      LeafChanges(m, lay, places, root, f, virt, leaf, want);
    } else {
      var i := Index(virt, l);
      var (r1, m1) := GetOrCreate(m, f, i, want, l);
      var places1 := GetOrCreateKeeps(m, lay, places, f, i, want);
      LevelChanges(m, lay, places, f, i, want);
      if r1.Err? {
        NothingChanges(m, lay, places, root, f, virt, want);
      } else {
        ChildAt(lay.kernel, root, l, virt);
        var (r, m') := Install(m1, r1.value, l - 1, virt, leaf, want);
        InstallChanges(m1, lay, places1, root, r1.value, virt, leaf, want);
        LevelsJoin(m, m1, m', lay, places, places1, root, f, virt, want, r.Ok?, r1.value);
      }
    }
  }

  lemma LevelsJoin(m: Memory, m1: Memory, m': Memory, lay: Layout, places: Places, places1: Places, root: nat, f: nat, virt: nat,
                   want: Word, ok: bool, g: nat)
    requires Tree(m, lay, places) && f in places && places[f].level >= 2 && Ordinary(virt)
    requires places[f] == At(lay.kernel, root, places[f].level, virt)
    requires var l := places[f].level; var i := Index(virt, l);
             && OneLevel(m, m1, places, f, i, l, want, g)
             && (l == 4 ==> !(PRESENT in EntryAt(m, f, i).flags && HUGE_PAGE in EntryAt(m, f, i).flags))
    requires Tree(m1, lay, places1) && g in places1 && places1[g] == At(lay.kernel, root, places[f].level - 1, virt)
    requires forall h :: h in places ==> h in places1 && places1[h] == places[h]
    requires EntriesChanged(m1, m', lay, places1, root, g, virt, want, ok)
    ensures EntriesChanged(m, m', lay, places, root, f, virt, want, ok)
  {
    var l := places[f].level;
    var i := Index(virt, l);
    assert EntryAt(m', f, i) == EntryAt(m1, f, i) by {
      assert EntryChanged(m1, m', lay, places1, root, g, virt, want, ok, f, i);
    }
    LevelTouched(m, m1, m', lay, places, places1, root, f, virt, want, ok, g);
    forall h, k | h in places && 0 <= k < TABLE_LEN
      ensures EntryChanged(m, m', lay, places, root, f, virt, want, ok, h, k)
    {
      if h != f || k != i {
        assert EntryChanged(m1, m', lay, places1, root, g, virt, want, ok, h, k);
        LevelOther(m, m1, m', lay, places, places1, root, f, virt, want, ok, g, h, k);
      }
    }
  }

  /** After a mapping, every table entry on the way has the permissions asked for. */
  lemma {:induction false} InstallGrants(m: Memory, lay: Layout, places: Places, root: nat, f: nat, virt: nat, leaf: Entry, want: Word)
    requires Tree(m, lay, places) && f in places && Ordinary(virt) && places[f] == At(lay.kernel, root, places[f].level, virt)
    ensures var (r, m') := Install(m, f, places[f].level, virt, leaf, want);
            r.Ok? ==> Grants(m', f, places[f].level, virt, want)
    decreases places[f].level
  {
    var l := places[f].level;
    if l > 1 {
      var (r1, m1) := GetOrCreate(m, f, Index(virt, l), want, l);
      var places1 := Down(m, lay, places, root, f, virt, want);
      if r1.Ok? {
        LevelGrants(m, lay, places, f, Index(virt, l), want);
        InstallGrants(m1, lay, places1, root, r1.value, virt, leaf, want);
        InstallAbove(m1, lay, places1, root, r1.value, virt, leaf, want, f);
      }
    }
  }

  /** One level down: the table found or made is the one of the walk of `virt`. */
  lemma Down(m: Memory, lay: Layout, places: Places, root: nat, f: nat, virt: nat, want: Word) returns (places1: Places)
    requires Tree(m, lay, places) && f in places && Ordinary(virt) && places[f].level >= 2
    requires places[f] == At(lay.kernel, root, places[f].level, virt)
    ensures var l := places[f].level;
            var (r, m1) := GetOrCreate(m, f, Index(virt, l), want, l);
            r.Ok? ==>
              && Tree(m1, lay, places1) && f in places1 && places1[f] == places[f]
              && r.value in places1 && places1[r.value] == At(lay.kernel, root, l - 1, virt)
  {
    places1 := GetOrCreateKeeps(m, lay, places, f, Index(virt, places[f].level), want);
    ChildAt(lay.kernel, root, places[f].level, virt);
  }

  lemma LevelGrants(m: Memory, lay: Layout, places: Places, f: nat, i: nat, want: Word)
    requires Tree(m, lay, places) && f in places && places[f].level >= 2 && i < TABLE_LEN
    requires !(places[f].level == 4 && i == RECURSIVE)
    ensures var l := places[f].level;
            var (r, m1) := GetOrCreate(m, f, i, want, l);
            var e := EntryAt(m1, f, i);
            r.Ok? ==>
              && e.frame == r.value && PRESENT in e.flags && !Stops(e, l)
              && (USER in want ==> USER in e.flags) && (WRITABLE in want ==> WRITABLE in e.flags)
  {
    LevelChanges(m, lay, places, f, i, want);
  }

  /** A mapping from a table below does not write the table above. */
  lemma InstallAbove(m: Memory, lay: Layout, places: Places, root: nat, g: nat, virt: nat, leaf: Entry, want: Word, f: nat)
    requires Tree(m, lay, places) && g in places && Ordinary(virt) && places[g] == At(lay.kernel, root, places[g].level, virt)
    requires f in places && places[f].level > places[g].level
    ensures var m' := Install(m, g, places[g].level, virt, leaf, want).1;
            forall k :: 0 <= k < TABLE_LEN ==> EntryAt(m', f, k) == EntryAt(m, f, k)
  {
    var places' := InstallKeeps(m, lay, places, root, g, virt, leaf, want);
  }

  // ---- A whole mapping ----------------------------------------------------------------------------

  /** The rights of a page just mapped: user access and writing are as `flags` say, and so is execution unless a table entry
      on the way forbids it. */
  predicate RightsGiven(m: Memory, root: nat, virt: nat, flags: Word) {
    Allowed(m, root, 4, virt) ==
    if PRESENT in flags then Some(Access(USER in flags, WRITABLE in flags, NO_EXECUTE !in flags && Runs(m, root, 4, virt)))
    else None
  }

  predicate UserWritable(m: Memory, root: nat, virt: nat) {
    var a := Allowed(m, root, 4, virt);
    a.Some? && a.value.user && a.value.writable
  }

  /** The walks of two pages, each in its space, read no entry in common. */
  predicate Apart(r: nat, v: nat, root: nat, virt: nat) {
    Index(v, 4) != Index(virt, 4) || (r != root && Index(v, 4) < KERNEL_HALF)
  }

  /** What a mapping does to the rights of all other pages: none where the walks have nothing in common, and else as Change
      says. */
  ghost predicate OthersRights(m: Memory, m': Memory, places: Places, root: nat, virt: nat, flags: Word, ok: bool) {
    forall r, v :: IsRoot(places, r) && Ordinary(v) && !(SamePage(v, virt) && (r == root || Index(v, 4) >= KERNEL_HALF)) ==>
      var a, b := Allowed(m, r, 4, v), Allowed(m', r, 4, v);
      Change(a, b, flags, Shares(m, r, 4, v, root, 4, virt), ok) && (Apart(r, v, root, virt) ==> b == a)
  }

  /** Pages with page-table entries of their own keep their flags, below table entries that have the permissions. */
  ghost predicate OthersFlagged(m: Memory, m': Memory, places: Places, root: nat, virt: nat) {
    forall r, v, flags :: IsRoot(places, r) && Ordinary(v) && !(SamePage(v, virt) && (r == root || Index(v, 4) >= KERNEL_HALF))
                          && Flagged(m, r, 4, v, flags) ==>
      Flagged(m', r, 4, v, flags)
  }

  lemma {:induction false} FlagsAllow(m: Memory, f: nat, l: nat, virt: nat, flags: Word)
    requires 1 <= l <= 4 && Flagged(m, f, l, virt, flags)
    ensures Allowed(m, f, l, virt) ==
            if PRESENT in flags then Some(Access(USER in flags, WRITABLE in flags, NO_EXECUTE !in flags && Runs(m, f, l, virt)))
            else None
    decreases l
  {
    if l > 1 {
      FlagsAllow(m, EntryAt(m, f, Index(virt, l)).frame, l - 1, virt, flags);
    }
  }

  /** An entry that points to a table or maps another page keeps its frame and its flags, but for permissions it gets. */
  lemma OthersEntry(m: Memory, m': Memory, lay: Layout, places: Places, root: nat, f0: nat, virt: nat, want: Word, ok: bool,
                    r: nat, f: nat, v: nat)
    requires f0 in places && 1 <= places[f0].level <= 4 && f in places && 1 <= places[f].level <= 4
    requires EntriesChanged(m, m', lay, places, root, f0, virt, want, ok)
    requires places[f] == At(lay.kernel, r, places[f].level, v) && At(lay.kernel, r, 0, v) != At(lay.kernel, root, 0, virt)
    ensures var l := places[f].level;
            var e, e' := EntryAt(m, f, Index(v, l)), EntryAt(m', f, Index(v, l));
            && (l == 1 ==> e' == e)
            && (PRESENT in e.flags && !Stops(e, l) ==> e' == e || Widened(e, e', want))
  {
    var l, k := places[f].level, Index(v, places[f].level);
    assert EntryChanged(m, m', lay, places, root, f0, virt, want, ok, f, k);
    if ReadsAt(m, f0, places[f0].level, virt, f, k).Some? {
      BesideAt(lay.kernel, root, virt, r, v, l);
    }
  }

  lemma FlagsAbove(m: Memory, m': Memory, f: nat, l: nat, v: nat, want: Word, flags: Word)
    requires 2 <= l <= 4 && Flagged(m, f, l, v, flags)
    requires var e, e' := EntryAt(m, f, Index(v, l)), EntryAt(m', f, Index(v, l));
             (e' == e || Widened(e, e', want)) && Flagged(m', e.frame, l - 1, v, flags)
    ensures Flagged(m', f, l, v, flags)
  {
  }

  lemma {:induction false} FlagsStay(m: Memory, m': Memory, lay: Layout, places: Places, root: nat, f0: nat, virt: nat,
                                     want: Word, ok: bool, r: nat, f: nat, v: nat, flags: Word)
    requires Tree(m, lay, places) && f0 in places && f in places && Ordinary(v)
    requires EntriesChanged(m, m', lay, places, root, f0, virt, want, ok)
    requires places[f] == At(lay.kernel, r, places[f].level, v) && At(lay.kernel, r, 0, v) != At(lay.kernel, root, 0, virt)
    requires Flagged(m, f, places[f].level, v, flags)
    ensures Flagged(m', f, places[f].level, v, flags)
    decreases places[f].level
  {
    var l := places[f].level;
    OthersEntry(m, m', lay, places, root, f0, virt, want, ok, r, f, v);
    if l > 1 {
      TableBelow(m, lay, places, r, f, v);
      FlagsStay(m, m', lay, places, root, f0, virt, want, ok, r, EntryAt(m, f, Index(v, l)).frame, v, flags);
      FlagsAbove(m, m', f, l, v, want, flags);
    }
  }

  lemma ApartBelow(kernel: nat, r: nat, v: nat, root: nat, virt: nat, l: nat)
    requires Apart(r, v, root, virt) && 1 <= l <= 4
    ensures !(At(kernel, r, l, v) == At(kernel, root, l, virt) && Index(v, l) == Index(virt, l))
  {
    if l < 4 && Prefix(v, l) == Prefix(virt, l) {
      PrefixIndexes(v, virt, l);
    }
  }

  lemma {:induction false} AllowedApart(m: Memory, m': Memory, lay: Layout, places: Places, root: nat, f0: nat, virt: nat, want: Word,
                                        ok: bool, r: nat, f: nat, v: nat)
    requires Tree(m, lay, places) && f0 in places && f in places && Ordinary(v)
    requires EntriesChanged(m, m', lay, places, root, f0, virt, want, ok)
    requires places[f] == At(lay.kernel, r, places[f].level, v) && Apart(r, v, root, virt)
    ensures Allowed(m', f, places[f].level, v) == Allowed(m, f, places[f].level, v)
    decreases places[f].level
  {
    var l, k := places[f].level, Index(v, places[f].level);
    var e := EntryAt(m, f, k);
    assert EntryAt(m', f, k) == e by {
      assert EntryChanged(m, m', lay, places, root, f0, virt, want, ok, f, k);
      ApartBelow(lay.kernel, r, v, root, virt, l);
    }
    if PRESENT in e.flags && !Stops(e, l) {
      TableBelow(m, lay, places, r, f, v);
      AllowedApart(m, m', lay, places, root, f0, virt, want, ok, r, e.frame, v);
    }
  }

  /** The rights after a mapping, in all spaces. */
  lemma MapRights(m: Memory, lay: Layout, places: Places, root: nat, virt: nat, leaf: Entry, flags: Word)
    requires Tree(m, lay, places) && IsRoot(places, root) && Ordinary(virt)
    ensures var (r, m') := Install(m, root, 4, virt, leaf, flags);
            && (r.Ok? ==> Grants(m', root, 4, virt, flags))
            && OthersRights(m, m', places, root, virt, flags, r.Ok?) && OthersFlagged(m, m', places, root, virt)
  {
    var (u, m') := Install(m, root, 4, virt, leaf, flags);
    InstallGrants(m, lay, places, root, root, virt, leaf, flags);
    InstallChanges(m, lay, places, root, root, virt, leaf, flags);
    forall r, v | IsRoot(places, r) && Ordinary(v) && !(SamePage(v, virt) && (r == root || Index(v, 4) >= KERNEL_HALF))
      ensures Change(Allowed(m, r, 4, v), Allowed(m', r, 4, v), flags, Shares(m, r, 4, v, root, 4, virt), u.Ok?)
      ensures Apart(r, v, root, virt) ==> Allowed(m', r, 4, v) == Allowed(m, r, 4, v)
    {
      PagesOf(lay.kernel, r, v, root, virt);
      AllowedCompare(m, m', lay, places, root, root, virt, flags, u.Ok?, r, r, v);
      if Apart(r, v, root, virt) {
        AllowedApart(m, m', lay, places, root, root, virt, flags, u.Ok?, r, r, v);
      }
    }
    forall r, v, w | IsRoot(places, r) && Ordinary(v) && !(SamePage(v, virt) && (r == root || Index(v, 4) >= KERNEL_HALF))
                     && Flagged(m, r, 4, v, w)
      ensures Flagged(m', r, 4, v, w)
    {
      PagesOf(lay.kernel, r, v, root, virt);
      FlagsStay(m, m', lay, places, root, root, virt, flags, u.Ok?, r, r, v, w);
    }
  }
}
