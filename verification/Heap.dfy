/** The kernel heap: a first-fit free list whose blocks carry their own headers, with splitting and without
    coalescing. Addresses are unbounded numbers. */
module Heap {
  import opened Wrappers
  import opened Arith

  /** Size and alignment of a free block's header: a size and a link. */
  const HEADER: nat := 16
  const HEADER_ALIGN: nat := 8
  /** A remainder smaller than this is not split off. */
  const MIN_SPLIT: nat := HEADER + 16

  datatype Block = Block(addr: nat, size: nat)

  /** What a caller asks for; the alignment is a power of two. */
  datatype Layout = Layout(size: nat, align: nat)

  ghost predicate LayoutOk(l: Layout) {
    exists k: nat :: l.align == Pow2(k)
  }

  function RoundUp(x: nat, a: nat): nat
    requires a > 0
  {
    (x + a - 1) / a * a
  }

  function Align(l: Layout): (a: nat)
    ensures a > 0
  {
    if l.align > HEADER_ALIGN then l.align else HEADER_ALIGN
  }

  function Size(l: Layout): nat {
    RoundUp(if l.size > HEADER then l.size else HEADER, Align(l))
  }

  function Fits(b: Block, l: Layout): bool {
    b.size >= Size(l) + (RoundUp(b.addr, Align(l)) - b.addr)
  }

  function FirstFit(free: seq<Block>, l: Layout, i: nat): (r: Option<nat>)
    ensures r.Some? ==> i <= r.value < |free| && Fits(free[r.value], l) && forall j :: i <= j < r.value ==> !Fits(free[j], l)
    ensures r.None? ==> forall j :: i <= j < |free| ==> !Fits(free[j], l)
    decreases |free| - i
  {
    if i >= |free| then None else if Fits(free[i], l) then Some(i) else FirstFit(free, l, i + 1)
  }

  /** The block handed out from `b`. */
  function Taken(b: Block, l: Layout): Block {
    Block(RoundUp(b.addr, Align(l)), Size(l))
  }

  /** What of `b` goes back to the list. */
  function Rest(b: Block, l: Layout): seq<Block>
    requires Fits(b, l)
  {
    var t := Taken(b, l);
    var remaining := b.size - t.size - (t.addr - b.addr);
    if remaining >= MIN_SPLIT then [Block(t.addr + t.size, remaining)] else []
  }

  function Total(bs: seq<Block>): nat {
    if bs == [] then 0 else bs[0].size + Total(bs[1..])
  }

  /** The bytes of `b` that are lost: the gap before the aligned address, and a tail too short for a block. */
  function Waste(b: Block, l: Layout): int
    requires Fits(b, l)
  {
    var t := Taken(b, l);
    var remaining := b.size - t.size - (t.addr - b.addr);
    (t.addr - b.addr) + if remaining < MIN_SPLIT then remaining else 0
  }

  /** The list after block `i` was used. */
  function Splice(free: seq<Block>, i: nat, l: Layout): seq<Block>
    requires i < |free| && Fits(free[i], l)
  {
    free[..i] + Rest(free[i], l) + free[i + 1..]
  }

  // ---- Rounding -----------------------------------------------------------------------------------

  lemma RoundUpExact(x: nat, a: nat)
    requires a > 0
    ensures x <= RoundUp(x, a) < x + a && RoundUp(x, a) % a == 0
  {
    var y := x + a - 1;
    Quotient(y, a);
    DivModUnique((y / a) * a, a, y / a, 0);
  }

  lemma MultiplesApart(q: nat, p: nat, a: nat)
    requires q * a < p * a + a
    ensures q * a <= p * a
  {
    if q > p {
      var d := q - p - 1;
      assert q * a == p * a + a + d * a;
    }
  }

  /** It is the least multiple from `x` on. */
  lemma RoundUpLeast(x: nat, a: nat, n: nat)
    requires a > 0 && n >= x && n % a == 0
    ensures RoundUp(x, a) <= n
  {
    RoundUpExact(x, a);
    Quotient(n, a);
    MultiplesApart((x + a - 1) / a, n / a, a);
  }

  lemma {:induction false} Pow2Multiple(j: nat, k: nat)
    requires j <= k
    ensures Pow2(k) % Pow2(j) == 0
  {
    Pow2Divides(j, k);
    DivModUnique(Pow2(k), Pow2(j), Pow2(k - j), 0);
  }

  lemma {:induction false} Pow2Monotone(j: nat, k: nat)
    requires j < k
    ensures Pow2(j) < Pow2(k)
  {
    if j + 1 < k {
      Pow2Monotone(j, k - 1);
    }
  }

  /** The alignment used is a multiple of the header's. */
  lemma AlignHeader(l: Layout)
    requires LayoutOk(l)
    ensures Align(l) % HEADER_ALIGN == 0
  {
    var k: nat :| l.align == Pow2(k);
    assert Pow2(3) == 8;
    if l.align > 8 {
      if k < 3 {
        Pow2Monotone(k, 3);
      } else {
        Pow2Multiple(3, k);
      }
    }
  }

  /** The alignment used is the larger of the one asked for and the header's, and a multiple of both. */
  lemma AlignExact(l: Layout)
    requires LayoutOk(l)
    ensures Align(l) % l.align == 0 && Align(l) % HEADER_ALIGN == 0
    ensures Align(l) >= l.align && Align(l) >= HEADER_ALIGN && (Align(l) == l.align || Align(l) == HEADER_ALIGN)
  {
    AlignHeader(l);
    var k: nat :| l.align == Pow2(k);
    assert Pow2(3) == 8;
    if l.align <= HEADER_ALIGN {
      if k > 3 {
        Pow2Monotone(3, k);
      } else {
        Pow2Multiple(k, 3);
      }
    }
  }

  /** The size used is the least multiple of the alignment that holds what was asked for and holds a header. */
  lemma SizeExact(l: Layout)
    ensures Size(l) % Align(l) == 0 && Size(l) >= l.size && Size(l) >= HEADER
    ensures forall n: nat :: n % Align(l) == 0 && n >= l.size && n >= HEADER ==> n >= Size(l)
  {
    var x := if l.size > HEADER then l.size else HEADER;
    RoundUpExact(x, Align(l));
    forall n: nat | n % Align(l) == 0 && n >= l.size && n >= HEADER
      ensures n >= Size(l)
    {
      RoundUpLeast(x, Align(l), n);
    }
  }

  /** The block has room for the layout at the aligned address `a`. */
  predicate RoomAt(b: Block, l: Layout, a: nat) {
    a % Align(l) == 0 && b.addr <= a && a + Size(l) <= b.addr + b.size
  }

  ghost predicate HasRoom(b: Block, l: Layout) {
    exists a: nat :: RoomAt(b, l, a)
  }

  /** The test of the search: a block passes exactly when it has room somewhere, and the part taken is the lowest such. */
  lemma FitsExact(b: Block, l: Layout)
    ensures Fits(b, l) <==> HasRoom(b, l)
    ensures Fits(b, l) ==> RoomAt(b, l, Taken(b, l).addr)
    ensures forall a: nat :: RoomAt(b, l, a) ==> Taken(b, l).addr <= a
  {
    var t := RoundUp(b.addr, Align(l));
    RoundUpExact(b.addr, Align(l));
    assert Fits(b, l) ==> RoomAt(b, l, t);
    forall a: nat | RoomAt(b, l, a)
      ensures t <= a
    {
      RoundUpLeast(b.addr, Align(l), a);
    }
  }

  /** The lowest room in the first listed block that has any. */
  ghost predicate FirstRoom(free: seq<Block>, l: Layout, addr: nat) {
    exists i :: 0 <= i < |free| && RoomAt(free[i], l, addr) && (forall j :: 0 <= j < i ==> !HasRoom(free[j], l))
                && forall a: nat :: RoomAt(free[i], l, a) ==> addr <= a
  }

  /** First fit: none is found exactly when no listed block has room, and else the first one with room is used. */
  lemma FirstFitExact(free: seq<Block>, l: Layout)
    ensures var i := FirstFit(free, l, 0);
            && (i.None? <==> forall k :: 0 <= k < |free| ==> !HasRoom(free[k], l))
            && (i.Some? ==> FirstRoom(free, l, Taken(free[i.value], l).addr))
  {
    forall k | 0 <= k < |free|
      ensures Fits(free[k], l) <==> HasRoom(free[k], l)
    {
      FitsExact(free[k], l);
    }
    var i := FirstFit(free, l, 0);
    if i.Some? {
      FitsExact(free[i.value], l);
    }
  }

  lemma MultipleOfMultiple(x: nat, a: nat, b: nat)
    requires a > 0 && b > 0 && x % a == 0 && a % b == 0
    ensures x % b == 0
  {
    Quotient(x, a);
    Quotient(a, b);
    var p, q := x / a, a / b;
    assert p * (q * b) == (p * q) * b;
    DivModUnique(x, b, p * q, 0);
  }

  // ---- The heap and its users ---------------------------------------------------------------------

  datatype Live = Live(block: Block, layout: Layout)

  /** The free list, the allocations in use, and the bytes given up in alignment gaps and unsplit tails. */
  datatype State = State(free: seq<Block>, live: seq<Live>, lost: int)

  function InitState(start: nat, size: nat): State {
    State([Block(start, size)], [], 0)
  }

  /** `allocate`. */
  function Allocate(s: State, l: Layout): (Option<nat>, State) {
    match FirstFit(s.free, l, 0)
    case None => (None, s)
    case Some(i) =>
      var b := s.free[i];
      var t := Taken(b, l);
      (Some(t.addr), State(Splice(s.free, i, l), s.live + [Live(t, l)], s.lost + Waste(b, l)))
  }

  /** `deallocate` of the `i`th allocation, with the layout it was made with. */
  function Deallocate(s: State, i: nat): State
    requires i < |s.live|
  {
    var v := s.live[i];
    State([Block(v.block.addr, Size(v.layout))] + s.free, s.live[..i] + s.live[i + 1..], s.lost)
  }

  function LiveTotal(vs: seq<Live>): nat {
    if vs == [] then 0 else vs[0].block.size + LiveTotal(vs[1..])
  }

  predicate Apart(a: Block, b: Block) {
    a.addr + a.size <= b.addr || b.addr + b.size <= a.addr
  }

  predicate Within(a: Block, b: Block) {
    b.addr <= a.addr && a.addr + a.size <= b.addr + b.size
  }

  predicate FreeOk(b: Block) {
    b.size >= HEADER && b.addr % HEADER_ALIGN == 0
  }

  ghost predicate LiveOk(v: Live) {
    && LayoutOk(v.layout) && v.block.size == Size(v.layout) >= v.layout.size
    && v.block.addr % v.layout.align == 0
    && FreeOk(v.block)
  }

  /** Free blocks and allocations are inside the heap, well formed, and apart from each other. */
  ghost predicate Shape(free: seq<Block>, live: seq<Live>, region: Block) {
    && (forall i :: 0 <= i < |free| ==> FreeOk(free[i]) && Within(free[i], region))
    && (forall i :: 0 <= i < |live| ==> LiveOk(live[i]) && Within(live[i].block, region))
    && (forall i, j :: 0 <= i < j < |free| ==> Apart(free[i], free[j]))
    && (forall i, j :: 0 <= i < j < |live| ==> Apart(live[i].block, live[j].block))
    && (forall i, j :: 0 <= i < |free| && 0 <= j < |live| ==> Apart(free[i], live[j].block))
  }

  /** No byte is counted twice or forgotten. */
  ghost predicate Balanced(s: State, region: Block) {
    Total(s.free) + LiveTotal(s.live) + s.lost == region.size && s.lost >= 0
  }

  ghost predicate Inv(s: State, region: Block) {
    Shape(s.free, s.live, region) && Balanced(s, region)
  }

  // ---- Sums ---------------------------------------------------------------------------------------

  lemma {:induction false} TotalJoin(a: seq<Block>, b: seq<Block>)
    ensures Total(a + b) == Total(a) + Total(b)
  {
    if a == [] {
      assert a + b == b;
    } else {
      assert (a + b)[1..] == a[1..] + b;
      TotalJoin(a[1..], b);
    }
  }

  lemma {:induction false} LiveTotalJoin(a: seq<Live>, b: seq<Live>)
    ensures LiveTotal(a + b) == LiveTotal(a) + LiveTotal(b)
  {
    if a == [] {
      assert a + b == b;
    } else {
      assert (a + b)[1..] == a[1..] + b;
      LiveTotalJoin(a[1..], b);
    }
  }

  lemma TotalSplit(bs: seq<Block>, i: nat)
    requires i < |bs|
    ensures Total(bs) == Total(bs[..i]) + bs[i].size + Total(bs[i + 1..])
  {
    assert bs == bs[..i] + bs[i..];
    TotalJoin(bs[..i], bs[i..]);
  }

  lemma LiveTotalSplit(vs: seq<Live>, i: nat)
    requires i < |vs|
    ensures LiveTotal(vs) == LiveTotal(vs[..i]) + vs[i].block.size + LiveTotal(vs[i + 1..])
  {
    assert vs == vs[..i] + vs[i..];
    LiveTotalJoin(vs[..i], vs[i..]);
  }

  // ---- Taking a block -----------------------------------------------------------------------------

  /** The part handed out is as asked for. */
  lemma TakenLive(b: Block, l: Layout)
    requires FreeOk(b) && LayoutOk(l)
    ensures LiveOk(Live(Taken(b, l), l)) && b.addr <= Taken(b, l).addr && Taken(b, l).size % HEADER_ALIGN == 0
  {
    var a := Align(l);
    var t := Taken(b, l);
    RoundUpExact(b.addr, a);
    RoundUpExact(if l.size > HEADER then l.size else HEADER, a);
    AlignHeader(l);
    MultipleOfMultiple(t.addr, a, HEADER_ALIGN);
    MultipleOfMultiple(t.size, a, HEADER_ALIGN);
    LayoutAligned(l, t.addr);
  }

  lemma RestIs(b: Block, l: Layout)
    requires Fits(b, l)
    ensures var t := Taken(b, l);
            && t.addr + t.size <= b.addr + b.size
            && (Rest(b, l) == [] || Rest(b, l) == [Block(t.addr + t.size, b.addr + b.size - t.addr - t.size)])
            && (Rest(b, l) != [] ==> Rest(b, l)[0].size >= MIN_SPLIT)
  {
  }

  lemma PartsOk(b: Block, t: Block, rest: seq<Block>)
    requires FreeOk(t) && t.size % HEADER_ALIGN == 0 && Within(t, b)
    requires rest == [] || rest == [Block(t.addr + t.size, b.addr + b.size - t.addr - t.size)]
    requires rest != [] ==> rest[0].size >= MIN_SPLIT
    ensures forall r :: r in rest ==> FreeOk(r) && Within(r, b) && Apart(r, t)
    ensures |rest| <= 1 && t.size + Total(rest) <= b.size
  {
    if rest != [] {
      assert rest[1..] == [];
      assert Total(rest) == rest[0].size;
    }
  }

  /** The part kept lies in the block behind the part handed out, and can hold its header. */
  lemma TakenOk(b: Block, l: Layout)
    requires FreeOk(b) && LayoutOk(l) && Fits(b, l)
    ensures LiveOk(Live(Taken(b, l), l)) && Within(Taken(b, l), b)
    ensures forall r :: r in Rest(b, l) ==> FreeOk(r) && Within(r, b) && Apart(r, Taken(b, l))
    ensures |Rest(b, l)| <= 1
  {
    TakenLive(b, l);
    RestIs(b, l);
    PartsOk(b, Taken(b, l), Rest(b, l));
  }

  /** What goes out, what goes back and what is lost are the block; what is lost is less than the alignment and the
      smallest block together. */
  lemma WasteExact(b: Block, l: Layout)
    requires Fits(b, l) && LayoutOk(l)
    ensures Taken(b, l).size + Total(Rest(b, l)) + Waste(b, l) == b.size
    ensures 0 <= Waste(b, l) < Align(l) + MIN_SPLIT
  {
    RestIs(b, l);
    RoundUpExact(b.addr, Align(l));
    if Rest(b, l) != [] {
      assert Rest(b, l)[1..] == [];
    }
  }

  lemma LayoutAligned(l: Layout, x: nat)
    requires LayoutOk(l) && x % Align(l) == 0
    ensures l.align > 0 && x % l.align == 0
  {
    var k: nat :| l.align == Pow2(k);
    if l.align <= HEADER_ALIGN {
      assert Pow2(3) == 8;
      if k > 3 {
        Pow2Monotone(3, k);
      } else {
        Pow2Multiple(k, 3);
        MultipleOfMultiple(x, 8, l.align);
      }
    }
  }

  lemma SubApart(a: Block, b: Block, a': Block, b': Block)
    requires Apart(a, b) && Within(a', a) && Within(b', b)
    ensures Apart(a', b') && Apart(b', a')
  {
  }

  /** The block of the old list that block `k` of the new list comes from. */
  function Origin(i: nat, rest: nat, k: nat): nat {
    if k < i then k else if k < i + rest then i else k - rest + 1
  }

  lemma SpliceOrigin(free: seq<Block>, i: nat, l: Layout, k: nat)
    requires i < |free| && FreeOk(free[i]) && LayoutOk(l) && Fits(free[i], l) && k < |Splice(free, i, l)|
    ensures var rest := |Rest(free[i], l)|;
            var j := Origin(i, rest, k);
            && j < |free| && Within(Splice(free, i, l)[k], free[j])
            && (j != i ==> Splice(free, i, l)[k] == free[j])
            && (j == i ==> Splice(free, i, l)[k] in Rest(free[i], l))
  {
    TakenOk(free[i], l);
  }

  lemma SpliceApart(s: State, region: Block, i: nat, l: Layout)
    requires Shape(s.free, s.live, region) && LayoutOk(l) && i < |s.free| && Fits(s.free[i], l)
    ensures var free, t := Splice(s.free, i, l), Taken(s.free[i], l);
            && (forall k :: 0 <= k < |free| ==> FreeOk(free[k]) && Within(free[k], region) && Apart(free[k], t))
            && (forall j, k :: 0 <= j < k < |free| ==> Apart(free[j], free[k]))
            && (forall k, v :: 0 <= k < |free| && 0 <= v < |s.live| ==> Apart(free[k], s.live[v].block))
  {
    var free, b, t, rest := Splice(s.free, i, l), s.free[i], Taken(s.free[i], l), |Rest(s.free[i], l)|;
    TakenOk(b, l);
    forall k | 0 <= k < |free|
      ensures FreeOk(free[k]) && Within(free[k], region) && Apart(free[k], t)
    {
      SpliceOrigin(s.free, i, l, k);
      var j := Origin(i, rest, k);
      if j != i {
        assert Apart(s.free[j], b) || Apart(b, s.free[j]);
        SubApart(s.free[j], b, free[k], t);
      }
    }
    forall j, k | 0 <= j < k < |free|
      ensures Apart(free[j], free[k])
    {
      SpliceOrigin(s.free, i, l, j);
      SpliceOrigin(s.free, i, l, k);
      SubApart(s.free[Origin(i, rest, j)], s.free[Origin(i, rest, k)], free[j], free[k]);
    }
    forall k, v | 0 <= k < |free| && 0 <= v < |s.live|
      ensures Apart(free[k], s.live[v].block)
    {
      SpliceOrigin(s.free, i, l, k);
      SubApart(s.free[Origin(i, rest, k)], s.live[v].block, free[k], s.live[v].block);
    }
  }

  lemma SpliceTotal(free: seq<Block>, i: nat, l: Layout)
    requires i < |free| && Fits(free[i], l)
    ensures Total(Splice(free, i, l)) + Size(l) + Waste(free[i], l) == Total(free)
  {
    TotalSplit(free, i);
    var rest := Rest(free[i], l);
    TotalJoin(free[..i] + rest, free[i + 1..]);
    TotalJoin(free[..i], rest);
  }

  /** `allocate` keeps the heap sound, fails exactly when no listed block has room, and otherwise hands out the first room,
      of the size and alignment asked for, inside the heap and apart from everything in use or listed. */
  lemma AllocateKeeps(s: State, region: Block, l: Layout)
    requires Inv(s, region) && LayoutOk(l)
    ensures var (r, s') := Allocate(s, l);
            && Inv(s', region)
            && (r.None? <==> forall i :: 0 <= i < |s.free| ==> !HasRoom(s.free[i], l))
            && (r.None? ==> s' == s)
            && (r.Some? ==> FirstRoom(s.free, l, r.value))
            && (r.Some? ==> |s'.live| == |s.live| + 1 && s'.live[|s.live|].block.addr == r.value
                            && s'.live[|s.live|].layout == l && s'.live[..|s.live|] == s.live
                            && s.lost <= s'.lost < s.lost + Align(l) + MIN_SPLIT)
  {
    var i := FirstFit(s.free, l, 0);
    FirstFitExact(s.free, l);
    if i.Some? {
      WasteExact(s.free[i.value], l);
      AllocateShape(s, region, i.value, l);
      AllocateBalance(s, region, i.value, l);
    }
  }

  lemma AllocateBalance(s: State, region: Block, i: nat, l: Layout)
    requires Inv(s, region) && LayoutOk(l) && i < |s.free| && Fits(s.free[i], l)
    ensures var v := Live(Taken(s.free[i], l), l);
            Balanced(State(Splice(s.free, i, l), s.live + [v], s.lost + Waste(s.free[i], l)), region)
  {
    TakenOk(s.free[i], l);
    SpliceTotal(s.free, i, l);
    var v := Live(Taken(s.free[i], l), l);
    LiveTotalJoin(s.live, [v]);
    assert LiveTotal([v]) == v.block.size + LiveTotal([]);
  }

  lemma AllocateShape(s: State, region: Block, i: nat, l: Layout)
    requires Shape(s.free, s.live, region) && LayoutOk(l) && i < |s.free| && Fits(s.free[i], l)
    ensures Shape(Splice(s.free, i, l), s.live + [Live(Taken(s.free[i], l), l)], region)
  {
    var b, t := s.free[i], Taken(s.free[i], l);
    TakenOk(b, l);
    SpliceApart(s, region, i, l);
    forall v | 0 <= v < |s.live|
      ensures Apart(s.live[v].block, t)
    {
      SubApart(b, s.live[v].block, t, s.live[v].block);
    }
    AddLive(Splice(s.free, i, l), s.live, region, Live(t, l));
  }

  lemma AddLive(free: seq<Block>, live: seq<Live>, region: Block, v: Live)
    requires Shape(free, live, region) && LiveOk(v) && Within(v.block, region)
    requires forall k :: 0 <= k < |free| ==> Apart(free[k], v.block)
    requires forall k :: 0 <= k < |live| ==> Apart(live[k].block, v.block)
    ensures Shape(free, live + [v], region)
  {
  }

  lemma AddFree(free: seq<Block>, live: seq<Live>, region: Block, b: Block)
    requires Shape(free, live, region) && FreeOk(b) && Within(b, region)
    requires forall k :: 0 <= k < |free| ==> Apart(b, free[k])
    requires forall k :: 0 <= k < |live| ==> Apart(b, live[k].block)
    ensures Shape([b] + free, live, region)
  {
  }

  lemma DropLive(free: seq<Block>, live: seq<Live>, region: Block, i: nat)
    requires Shape(free, live, region) && i < |live|
    ensures Shape(free, live[..i] + live[i + 1..], region)
    ensures var live' := live[..i] + live[i + 1..]; forall k :: 0 <= k < |live'| ==> Apart(live[i].block, live'[k].block)
  {
    var live' := live[..i] + live[i + 1..];
    assert forall k :: 0 <= k < |live'| ==> live'[k] == live[if k < i then k else k + 1];
  }

  /** `deallocate` of an allocation gives all its bytes back to the list. */
  lemma DeallocateKeeps(s: State, region: Block, i: nat)
    requires Inv(s, region) && i < |s.live|
    ensures Inv(Deallocate(s, i), region)
    ensures Deallocate(s, i).free[0] == s.live[i].block
  {
    LiveTotalSplit(s.live, i);
    LiveTotalJoin(s.live[..i], s.live[i + 1..]);
    DropLive(s.free, s.live, region, i);
    forall k | 0 <= k < |s.free|
      ensures Apart(s.live[i].block, s.free[k])
    {
      assert Apart(s.free[k], s.live[i].block);
    }
    AddFree(s.free, s.live[..i] + s.live[i + 1..], region, s.live[i].block);
    assert ([s.live[i].block] + s.free)[1..] == s.free;
  }

  /** Memory that was just freed serves the next request of its layout: the answer is not null, but the same address. */
  lemma FreeThenAllocate(s: State, region: Block, i: nat)
    requires Inv(s, region) && i < |s.live|
    ensures Allocate(Deallocate(s, i), s.live[i].layout).0 == Some(s.live[i].block.addr)
  {
    var v := s.live[i];
    var b := Deallocate(s, i).free[0];
    AlignExact(v.layout);
    assert RoomAt(b, v.layout, b.addr);
    FitsExact(b, v.layout);
    RoundUpExact(b.addr, Align(v.layout));
  }

  // ---- Every run ----------------------------------------------------------------------------------

  datatype Op = DoAllocate(layout: Layout) | DoDeallocate(i: nat)

  ghost predicate Allowed(s: State, op: Op) {
    match op
    case DoAllocate(l) => LayoutOk(l)
    case DoDeallocate(i) => i < |s.live|
  }

  ghost function Apply(s: State, op: Op): State
    requires Allowed(s, op)
  {
    match op
    case DoAllocate(l) => Allocate(s, l).1
    case DoDeallocate(i) => Deallocate(s, i)
  }

  ghost predicate IsRun(states: seq<State>, ops: seq<Op>, start: nat, size: nat) {
    && |states| == |ops| + 1 && states[0] == InitState(start, size)
    && forall i :: 0 <= i < |ops| ==> Allowed(states[i], ops[i]) && states[i + 1] == Apply(states[i], ops[i])
  }

  /** In every state of every valid run of allocations and frees: live allocations and free blocks are
      pairwise apart, inside the heap and aligned; every free block can hold its header; and free, live and
      lost bytes add up to the size of the heap. */
  lemma {:induction false} RunKeeps(states: seq<State>, ops: seq<Op>, start: nat, size: nat, i: nat)
    requires IsRun(states, ops, start, size) && i < |states| && FreeOk(Block(start, size))
    ensures Inv(states[i], Block(start, size))
  {
    if i == 0 {
      assert Total([Block(start, size)]) == size + Total([]);
    } else {
      RunKeeps(states, ops, start, size, i - 1);
      match ops[i - 1]
      case DoAllocate(l) => AllocateKeeps(states[i - 1], Block(start, size), l);
      case DoDeallocate(k) => DeallocateKeeps(states[i - 1], Block(start, size), k);
    }
  }

  // ---- The linked list ----------------------------------------------------------------------------

  /** The header at the start of a free block. */
  datatype Header = Header(size: nat, next: Option<nat>)

  /** Following the links from `link` visits exactly `blocks`. */
  predicate Linked(mem: map<nat, Header>, link: Option<nat>, blocks: seq<Block>)
    decreases |blocks|
  {
    if blocks == [] then link == None
    else
      && link == Some(blocks[0].addr) && blocks[0].addr in mem
      && mem[blocks[0].addr].size == blocks[0].size
      && Linked(mem, mem[blocks[0].addr].next, blocks[1..])
  }

  /** The free list can hold headers and its blocks do not overlap. */
  ghost predicate FreeShape(blocks: seq<Block>) {
    && (forall i :: 0 <= i < |blocks| ==> FreeOk(blocks[i]))
    && (forall i, j :: 0 <= i < j < |blocks| ==> Apart(blocks[i], blocks[j]))
  }

  lemma {:induction false} LinkedFrame(mem: map<nat, Header>, mem': map<nat, Header>, link: Option<nat>, blocks: seq<Block>)
    requires Linked(mem, link, blocks)
    requires forall k :: 0 <= k < |blocks| && blocks[k].addr in mem ==> blocks[k].addr in mem' && mem'[blocks[k].addr] == mem[blocks[k].addr]
    ensures Linked(mem', link, blocks)
    decreases |blocks|
  {
    if blocks != [] {
      LinkedFrame(mem, mem', mem[blocks[0].addr].next, blocks[1..]);
    }
  }

  /** The link that leads to the `i`th block of a list. */
  function LinkAt(mem: map<nat, Header>, link: Option<nat>, blocks: seq<Block>, i: nat): Option<nat>
    requires Linked(mem, link, blocks) && i <= |blocks|
    decreases i
  {
    if i == 0 then link else LinkAt(mem, mem[blocks[0].addr].next, blocks[1..], i - 1)
  }

  lemma {:induction false} LinkedFrom(mem: map<nat, Header>, link: Option<nat>, blocks: seq<Block>, i: nat)
    requires Linked(mem, link, blocks) && i <= |blocks|
    ensures Linked(mem, LinkAt(mem, link, blocks, i), blocks[i..])
    ensures i > 0 ==> blocks[i - 1].addr in mem && mem[blocks[i - 1].addr] == Header(blocks[i - 1].size, LinkAt(mem, link, blocks, i))
    decreases i
  {
    if i > 0 {
      LinkedFrom(mem, mem[blocks[0].addr].next, blocks[1..], i - 1);
      assert blocks[1..][i - 1..] == blocks[i..];
    }
  }

  /** Writing `link` into the `i`th link of a list continues the list with what `link` leads to. */
  lemma {:induction false} Relink(mem: map<nat, Header>, mem': map<nat, Header>, start: Option<nat>, blocks: seq<Block>,
                                  i: nat, link: Option<nat>, tail: seq<Block>)
    requires Linked(mem, start, blocks) && 0 < i <= |blocks|
    requires forall k :: 0 <= k < i - 1 && blocks[k].addr in mem ==> blocks[k].addr in mem' && mem'[blocks[k].addr] == mem[blocks[k].addr]
    requires blocks[i - 1].addr in mem' && mem'[blocks[i - 1].addr] == Header(blocks[i - 1].size, link)
    requires Linked(mem', link, tail)
    ensures Linked(mem', start, blocks[..i] + tail)
    decreases i
  {
    var all := blocks[..i] + tail;
    if i == 1 {
      assert all[1..] == tail;
    } else {
      Relink(mem, mem', mem[blocks[0].addr].next, blocks[1..], i - 1, link, tail);
      assert all[1..] == blocks[1..][..i - 1] + tail;
    }
  }

  lemma AddrsDiffer(blocks: seq<Block>, j: nat, k: nat)
    requires FreeShape(blocks) && j < |blocks| && k < |blocks| && j != k
    ensures blocks[j].addr != blocks[k].addr
    ensures !(blocks[j].addr <= blocks[k].addr < blocks[j].addr + blocks[j].size)
  {
    assert Apart(blocks[j], blocks[k]) || Apart(blocks[k], blocks[j]);
  }

  /** The memory after the header of the rest of a block, if any, was written. */
  function WithRest(mem: map<nat, Header>, rest: seq<Block>, next: Option<nat>): map<nat, Header> {
    if rest == [] then mem else mem[rest[0].addr := Header(rest[0].size, next)]
  }

  function RestLink(rest: seq<Block>, next: Option<nat>): Option<nat> {
    if rest == [] then next else Some(rest[0].addr)
  }

  /** The rest of a block, if any, lies in it. */
  ghost predicate RestOf(rest: seq<Block>, b: Block) {
    |rest| <= 1 && forall r :: r in rest ==> FreeOk(r) && Within(r, b)
  }

  lemma RestElsewhere(blocks: seq<Block>, i: nat, rest: seq<Block>, k: nat)
    requires FreeShape(blocks) && i < |blocks| && k < |blocks| && k != i && RestOf(rest, blocks[i]) && rest != []
    ensures blocks[k].addr != rest[0].addr
  {
    assert rest[0] in rest;
    AddrsDiffer(blocks, i, k);
  }

  /** The list from block `i` on, with the block replaced by its rest. */
  lemma TailLinked(mem: map<nat, Header>, start: Option<nat>, blocks: seq<Block>, i: nat, rest: seq<Block>)
    requires Linked(mem, start, blocks) && FreeShape(blocks) && i < |blocks| && RestOf(rest, blocks[i])
    ensures blocks[i].addr in mem
    ensures var next := mem[blocks[i].addr].next;
            Linked(WithRest(mem, rest, next), RestLink(rest, next), rest + blocks[i + 1..])
  {
    LinkedFrom(mem, start, blocks, i + 1);
    var next := mem[blocks[i].addr].next;
    var mem1, after := WithRest(mem, rest, next), blocks[i + 1..];
    if rest == [] {
      assert rest + after == after;
    } else {
      forall k | 0 <= k < |after| ensures after[k].addr != rest[0].addr {
        RestElsewhere(blocks, i, rest, i + 1 + k);
      }
      LinkedFrame(mem, mem1, next, after);
      assert (rest + after)[1..] == after;
    }
  }

  /** Cutting block `i` out of the list, or replacing it by its rest, in memory. */
  lemma SpliceLinked(mem: map<nat, Header>, start: Option<nat>, blocks: seq<Block>, i: nat, rest: seq<Block>)
    requires Linked(mem, start, blocks) && FreeShape(blocks) && 0 < i < |blocks| && RestOf(rest, blocks[i])
    ensures blocks[i].addr in mem
    ensures var next := mem[blocks[i].addr].next;
            var mem1, prev := WithRest(mem, rest, next), blocks[i - 1];
            && prev.addr in mem1 && mem1[prev.addr].size == prev.size
            && Linked(mem1[prev.addr := Header(prev.size, RestLink(rest, next))], start, blocks[..i] + (rest + blocks[i + 1..]))
  {
    TailLinked(mem, start, blocks, i, rest);
    LinkedFrom(mem, start, blocks, i);
    var next := mem[blocks[i].addr].next;
    var mem1, prev, link, tail := WithRest(mem, rest, next), blocks[i - 1], RestLink(rest, next), rest + blocks[i + 1..];
    var mem2 := mem1[prev.addr := Header(prev.size, link)];
    forall k | 0 <= k < |blocks| && k != i - 1
      ensures blocks[k].addr != prev.addr
    {
      AddrsDiffer(blocks, k, i - 1);
    }
    if rest != [] {
      forall k | 0 <= k < |blocks| && k != i
        ensures blocks[k].addr != rest[0].addr
      {
        RestElsewhere(blocks, i, rest, k);
      }
    }
    forall k | 0 <= k < |tail|
      ensures tail[k].addr != prev.addr
    {
      assert k >= |rest| ==> tail[k] == blocks[i + 1 + (k - |rest|)];
    }
    LinkedFrame(mem1, mem2, link, tail);
    Relink(mem, mem2, start, blocks, i, link, tail);
  }

  lemma SpliceFreeShape(blocks: seq<Block>, i: nat, l: Layout)
    requires FreeShape(blocks) && LayoutOk(l) && i < |blocks| && Fits(blocks[i], l)
    ensures FreeShape(Splice(blocks, i, l))
  {
    var blocks', rest := Splice(blocks, i, l), |Rest(blocks[i], l)|;
    TakenOk(blocks[i], l);
    forall k | 0 <= k < |blocks'| ensures FreeOk(blocks'[k]) {
      SpliceOrigin(blocks, i, l, k);
    }
    forall j, k | 0 <= j < k < |blocks'| ensures Apart(blocks'[j], blocks'[k]) {
      SpliceOrigin(blocks, i, l, j);
      SpliceOrigin(blocks, i, l, k);
      SubApart(blocks[Origin(i, rest, j)], blocks[Origin(i, rest, k)], blocks'[j], blocks'[k]);
    }
  }

  /** The allocator as the kernel runs it; `blocks` is the list its links make. */
  class HeapAllocator {
    var head: Option<nat>
    var mem: map<nat, Header>
    ghost var blocks: seq<Block>

    ghost predicate Valid()
      reads this
    {
      Linked(mem, head, blocks) && FreeShape(blocks)
    }

    constructor (start: nat, size: nat)
      requires FreeOk(Block(start, size))
      ensures Valid() && blocks == InitState(start, size).free
    {
      head, mem, blocks := Some(start), map[start := Header(size, None)], [Block(start, size)];
    }

    /** `allocate`: the first block that fits is cut, and the address is that of `Heap.Allocate`. */
    method AllocateBlock(l: Layout) returns (r: Option<nat>)
      requires Valid() && LayoutOk(l)
      modifies this
      ensures Valid()
      ensures var i := FirstFit(old(blocks), l, 0);
              if i.None? then r == None && blocks == old(blocks)
              else r == Some(Taken(old(blocks)[i.value], l).addr) && blocks == Splice(old(blocks), i.value, l)
      ensures r.None? <==> forall k :: 0 <= k < |old(blocks)| ==> !HasRoom(old(blocks)[k], l)
      ensures r.Some? ==> FirstRoom(old(blocks), l, r.value)
    {
      FirstFitExact(blocks, l);
      var prev: Option<nat>, cur := None, head;
      ghost var i := 0;
      while cur.Some?
        invariant mem == old(mem) && head == old(head) && blocks == old(blocks)
        invariant 0 <= i <= |blocks| && Linked(mem, cur, blocks[i..])
        invariant prev == if i == 0 then None else Some(blocks[i - 1].addr)
        invariant i == 0 ==> cur == head
        invariant FirstFit(blocks, l, 0) == FirstFit(blocks, l, i)
        decreases |blocks| - i
      {
        assert blocks[i..][0] == blocks[i] && blocks[i..][1..] == blocks[i + 1..];
        var block := Block(cur.value, mem[cur.value].size);
        if Fits(block, l) {
          r := Some(Taken(block, l).addr);
          UseBlock(prev, block, l, i);
          return;
        }
        prev, cur := cur, mem[cur.value].next;
        i := i + 1;
      }
      return None;
    }

    /** Replaces block `i`, which the link in `prev` leads to, by what is left of it. */
    method UseBlock(prev: Option<nat>, block: Block, l: Layout, ghost i: nat)
      requires Valid() && LayoutOk(l) && i < |blocks| && block == blocks[i] && Fits(block, l) && block.addr in mem
      requires prev == if i == 0 then None else Some(blocks[i - 1].addr)
      modifies this
      ensures Valid() && blocks == Splice(old(blocks), i, l)
    {
      SpliceFreeShape(blocks, i, l);
      TakenOk(block, l);
      var rest, next := Rest(block, l), mem[block.addr].next;
      TailLinked(mem, head, blocks, i, rest);
      if i > 0 {
        SpliceLinked(mem, head, blocks, i, rest);
      }
      assert blocks[..i] + rest + blocks[i + 1..] == blocks[..i] + (rest + blocks[i + 1..]);
      mem := WithRest(mem, rest, next);
      var link := RestLink(rest, next);
      if prev.None? {
        head := link;
      } else {
        mem := mem[prev.value := Header(mem[prev.value].size, link)];
      }
      blocks := blocks[..i] + rest + blocks[i + 1..];
    }

    /** `deallocate`: the block becomes the head of the list. */
    method DeallocateBlock(addr: nat, l: Layout)
      requires Valid() && FreeOk(Block(addr, Size(l)))
      requires forall k :: 0 <= k < |blocks| ==> Apart(Block(addr, Size(l)), blocks[k])
      modifies this
      ensures Valid() && blocks == [Block(addr, Size(l))] + old(blocks)
    {
      forall k | 0 <= k < |blocks| ensures blocks[k].addr != addr {
        assert Apart(Block(addr, Size(l)), blocks[k]);
      }
      mem := mem[addr := Header(Size(l), head)];
      LinkedFrame(old(mem), mem, old(head), blocks);
      head := Some(addr);
      blocks := [Block(addr, Size(l))] + blocks;
      assert blocks[1..] == old(blocks);
    }
  }
}
