/** The single-producer single-consumer ring, at the grain of single loads and stores. Interleavings are
    sequentially consistent. Indexes are 64-bit and wrap; the capacity is a power of two. */
module SpscRing {
  import opened Wrappers
  import opened Arith

  predicate Capacity(n: nat) {
    exists k: nat :: k < 64 && n == Pow2(k)
  }

  function WrappingSub(a: nat, b: nat): nat
    requires a < U64 && b < U64
  {
    if a >= b then a - b else a + U64 - b
  }

  function WrappingInc(a: nat): nat {
    (a + 1) % U64
  }

  /** The memory both parties share. */
  datatype Cells<T> = Cells(head: nat, tail: nat, buf: seq<T>)

  /** How far `try_push` has got: after loading `head`, after loading `tail`, after writing the slot. */
  datatype Producer<T> = PIdle | PHead(v: T, h: nat) | PTail(v: T, h: nat, t: nat) | PWritten(v: T, h: nat)

  /** How far `try_pop` has got: after loading `tail`, after loading `head`, after reading the slot. */
  datatype Consumer<T> = CIdle | CTail(t: nat) | CHead(t: nat, h: nat) | CRead(t: nat, v: T)

  /** `pushed` and `popped` record what has been published by each side. */
  datatype State<T> = State(cells: Cells<T>, prod: Producer<T>, cons: Consumer<T>, pushed: seq<T>, popped: seq<T>)

  function Full(n: nat, h: nat, t: nat): bool
    requires h < U64 && t < U64
  {
    WrappingSub(h, t) >= n
  }

  /** Indexes are words and the buffer has the capacity. */
  predicate Sane<T>(s: State<T>, n: nat) {
    && n > 0 && |s.cells.buf| == n && s.cells.head < U64 && s.cells.tail < U64
    && (s.prod.PHead? ==> s.prod.h < U64) && (s.prod.PTail? ==> s.prod.h < U64 && s.prod.t < U64)
    && (s.prod.PWritten? ==> s.prod.h < U64)
    && (s.cons.CTail? ==> s.cons.t < U64) && (s.cons.CHead? ==> s.cons.t < U64 && s.cons.h < U64)
    && (s.cons.CRead? ==> s.cons.t < U64)
  }

  /** One step of a push of `v`. */
  function ProducerStep<T>(s: State<T>, n: nat, v: T): State<T>
    requires Sane(s, n)
  {
    match s.prod
    case PIdle => s.(prod := PHead(v, s.cells.head))
    case PHead(v, h) => s.(prod := PTail(v, h, s.cells.tail))
    case PTail(v, h, t) =>
      if Full(n, h, t) then s.(prod := PIdle)
      else s.(prod := PWritten(v, h), cells := s.cells.(buf := s.cells.buf[h % n := v]))
    case PWritten(v, h) => s.(prod := PIdle, cells := s.cells.(head := WrappingInc(h)), pushed := s.pushed + [v])
  }

  /** One step of a pop. */
  function ConsumerStep<T>(s: State<T>, n: nat): State<T>
    requires Sane(s, n)
  {
    match s.cons
    case CIdle => s.(cons := CTail(s.cells.tail))
    case CTail(t) => s.(cons := CHead(t, s.cells.head))
    case CHead(t, h) => if t == h then s.(cons := CIdle) else s.(cons := CRead(t, s.cells.buf[t % n]))
    case CRead(t, v) => s.(cons := CIdle, cells := s.cells.(tail := WrappingInc(t)), popped := s.popped + [v])
  }

  function Empty<T>(buf: seq<T>): State<T> {
    State(Cells(0, 0, buf), PIdle, CIdle, [], [])
  }

  // ---- Arithmetic of wrapped indexes --------------------------------------------------------------

  lemma Pow2Word()
    ensures Pow2(64) == U64
  {
    assert Pow2(8) == 256;
    Pow2Divides(8, 16);
    Pow2Divides(16, 32);
    Pow2Divides(32, 64);
    assert Pow2(16) == 65536 && Pow2(32) == 0x1_0000_0000;
  }

  lemma CapacityDivides(n: nat) returns (q: nat)
    requires Capacity(n)
    ensures U64 == q * n && 1 <= n < U64
  {
    var k: nat :| k < 64 && n == Pow2(k);
    Pow2Word();
    Pow2Divides(k, 64);
    q := Pow2(64 - k);
    Pow2Divides(1, 64 - k);
    assert q >= 2;
  }

  /** A wrapped index and the unwrapped one fall into the same slot. */
  lemma SameSlot(i: nat, n: nat)
    requires Capacity(n)
    ensures i % U64 % n == i % n
  {
    var q := CapacityDivides(n);
    var w := i / U64;
    Quotient(i, U64);
    Quotient(i % U64, n);
    var r, d := i % U64 % n, i % U64 / n;
    Regroup3(w, q, d, n, r);
    DivModUnique(i, n, w * q + d, r);
  }

  lemma Regroup3(w: nat, q: nat, d: nat, n: nat, r: nat)
    ensures w * (q * n) + (d * n + r) == (w * q + d) * n + r
  {
  }

  /** Wrapped subtraction of two indexes less than a word apart. */
  lemma WrappedDistance(a: nat, b: nat)
    requires b <= a < b + U64
    ensures WrappingSub(a % U64, b % U64) == a - b
    ensures a % U64 == b % U64 <==> a == b
  {
    Quotient(a, U64);
    Quotient(b, U64);
    var k := a / U64 - b / U64;
    assert k * U64 == a - b - (a % U64 - b % U64);
    assert k == 0 || k == 1;
  }

  lemma WrappedInc(i: nat)
    ensures WrappingInc(i % U64) == (i + 1) % U64
  {
  }

  /** Indexes less than the capacity apart use different slots. */
  lemma SlotsDiffer(a: nat, b: nat, n: nat)
    requires n > 0 && b < a < b + n
    ensures a % n != b % n
  {
    Quotient(a, n);
    Quotient(b, n);
    if a % n == b % n {
      assert (a / n - b / n) * n == a - b;
      SmallMultiple(a / n - b / n, n);
    }
  }

  // ---- The invariant ------------------------------------------------------------------------------

  /** The shared memory holds what was pushed and not yet popped, and the popped values are the first pushed. */
  ghost predicate CellsOk<T>(s: State<T>, n: nat) {
    var (h, t) := (|s.pushed|, |s.popped|);
    && |s.cells.buf| == n && t <= h <= t + n
    && s.cells.head == h % U64 && s.cells.tail == t % U64
    && s.popped == s.pushed[..t]
    && forall k :: t <= k < h ==> s.cells.buf[k % n] == s.pushed[k]
  }

  /** What the producer has loaded: its own index is exact, the other side's may be old. */
  ghost predicate ProducerOk<T>(s: State<T>, n: nat)
    requires n > 0 && |s.cells.buf| == n
  {
    var (h, t) := (|s.pushed|, |s.popped|);
    match s.prod
    case PIdle => true
    case PHead(_, ph) => ph == h % U64
    case PTail(_, ph, pt) => ph == h % U64 && exists t0 :: OldTail(t0, pt, t, h, n)
    case PWritten(v, ph) => ph == h % U64 && h < t + n && s.cells.buf[h % n] == v
  }

  predicate OldTail(t0: nat, pt: nat, t: nat, h: nat, n: nat) {
    pt == t0 % U64 && t0 <= t && h <= t0 + n
  }

  ghost predicate ConsumerOk<T>(s: State<T>, n: nat) {
    var (h, t) := (|s.pushed|, |s.popped|);
    match s.cons
    case CIdle => true
    case CTail(ct) => ct == t % U64
    case CHead(ct, ch) => ct == t % U64 && exists h0 :: OldHead(h0, ch, t, h)
    case CRead(ct, v) => ct == t % U64 && t < h && v == s.pushed[t]
  }

  predicate OldHead(h0: nat, ch: nat, t: nat, h: nat) {
    ch == h0 % U64 && t <= h0 <= h
  }

  ghost predicate Inv<T>(s: State<T>, n: nat) {
    Capacity(n) && n > 0 && CellsOk(s, n) && ProducerOk(s, n) && ConsumerOk(s, n)
  }

  lemma InvSane<T>(s: State<T>, n: nat)
    requires Inv(s, n)
    ensures Sane(s, n)
  {
    var q := CapacityDivides(n);
    if s.prod.PTail? {
      var t0 :| OldTail(t0, s.prod.t, |s.popped|, |s.pushed|, n);
    }
    if s.cons.CHead? {
      var h0 :| OldHead(h0, s.cons.h, |s.popped|, |s.pushed|);
    }
  }

  lemma InitInv<T>(buf: seq<T>)
    requires Capacity(|buf|)
    ensures Inv(Empty(buf), |buf|)
  {
  }

  /** The producer finds the ring full exactly when it was full at the load of `tail`. */
  lemma FullExact<T>(s: State<T>, n: nat, t0: nat)
    requires Inv(s, n) && Sane(s, n) && s.prod.PTail? && OldTail(t0, s.prod.t, |s.popped|, |s.pushed|, n)
    ensures Full(n, s.prod.h, s.prod.t) <==> |s.pushed| == t0 + n
    ensures !Full(n, s.prod.h, s.prod.t) ==> |s.pushed| < |s.popped| + n
  {
    var q := CapacityDivides(n);
    WrappedDistance(|s.pushed|, t0);
  }

  /** The consumer finds the ring empty exactly when it was empty at the load of `head`. */
  lemma EmptyExact<T>(s: State<T>, n: nat, h0: nat)
    requires Inv(s, n) && s.cons.CHead? && OldHead(h0, s.cons.h, |s.popped|, |s.pushed|)
    ensures s.cons.t == s.cons.h <==> h0 == |s.popped|
    ensures s.cons.t != s.cons.h ==> |s.popped| < |s.pushed|
  {
    var q := CapacityDivides(n);
    WrappedDistance(h0, |s.popped|);
  }

  /** Writing the free slot leaves the live slots alone. */
  lemma WriteKeeps<T>(s: State<T>, n: nat, v: T)
    requires Capacity(n) && CellsOk(s, n) && |s.pushed| < |s.popped| + n
    ensures var h := |s.pushed|;
            var s' := s.(cells := s.cells.(buf := s.cells.buf[h % U64 % n := v]));
            h % U64 % n == h % n < n && CellsOk(s', n) && s'.cells.buf[h % n] == v
  {
    var h, t := |s.pushed|, |s.popped|;
    var q := CapacityDivides(n);
    SameSlot(h, n);
    forall k | t <= k < h
      ensures k % n != h % n
    {
      SlotsDiffer(h, k, n);
    }
  }

  lemma ProducerKeeps<T>(s: State<T>, n: nat, v: T)
    requires Inv(s, n)
    ensures Sane(s, n) && Inv(ProducerStep(s, n, v), n)
  {
    InvSane(s, n);
    var s' := ProducerStep(s, n, v);
    var h, t := |s.pushed|, |s.popped|;
    match s.prod
    case PIdle =>
    case PHead(_, _) =>
      assert OldTail(t, s'.prod.t, t, h, n);
    case PTail(v, ph, pt) =>
      var t0 :| OldTail(t0, pt, t, h, n);
      FullExact(s, n, t0);
      if !Full(n, ph, pt) {
        WriteKeeps(s, n, v);
      }
    case PWritten(v, ph) =>
      WrappedInc(h);
      assert s'.pushed[..t] == s.pushed[..t];
      if s.cons.CHead? {
        var h0 :| OldHead(h0, s.cons.h, t, h);
        assert OldHead(h0, s.cons.h, t, h + 1);
      }
  }

  lemma ConsumerKeeps<T>(s: State<T>, n: nat)
    requires Inv(s, n)
    ensures Sane(s, n) && Inv(ConsumerStep(s, n), n)
  {
    InvSane(s, n);
    var s' := ConsumerStep(s, n);
    var h, t := |s.pushed|, |s.popped|;
    match s.cons
    case CIdle =>
    case CTail(_) =>
      assert OldHead(h, s'.cons.h, t, h);
    case CHead(ct, ch) =>
      var h0 :| OldHead(h0, ch, t, h);
      EmptyExact(s, n, h0);
      SameSlot(t, n);
    case CRead(ct, v) =>
      WrappedInc(t);
      if s.prod.PTail? {
        var t0 :| OldTail(t0, s.prod.t, t, h, n);
        assert OldTail(t0, s.prod.t, t + 1, h, n);
      }
  }

  // ---- Every interleaving -------------------------------------------------------------------------

  /** Who moves next; a producer that is idle starts a push of `v`. */
  datatype Move<T> = ProducerMoves(v: T) | ConsumerMoves

  ghost function Step<T>(s: State<T>, n: nat, m: Move<T>): (s': State<T>)
    requires Inv(s, n)
    ensures Inv(s', n)
  {
    match m
    case ProducerMoves(v) => ProducerKeeps(s, n, v); ProducerStep(s, n, v)
    case ConsumerMoves => ConsumerKeeps(s, n); ConsumerStep(s, n)
  }

  ghost function Run<T>(s: State<T>, n: nat, moves: seq<Move<T>>): (s': State<T>)
    requires Inv(s, n)
    ensures Inv(s', n)
    decreases |moves|
  {
    if moves == [] then s else Run(Step(s, n, moves[0]), n, moves[1..])
  }

  /** The values in the ring, oldest first. */
  function Content<T>(s: State<T>): seq<T>
    requires |s.popped| <= |s.pushed|
  {
    s.pushed[|s.popped|..]
  }

  /** The slot the producer writes in its next step, if that step writes. */
  function WriteSlot<T>(s: State<T>, n: nat): Option<nat>
    requires Sane(s, n)
  {
    if s.prod.PTail? && !Full(n, s.prod.h, s.prod.t) then Some(s.prod.h % n) else None
  }

  /** The slot the consumer reads in its next step, if that step reads. */
  function ReadSlot<T>(s: State<T>, n: nat): Option<nat>
    requires Sane(s, n)
  {
    if s.cons.CHead? && s.cons.t != s.cons.h then Some(s.cons.t % n) else None
  }

  /** After every interleaving: the popped values are a prefix of the pushed ones; the rest is in the ring,
      in order, in the slots the indexes name; it never exceeds the capacity; `len` as computed with wrapping
      indexes is its length; and the two sides are never about to touch the same slot. */
  lemma RingCorrect<T>(buf: seq<T>, moves: seq<Move<T>>)
    requires Capacity(|buf|)
    ensures Inv(Empty(buf), |buf|)
    ensures var n, s := |buf|, Run(Empty(buf), |buf|, moves);
            && s.popped <= s.pushed && s.pushed == s.popped + Content(s) && |Content(s)| <= n
            && Sane(s, n) && WrappingSub(s.cells.head, s.cells.tail) == |Content(s)|
            && (forall k :: 0 <= k < |Content(s)| ==> s.cells.buf[(|s.popped| + k) % n] == Content(s)[k])
            && (WriteSlot(s, n).Some? ==> WriteSlot(s, n) != ReadSlot(s, n))
  {
    InitInv(buf);
    var n := |buf|;
    var s := Run(Empty(buf), n, moves);
    var q := CapacityDivides(n);
    InvSane(s, n);
    WrappedDistance(|s.pushed|, |s.popped|);
    if WriteSlot(s, n).Some? && ReadSlot(s, n).Some? {
      SlotsApart(s, n);
    }
  }

  lemma SlotsApart<T>(s: State<T>, n: nat)
    requires Inv(s, n) && Sane(s, n) && WriteSlot(s, n).Some? && ReadSlot(s, n).Some?
    ensures WriteSlot(s, n) != ReadSlot(s, n)
  {
    var h, t := |s.pushed|, |s.popped|;
    var t0 :| OldTail(t0, s.prod.t, t, h, n);
    var h0 :| OldHead(h0, s.cons.h, t, h);
    FullExact(s, n, t0);
    EmptyExact(s, n, h0);
    SameSlot(h, n);
    SameSlot(t, n);
    SlotsDiffer(h, t, n);
  }

  // ---- The ring as an object ----------------------------------------------------------------------

  /** The ring as the kernel has it, for calls that run without interference. */
  class Ring<T> {
    var head: nat
    var tail: nat
    const buf: array<T>
    ghost var pushed: seq<T>
    ghost var popped: seq<T>

    ghost function View(): State<T>
      reads this, buf
    {
      State(Cells(head, tail, buf[..]), PIdle, CIdle, pushed, popped)
    }

    ghost predicate Valid()
      reads this, buf
    {
      Inv(View(), buf.Length)
    }

    constructor (buf: array<T>)
      requires Capacity(buf.Length)
      ensures Valid() && View() == Empty(buf[..]) && this.buf == buf
    {
      this.buf, head, tail, pushed, popped := buf, 0, 0, [], [];
    }

    /** `try_push`: refused exactly when the ring holds `N` values. */
    method TryPush(value: T) returns (r: Result<(), T>)
      requires Valid()
      modifies this, buf
      ensures Valid()
      ensures r == (if |old(Content(View()))| < buf.Length then Ok(()) else Err(value))
      ensures Content(View()) == old(Content(View())) + (if r.Ok? then [value] else [])
      ensures popped == old(popped)
    {
      var n := buf.Length;
      PushIsSteps(View(), n, value);
      var h := head;
      var t := tail;
      if Full(n, h, t) { return Err(value); }
      buf[h % n] := value;
      head := WrappingInc(h);
      pushed := pushed + [value];
      assert buf[..] == old(buf[..])[h % n := value];
      return Ok(());
    }

    /** `try_pop`: refused exactly when the ring is empty. */
    method TryPop() returns (r: Option<T>)
      requires Valid()
      modifies this
      ensures Valid()
      ensures var c := old(Content(View()));
              if c == [] then r == None && Content(View()) == [] else r == Some(c[0]) && Content(View()) == c[1..]
      ensures pushed == old(pushed)
    {
      var n := buf.Length;
      PopIsSteps(View(), n);
      var t := tail;
      var h := head;
      if t == h { return None; }
      var value := buf[t % n];
      tail := WrappingInc(t);
      popped := popped + [value];
      return Some(value);
    }

    /** `len`. */
    method Len() returns (r: nat)
      requires Valid()
      ensures r == |Content(View())|
    {
      var q := CapacityDivides(buf.Length);
      WrappedDistance(|pushed|, |popped|);
      r := WrappingSub(head, tail);
    }
  }

  /** A push without interference is its four steps, or three that change nothing when the ring is full. */
  lemma PushIsSteps<T>(s: State<T>, n: nat, v: T)
    requires Inv(s, n) && s.prod.PIdle?
    ensures Sane(s, n)
    ensures var (h, t, m) := (s.cells.head, s.cells.tail, ProducerMoves(v));
            var third := Step(Step(Step(s, n, m), n, m), n, m);
            if Full(n, h, t) then third == s
            else h % n < n && Step(third, n, m) ==
                   s.(cells := Cells(WrappingInc(h), t, s.cells.buf[h % n := v]), pushed := s.pushed + [v])
    ensures var (h, t) := (s.cells.head, s.cells.tail);
            && (Full(n, h, t) <==> |Content(s)| == n) && h % n < n
            && (!Full(n, h, t) ==>
                  Inv(s.(cells := Cells(WrappingInc(h), t, s.cells.buf[h % n := v]), pushed := s.pushed + [v]), n))
  {
    ProducerKeeps(s, n, v);
    var s1 := ProducerStep(s, n, v);
    ProducerKeeps(s1, n, v);
    var s2 := ProducerStep(s1, n, v);
    FullExact2(s2, n);
    ProducerKeeps(s2, n, v);
    var s3 := ProducerStep(s2, n, v);
    if !Full(n, s.cells.head, s.cells.tail) {
      ProducerKeeps(s3, n, v);
    }
  }

  lemma FullExact2<T>(s: State<T>, n: nat)
    requires Inv(s, n) && Sane(s, n) && s.prod.PTail? && s.prod.t == s.cells.tail
    ensures Full(n, s.prod.h, s.prod.t) <==> |s.pushed| == |s.popped| + n
  {
    assert OldTail(|s.popped|, s.prod.t, |s.popped|, |s.pushed|, n);
    FullExact(s, n, |s.popped|);
  }

  /** A pop without interference is its four steps, or three that change nothing when the ring is empty. */
  lemma PopIsSteps<T>(s: State<T>, n: nat)
    requires Inv(s, n) && s.cons.CIdle?
    ensures Sane(s, n)
    ensures var (h, t, m) := (s.cells.head, s.cells.tail, ConsumerMoves);
            var third := Step(Step(Step(s, n, m), n, m), n, m);
            if t == h then third == s
            else t % n < n && Step(third, n, m) ==
                   s.(cells := s.cells.(tail := WrappingInc(t)), popped := s.popped + [s.cells.buf[t % n]])
    ensures var (h, t) := (s.cells.head, s.cells.tail);
            && (t == h <==> Content(s) == []) && t % n < n
            && (t != h ==>
                  && s.cells.buf[t % n] == Content(s)[0]
                  && Inv(s.(cells := s.cells.(tail := WrappingInc(t)), popped := s.popped + [s.cells.buf[t % n]]), n))
  {
    ConsumerKeeps(s, n);
    var s1 := ConsumerStep(s, n);
    ConsumerKeeps(s1, n);
    var s2 := ConsumerStep(s1, n);
    assert OldHead(|s.pushed|, s2.cons.h, |s.popped|, |s.pushed|);
    EmptyExact(s2, n, |s.pushed|);
    ConsumerKeeps(s2, n);
    var s3 := ConsumerStep(s2, n);
    if s.cells.tail != s.cells.head {
      ConsumerKeeps(s3, n);
    }
  }
}
