/** The blocking channel over the ring: one sender, one receiver, two waiting flags and the scheduler's
    block and wake calls, at the grain of single atomic operations. Both slots are registered, and a task's
    id is its slot, so a wake reaches whom it names (see `SchedulerInvariant.WakeReaches`). */
module Channel {
  import opened SpscRing

  /** Which attempt of a call is under way: the only one of `try_send` and `try_recv`, or the first or second
      of a round of `send` and `recv`. */
  datatype Try = Only | First | Second

  /** Where the sender is: in `try_push`, at the swap of the receiver's flag, at the call of `wake_task`,
      setting its own flag, clearing it, about to block, blocked. */
  datatype Sender<T> =
    | SIdle
    | SPush(n: Try, v: T)
    | SSwap(n: Try, v: T)
    | SWake(n: Try, v: T)
    | SSetFlag(v: T)
    | SClear(v: T)
    | SBlock(v: T)
    | SBlocked(v: T)

  datatype Receiver =
    | RIdle
    | RPop(n: Try)
    | RSwap(n: Try)
    | RWake(n: Try)
    | RSetFlag
    | RClear
    | RBlock
    | RBlocked

  /** The channel with both parties; the pending flags are `awake_pending` of the two tasks. */
  datatype Chan<T> = Chan(ring: State<T>, receiverWaiting: bool, senderWaiting: bool,
                          snd: Sender<T>, rcv: Receiver, sndPending: bool, rcvPending: bool)

  function Init<T>(buf: seq<T>): Chan<T> {
    Chan(Empty(buf), false, false, SIdle, RIdle, false, false)
  }

  /** After a successful push and its wake: return, clearing the flag first if it was set. */
  function Sent<T>(n: Try, v: T): Sender<T> {
    if n == Second then SClear(v) else SIdle
  }

  function Received(n: Try): Receiver {
    if n == Second then RClear else RIdle
  }

  /** One step of the sender; an idle sender starts a call with value `v`. A blocked one does not move. */
  function SenderStep<T>(c: Chan<T>, size: nat, v: T, blocking: bool): Chan<T>
    requires Sane(c.ring, size)
  {
    match c.snd
    case SIdle => c.(snd := SPush(if blocking then First else Only, v))
    case SPush(n, v) =>
      var ring := ProducerStep(c.ring, size, v);
      c.(ring := ring,
         snd := if !ring.prod.PIdle? then c.snd
                else if c.ring.prod.PWritten? then SSwap(n, v)
                else if n == Only then SIdle else if n == First then SSetFlag(v) else SBlock(v))
    case SSwap(n, v) => if c.receiverWaiting then c.(receiverWaiting := false, snd := SWake(n, v)) else c.(snd := Sent(n, v))
    case SWake(n, v) =>
      if c.rcv.RBlocked? then c.(rcv := RPop(First), snd := Sent(n, v)) else c.(rcvPending := true, snd := Sent(n, v))
    case SSetFlag(v) => c.(senderWaiting := true, snd := SPush(Second, v))
    case SClear(_) => c.(senderWaiting := false, snd := SIdle)
    case SBlock(v) => c.(snd := SBlocked(v))
    case SBlocked(_) => c
  }

  /** One step of the receiver. */
  function ReceiverStep<T>(c: Chan<T>, size: nat, blocking: bool): Chan<T>
    requires Sane(c.ring, size)
  {
    match c.rcv
    case RIdle => c.(rcv := RPop(if blocking then First else Only))
    case RPop(n) =>
      var ring := ConsumerStep(c.ring, size);
      c.(ring := ring,
         rcv := if !ring.cons.CIdle? then c.rcv
                else if c.ring.cons.CRead? then RSwap(n)
                else if n == Only then RIdle else if n == First then RSetFlag else RBlock)
    case RSwap(n) => if c.senderWaiting then c.(senderWaiting := false, rcv := RWake(n)) else c.(rcv := Received(n))
    case RWake(n) =>
      if c.snd.SBlocked? then c.(snd := SPush(First, c.snd.v), rcv := Received(n)) else c.(sndPending := true, rcv := Received(n))
    case RSetFlag => c.(receiverWaiting := true, rcv := RPop(Second))
    case RClear => c.(receiverWaiting := false, rcv := RIdle)
    case RBlock => c.(rcv := RBlocked)
    case RBlocked => c
  }

  /** The scheduler resumes a blocked task when no task is Ready. */
  function SenderResumed<T>(c: Chan<T>): Chan<T> {
    if c.snd.SBlocked? then c.(snd := SPush(First, c.snd.v)) else c
  }

  function ReceiverResumed<T>(c: Chan<T>): Chan<T> {
    if c.rcv.RBlocked? then c.(rcv := RPop(First)) else c
  }

  // ---- No wake is forgotten -----------------------------------------------------------------------

  /** The receiver has announced that it will wait and has not left the wait. */
  predicate ReceiverAnnounced<T>(c: Chan<T>) {
    (c.rcv.RPop? && c.rcv.n == Second) || c.rcv.RBlock? || c.rcv.RBlocked?
  }

  /** It has seen the ring empty since. */
  predicate ReceiverSawEmpty<T>(c: Chan<T>) {
    || (c.rcv.RPop? && c.rcv.n == Second && c.ring.cons.CHead? && c.ring.cons.t == c.ring.cons.h)
    || c.rcv.RBlock? || c.rcv.RBlocked?
  }

  predicate SenderAnnounced<T>(c: Chan<T>) {
    (c.snd.SPush? && c.snd.n == Second) || c.snd.SBlock? || c.snd.SBlocked?
  }

  predicate SenderSawFull<T>(c: Chan<T>, size: nat)
    requires Sane(c.ring, size)
  {
    || (c.snd.SPush? && c.snd.n == Second && c.ring.prod.PTail? && Full(size, c.ring.prod.h, c.ring.prod.t))
    || c.snd.SBlock? || c.snd.SBlocked?
  }

  /** The two parties are inside the ring only while pushing and popping. */
  predicate Inside<T>(c: Chan<T>) {
    (!c.ring.prod.PIdle? ==> c.snd.SPush?) && (!c.ring.cons.CIdle? ==> c.rcv.RPop?)
  }

  /** An announcement stands until a wake takes it up. */
  ghost predicate Announcements<T>(c: Chan<T>) {
    && (ReceiverAnnounced(c) ==> c.receiverWaiting || c.snd.SWake? || c.rcvPending)
    && (SenderAnnounced(c) ==> c.senderWaiting || c.rcv.RWake? || c.sndPending)
  }

  /** Beside a ring it could use, a waiting party has a wake coming or recorded. */
  ghost predicate WakesPending<T>(c: Chan<T>, size: nat)
    requires SpscRing.Inv(c.ring, size) && Sane(c.ring, size)
  {
    && (ReceiverSawEmpty(c) && Content(c.ring) != [] ==> c.snd.SSwap? || c.snd.SWake? || c.rcvPending)
    && (SenderSawFull(c, size) && |Content(c.ring)| < size ==> c.rcv.RSwap? || c.rcv.RWake? || c.sndPending)
  }

  /** Beside a ring it could use, a waiting party whose flag is still up has the swap of it coming. */
  ghost predicate SwapsPending<T>(c: Chan<T>, size: nat)
    requires SpscRing.Inv(c.ring, size) && Sane(c.ring, size)
  {
    && (ReceiverSawEmpty(c) && Content(c.ring) != [] ==> c.snd.SSwap? || !c.receiverWaiting)
    && (SenderSawFull(c, size) && |Content(c.ring)| < size ==> c.rcv.RSwap? || !c.senderWaiting)
  }

  ghost predicate Inv<T>(c: Chan<T>, size: nat) {
    && SpscRing.Inv(c.ring, size) && Sane(c.ring, size)
    && Inside(c) && Announcements(c) && WakesPending(c, size) && SwapsPending(c, size)
  }

  lemma InitInv<T>(buf: seq<T>)
    requires Capacity(|buf|)
    ensures Inv(Init(buf), |buf|)
  {
    SpscRing.InitInv(buf);
    InvSane(Empty(buf), |buf|);
  }

  /** A step of the push: the ring looks full to the sender only if it is full at the load. */
  lemma PushStep<T>(c: Chan<T>, size: nat, blocking: bool)
    requires Inv(c, size) && c.snd.SPush?
    ensures Inv(SenderStep(c, size, c.snd.v, blocking), size)
  {
    var v := c.snd.v;
    ProducerKeeps(c.ring, size, v);
    var c' := SenderStep(c, size, v, blocking);
    InvSane(c'.ring, size);
    if c.ring.prod.PHead? {
      FullExact2(c'.ring, size);
    }
  }

  lemma PopStep<T>(c: Chan<T>, size: nat, blocking: bool)
    requires Inv(c, size) && c.rcv.RPop?
    ensures Inv(ReceiverStep(c, size, blocking), size)
  {
    ConsumerKeeps(c.ring, size);
    var c' := ReceiverStep(c, size, blocking);
    InvSane(c'.ring, size);
    if c.ring.cons.CTail? {
      assert OldHead(|c.ring.pushed|, c'.ring.cons.h, |c.ring.popped|, |c.ring.pushed|);
      EmptyExact(c'.ring, size, |c.ring.pushed|);
    }
  }

  lemma SenderWakes<T>(c: Chan<T>, size: nat, v: T, blocking: bool)
    requires Inv(c, size) && (c.snd.SSwap? || c.snd.SWake?)
    ensures Inv(SenderStep(c, size, v, blocking), size)
  {
  }

  lemma SenderFlags<T>(c: Chan<T>, size: nat, v: T, blocking: bool)
    requires Inv(c, size) && !c.snd.SPush? && !c.snd.SSwap? && !c.snd.SWake?
    ensures Inv(SenderStep(c, size, v, blocking), size)
  {
  }

  lemma SenderKeeps<T>(c: Chan<T>, size: nat, v: T, blocking: bool)
    requires Inv(c, size)
    ensures Inv(SenderStep(c, size, v, blocking), size)
  {
    if c.snd.SPush? {
      PushStep(c, size, blocking);
    } else if c.snd.SSwap? || c.snd.SWake? {
      SenderWakes(c, size, v, blocking);
    } else {
      SenderFlags(c, size, v, blocking);
    }
  }

  lemma ReceiverWakes<T>(c: Chan<T>, size: nat, blocking: bool)
    requires Inv(c, size) && (c.rcv.RSwap? || c.rcv.RWake?)
    ensures Inv(ReceiverStep(c, size, blocking), size)
  {
  }

  lemma ReceiverFlags<T>(c: Chan<T>, size: nat, blocking: bool)
    requires Inv(c, size) && !c.rcv.RPop? && !c.rcv.RSwap? && !c.rcv.RWake?
    ensures Inv(ReceiverStep(c, size, blocking), size)
  {
  }

  lemma ReceiverKeeps<T>(c: Chan<T>, size: nat, blocking: bool)
    requires Inv(c, size)
    ensures Inv(ReceiverStep(c, size, blocking), size)
  {
    if c.rcv.RPop? {
      PopStep(c, size, blocking);
    } else if c.rcv.RSwap? || c.rcv.RWake? {
      ReceiverWakes(c, size, blocking);
    } else {
      ReceiverFlags(c, size, blocking);
    }
  }

  datatype Move<T> = SenderMoves(v: T, blocking: bool) | ReceiverMoves(receiving: bool) | ResumeSender | ResumeReceiver

  ghost function Step<T>(c: Chan<T>, size: nat, m: Move<T>): (c': Chan<T>)
    requires Inv(c, size)
    ensures Inv(c', size)
  {
    match m
    case SenderMoves(v, blocking) => SenderKeeps(c, size, v, blocking); SenderStep(c, size, v, blocking)
    case ReceiverMoves(blocking) => ReceiverKeeps(c, size, blocking); ReceiverStep(c, size, blocking)
    case ResumeSender => SenderResumed(c)
    case ResumeReceiver => ReceiverResumed(c)
  }

  ghost function Run<T>(c: Chan<T>, size: nat, moves: seq<Move<T>>): (c': Chan<T>)
    requires Inv(c, size)
    ensures Inv(c', size)
    decreases |moves|
  {
    if moves == [] then c else Run(Step(c, size, moves[0]), size, moves[1..])
  }

  /** After every interleaving: a receiver that is blocked beside a ring with a value in it, and a sender that
      is blocked beside a ring with room, has a flag swap or a wake call of the other side still to come, or
      the wake is recorded in its `awake_pending`; and what was received is a prefix of what was sent. */
  lemma NoWakeForgotten<T>(buf: seq<T>, moves: seq<Move<T>>)
    requires Capacity(|buf|)
    ensures Inv(Init(buf), |buf|)
    ensures var c := Run(Init(buf), |buf|, moves);
            && (c.rcv.RBlocked? && Content(c.ring) != [] ==> c.snd.SSwap? || c.snd.SWake? || c.rcvPending)
            && (c.snd.SBlocked? && |Content(c.ring)| < |buf| ==> c.rcv.RSwap? || c.rcv.RWake? || c.sndPending)
            && c.ring.popped <= c.ring.pushed
  {
    InitInv(buf);
  }

  // ---- A recorded wake is not a wake --------------------------------------------------------------

  ghost predicate Reachable<T(!new)>(buf: seq<T>, c: Chan<T>)
    requires Inv(Init(buf), |buf|)
  {
    exists moves :: Run(Init(buf), |buf|, moves) == c
  }

  lemma {:induction false} RunAppend<T>(c: Chan<T>, size: nat, moves: seq<Move<T>>, m: Move<T>)
    requires Inv(c, size)
    ensures Run(c, size, moves + [m]) == Step(Run(c, size, moves), size, m)
    decreases |moves|
  {
    if moves == [] {
      assert Run(Step(c, size, m), size, []) == Step(c, size, m);
    } else {
      assert (moves + [m])[1..] == moves[1..] + [m];
      RunAppend(Step(c, size, moves[0]), size, moves[1..], m);
    }
  }

  lemma ReachReceiver<T(!new)>(buf: seq<T>, c: Chan<T>) returns (c': Chan<T>)
    requires Inv(Init(buf), |buf|) && Reachable(buf, c)
    ensures Sane(c.ring, |buf|) && c' == ReceiverStep(c, |buf|, true) && Reachable(buf, c')
  {
    var moves :| Run(Init(buf), |buf|, moves) == c;
    RunAppend(Init(buf), |buf|, moves, ReceiverMoves(true));
    c' := ReceiverStep(c, |buf|, true);
  }

  lemma ReachSender<T(!new)>(buf: seq<T>, c: Chan<T>, v: T) returns (c': Chan<T>)
    requires Inv(Init(buf), |buf|) && Reachable(buf, c)
    ensures Sane(c.ring, |buf|) && c' == SenderStep(c, |buf|, v, true) && Reachable(buf, c')
  {
    var moves :| Run(Init(buf), |buf|, moves) == c;
    RunAppend(Init(buf), |buf|, moves, SenderMoves(v, true));
    c' := SenderStep(c, |buf|, v, true);
  }

  /** A pop of an empty ring, undisturbed. */
  lemma ReachFailedPop<T(!new)>(buf: seq<T>, c: Chan<T>) returns (c': Chan<T>)
    requires Inv(Init(buf), |buf|) && Reachable(buf, c)
    requires c.rcv.RPop? && c.rcv.n != Only && c.ring.cons == CIdle && c.ring.cells.head == c.ring.cells.tail
    ensures Reachable(buf, c') && c' == c.(rcv := if c.rcv.n == First then RSetFlag else RBlock)
  {
    var c1 := ReachReceiver(buf, c);
    var c2 := ReachReceiver(buf, c1);
    c' := ReachReceiver(buf, c2);
  }

  /** A push into a ring with room, undisturbed. */
  lemma ReachPush<T(!new)>(buf: seq<T>, c: Chan<T>) returns (c': Chan<T>)
    requires Inv(Init(buf), |buf|) && Reachable(buf, c) && Sane(c.ring, |buf|)
    requires c.snd.SPush? && c.ring.prod == PIdle && !Full(|buf|, c.ring.cells.head, c.ring.cells.tail)
    ensures Reachable(buf, c')
    ensures var ring := c.ring;
            c' == c.(snd := SSwap(c.snd.n, c.snd.v),
                     ring := ring.(cells := Cells(WrappingInc(ring.cells.head), ring.cells.tail,
                                                  ring.cells.buf[ring.cells.head % |buf| := c.snd.v]),
                                   pushed := ring.pushed + [c.snd.v]))
  {
    var v := c.snd.v;
    var c1 := ReachSender(buf, c, v);
    var c2 := ReachSender(buf, c1, v);
    var c3 := ReachSender(buf, c2, v);
    c' := ReachSender(buf, c3, v);
  }

  /** A receiver that is blocked with its flag taken down, and no wake call under way. */
  predicate WakeLost<T>(c: Chan<T>) {
    c.rcv.RBlocked? && !c.receiverWaiting && !c.snd.SWake?
  }

  predicate SenderWakeLost<T>(c: Chan<T>) {
    c.snd.SBlocked? && !c.senderWaiting && !c.rcv.RWake?
  }

  /** A receiver blocked beside a value runs again after the next two steps of the sender if and only if its wake is
      not lost. */
  lemma ReceiverWokenExact<T>(c: Chan<T>, size: nat, v: T, blocking: bool, w: T, again: bool)
    requires Inv(c, size) && c.rcv.RBlocked? && Content(c.ring) != []
    ensures Sane(SenderStep(c, size, v, blocking).ring, size)
    ensures SenderStep(SenderStep(c, size, v, blocking), size, w, again).rcv == RPop(First) <==> !WakeLost(c)
  {
    SenderKeeps(c, size, v, blocking);
  }

  /** A sender blocked beside room runs again after the next two steps of the receiver if and only if its wake is not
      lost. */
  lemma SenderWokenExact<T>(c: Chan<T>, size: nat, blocking: bool, again: bool)
    requires Inv(c, size) && c.snd.SBlocked? && |Content(c.ring)| < size
    ensures Sane(ReceiverStep(c, size, blocking).ring, size)
    ensures ReceiverStep(ReceiverStep(c, size, blocking), size, again).snd == SPush(First, c.snd.v) <==> !SenderWakeLost(c)
  {
    ReceiverKeeps(c, size, blocking);
  }

  /** The receiver up to where it is about to block on an empty ring. */
  lemma ReceiverAboutToBlock<T(!new)>(buf: seq<T>) returns (c: Chan<T>)
    requires Inv(Init(buf), |buf|)
    ensures Reachable(buf, c) && c == Init(buf).(receiverWaiting := true, rcv := RBlock)
  {
    c := Init(buf);
    assert Run(c, |buf|, []) == c;
    c := ReachReceiver(buf, c);
    c := ReachFailedPop(buf, c);
    c := ReachReceiver(buf, c);
    c := ReachFailedPop(buf, c);
  }

  /** The re-check of `recv` does not close the race: a sender that pushes and wakes between the re-check and
      `block_current` leaves the receiver blocked beside the value, its flag down, with the wake only
      recorded in `awake_pending`, which nothing reads. This happens with every capacity. */
  lemma WakeCanBeLost<T(!new)>(buf: seq<T>, v: T) returns (c: Chan<T>)
    requires Capacity(|buf|)
    ensures Inv(Init(buf), |buf|) && Reachable(buf, c)
    ensures WakeLost(c) && c.ring.pushed == [v] && c.ring.popped == [] && c.snd == SIdle && c.rcvPending
  {
    InitInv(buf);
    c := ReceiverAboutToBlock(buf);
    c := PushAndSwap(buf, c, v);
    c := ReachSender(buf, c, v);
    c := ReachReceiver(buf, c);
  }

  /** A send up to the wake call. */
  lemma PushAndSwap<T(!new)>(buf: seq<T>, c: Chan<T>, v: T) returns (c': Chan<T>)
    requires Capacity(|buf|) && Inv(Init(buf), |buf|) && Reachable(buf, c)
    requires c == Init(buf).(receiverWaiting := true, rcv := RBlock)
    ensures Reachable(buf, c')
    ensures c'.ring.pushed == [v] && c'.ring.popped == [] && c'.snd == SWake(First, v)
    ensures c'.rcv == RBlock && !c'.receiverWaiting
  {
    var q := CapacityDivides(|buf|);
    var c1 := ReachSender(buf, c, v);
    var c2 := ReachPush(buf, c1);
    c' := ReachSender(buf, c2, v);
  }

  /** A push into a full ring, undisturbed. */
  lemma ReachFailedPush<T(!new)>(buf: seq<T>, c: Chan<T>) returns (c': Chan<T>)
    requires Inv(Init(buf), |buf|) && Reachable(buf, c) && Sane(c.ring, |buf|)
    requires c.snd.SPush? && c.snd.n != Only && c.ring.prod == PIdle && Full(|buf|, c.ring.cells.head, c.ring.cells.tail)
    ensures Reachable(buf, c') && c' == c.(snd := if c.snd.n == First then SSetFlag(c.snd.v) else SBlock(c.snd.v))
  {
    var v := c.snd.v;
    var c1 := ReachSender(buf, c, v);
    var c2 := ReachSender(buf, c1, v);
    c' := ReachSender(buf, c2, v);
  }

  /** A pop from a ring with a value, undisturbed. */
  lemma ReachPop<T(!new)>(buf: seq<T>, c: Chan<T>) returns (c': Chan<T>)
    requires Inv(Init(buf), |buf|) && Reachable(buf, c) && Sane(c.ring, |buf|)
    requires c.rcv.RPop? && c.ring.cons == CIdle && c.ring.cells.head != c.ring.cells.tail
    ensures Reachable(buf, c')
    ensures c' == c.(rcv := RSwap(c.rcv.n), ring := c'.ring) && |c'.ring.popped| == |c.ring.popped| + 1
    ensures c'.ring.pushed == c.ring.pushed
  {
    var c1 := ReachReceiver(buf, c);
    var c2 := ReachReceiver(buf, c1);
    var c3 := ReachReceiver(buf, c2);
    c' := ReachReceiver(buf, c3);
  }

  /** Both parties are between calls, no flag is up, and nothing was received yet. */
  predicate Quiet<T>(c: Chan<T>) {
    && c.snd == SIdle && c.rcv == RIdle && c.ring.prod == PIdle && c.ring.cons == CIdle
    && !c.senderWaiting && !c.receiverWaiting && c.ring.popped == []
  }

  /** Sends into the empty ring, as many as it holds. */
  lemma {:induction false} ReachFilled<T(!new)>(buf: seq<T>, v: T, k: nat) returns (c: Chan<T>)
    requires Inv(Init(buf), |buf|) && k <= |buf|
    ensures Reachable(buf, c) && Quiet(c) && |c.ring.pushed| == k
    decreases k
  {
    if k == 0 {
      c := Init(buf);
      assert Run(c, |buf|, []) == c;
    } else {
      c := ReachFilled(buf, v, k - 1);
      assert Inv(c, |buf|);
      PushIsSteps(c.ring, |buf|, v);
      c := ReachSender(buf, c, v);
      c := ReachPush(buf, c);
      c := ReachSender(buf, c, v);
    }
  }

  /** The sender up to where it is about to block on a full ring. */
  lemma SenderAboutToBlock<T(!new)>(buf: seq<T>, v: T) returns (c: Chan<T>)
    requires Inv(Init(buf), |buf|)
    ensures Reachable(buf, c) && c.snd == SBlock(v) && c.senderWaiting && |c.ring.pushed| == |buf| && c.ring.popped == []
    ensures c.rcv == RIdle && c.ring.prod == PIdle && c.ring.cons == CIdle
  {
    c := ReachFilled(buf, v, |buf|);
    assert Inv(c, |buf|);
    PushIsSteps(c.ring, |buf|, v);
    c := ReachSender(buf, c, v);
    c := ReachFailedPush(buf, c);
    c := ReachSender(buf, c, v);
    c := ReachFailedPush(buf, c);
  }

  /** Neither does the re-check of `send`: a receiver that pops and wakes between the re-check and `block_current` leaves
      the sender blocked beside room, its flag down, with the wake only recorded. This too happens with every capacity. */
  lemma SenderWakeCanBeLost<T(!new)>(buf: seq<T>, v: T) returns (c: Chan<T>)
    requires Capacity(|buf|)
    ensures Inv(Init(buf), |buf|) && Reachable(buf, c)
    ensures SenderWakeLost(c) && |c.ring.pushed| == |buf| && |c.ring.popped| == 1 && c.rcv == RIdle && c.sndPending
  {
    InitInv(buf);
    c := SenderAboutToBlock(buf, v);
    assert Inv(c, |buf|);
    PopIsSteps(c.ring, |buf|);
    c := ReachReceiver(buf, c);
    c := ReachPop(buf, c);
    c := ReachReceiver(buf, c);
    c := ReachReceiver(buf, c);
    c := ReachSender(buf, c, v);
  }

  lemma LostStep<T>(c: Chan<T>, size: nat, m: Move<T>)
    requires Inv(c, size) && WakeLost(c) && !m.ResumeReceiver?
    ensures WakeLost(Step(c, size, m)) && Step(c, size, m).ring.popped == c.ring.popped
  {
  }

  /** Then no amount of sending wakes it: the sender finds the flag down each time. */
  lemma {:induction false} LostStaysLost<T>(c: Chan<T>, size: nat, moves: seq<Move<T>>)
    requires Inv(c, size) && WakeLost(c) && forall i :: 0 <= i < |moves| ==> !moves[i].ResumeReceiver?
    ensures WakeLost(Run(c, size, moves)) && Run(c, size, moves).ring.popped == c.ring.popped
    decreases |moves|
  {
    if moves != [] {
      LostStep(c, size, moves[0]);
      LostStaysLost(Step(c, size, moves[0]), size, moves[1..]);
    }
  }

  // ---- The condition at the call of block_current -------------------------------------------------

  /** The receiver is blocked in every state of the run. */
  ghost predicate ReceiverStays<T>(c: Chan<T>, size: nat, moves: seq<Move<T>>)
    requires Inv(c, size)
    decreases |moves|
  {
    c.rcv.RBlocked? && (moves == [] || ReceiverStays(Step(c, size, moves[0]), size, moves[1..]))
  }

  ghost predicate SenderStays<T>(c: Chan<T>, size: nat, moves: seq<Move<T>>)
    requires Inv(c, size)
    decreases |moves|
  {
    c.snd.SBlocked? && (moves == [] || SenderStays(Step(c, size, moves[0]), size, moves[1..]))
  }

  lemma ReceiverLostSame<T>(c: Chan<T>, size: nat, m: Move<T>)
    requires Inv(c, size) && c.rcv.RBlocked? && Step(c, size, m).rcv.RBlocked?
    ensures WakeLost(Step(c, size, m)) <==> WakeLost(c)
  {
  }

  lemma SenderLostSame<T>(c: Chan<T>, size: nat, m: Move<T>)
    requires Inv(c, size) && c.snd.SBlocked? && Step(c, size, m).snd.SBlocked?
    ensures Step(c, size, m).snd == c.snd && (SenderWakeLost(Step(c, size, m)) <==> SenderWakeLost(c))
  {
  }

  /** While a receiver is blocked, its wake is lost at the end of a run exactly when it was at the start. */
  lemma {:induction false} ReceiverLostRun<T>(c: Chan<T>, size: nat, moves: seq<Move<T>>)
    requires Inv(c, size) && ReceiverStays(c, size, moves)
    ensures Run(c, size, moves).rcv.RBlocked? && (WakeLost(Run(c, size, moves)) <==> WakeLost(c))
    decreases |moves|
  {
    if moves != [] {
      ReceiverLostSame(c, size, moves[0]);
      ReceiverLostRun(Step(c, size, moves[0]), size, moves[1..]);
    }
  }

  lemma {:induction false} SenderLostRun<T>(c: Chan<T>, size: nat, moves: seq<Move<T>>)
    requires Inv(c, size) && SenderStays(c, size, moves)
    ensures Run(c, size, moves).snd == c.snd && (SenderWakeLost(Run(c, size, moves)) <==> SenderWakeLost(c))
    decreases |moves|
  {
    if moves != [] {
      SenderLostSame(c, size, moves[0]);
      SenderLostRun(Step(c, size, moves[0]), size, moves[1..]);
    }
  }

  /** When the receiver calls `block_current`, what decides is whether its flag is still up or the wake call is under way.
      If so, then for as long as it stays blocked, whatever happens, a value in the ring means that the next two steps of
      the sender wake it. If not, they do not, and no later steps do (`ReceiverBlockLost`). */
  lemma ReceiverBlockExact<T>(c: Chan<T>, size: nat, moves: seq<Move<T>>, v: T, blocking: bool)
    requires Inv(c, size) && c.rcv.RBlock?
    ensures Inv(ReceiverStep(c, size, true), size)
    ensures var c1 := ReceiverStep(c, size, true);
            ReceiverStays(c1, size, moves) ==>
              var end := Run(c1, size, moves);
              && (WakeLost(end) <==> !c.receiverWaiting && !c.snd.SWake?)
              && (Content(end.ring) != [] ==>
                    var m := SenderMoves(v, blocking);
                    Step(Step(end, size, m), size, m).rcv == RPop(First) <==> c.receiverWaiting || c.snd.SWake?)
  {
    ReceiverKeeps(c, size, true);
    var c1 := ReceiverStep(c, size, true);
    if ReceiverStays(c1, size, moves) {
      ReceiverLostRun(c1, size, moves);
      var end := Run(c1, size, moves);
      if Content(end.ring) != [] {
        ReceiverWokenExact(end, size, v, blocking, v, blocking);
      }
    }
  }

  lemma ReceiverBlockLost<T>(c: Chan<T>, size: nat, moves: seq<Move<T>>)
    requires Inv(c, size) && c.rcv.RBlock? && !c.receiverWaiting && !c.snd.SWake?
    requires forall i :: 0 <= i < |moves| ==> !moves[i].ResumeReceiver?
    ensures Inv(ReceiverStep(c, size, true), size)
    ensures WakeLost(Run(ReceiverStep(c, size, true), size, moves))
  {
    ReceiverKeeps(c, size, true);
    LostStaysLost(ReceiverStep(c, size, true), size, moves);
  }

  lemma SenderLostStep<T>(c: Chan<T>, size: nat, m: Move<T>)
    requires Inv(c, size) && SenderWakeLost(c) && !m.ResumeSender?
    ensures SenderWakeLost(Step(c, size, m)) && Step(c, size, m).ring.pushed == c.ring.pushed
  {
  }

  /** A sender whose wake is lost stays blocked, whatever the receiver does. */
  lemma {:induction false} SenderStaysLost<T>(c: Chan<T>, size: nat, moves: seq<Move<T>>)
    requires Inv(c, size) && SenderWakeLost(c) && forall i :: 0 <= i < |moves| ==> !moves[i].ResumeSender?
    ensures SenderWakeLost(Run(c, size, moves)) && Run(c, size, moves).ring.pushed == c.ring.pushed
    decreases |moves|
  {
    if moves != [] {
      SenderLostStep(c, size, moves[0]);
      SenderStaysLost(Step(c, size, moves[0]), size, moves[1..]);
    }
  }

  lemma SenderBlockLost<T>(c: Chan<T>, size: nat, moves: seq<Move<T>>, v: T)
    requires Inv(c, size) && c.snd.SBlock? && !c.senderWaiting && !c.rcv.RWake?
    requires forall i :: 0 <= i < |moves| ==> !moves[i].ResumeSender?
    ensures Inv(SenderStep(c, size, v, true), size)
    ensures SenderWakeLost(Run(SenderStep(c, size, v, true), size, moves))
  {
    SenderKeeps(c, size, v, true);
    SenderStaysLost(SenderStep(c, size, v, true), size, moves);
  }

  /** The same for the sender. */
  lemma SenderBlockExact<T>(c: Chan<T>, size: nat, moves: seq<Move<T>>, v: T, blocking: bool)
    requires Inv(c, size) && c.snd.SBlock?
    ensures Inv(SenderStep(c, size, v, true), size)
    ensures var c1 := SenderStep(c, size, v, true);
            SenderStays(c1, size, moves) ==>
              var end := Run(c1, size, moves);
              && (SenderWakeLost(end) <==> !c.senderWaiting && !c.rcv.RWake?)
              && (|Content(end.ring)| < size ==>
                    var m := ReceiverMoves(blocking);
                    Step(Step(end, size, m), size, m).snd == SPush(First, c.snd.v) <==> c.senderWaiting || c.rcv.RWake?)
  {
    SenderKeeps(c, size, v, true);
    var c1 := SenderStep(c, size, v, true);
    if SenderStays(c1, size, moves) {
      SenderLostRun(c1, size, moves);
      var end := Run(c1, size, moves);
      if |Content(end.ring)| < size {
        SenderWokenExact(end, size, blocking, blocking);
      }
    }
  }
}
