/** What the calls of a channel return with: a value sent or received, or, for the calls that never wait, a refusal. */
module ChannelCalls {
  import opened Channel
  import Ring = SpscRing

  // ---- Sending ------------------------------------------------------------------------------------

  /** The value of the call is the one on its way into the ring, and after the push it is the last one in. */
  ghost predicate Sending<T>(c: Chan<T>) {
    && (c.snd.SPush? && !c.ring.prod.PIdle? ==> c.ring.prod.v == c.snd.v)
    && (c.snd.SSwap? || c.snd.SWake? || c.snd.SClear? ==>
          c.ring.pushed != [] && c.ring.pushed[|c.ring.pushed| - 1] == c.snd.v)
  }

  lemma SenderSending<T>(c: Chan<T>, size: nat, v: T, blocking: bool)
    requires Ring.Sane(c.ring, size) && Inside(c) && Sending(c)
    ensures Sending(SenderStep(c, size, v, blocking))
  {
    if c.snd.SPush? {
      PushSending(c, size, blocking);
    }
  }

  lemma PushSending<T>(c: Chan<T>, size: nat, blocking: bool)
    requires Ring.Sane(c.ring, size) && Inside(c) && Sending(c) && c.snd.SPush?
    ensures Sending(SenderStep(c, size, c.snd.v, blocking))
  {
    match c.ring.prod
    case PIdle =>
    case PHead(_, _) =>
    case PTail(_, _, _) =>
    case PWritten(w, _) =>
      assert (c.ring.pushed + [w])[|c.ring.pushed|] == c.snd.v;
  }

  lemma ReceiverSending<T>(c: Chan<T>, size: nat, blocking: bool)
    requires Ring.Sane(c.ring, size) && Inside(c) && Sending(c)
    ensures Sending(ReceiverStep(c, size, blocking))
  {
  }

  lemma SendingStep<T>(c: Chan<T>, size: nat, m: Move<T>)
    requires Inv(c, size) && Sending(c)
    ensures Sending(Step(c, size, m))
  {
    match m
    case SenderMoves(v, blocking) => SenderSending(c, size, v, blocking);
    case ReceiverMoves(blocking) => ReceiverSending(c, size, blocking);
    case ResumeSender =>
    case ResumeReceiver =>
  }

  lemma {:induction false} SendingRun<T>(c: Chan<T>, size: nat, moves: seq<Move<T>>)
    requires Inv(c, size) && Sending(c)
    ensures Sending(Run(c, size, moves))
    decreases |moves|
  {
    if moves != [] {
      SendingStep(c, size, moves[0]);
      SendingRun(Step(c, size, moves[0]), size, moves[1..]);
    }
  }

  /** A `try_send` at the end of a push that found the ring full. */
  predicate SendRefused<T>(c: Chan<T>, size: nat)
    requires Ring.Sane(c.ring, size)
  {
    c.snd.SPush? && c.snd.n == Only && c.ring.prod.PTail? && Ring.Full(size, c.ring.prod.h, c.ring.prod.t)
  }

  /** After every interleaving: a send returns only with its value the last one in the ring's history; only a `try_send`
      can return without, when it found the ring full, and then it has changed nothing. */
  lemma SendReturns<T>(buf: seq<T>, moves: seq<Move<T>>, v: T, blocking: bool)
    requires Ring.Capacity(|buf|)
    ensures Inv(Init(buf), |buf|)
    ensures var c := Run(Init(buf), |buf|, moves);
            var c' := SenderStep(c, |buf|, v, blocking);
            !c.snd.SIdle? && c'.snd.SIdle? ==>
              if SendRefused(c, |buf|) then c' == c.(snd := SIdle, ring := c.ring.(prod := Ring.PIdle))
              else c'.ring == c.ring && c.ring.pushed != [] && c.ring.pushed[|c.ring.pushed| - 1] == c.snd.v
  {
    InitInv(buf);
    SendingRun(Init(buf), |buf|, moves);
  }

  // ---- Receiving ----------------------------------------------------------------------------------

  predicate RecvRefused<T>(c: Chan<T>) {
    c.rcv == RPop(Only) && c.ring.cons.CHead? && c.ring.cons.t == c.ring.cons.h
  }

  /** The receiver got a value in this call: it is past the pop. */
  predicate Got<T>(c: Chan<T>) {
    c.rcv.RSwap? || c.rcv.RWake? || c.rcv.RClear?
  }

  /** A receive returns only past a pop; only a `try_recv` can return without, when it found the ring empty, and then it has
      changed nothing. The step that goes past the pop takes the oldest value not yet received. */
  lemma RecvReturns<T>(c: Chan<T>, size: nat, blocking: bool)
    requires Inv(c, size) && !c.rcv.RIdle?
    ensures var c' := ReceiverStep(c, size, blocking);
            && (c'.rcv.RIdle? ==>
                  if RecvRefused(c) then c' == c.(rcv := RIdle, ring := c.ring.(cons := Ring.CIdle)) else Got(c) && c'.ring == c.ring)
            && (Got(c') && !Got(c) ==>
                  |c.ring.popped| < |c.ring.pushed| && c'.ring.popped == c.ring.popped + [c.ring.pushed[|c.ring.popped|]])
  {
    if c.rcv.RPop? {
      Ring.ConsumerKeeps(c.ring, size);
      var ring := Ring.ConsumerStep(c.ring, size);
      if c.ring.cons.CRead? {
        var n := |c.ring.popped|;
        assert ring.popped[..n] == c.ring.popped && ring.pushed[..n + 1][n] == ring.pushed[n];
      }
    }
  }

  // ---- Calls that never wait ----------------------------------------------------------------------

  predicate Trying<T>(s: Sender<T>) {
    s.SIdle? || ((s.SPush? || s.SSwap? || s.SWake?) && s.n == Only)
  }

  predicate TryingReceiver(r: Receiver) {
    r.RIdle? || ((r.RPop? || r.RSwap? || r.RWake?) && r.n == Only)
  }

  lemma SenderTries<T>(c: Chan<T>, size: nat, v: T, blocking: bool)
    requires Ring.Sane(c.ring, size)
    ensures var c' := SenderStep(c, size, v, blocking);
            && (Trying(c.snd) && !c.senderWaiting && !blocking ==> Trying(c'.snd) && !c'.senderWaiting)
            && (TryingReceiver(c.rcv) && !c.receiverWaiting ==> TryingReceiver(c'.rcv) && !c'.receiverWaiting)
  {
  }

  lemma ReceiverTries<T>(c: Chan<T>, size: nat, blocking: bool)
    requires Ring.Sane(c.ring, size)
    ensures var c' := ReceiverStep(c, size, blocking);
            && (Trying(c.snd) && !c.senderWaiting ==> Trying(c'.snd) && !c'.senderWaiting)
            && (TryingReceiver(c.rcv) && !c.receiverWaiting && !blocking ==> TryingReceiver(c'.rcv) && !c'.receiverWaiting)
  {
  }

  lemma TryingStep<T>(c: Chan<T>, size: nat, m: Move<T>)
    requires Inv(c, size)
    ensures Trying(c.snd) && !c.senderWaiting && (m.SenderMoves? ==> !m.blocking) ==>
              Trying(Step(c, size, m).snd) && !Step(c, size, m).senderWaiting
    ensures TryingReceiver(c.rcv) && !c.receiverWaiting && (m.ReceiverMoves? ==> !m.receiving) ==>
              TryingReceiver(Step(c, size, m).rcv) && !Step(c, size, m).receiverWaiting
  {
    match m
    case SenderMoves(v, blocking) => SenderTries(c, size, v, blocking);
    case ReceiverMoves(blocking) => ReceiverTries(c, size, blocking);
    case ResumeSender =>
    case ResumeReceiver =>
  }

  /** A side that makes only `try_send` or `try_recv` calls never raises its flag and never blocks, whatever the other side
      does. */
  lemma {:induction false} TryNeverBlocks<T>(c: Chan<T>, size: nat, moves: seq<Move<T>>)
    requires Inv(c, size)
    ensures Trying(c.snd) && !c.senderWaiting && (forall i :: 0 <= i < |moves| && moves[i].SenderMoves? ==> !moves[i].blocking) ==>
              Trying(Run(c, size, moves).snd) && !Run(c, size, moves).senderWaiting
    ensures TryingReceiver(c.rcv) && !c.receiverWaiting
            && (forall i :: 0 <= i < |moves| && moves[i].ReceiverMoves? ==> !moves[i].receiving) ==>
              TryingReceiver(Run(c, size, moves).rcv) && !Run(c, size, moves).receiverWaiting
    decreases |moves|
  {
    if moves != [] {
      TryingStep(c, size, moves[0]);
      TryNeverBlocks(Step(c, size, moves[0]), size, moves[1..]);
    }
  }

  /** The steps a `try_send` has still to make, at most. */
  function SendLeft<T>(c: Chan<T>): nat {
    match c.snd
    case SPush(_, _) =>
      (match c.ring.prod
       case PIdle => 6
       case PHead(_, _) => 5
       case PTail(_, _, _) => 4
       case PWritten(_, _) => 3)
    case SSwap(_, _) => 2
    case SWake(_, _) => 1
    case _ => 0
  }

  function RecvLeft<T>(c: Chan<T>): nat {
    match c.rcv
    case RPop(_) =>
      (match c.ring.cons
       case CIdle => 6
       case CTail(_) => 5
       case CHead(_, _) => 4
       case CRead(_, _) => 3)
    case RSwap(_) => 2
    case RWake(_) => 1
    case _ => 0
  }

  lemma SendUndisturbed<T>(c: Chan<T>, size: nat, blocking: bool)
    requires Ring.Sane(c.ring, size) && !c.snd.SBlocked?
    ensures SendLeft(ReceiverStep(c, size, blocking)) == SendLeft(c)
  {
    var c' := ReceiverStep(c, size, blocking);
    assert c'.snd == c.snd && c'.ring.prod == c.ring.prod;
  }

  lemma RecvUndisturbed<T>(c: Chan<T>, size: nat, v: T, blocking: bool)
    requires Ring.Sane(c.ring, size) && !c.rcv.RBlocked?
    ensures RecvLeft(SenderStep(c, size, v, blocking)) == RecvLeft(c)
  {
    var c' := SenderStep(c, size, v, blocking);
    assert c'.rcv == c.rcv && c'.ring.cons == c.ring.cons;
  }

  /** A `try_send` returns after at most six steps of its own; no step of the other side adds one. */
  lemma TrySendIsShort<T>(c: Chan<T>, size: nat, v: T, blocking: bool)
    requires Ring.Sane(c.ring, size) && Trying(c.snd) && !c.snd.SIdle?
    ensures 1 <= SendLeft(c) <= 6 && SendLeft(SenderStep(c, size, v, false)) < SendLeft(c)
    ensures SendLeft(ReceiverStep(c, size, blocking)) == SendLeft(c)
  {
    SendUndisturbed(c, size, blocking);
    match c.snd
    case SPush(_, _) =>
      match c.ring.prod {
        case PIdle =>
        case PHead(_, _) =>
        case PTail(_, _, _) =>
        case PWritten(_, _) =>
      }
    case SSwap(_, _) =>
    case SWake(_, _) =>
  }

  /** And so does a `try_recv`. */
  lemma TryRecvIsShort<T>(c: Chan<T>, size: nat, v: T, blocking: bool)
    requires Ring.Sane(c.ring, size) && TryingReceiver(c.rcv) && !c.rcv.RIdle?
    ensures 1 <= RecvLeft(c) <= 6 && RecvLeft(ReceiverStep(c, size, false)) < RecvLeft(c)
    ensures RecvLeft(SenderStep(c, size, v, blocking)) == RecvLeft(c)
  {
    RecvUndisturbed(c, size, v, blocking);
    match c.rcv
    case RPop(_) =>
      match c.ring.cons {
        case CIdle =>
        case CTail(_) =>
        case CHead(_, _) =>
        case CRead(_, _) =>
      }
    case RSwap(_) =>
    case RWake(_) =>
  }
}
