/** What the scheduler promises over time: no Ready task starves, and a consumer that blocks hands over to
    its producer. */
module SchedulerProgress {
  import opened Wrappers
  import opened Arith
  import opened Mlfq
  import opened SchedulerInvariant

  /** The longest a Ready task can wait, in ticks. */
  const PATIENCE: nat := BOOST_INTERVAL + 32 + MAX_TASKS

  /** A reschedule in full: the head of the highest queue runs, or the old task when nothing is queued. */
  lemma RescheduleExact(s: Sched)
    requires Pausing(s)
    ensures Sized(s)
    ensures var s1 := RequeueOld(s);
            var top := TopLevel(s1.queues, 0);
            if top < LEVELS then
              var slot := s1.queues[top][0];
              && IsReady(s1.tasks, slot) && s1.tasks[slot].value.priority == top
              && Reschedule(s) == s1.(tasks := s1.tasks[slot := Some(s1.tasks[slot].value.(state := Running))],
                                      queues := s1.queues[top := s1.queues[top][1..]], current := Some(slot))
            else
              var slot := s.current.value;
              s1 == s && Reschedule(s) == s.(tasks := s.tasks[slot := Some(s.tasks[slot].value.(state := Running))])
  {
    RequeueOldOk(s);
    var s1 := RequeueOld(s);
    PickHead(s1.tasks, s1.queues, 0);
    if TopLevel(s1.queues, 0) < LEVELS {
      TakeHead(s1.tasks, s1.queues);
    }
  }

  // ---- No starvation ------------------------------------------------------------------------------

  /** Ticks left of the current task's quantum. */
  function Remaining(s: Sched): nat
    requires s.current.Some? && s.current.value < |s.tasks| && s.tasks[s.current.value].Some?
    requires TaskOk(s.tasks[s.current.value].value)
  {
    var t := s.tasks[s.current.value].value;
    Quantum(t.priority) - t.ticksUsed
  }

  /** The end of a quantum: the current task leaves level 0 for good, and the next task is the head of the
      highest queue. */
  lemma QuantumEnd(s: Sched)
    requires Inv(s) && s.current.Some? && Remaining(s) == 1 && s.queues[0] != []
    ensures Sized(s)
    ensures var s' := TickCurrent(s);
            && s'.current == Some(s.queues[0][0]) && s'.queues[0] == s.queues[0][1..]
            && Inv(s') && Remaining(s') == 1
  {
    ExpiredPausing(s);
    var s0 := Expired(s);
    RescheduleExact(s0);
    RescheduleKeeps(s0);
    assert RequeueOld(s0).queues[0] == s.queues[0];
    assert TopLevel(RequeueOld(s0).queues, 0) == 0;
  }

  lemma QuantumGoesOn(s: Sched)
    requires Inv(s) && s.current.Some? && Remaining(s) > 1
    ensures Sized(s)
    ensures var s' := TickCurrent(s);
            s'.current == s.current && s'.queues == s.queues && Inv(s') && Remaining(s') == Remaining(s) - 1
  {
    TickCurrentKeeps(s);
  }

  /** What one tick does to a task at position `p` of queue 0: it comes one tick closer, and runs when its
      turn is over. */
  ghost predicate QueueZeroMoves(s: Sched, s': Sched, p: nat)
    requires Inv(s) && Inv(s') && s.current.Some? && s'.current.Some? && p < |s.queues[0]|
  {
    var x := s.queues[0][p];
    if Remaining(s) > 1 then p < |s'.queues[0]| && s'.queues[0][p] == x && Remaining(s') == Remaining(s) - 1
    else if p > 0 then p - 1 < |s'.queues[0]| && s'.queues[0][p - 1] == x && Remaining(s') == 1
    else s'.current == Some(x)
  }

  lemma QueueZeroTick(s: Sched, p: nat)
    requires Inv(s) && s.current.Some? && p < |s.queues[0]|
    ensures Sized(s) && Sized(TickBoost(s)) && Inv(Tick(s)) && Tick(s).current.Some?
    ensures QueueZeroMoves(s, Tick(s), p)
  {
    TickKeeps(s);
    TickBoostKeeps(s);
    var b := TickBoost(s);
    assert b.tasks[s.current.value] == s.tasks[s.current.value];
    assert b.queues[0][p] == s.queues[0][p];
    if Remaining(s) > 1 {
      QuantumGoesOn(b);
    } else {
      QuantumEnd(b);
    }
  }

  /** A Ready task that is not picked stays Ready, at its level. */
  lemma RescheduleOther(s: Sched, x: nat)
    requires Pausing(s) && IsReady(s.tasks, x)
    ensures Sized(s)
    ensures Reschedule(s).current != Some(x) ==> Reschedule(s).tasks[x] == s.tasks[x]
  {
    RequeueOldOk(s);
    RescheduleExact(s);
    var s1 := RequeueOld(s);
    assert s1.tasks[x] == s.tasks[x];
    assert IsReady(s1.tasks, x) && x in s1.queues[s1.tasks[x].value.priority];
    assert TopLevel(s1.queues, 0) < LEVELS;
  }

  lemma RescheduleFrame(s: Sched)
    requires Pausing(s)
    ensures Sized(s) && Reschedule(s).current.Some? && Reschedule(s).boostCountdown == s.boostCountdown
  {
    RescheduleKeeps(s);
  }

  lemma TickCurrentOther(s: Sched, x: nat)
    requires Inv(s) && s.current.Some? && IsReady(s.tasks, x)
    ensures Sized(s)
    ensures TickCurrent(s).current.Some?
    ensures TickCurrent(s).current != Some(x) ==> TickCurrent(s).tasks[x] == s.tasks[x]
    ensures TickCurrent(s).boostCountdown == s.boostCountdown
  {
    var slot := s.current.value;
    var t := s.tasks[slot].value;
    if t.ticksUsed + 1 >= Quantum(t.priority) {
      ExpiredPausing(s);
      RescheduleOther(Expired(s), x);
      RescheduleFrame(Expired(s));
    }
  }

  /** What one tick does to a waiting task: it runs, or stays Ready and comes closer to the boost, which
      puts it in queue 0. */
  ghost predicate WaitMoves(s: Sched, s': Sched, x: nat)
    requires Inv(s) && Inv(s') && IsReady(s.tasks, x)
  {
    s'.current != Some(x) ==>
      && IsReady(s'.tasks, x)
      && (if s.boostCountdown == 1 then s'.tasks[x].value.priority == 0 else s'.boostCountdown == s.boostCountdown - 1)
  }

  lemma WaitTick(s: Sched, x: nat)
    requires Inv(s) && s.current.Some? && IsReady(s.tasks, x)
    ensures Sized(s) && Sized(TickBoost(s)) && Inv(Tick(s))
    ensures WaitMoves(s, Tick(s), x)
  {
    TickKeeps(s);
    TickBoostKeeps(s);
    var b := TickBoost(s);
    assert IsReady(b.tasks, x);
    if s.boostCountdown == 1 {
      assert x in b.queues[b.tasks[x].value.priority];
    }
    TickCurrentOther(b, x);
  }

  /** All that the waiting argument needs to know of a tick. */
  ghost predicate TickFacts(s: Sched, s': Sched) {
    && Inv(s) && Inv(s') && s.current.Some? && s'.current.Some?
    && (forall p :: 0 <= p < |s.queues[0]| ==> QueueZeroMoves(s, s', p))
    && (forall x :: 0 <= x && IsReady(s.tasks, x) ==> WaitMoves(s, s', x))
  }

  lemma TickCurrentStays(s: Sched)
    requires Inv(s) && s.current.Some?
    ensures Sized(s) && Sized(TickBoost(s)) && Inv(Tick(s)) && Tick(s).current.Some?
  {
    TickKeeps(s);
    TickBoostKeeps(s);
    var b := TickBoost(s);
    var t := b.tasks[b.current.value].value;
    if t.ticksUsed + 1 >= Quantum(t.priority) {
      ExpiredPausing(b);
      RescheduleFrame(Expired(b));
    }
  }

  lemma TickHasFacts(s: Sched)
    requires Inv(s) && s.current.Some?
    ensures Sized(s) && Sized(TickBoost(s)) && TickFacts(s, Tick(s))
  {
    TickCurrentStays(s);
    forall p | 0 <= p < |s.queues[0]| ensures QueueZeroMoves(s, Tick(s), p) {
      QueueZeroTick(s, p);
    }
    forall x | 0 <= x && IsReady(s.tasks, x) ensures WaitMoves(s, Tick(s), x) {
      WaitTick(s, x);
    }
  }

  /** `n` ticks of the timer and nothing else. */
  ghost function Ticks(s: Sched, n: nat): (s': Sched)
    requires Inv(s) && s.current.Some?
    ensures Inv(s') && s'.current.Some?
    decreases n
  {
    if n == 0 then s else TickCurrentStays(Ticks(s, n - 1)); Tick(Ticks(s, n - 1))
  }

  lemma TicksHaveFacts(s: Sched, n: nat)
    requires Inv(s) && s.current.Some?
    ensures TickFacts(Ticks(s, n), Ticks(s, n + 1))
  {
    TickHasFacts(Ticks(s, n));
  }

  /** A run of states that follow each other like ticks. */
  ghost predicate TickRun(f: nat -> Sched) {
    forall i: nat :: TickFacts(f(i), f(i + 1))
  }

  /** A task at position `p` of queue 0 runs after exactly the rest of the current quantum and `p` more
      ticks: turns at level 0 last one tick, and later arrivals queue behind it. */
  lemma {:induction false} QueueZeroTurn(f: nat -> Sched, i: nat, p: nat)
    requires TickRun(f) && Inv(f(i)) && f(i).current.Some? && p < |f(i).queues[0]|
    ensures f(i + Remaining(f(i)) + p).current == Some(f(i).queues[0][p])
    decreases Remaining(f(i)) + p
  {
    assert TickFacts(f(i), f(i + 1));
    assert QueueZeroMoves(f(i), f(i + 1), p);
    if Remaining(f(i)) > 1 {
      QueueZeroTurn(f, i + 1, p);
    } else if p > 0 {
      QueueZeroTurn(f, i + 1, p - 1);
    }
  }

  lemma QueueZeroBound(f: nat -> Sched, i: nat, x: nat) returns (n: nat)
    requires TickRun(f) && Inv(f(i)) && f(i).current.Some? && IsReady(f(i).tasks, x) && f(i).tasks[x].value.priority == 0
    ensures n <= 32 + MAX_TASKS - 1 && f(i + n).current == Some(x)
  {
    var s := f(i);
    assert x in s.queues[0];
    var p :| 0 <= p < |s.queues[0]| && s.queues[0][p] == x;
    ZeroLength(s);
    QueueZeroTurn(f, i, p);
    n := Remaining(s) + p;
  }

  lemma ZeroLength(s: Sched)
    requires Inv(s)
    ensures |s.queues[0]| <= MAX_TASKS
  {
    assert EntriesReady(s.tasks, s.queues, 0) && NoDup(s.queues[0]);
    forall i | 0 <= i < |s.queues[0]| ensures s.queues[0][i] < MAX_TASKS {
      assert s.queues[0][i] in s.queues[0];
    }
    NoDupBound(s.queues[0], MAX_TASKS);
  }

  lemma {:induction false} WaitBound(f: nat -> Sched, i: nat, x: nat) returns (n: nat)
    requires TickRun(f) && Inv(f(i)) && f(i).current.Some? && IsReady(f(i).tasks, x)
    ensures n <= f(i).boostCountdown + 32 + MAX_TASKS - 1 && f(i + n).current == Some(x)
    decreases f(i).boostCountdown
  {
    if f(i).tasks[x].value.priority == 0 {
      n := QueueZeroBound(f, i, x);
    } else {
      assert TickFacts(f(i), f(i + 1));
      assert WaitMoves(f(i), f(i + 1), x);
      if f(i + 1).current == Some(x) {
        n := 1;
      } else if f(i).boostCountdown == 1 {
        n := QueueZeroBound(f, i + 1, x);
        n := n + 1;
      } else {
        n := WaitBound(f, i + 1, x);
        n := n + 1;
      }
    }
  }

  /** After `n` ticks the current task is `x`, and it is Running. */
  ghost predicate RunsAfter(s: Sched, n: nat, x: nat)
    requires Inv(s) && s.current.Some?
  {
    var s' := Ticks(s, n);
    s'.current == Some(x) && x < |s'.tasks| && s'.tasks[x].Some? && s'.tasks[x].value.state == Running
  }

  /** While only the timer acts, every Ready task becomes Running within BOOST_INTERVAL + 32 + MAX_TASKS
      ticks. */
  lemma NoStarvation(s: Sched, x: nat)
    requires Inv(s) && s.current.Some? && IsReady(s.tasks, x)
    ensures exists n :: 0 <= n <= PATIENCE && RunsAfter(s, n, x)
  {
    var n := WaitTicks(s, x);
    RunningCurrent(Ticks(s, n), x);
    assert RunsAfter(s, n, x);
  }

  lemma RunningCurrent(s: Sched, x: nat)
    requires Inv(s) && s.current == Some(x)
    ensures x < |s.tasks| && s.tasks[x].Some? && s.tasks[x].value.state == Running
  {
  }

  lemma WaitTicks(s: Sched, x: nat) returns (n: nat)
    requires Inv(s) && s.current.Some? && IsReady(s.tasks, x)
    ensures n <= PATIENCE && Ticks(s, n).current == Some(x)
  {
    var f := RunOfTicks(s);
    n := WaitBound(f, 0, x);
  }

  lemma RunOfTicks(s: Sched) returns (f: nat -> Sched)
    requires Inv(s) && s.current.Some?
    ensures TickRun(f) && f(0) == s && forall n: nat :: f(n) == Ticks(s, n)
  {
    f := (n: nat) => Ticks(s, n);
    forall i: nat ensures TickFacts(Ticks(s, i), Ticks(s, i + 1)) {
      TicksHaveFacts(s, i);
    }
  }

  // ---- Direct hand-off ----------------------------------------------------------------------------

  /** A consumer that blocks on an empty ring whose Ready producer is another task: the next task is that
      producer exactly when it was below level 0 or first in queue 0. The producer below level 0, or else the head of
      queue 0, leaves its queue, and no other queued task changes its place. */
  lemma HandOff(s: Sched, p: nat)
    requires Inv(s) && s.current.Some? && IsReady(s.tasks, p)
    ensures Sized(s)
    ensures Block(s, SpscRingEmpty(p)).current == Some(p) <==> s.tasks[p].value.priority != 0 || s.queues[0][0] == p
    ensures s.tasks[p].value.priority != 0 ==>
              var l := s.tasks[p].value.priority;
              Block(s, SpscRingEmpty(p)).queues == s.queues[l := Without(s.queues[l], p)]
    ensures s.tasks[p].value.priority == 0 ==>
              s.queues[0] != [] && Block(s, SpscRingEmpty(p)).queues == s.queues[0 := s.queues[0][1..]]
  {
    var c, l := s.current.value, s.tasks[p].value.priority;
    BlockPausing(s, SpscRingEmpty(p));
    var m := BlockMark(s, SpscRingEmpty(p));
    RescheduleExact(m);
    assert RequeueOld(m) == m;
    if l != 0 {
      assert m.queues == Move(s.queues, l, p, 0, true);
      assert m.queues[0] == [p] + s.queues[0];
      assert TopLevel(m.queues, 0) == 0;
      assert m.queues[0 := m.queues[0][1..]] == s.queues[l := Without(s.queues[l], p)];
    } else {
      assert p in s.queues[0];
      assert m.queues == s.queues && TopLevel(m.queues, 0) == 0;
    }
  }
}
