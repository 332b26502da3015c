/** What the steps of the scheduler do, task by task and queue by queue. */
module SchedulerSteps {
  import opened Wrappers
  import opened Arith
  import opened Mlfq
  import opened SchedulerInvariant
  import opened SchedulerProgress

  // ---- The end of a task --------------------------------------------------------------------------

  predicate IsDead(s: Sched, slot: nat) {
    slot < |s.tasks| && s.tasks[slot].Some? && s.tasks[slot].value.state == Dead
  }

  ghost predicate AnyReady(s: Sched) {
    exists k: nat :: IsReady(s.tasks, k)
  }

  /** Some queue has an entry exactly when some task is Ready. */
  lemma ReadyIsQueued(tasks: Tasks, queues: Queues)
    requires QueuesOk(tasks, queues)
    ensures TopLevel(queues, 0) < LEVELS <==> exists k: nat :: IsReady(tasks, k)
  {
    var top := TopLevel(queues, 0);
    if top < LEVELS {
      assert EntriesReady(tasks, queues, top);
      assert queues[top][0] in queues[top];
    }
    if k: nat :| IsReady(tasks, k) {
      assert k in queues[tasks[k].value.priority];
    }
  }

  /** `exit_current`: its caller ends, and another task runs, if and only if some task is Ready. Otherwise the caller goes
      on as Running. No other task but the next one changes. */
  lemma ExitExact(s: Sched)
    requires Inv(s) && s.current.Some?
    ensures Sized(s)
    ensures var s', slot := Exit(s), s.current.value;
            && (IsDead(s', slot) <==> AnyReady(s))
            && (s'.current == s.current <==> !AnyReady(s))
            && (!AnyReady(s) ==> s' == s)
            && (forall k :: 0 <= k < |s.tasks| && k != slot && s'.current != Some(k) ==> s'.tasks[k] == s.tasks[k])
            && (forall l :: 0 <= l < LEVELS ==> slot !in s'.queues[l])
  {
    var slot := s.current.value;
    var s1 := Kill(s, slot);
    KillPausing(s);
    KillKeepsQueues(s, slot);
    RescheduleExact(s1);
    RescheduleKeeps(s1);
    ReadyIsQueued(s1.tasks, s1.queues);
    assert forall k: nat :: IsReady(s1.tasks, k) <==> IsReady(s.tasks, k);
    forall l | 0 <= l < LEVELS
      ensures s1.queues[l] == s.queues[l] && slot !in Exit(s).queues[l]
    {
      assert EntriesReady(s.tasks, s.queues, l);
    }
    assert s1.queues == s.queues;
    if !AnyReady(s) {
      assert Exit(s).tasks == s.tasks;
    }
  }

  /** `block_current`: the caller waits, and another task runs, if and only if some task is Ready. */
  lemma BlockWaits(s: Sched, reason: BlockReason)
    requires Inv(s) && s.current.Some? && ReasonOk(reason)
    ensures Sized(s)
    ensures var s', slot := Block(s, reason), s.current.value;
            && s'.tasks[slot].Some? && (s'.tasks[slot].value.state == Blocked <==> AnyReady(s))
            && (s'.current == s.current <==> !AnyReady(s))
  {
    BlockPausing(s, reason);
    BlockKeepsReady(s, reason);
    var s1 := BlockMark(s, reason);
    RescheduleExact(s1);
    ReadyIsQueued(s1.tasks, s1.queues);
  }

  lemma BlockKeepsReady(s: Sched, reason: BlockReason)
    requires Inv(s) && s.current.Some? && ReasonOk(reason)
    ensures Sized(s)
    ensures var s1, slot := BlockMark(s, reason), s.current.value;
            && s1.tasks[slot].Some? && s1.tasks[slot].value.state == Blocked
            && forall k: nat :: IsReady(s1.tasks, k) <==> IsReady(s.tasks, k)
  {
  }

  /** A reschedule leaves a Dead task that is not the current one as it is. */
  lemma RescheduleDead(s: Sched, slot: nat)
    requires Pausing(s) && IsDead(s, slot) && s.current != Some(slot)
    ensures Sized(s) && Reschedule(s).tasks[slot] == s.tasks[slot]
  {
    RescheduleExact(s);
  }

  lemma BlockDead(s: Sched, reason: BlockReason, slot: nat)
    requires Inv(s) && s.current.Some? && ReasonOk(reason) && IsDead(s, slot)
    ensures Sized(s) && IsDead(Block(s, reason), slot)
  {
    BlockPausing(s, reason);
    assert IsDead(BlockMark(s, reason), slot);
    RescheduleDead(BlockMark(s, reason), slot);
  }

  lemma TickDead(s: Sched, slot: nat)
    requires Inv(s) && IsDead(s, slot)
    ensures Sized(s) && Sized(TickBoost(s)) && IsDead(Tick(s), slot)
  {
    TickBoostKeeps(s);
    assert IsDead(TickBoost(s), slot);
    ChargeDead(TickBoost(s), slot);
  }

  lemma ChargeDead(s: Sched, slot: nat)
    requires Inv(s) && IsDead(s, slot)
    ensures Sized(s) && IsDead(TickCurrent(s), slot)
  {
    if s.current.Some? {
      var t := s.tasks[s.current.value].value;
      if t.ticksUsed + 1 >= Quantum(t.priority) {
        ExpiredPausing(s);
        RescheduleDead(Expired(s), slot);
      }
    }
  }

  lemma ExitDead(s: Sched, slot: nat)
    requires Inv(s) && s.current.Some? && IsDead(s, slot)
    ensures Sized(s) && IsDead(Exit(s), slot)
  {
    KillPausing(s);
    RescheduleDead(Kill(s, s.current.value), slot);
  }

  lemma StartDead(s: Sched, slot: nat)
    requires Inv(s) && s.current.None? && Sized(s) && PickFrom(s.tasks, s.queues, 0).0.Some? && IsDead(s, slot)
    ensures IsDead(Start(s), slot)
  {
    PickHead(s.tasks, s.queues, 0);
    TakeHead(s.tasks, s.queues);
  }

  lemma ActDead(s: Sched, a: Action, slot: nat)
    requires Inv(s) && Enabled(s, a) && IsDead(s, slot)
    ensures IsDead(Act(s, a), slot)
  {
    PausingSized(s);
    match a
    case DoSpawn(priority, stack) => SpawnKeeps(s, priority, stack);
    case DoStart =>
      PickHead(s.tasks, s.queues, 0);
      StartDead(s, slot);
    case DoTick => TickDead(s, slot);
    case DoYield => RescheduleDead(s, slot);
    case DoBlock(reason) => BlockDead(s, reason, slot);
    case DoWake(id) => WakeKeeps(s, id);
    case DoExit => ExitDead(s, slot);
    case DoExec =>
  }

  /** A task that is Dead stays Dead in every later state of every run: it is never queued and never current again. */
  lemma {:induction false} DeadForever(states: seq<Sched>, actions: seq<Action>, slot: nat, i: nat, j: nat)
    requires IsRun(states, actions) && i <= j < |states| && IsDead(states[i], slot)
    ensures IsDead(states[j], slot) && states[j].current != Some(slot)
    ensures |states[j].queues| == LEVELS && forall l :: 0 <= l < LEVELS ==> slot !in states[j].queues[l]
    decreases j
  {
    Reachable(states, actions, j);
    if i < j {
      DeadForever(states, actions, slot, i, j - 1);
      Reachable(states, actions, j - 1);
      ActDead(states[j - 1], actions[j - 1], slot);
    }
  }

  lemma RunStep(states: seq<Sched>, actions: seq<Action>, i: nat)
    requires IsRun(states, actions) && i < |actions| && Inv(states[i])
    ensures Enabled(states[i], actions[i]) && states[i + 1] == Act(states[i], actions[i])
  {
    var next := states[i + 1];
  }

  /** Over a run: a task that exits is Dead from then on, if and only if another task was Ready. */
  lemma ExitEnds(states: seq<Sched>, actions: seq<Action>, i: nat, j: nat)
    requires IsRun(states, actions) && i < j < |states| && actions[i] == DoExit
    ensures Inv(states[i]) && states[i].current.Some?
    ensures AnyReady(states[i]) ==> IsDead(states[j], states[i].current.value)
    ensures !AnyReady(states[i]) ==> states[i + 1] == states[i]
  {
    Reachable(states, actions, i);
    RunStep(states, actions, i);
    ExitExact(states[i]);
    if AnyReady(states[i]) {
      DeadForever(states, actions, states[i].current.value, i + 1, j);
    }
  }

  // ---- Quanta -------------------------------------------------------------------------------------

  /** One tick at the top, and each level below has twice the quantum of the one above. */
  lemma QuantumDoubles(level: nat)
    requires level < LEVELS
    ensures Quantum(0) == 1 && (level + 1 < LEVELS ==> Quantum(level + 1) == 2 * Quantum(level))
  {
  }

  /** The part of a tick that charges the current task: one tick of its quantum; when that was the last one, it goes
      one level down with a fresh quantum, to the back of the queue there unless it is picked again. No other task but the
      next one changes. */
  lemma ChargeExact(s: Sched)
    requires Inv(s) && s.current.Some?
    ensures Sized(s)
    ensures var s', slot := TickCurrent(s), s.current.value;
            var t := s.tasks[slot].value;
            if t.ticksUsed + 1 < Quantum(t.priority) then
              s'.current == s.current && s'.queues == s.queues && s'.tasks[slot] == Some(t.(ticksUsed := t.ticksUsed + 1))
              && forall k :: 0 <= k < |s.tasks| && k != slot ==> s'.tasks[k] == s.tasks[k]
            else
              var below := if t.priority + 1 < LEVELS then t.priority + 1 else t.priority;
              && s'.tasks[slot] == Some(t.(state := if s'.current == s.current then Running else Ready, priority := below, ticksUsed := 0))
              && (s'.current != s.current ==> s'.queues[below] != [] && s'.queues[below][|s'.queues[below]| - 1] == slot)
              && forall k :: 0 <= k < |s.tasks| && k != slot && s'.current != Some(k) ==> s'.tasks[k] == s.tasks[k]
  {
    var slot := s.current.value;
    var t := s.tasks[slot].value;
    TickCurrentKeeps(s);
    if t.ticksUsed + 1 >= Quantum(t.priority) {
      ExpiredPausing(s);
      var s0 := Expired(s);
      RescheduleExact(s0);
      var s1 := RequeueOld(s0);
      var below := Demote(t).priority;
      assert s1.queues[below][|s1.queues[below]| - 1] == slot;
      RequeueOldOk(s0);
      ReadyIsQueued(s1.tasks, s1.queues);
      assert IsReady(s1.tasks, slot);
    }
  }

  // ---- Boosts -------------------------------------------------------------------------------------

  /** Task `t` after a boost to the top: its queue entry, if it was Ready below level 0, is now the first of queue 0. */
  ghost predicate ToTop(s: Sched, s': Sched, slot: nat)
    requires slot < |s.tasks| == |s'.tasks| && |s.queues| == |s'.queues| == LEVELS
  {
    match s.tasks[slot]
    case None => s'.tasks[slot].None? && s'.queues == s.queues
    case Some(t) =>
      && s'.tasks[slot] == Some(t.(priority := 0, ticksUsed := 0))
      && if t.state == Ready && t.priority > 0 then
           && t.priority < LEVELS && s'.queues[0] == [slot] + s.queues[0] && Cut(s.queues[t.priority], slot, s'.queues[t.priority])
           && forall l :: 0 < l < LEVELS && l != t.priority ==> s'.queues[l] == s.queues[l]
         else s'.queues == s.queues
  }

  ghost predicate SameBut(s: Sched, s': Sched, a: nat, b: nat)
    requires |s.tasks| == |s'.tasks|
  {
    s'.current == s.current && forall k :: 0 <= k < |s.tasks| && k != a && k != b ==> s'.tasks[k] == s.tasks[k]
  }

  lemma BoostToTopExact(s: Sched, slot: nat)
    requires QueuesOk(s.tasks, s.queues) && slot < MAX_TASKS
    ensures var s' := BoostToTop(s, slot); ToTop(s, s', slot) && SameBut(s, s', slot, slot)
  {
    if s.tasks[slot].Some? {
      var p := s.tasks[slot].value.priority;
      assert NoDup(s.queues[p]);
      WithoutCuts(s.queues[p], slot);
    }
  }

  /** One level up, not above the top, with a fresh quantum. */
  function Lifted(t: Task): (r: Task)
    ensures r.ticksUsed == 0 && r.priority <= t.priority && (t.priority > 0 ==> r.priority == t.priority - 1)
  {
    t.(priority := if t.priority == 0 then 0 else t.priority - 1, ticksUsed := 0)
  }

  /** The caller blocks. */
  lemma Parked(s: Sched) returns (s1: Sched)
    requires Inv(s) && s.current.Some?
    ensures Sized(s) && QueuesOk(s1.tasks, s1.queues) && s1.queues == s.queues
    ensures s1 == PutTask(s, s.current.value, s.tasks[s.current.value].value.(state := Blocked))
  {
    var slot := s.current.value;
    var t := s.tasks[slot].value.(state := Blocked);
    s1 := PutTask(s, slot, t);
    ChangeUnqueued(s.tasks, s.queues, slot, t);
  }

  /** A consumer that blocks on an empty ring goes to the top, and its producer too. */
  lemma BoostEmpty(s: Sched, p: nat)
    requires Inv(s) && s.current.Some? && p < MAX_TASKS
    ensures Sized(s)
    ensures var s', slot := BlockMark(s, SpscRingEmpty(p)), s.current.value;
            && s'.tasks[slot] == Some(s.tasks[slot].value.(state := Blocked, priority := 0, ticksUsed := 0)) && SameBut(s, s', slot, p)
            && (p != slot ==> ToTop(s, s', p)) && (p == slot ==> s'.queues == s.queues)
  {
    var s1 := Parked(s);
    BoostToTopExact(s1, p);
  }

  /** A producer that blocks on a full ring sends its consumer to the top. */
  lemma BoostFull(s: Sched, c: nat)
    requires Inv(s) && s.current.Some? && c < MAX_TASKS
    ensures Sized(s)
    ensures var s', slot := BlockMark(s, SpscRingFull(c)), s.current.value;
            var t := s.tasks[slot].value.(state := Blocked);
            && SameBut(s, s', slot, c)
            && (c != slot ==> s'.tasks[slot] == Some(t) && ToTop(s, s', c))
            && (c == slot ==> s'.tasks[slot] == Some(t.(priority := 0, ticksUsed := 0)) && s'.queues == s.queues)
  {
    var s1 := Parked(s);
    BoostToTopExact(s1, c);
  }

  /** A file read or a lock lifts the caller one level; the other reasons lift no one. */
  lemma BoostSelf(s: Sched, reason: BlockReason)
    requires Inv(s) && s.current.Some? && !reason.SpscRingEmpty? && !reason.SpscRingFull?
    ensures Sized(s)
    ensures var s', slot := BlockMark(s, reason), s.current.value;
            var t := s.tasks[slot].value.(state := Blocked);
            && s'.tasks[slot] == Some(if reason.FileRead? || reason.MutexContention? then Lifted(t) else t)
            && s'.queues == s.queues && SameBut(s, s', slot, slot)
  {
    var s1 := Parked(s);
  }

  function Joined(queues: Queues, l: nat): seq<nat>
    decreases |queues| - l
  {
    if l >= |queues| then [] else queues[l] + Joined(queues, l + 1)
  }

  lemma {:induction false} JoinedSame(queues: Queues, queues': Queues, l: nat)
    requires |queues'| == |queues| && forall k :: l <= k < |queues| ==> queues'[k] == queues[k]
    ensures Joined(queues', l) == Joined(queues, l)
    decreases |queues| - l
  {
    if l < |queues| {
      JoinedSame(queues, queues', l + 1);
    }
  }

  /** `boost_all`: the lower queues join queue 0 at its back, in the order of their levels. */
  lemma {:induction false} BoostOrder(s: Sched, l: nat)
    requires |s.queues| == LEVELS && 1 <= l <= LEVELS
    ensures BoostFrom(s, l).queues[0] == s.queues[0] + Joined(s.queues, l)
    decreases LEVELS - l
  {
    if l < LEVELS {
      BoostOrder(Drained(s, l), l + 1);
      JoinedSame(s.queues, Drained(s, l).queues, l + 1);
    }
  }
}
