/** What every step of the scheduler keeps. */
module SchedulerInvariant {
  import opened Wrappers
  import opened Arith
  import opened Mlfq

  type Tasks = seq<Option<Task>>
  type Queues = seq<seq<nat>>

  /** Every entry of queue `l` is a Ready task of level `l`. */
  ghost predicate EntriesReady(tasks: Tasks, queues: Queues, l: nat)
    requires l < |queues|
  {
    forall x :: x in queues[l] ==> IsReady(tasks, x) && tasks[x].value.priority == l
  }

  predicate TaskOk(t: Task) {
    t.priority < LEVELS && t.ticksUsed < Quantum(t.priority)
  }

  /** A slot is queued, once, at its own level, exactly when its task is Ready; and no task has used up its
      quantum. */
  ghost predicate QueuesOk(tasks: Tasks, queues: Queues) {
    && |tasks| == MAX_TASKS && |queues| == LEVELS
    && (forall i :: 0 <= i < MAX_TASKS && tasks[i].Some? ==> TaskOk(tasks[i].value))
    && (forall l :: 0 <= l < LEVELS ==> NoDup(queues[l]) && EntriesReady(tasks, queues, l))
    && (forall i :: 0 <= i < MAX_TASKS && IsReady(tasks, i) ==> i in queues[tasks[i].value.priority])
  }

  /** No task other than `slot` is Running. */
  ghost predicate OnlyRunning(tasks: Tasks, slot: Option<nat>) {
    forall i :: 0 <= i < |tasks| && tasks[i].Some? && tasks[i].value.state == Running ==> slot == Some(i)
  }

  ghost predicate CurrentOk(s: Sched) {
    s.current.Some? ==>
      s.current.value < |s.tasks| && s.tasks[s.current.value].Some? && s.tasks[s.current.value].value.state == Running
  }

  /** The invariant of every reachable state between steps. */
  ghost predicate Inv(s: Sched) {
    && QueuesOk(s.tasks, s.queues) && OnlyRunning(s.tasks, s.current) && CurrentOk(s)
    && 1 <= s.boostCountdown <= BOOST_INTERVAL
  }

  // ---- Changes that keep the queues consistent ----------------------------------------------------

  lemma {:induction false} WithoutNoDup(q: seq<nat>, slot: nat)
    requires NoDup(q)
    ensures NoDup(Without(q, slot))
  {
    if q != [] {
      var rest, last := q[..|q| - 1], q[|q| - 1];
      WithoutNoDup(rest, slot);
      assert last !in Without(rest, slot);
    }
  }

  /** A task that is not Ready before or after may change in any way. */
  lemma ChangeUnqueued(tasks: Tasks, queues: Queues, slot: nat, t: Task)
    requires QueuesOk(tasks, queues) && slot < MAX_TASKS && !IsReady(tasks, slot) && t.state != Ready && TaskOk(t)
    ensures QueuesOk(tasks[slot := Some(t)], queues)
  {
    var tasks' := tasks[slot := Some(t)];
    forall l | 0 <= l < LEVELS
      ensures EntriesReady(tasks', queues, l)
    {
      assert EntriesReady(tasks, queues, l);
    }
    forall i | 0 <= i < MAX_TASKS && IsReady(tasks', i)
      ensures i in queues[tasks'[i].value.priority]
    {
      assert IsReady(tasks, i);
    }
  }

  /** A Ready task may change as long as its state and level stay. */
  lemma ChangeQueued(tasks: Tasks, queues: Queues, slot: nat, t: Task)
    requires QueuesOk(tasks, queues) && IsReady(tasks, slot) && t.state == Ready && TaskOk(t)
    requires t.priority == tasks[slot].value.priority
    ensures QueuesOk(tasks[slot := Some(t)], queues)
  {
    var tasks' := tasks[slot := Some(t)];
    forall l | 0 <= l < LEVELS
      ensures EntriesReady(tasks', queues, l)
    {
      assert EntriesReady(tasks, queues, l);
    }
    forall i | 0 <= i < MAX_TASKS && IsReady(tasks', i)
      ensures i in queues[tasks'[i].value.priority]
    {
      assert IsReady(tasks, i);
    }
  }

  /** A task that was not Ready becomes Ready and joins the back or front of its queue. */
  lemma Enqueue(tasks: Tasks, queues: Queues, slot: nat, t: Task, front: bool)
    requires QueuesOk(tasks, queues) && slot < MAX_TASKS && !IsReady(tasks, slot) && t.state == Ready && TaskOk(t)
    ensures var q := queues[t.priority];
            QueuesOk(tasks[slot := Some(t)], queues[t.priority := if front then [slot] + q else q + [slot]])
    ensures |queues[t.priority]| < MAX_TASKS
  {
    var tasks' := tasks[slot := Some(t)];
    var q := queues[t.priority];
    var queues' := queues[t.priority := if front then [slot] + q else q + [slot]];
    assert EntriesReady(tasks, queues, t.priority);
    assert slot !in q;
    QueueRoom(tasks, queues, t.priority, slot);
    forall l | 0 <= l < LEVELS
      ensures NoDup(queues'[l]) && EntriesReady(tasks', queues', l)
    {
      assert EntriesReady(tasks, queues, l);
      assert NoDup(queues[l]);
    }
    forall i | 0 <= i < MAX_TASKS && IsReady(tasks', i)
      ensures i in queues'[tasks'[i].value.priority]
    {
      if i == slot {
        assert queues'[t.priority][if front then 0 else |q|] == slot;
      } else {
        assert IsReady(tasks, i);
      }
    }
  }

  /** A queue without duplicates that misses a slot has room for it. */
  lemma QueueRoom(tasks: Tasks, queues: Queues, l: nat, slot: nat)
    requires QueuesOk(tasks, queues) && l < LEVELS && slot < MAX_TASKS && slot !in queues[l]
    ensures |queues[l]| < MAX_TASKS
  {
    assert EntriesReady(tasks, queues, l);
    assert NoDup(queues[l]);
    var q := queues[l] + [slot];
    forall i | 0 <= i < |q|
      ensures q[i] < MAX_TASKS
    {
      assert i < |queues[l]| ==> queues[l][i] in queues[l];
    }
    NoDupBound(q, MAX_TASKS);
  }

  /** A Ready task leaves its queue and is no longer Ready. */
  lemma Dequeue(tasks: Tasks, queues: Queues, slot: nat, t: Task)
    requires QueuesOk(tasks, queues) && IsReady(tasks, slot) && t.state != Ready && TaskOk(t)
    ensures var l := tasks[slot].value.priority;
            QueuesOk(tasks[slot := Some(t)], queues[l := Without(queues[l], slot)])
  {
    var l0 := tasks[slot].value.priority;
    var tasks', queues' := tasks[slot := Some(t)], queues[l0 := Without(queues[l0], slot)];
    WithoutNoDup(queues[l0], slot);
    forall l | 0 <= l < LEVELS
      ensures NoDup(queues'[l]) && EntriesReady(tasks', queues', l)
    {
      assert EntriesReady(tasks, queues, l);
      assert NoDup(queues[l]);
    }
    forall i | 0 <= i < MAX_TASKS && IsReady(tasks', i)
      ensures i in queues'[tasks'[i].value.priority]
    {
      assert IsReady(tasks, i);
    }
  }

  /** A Ready task moves to another level. */
  lemma Requeue(tasks: Tasks, queues: Queues, slot: nat, t: Task, front: bool)
    requires QueuesOk(tasks, queues) && IsReady(tasks, slot) && t.state == Ready && TaskOk(t)
    ensures QueuesOk(tasks[slot := Some(t)], Move(queues, tasks[slot].value.priority, slot, t.priority, front))
    ensures |Without(queues[tasks[slot].value.priority], slot)| < MAX_TASKS
    ensures t.priority != tasks[slot].value.priority ==> |queues[t.priority]| < MAX_TASKS
  {
    var p := tasks[slot].value.priority;
    var parked := t.(state := Blocked);
    Dequeue(tasks, queues, slot, parked);
    var tasks1, queues1 := tasks[slot := Some(parked)], queues[p := Without(queues[p], slot)];
    Enqueue(tasks1, queues1, slot, t, front);
    QueueRoom(tasks1, queues1, p, slot);
    assert tasks1[slot := Some(t)] == tasks[slot := Some(t)];
  }

  // ---- Picking ------------------------------------------------------------------------------------

  /** The highest level with a queued task. */
  function TopLevel(queues: Queues, l: nat): (r: nat)
    ensures l <= |queues| ==> l <= r <= |queues|
    ensures forall k :: l <= k < r && k < |queues| ==> queues[k] == []
    ensures r < |queues| ==> l <= r && queues[r] != []
    decreases |queues| - l
  {
    if l >= |queues| || queues[l] != [] then l else TopLevel(queues, l + 1)
  }

  /** While the queues are consistent, `pick_next` skips nothing: it takes the head of the highest queue
      that is not empty. */
  lemma {:induction false} PickHead(tasks: Tasks, queues: Queues, l: nat)
    requires QueuesOk(tasks, queues) && l <= LEVELS
    ensures var top := TopLevel(queues, l);
            PickFrom(tasks, queues, l) ==
            if top < LEVELS then (Some(queues[top][0]), queues[top := queues[top][1..]]) else (None, queues)
    decreases LEVELS - l
  {
    if l < LEVELS {
      assert EntriesReady(tasks, queues, l);
      if queues[l] == [] {
        assert queues[l := []] == queues;
        PickHead(tasks, queues, l + 1);
      } else {
        assert queues[l][0] in queues[l];
      }
    }
  }

  /** Popping the head of a queue is removing it. */
  lemma {:induction false} WithoutHead(q: seq<nat>)
    requires q != [] && NoDup(q)
    ensures Without(q, q[0]) == q[1..]
  {
    var rest := q[..|q| - 1];
    if |q| > 1 {
      WithoutHead(rest);
      assert rest[1..] + [q[|q| - 1]] == q[1..];
    }
  }

  /** Taking the picked task to run keeps the queues consistent. */
  lemma TakeHead(tasks: Tasks, queues: Queues)
    requires QueuesOk(tasks, queues) && TopLevel(queues, 0) < LEVELS
    ensures var top := TopLevel(queues, 0);
            var slot := queues[top][0];
            && IsReady(tasks, slot) && tasks[slot].value.priority == top
            && QueuesOk(tasks[slot := Some(tasks[slot].value.(state := Running))], queues[top := queues[top][1..]])
  {
    var top := TopLevel(queues, 0);
    var slot := queues[top][0];
    assert EntriesReady(tasks, queues, top);
    assert slot in queues[top];
    Dequeue(tasks, queues, slot, tasks[slot].value.(state := Running));
    WithoutHead(queues[top]);
  }

  /** Before a reschedule only the current task can be Running; it may also be Blocked or Dead. */
  ghost predicate Pausing(s: Sched) {
    && QueuesOk(s.tasks, s.queues) && OnlyRunning(s.tasks, s.current)
    && s.current.Some? && s.current.value < MAX_TASKS
    && s.tasks[s.current.value].Some? && s.tasks[s.current.value].value.state != Ready
    && 1 <= s.boostCountdown <= BOOST_INTERVAL
  }

  lemma PausingSized(s: Sched)
    requires QueuesOk(s.tasks, s.queues)
    ensures Sized(s)
  {
  }

  lemma RequeueOldOk(s: Sched)
    requires Pausing(s)
    ensures Sized(s)
    ensures var s1 := RequeueOld(s);
            && QueuesOk(s1.tasks, s1.queues) && OnlyRunning(s1.tasks, None)
            && s1.current == s.current && s1.boostCountdown == s.boostCountdown
            && s1.tasks[s.current.value].Some?
  {
    var prev := s.current.value;
    var t := s.tasks[prev].value;
    if t.state == Running {
      Enqueue(s.tasks, s.queues, prev, t.(state := Ready), false);
    }
  }

  /** `reschedule` leaves exactly one task Running, the current one: the head of the highest queue, or the
      old task when nothing is Ready. */
  lemma RescheduleKeeps(s: Sched)
    requires Pausing(s)
    ensures Sized(s) && Inv(Reschedule(s))
    ensures var s1 := RequeueOld(s);
            var top := TopLevel(s1.queues, 0);
            Reschedule(s).current == if top < LEVELS then Some(s1.queues[top][0]) else s.current
  {
    RequeueOldOk(s);
    var s1 := RequeueOld(s);
    var prev := s.current.value;
    PickHead(s1.tasks, s1.queues, 0);
    var top := TopLevel(s1.queues, 0);
    if top < LEVELS {
      TakeHead(s1.tasks, s1.queues);
    } else {
      assert !IsReady(s1.tasks, prev);
      ChangeUnqueued(s1.tasks, s1.queues, prev, s1.tasks[prev].value.(state := Running));
    }
  }

  // ---- The steps ----------------------------------------------------------------------------------

  lemma InitOk()
    ensures Inv(Init())
  {
  }

  /** A new task takes the lowest free slot and the next id, and is Ready at the back of the queue of its level; without a
      slot nothing changes, without a stack only the id is used up. No other task and no other queue changes. */
  lemma SpawnKeeps(s: Sched, priority: nat, stack: bool)
    requires Inv(s) && priority < LEVELS
    ensures Inv(Spawn(s, priority, stack))
    ensures var s', slot := Spawn(s, priority, stack), FreeSlot(s.tasks, 0);
            && s'.current == s.current && s'.nextId == s.nextId + (if slot.Some? then 1 else 0)
            && (forall k :: 0 <= k < |s.tasks| && !(stack && Some(k) == slot) ==> s'.tasks[k] == s.tasks[k])
            && if stack && slot.Some? then
                 && s'.tasks[slot.value] == Some(Task(s.nextId, Ready, priority, 0, false))
                 && s'.queues == s.queues[priority := s.queues[priority] + [slot.value]]
               else s'.queues == s.queues
  {
    var slot := FreeSlot(s.tasks, 0);
    if slot.Some? && stack {
      Enqueue(s.tasks, s.queues, slot.value, Task(s.nextId, Ready, priority, 0, false), false);
    }
  }

  /** Waking a Blocked task makes it Ready and puts it at the back of the queue of its level; waking another one only
      records the wake. No other task and no other queue changes. */
  lemma WakeKeeps(s: Sched, id: nat)
    requires Inv(s)
    ensures Sized(s) && Inv(Wake(s, id))
    ensures var s', slot := Wake(s, id), FindId(s.tasks, id, 0);
            && s'.current == s.current
            && (forall k :: 0 <= k < |s.tasks| && Some(k) != slot ==> s'.tasks[k] == s.tasks[k])
            && (slot.Some? ==>
                  var t := s.tasks[slot.value].value;
                  if t.state == Blocked then
                    && s'.tasks[slot.value] == Some(t.(state := Ready))
                    && s'.queues == s.queues[t.priority := s.queues[t.priority] + [slot.value]]
                  else s'.tasks[slot.value] == Some(t.(awakePending := true)) && s'.queues == s.queues)
  {
    var slot := FindId(s.tasks, id, 0);
    if slot.Some? {
      var t := s.tasks[slot.value].value;
      if t.state == Blocked {
        Enqueue(s.tasks, s.queues, slot.value, t.(state := Ready), false);
      } else if t.state == Ready {
        ChangeQueued(s.tasks, s.queues, slot.value, t.(awakePending := true));
      } else {
        ChangeUnqueued(s.tasks, s.queues, slot.value, t.(awakePending := true));
      }
    }
  }

  lemma StartKeeps(s: Sched)
    requires Inv(s) && s.current.None? && Sized(s) && PickFrom(s.tasks, s.queues, 0).0.Some?
    ensures Inv(Start(s))
    ensures TopLevel(s.queues, 0) < LEVELS && Start(s).current == Some(s.queues[TopLevel(s.queues, 0)][0])
  {
    PickHead(s.tasks, s.queues, 0);
    TakeHead(s.tasks, s.queues);
  }

  lemma ExecKeeps(s: Sched)
    requires Inv(s) && s.current.Some?
    ensures Sized(s) && Inv(Exec(s))
    ensures var s', slot := Exec(s), s.current.value;
            && s'.current == s.current && s'.queues == s.queues
            && s'.tasks[slot] == Some(Task(s.tasks[slot].value.id, Running, 1, 0, false))
            && forall k :: 0 <= k < |s.tasks| && k != slot ==> s'.tasks[k] == s.tasks[k]
  {
    var slot := s.current.value;
    ChangeUnqueued(s.tasks, s.queues, slot, Task(s.tasks[slot].value.id, Running, 1, 0, false));
  }

  lemma YieldKeeps(s: Sched)
    requires Inv(s) && s.current.Some?
    ensures Sized(s) && Inv(Reschedule(s))
  {
    RescheduleKeeps(s);
  }

  lemma KillPausing(s: Sched)
    requires Inv(s) && s.current.Some?
    ensures Sized(s) && Pausing(Kill(s, s.current.value))
  {
    var slot := s.current.value;
    var t := s.tasks[slot].value;
    assert EntriesReady(s.tasks, s.queues, t.priority);
    assert s.queues[t.priority := s.queues[t.priority]] == s.queues;
    ChangeUnqueued(s.tasks, s.queues, slot, t.(state := Dead));
  }

  /** `q'` is `q` with `slot` taken out where it was. */
  predicate Cut(q: seq<nat>, slot: nat, q': seq<nat>) {
    if slot in q then exists i :: 0 <= i < |q| && q[i] == slot && q' == q[..i] + q[i + 1..] else q' == q
  }

  lemma {:induction false} WithoutAt(q: seq<nat>, slot: nat, i: nat)
    requires NoDup(q) && i < |q| && q[i] == slot
    ensures Without(q, slot) == q[..i] + q[i + 1..]
  {
    var n := |q| - 1;
    var rest, last := q[..n], q[n];
    if i < n {
      WithoutAt(rest, slot, i);
      assert q[..i] + q[i + 1..] == rest[..i] + rest[i + 1..] + [last];
    } else {
      assert slot !in rest;
    }
  }

  lemma WithoutCuts(q: seq<nat>, slot: nat)
    requires NoDup(q)
    ensures Cut(q, slot, Without(q, slot))
  {
    if slot in q {
      var i :| 0 <= i < |q| && q[i] == slot;
      WithoutAt(q, slot, i);
    }
  }

  /** `kill` makes a task Dead and takes it out of the queues, where the others keep their order; no other task changes. */
  ghost predicate Killed(s: Sched, s': Sched, slot: nat)
    requires slot < |s.tasks| == |s'.tasks|
  {
    && s'.current == s.current && |s'.queues| == |s.queues|
    && (forall k :: 0 <= k < |s.tasks| && k != slot ==> s'.tasks[k] == s.tasks[k])
    && (s.tasks[slot].None? ==> s'.tasks[slot].None?)
    && (s.tasks[slot].Some? ==> s'.tasks[slot] == Some(s.tasks[slot].value.(state := Dead)))
    && (forall l :: 0 <= l < |s.queues| ==> slot !in s'.queues[l] && Cut(s.queues[l], slot, s'.queues[l]))
  }

  lemma KillKeepsQueues(s: Sched, slot: nat)
    requires QueuesOk(s.tasks, s.queues) && slot < MAX_TASKS
    ensures var s' := Kill(s, slot); QueuesOk(s'.tasks, s'.queues) && Killed(s, s', slot)
  {
    forall l | 0 <= l < LEVELS
      ensures Cut(s.queues[l], slot, Without(s.queues[l], slot))
      ensures slot in s.queues[l] ==> s.tasks[slot].Some? && s.tasks[slot].value.priority == l
    {
      assert NoDup(s.queues[l]) && EntriesReady(s.tasks, s.queues, l);
      WithoutCuts(s.queues[l], slot);
    }
    if s.tasks[slot].Some? {
      var t := s.tasks[slot].value;
      if t.state == Ready {
        Dequeue(s.tasks, s.queues, slot, t.(state := Dead));
      } else {
        assert EntriesReady(s.tasks, s.queues, t.priority);
        assert s.queues[t.priority := s.queues[t.priority]] == s.queues;
        ChangeUnqueued(s.tasks, s.queues, slot, t.(state := Dead));
      }
    }
  }

  lemma BoostToTopKeeps(s: Sched, slot: nat)
    requires Pausing(s) && slot < MAX_TASKS && s.tasks[s.current.value].value.state == Blocked
    ensures var s' := BoostToTop(s, slot);
            Pausing(s') && s'.current == s.current && s'.tasks[s.current.value].value.state == Blocked
  {
    if s.tasks[slot].Some? {
      var t := s.tasks[slot].value;
      var t' := t.(priority := 0, ticksUsed := 0);
      if t.state != Ready {
        ChangeUnqueued(s.tasks, s.queues, slot, t');
      } else if t.priority == 0 {
        ChangeQueued(s.tasks, s.queues, slot, t');
      } else {
        Requeue(s.tasks, s.queues, slot, t', true);
      }
    }
  }

  /** Between marking the current task Blocked and the reschedule, the queues stay consistent. */
  lemma BlockPausing(s: Sched, reason: BlockReason)
    requires Inv(s) && s.current.Some? && ReasonOk(reason)
    ensures Sized(s) && Pausing(BlockMark(s, reason)) && BlockMark(s, reason).current == s.current
  {
    var slot := s.current.value;
    var t := s.tasks[slot].value.(state := Blocked);
    var s1 := PutTask(s, slot, t);
    ChangeUnqueued(s.tasks, s.queues, slot, t);
    match reason
    case SpscRingEmpty(p) =>
      BoostToTopKeeps(s1, p);
      var s2 := BoostToTop(s1, p);
      ChangeUnqueued(s2.tasks, s2.queues, slot, s2.tasks[slot].value.(priority := 0, ticksUsed := 0));
    case SpscRingFull(c) => BoostToTopKeeps(s1, c);
    case FileRead => BoostOneBlocked(s1);
    case MutexContention => BoostOneBlocked(s1);
    case Sleep =>
    case Yield =>
    case Waiting =>
  }

  lemma BoostOneBlocked(s: Sched)
    requires Pausing(s) && s.tasks[s.current.value].value.state == Blocked
    ensures Pausing(BoostOne(s, s.current.value)) && BoostOne(s, s.current.value).current == s.current
  {
    var slot := s.current.value;
    var t := s.tasks[slot].value;
    var p := if t.priority > 0 then t.priority - 1 else 0;
    ChangeUnqueued(s.tasks, s.queues, slot, t.(priority := p, ticksUsed := 0));
  }

  // ---- The boost ----------------------------------------------------------------------------------

  /** Draining queue `l` into queue 0 keeps the queues consistent. */
  lemma BoostLevel(tasks: Tasks, queues: Queues, l: nat)
    requires QueuesOk(tasks, queues) && 1 <= l < LEVELS
    ensures QueuesOk(Boosted(tasks, queues[l]), queues[0 := queues[0] + queues[l]][l := []])
  {
    var tasks', queues' := Boosted(tasks, queues[l]), queues[0 := queues[0] + queues[l]][l := []];
    assert EntriesReady(tasks, queues, 0) && EntriesReady(tasks, queues, l) && NoDup(queues[0]) && NoDup(queues[l]);
    JoinNoDup(queues[0], queues[l]);
    forall k | 0 <= k < LEVELS
      ensures NoDup(queues'[k]) && EntriesReady(tasks', queues', k)
    {
      assert EntriesReady(tasks, queues, k) && NoDup(queues[k]);
      forall x | x in queues'[k]
        ensures IsReady(tasks', x) && tasks'[x].value.priority == k
      {
      }
    }
    forall i | 0 <= i < MAX_TASKS && IsReady(tasks', i)
      ensures i in queues'[tasks'[i].value.priority]
    {
      assert IsReady(tasks, i);
    }
  }

  lemma JoinNoDup(a: seq<nat>, b: seq<nat>)
    requires NoDup(a) && NoDup(b) && forall x :: x in a ==> x !in b
    ensures NoDup(a + b)
  {
    forall i, j | 0 <= i < j < |a + b|
      ensures (a + b)[i] != (a + b)[j]
    {
      assert i < |a| ==> a[i] in a;
      assert j >= |a| ==> b[j - |a|] in b;
    }
  }

  /** What `boost_all` does to the rest of the state: nothing but levels and quanta of queued tasks, and
      queue 0 only grows at its back. */
  ghost predicate BoostFrame(s: Sched, s': Sched) {
    && s'.current == s.current && s'.nextId == s.nextId && |s'.tasks| == |s.tasks| == MAX_TASKS
    && |s.queues| == |s'.queues| == LEVELS
    && s.queues[0] <= s'.queues[0]
    && (forall i :: 0 <= i < |s.tasks| ==> (s.tasks[i].Some? <==> s'.tasks[i].Some?))
    && (forall i :: 0 <= i < |s.tasks| && s.tasks[i].Some? ==>
          var t, t' := s.tasks[i].value, s'.tasks[i].value;
          t'.state == t.state && t'.id == t.id && t'.awakePending == t.awakePending)
    && (forall i :: 0 <= i < |s.tasks| && s.tasks[i].Some? && s.tasks[i].value.state != Ready ==> s'.tasks[i] == s.tasks[i])
  }

  lemma {:induction false} BoostKeeps(s: Sched, l: nat)
    requires QueuesOk(s.tasks, s.queues) && 1 <= l <= LEVELS
    ensures var s' := BoostFrom(s, l);
            && QueuesOk(s'.tasks, s'.queues) && BoostFrame(s, s')
            && (forall k :: l <= k < LEVELS ==> s'.queues[k] == [])
            && (forall k :: 1 <= k < l ==> s'.queues[k] == s.queues[k])
    decreases LEVELS - l
  {
    if l < LEVELS {
      BoostLevel(s.tasks, s.queues, l);
      assert EntriesReady(s.tasks, s.queues, l);
      BoostKeeps(Drained(s, l), l + 1);
    }
  }

  lemma TickBoostKeeps(s: Sched)
    requires Inv(s)
    ensures Sized(s) && Inv(TickBoost(s)) && Sized(TickBoost(s)) && BoostFrame(s, TickBoost(s))
    ensures s.boostCountdown == 1 ==> forall k :: 1 <= k < LEVELS ==> TickBoost(s).queues[k] == []
    ensures TickBoost(s).boostCountdown == if s.boostCountdown == 1 then BOOST_INTERVAL else s.boostCountdown - 1
  {
    BoostKeeps(s, 1);
  }

  lemma ExpiredPausing(s: Sched)
    requires Inv(s) && s.current.Some?
    ensures Sized(s) && Pausing(Expired(s))
  {
    var slot := s.current.value;
    ChangeUnqueued(s.tasks, s.queues, slot, Demote(s.tasks[slot].value));
  }

  lemma TickCurrentKeeps(s: Sched)
    requires Inv(s)
    ensures Sized(s) && Inv(TickCurrent(s))
  {
    if s.current.Some? {
      var slot := s.current.value;
      var t := s.tasks[slot].value;
      if t.ticksUsed + 1 >= Quantum(t.priority) {
        ExpiredPausing(s);
        RescheduleKeeps(Expired(s));
      } else {
        ChangeUnqueued(s.tasks, s.queues, slot, t.(ticksUsed := t.ticksUsed + 1));
      }
    }
  }

  lemma TickKeeps(s: Sched)
    requires Inv(s)
    ensures Sized(s) && Sized(TickBoost(s)) && Inv(Tick(s))
  {
    TickBoostKeeps(s);
    TickCurrentKeeps(TickBoost(s));
  }

  // ---- Every run ----------------------------------------------------------------------------------

  datatype Action =
    | DoSpawn(priority: nat, stack: bool)
    | DoStart
    | DoTick
    | DoYield
    | DoBlock(reason: BlockReason)
    | DoWake(id: nat)
    | DoExit
    | DoExec

  /** The calls that do not panic: user priorities below the number of levels, a task slot in a block reason,
      a task to start with, and a current task where one is needed. */
  ghost predicate Enabled(s: Sched, a: Action)
    requires Inv(s)
  {
    match a
    case DoSpawn(priority, _) => priority < LEVELS
    case DoStart => s.current.None? && (exists l :: 0 <= l < LEVELS && s.queues[l] != [])
    case DoBlock(reason) => s.current.Some? && ReasonOk(reason)
    case DoYield => s.current.Some?
    case DoExit => s.current.Some?
    case DoExec => s.current.Some?
    case DoTick => true
    case DoWake(_) => true
  }

  ghost function Act(s: Sched, a: Action): (s': Sched)
    requires Inv(s) && Enabled(s, a)
    ensures Inv(s')
  {
    PausingSized(s);
    match a
    case DoSpawn(priority, stack) => SpawnKeeps(s, priority, stack); Spawn(s, priority, stack)
    case DoStart => PickHead(s.tasks, s.queues, 0); StartKeeps(s); Start(s)
    case DoTick => TickKeeps(s); Tick(s)
    case DoYield => YieldKeeps(s); Reschedule(s)
    case DoBlock(reason) => BlockPausing(s, reason); RescheduleKeeps(BlockMark(s, reason)); Block(s, reason)
    case DoWake(id) => WakeKeeps(s, id); Wake(s, id)
    case DoExit => KillPausing(s); RescheduleKeeps(Kill(s, s.current.value)); Exit(s)
    case DoExec => ExecKeeps(s); Exec(s)
  }

  /** A run from `s`: each state follows from the one before by an enabled action. */
  ghost predicate IsRun(states: seq<Sched>, actions: seq<Action>) {
    && |states| == |actions| + 1 && states[0] == Init()
    && forall i :: 0 <= i < |actions| ==> Inv(states[i]) ==> Enabled(states[i], actions[i]) && states[i + 1] == Act(states[i], actions[i])
  }

  /** In every reachable state: a slot is queued exactly once, at its own level, iff it is Ready; the current
      slot is the only Running one and in no queue; no task has used up its quantum; and every queue has
      room for every slot it does not hold, so no push is ever dropped. */
  lemma {:induction false} Reachable(states: seq<Sched>, actions: seq<Action>, i: nat)
    requires IsRun(states, actions) && i < |states|
    ensures Inv(states[i])
    ensures forall slot, l :: 0 <= slot < MAX_TASKS && 0 <= l < LEVELS ==>
              (slot in states[i].queues[l] <==> IsReady(states[i].tasks, slot) && states[i].tasks[slot].value.priority == l)
    ensures states[i].current.Some? ==> forall l :: 0 <= l < LEVELS ==> states[i].current.value !in states[i].queues[l]
    ensures forall slot, l :: 0 <= slot < MAX_TASKS && 0 <= l < LEVELS && slot !in states[i].queues[l] ==>
              |states[i].queues[l]| < MAX_TASKS
  {
    if i == 0 {
      InitOk();
    } else {
      Reachable(states, actions, i - 1);
    }
    var s := states[i];
    forall slot, l | 0 <= slot < MAX_TASKS && 0 <= l < LEVELS
      ensures slot in s.queues[l] <==> IsReady(s.tasks, slot) && s.tasks[slot].value.priority == l
    {
      assert EntriesReady(s.tasks, s.queues, l);
    }
    forall slot, l | 0 <= slot < MAX_TASKS && 0 <= l < LEVELS && slot !in s.queues[l]
      ensures |s.queues[l]| < MAX_TASKS
    {
      QueueRoom(s.tasks, s.queues, l, slot);
    }
  }

  // ---- Ids and slots ------------------------------------------------------------------------------

  /** The ids handed out are the slots, in order. */
  ghost predicate IdsAreSlots(s: Sched) {
    forall i :: 0 <= i < |s.tasks| ==> if i < s.nextId then s.tasks[i].Some? && s.tasks[i].value.id == i else s.tasks[i].None?
  }

  /** The same slots are taken, by tasks with the same ids. */
  ghost predicate SameIds(s: Sched, s': Sched) {
    && |s'.tasks| == |s.tasks| && s'.nextId == s.nextId
    && forall i :: 0 <= i < |s.tasks| ==>
         (s'.tasks[i].Some? <==> s.tasks[i].Some?) && (s.tasks[i].Some? ==> s'.tasks[i].value.id == s.tasks[i].value.id)
  }

  lemma RescheduleIds(s: Sched)
    requires Pausing(s)
    ensures Sized(s) && SameIds(s, Reschedule(s))
  {
  }

  lemma BlockIds(s: Sched, reason: BlockReason)
    requires Inv(s) && s.current.Some? && ReasonOk(reason)
    ensures Sized(s) && SameIds(s, Block(s, reason))
  {
    BlockPausing(s, reason);
    RescheduleIds(BlockMark(s, reason));
  }

  lemma {:induction false} BoostIds(s: Sched, l: nat)
    requires |s.queues| == LEVELS && l >= 1
    ensures SameIds(s, BoostFrom(s, l))
    decreases LEVELS - l
  {
    if l < LEVELS {
      BoostIds(Drained(s, l), l + 1);
    }
  }

  lemma TickCurrentIds(s: Sched)
    requires Inv(s)
    ensures Sized(s) && SameIds(s, TickCurrent(s))
  {
    if s.current.Some? {
      ExpiredPausing(s);
      RescheduleIds(Expired(s));
    }
  }

  lemma TickIds(s: Sched)
    requires Inv(s)
    ensures Sized(s) && Sized(TickBoost(s)) && SameIds(s, Tick(s))
  {
    TickBoostKeeps(s);
    BoostIds(s, 1);
    TickCurrentIds(TickBoost(s));
  }

  lemma StartIds(s: Sched)
    requires Sized(s) && PickFrom(s.tasks, s.queues, 0).0.Some?
    ensures SameIds(s, Start(s))
  {
  }

  lemma WakeIds(s: Sched, id: nat)
    requires Sized(s)
    ensures SameIds(s, Wake(s, id))
  {
  }

  lemma ExitIds(s: Sched)
    requires Inv(s) && s.current.Some?
    ensures Sized(s) && SameIds(s, Exit(s))
  {
    KillPausing(s);
    RescheduleIds(Kill(s, s.current.value));
  }

  lemma SpawnIds(s: Sched, priority: nat)
    requires Inv(s) && priority < LEVELS && IdsAreSlots(s)
    ensures IdsAreSlots(Spawn(s, priority, true))
  {
    var slot := FreeSlot(s.tasks, 0);
    if slot.Some? {
      assert s.nextId < |s.tasks| ==> s.tasks[s.nextId].None?;
      assert slot.value == s.nextId;
    }
  }

  lemma SameIdsKeep(s: Sched, s': Sched)
    requires IdsAreSlots(s) && SameIds(s, s')
    ensures IdsAreSlots(s')
  {
  }

  lemma ActIds(s: Sched, a: Action)
    requires Inv(s) && Enabled(s, a) && IdsAreSlots(s) && (a.DoSpawn? ==> a.stack)
    ensures IdsAreSlots(Act(s, a))
  {
    match a
    case DoSpawn(priority, _) => SpawnIds(s, priority);
    case DoStart =>
      PickHead(s.tasks, s.queues, 0);
      StartIds(s);
      SameIdsKeep(s, Start(s));
    case DoTick =>
      TickIds(s);
      SameIdsKeep(s, Tick(s));
    case DoYield =>
      RescheduleIds(s);
      SameIdsKeep(s, Reschedule(s));
    case DoBlock(reason) =>
      BlockIds(s, reason);
      SameIdsKeep(s, Block(s, reason));
    case DoWake(id) =>
      PausingSized(s);
      WakeIds(s, id);
      SameIdsKeep(s, Wake(s, id));
    case DoExit =>
      ExitIds(s);
      SameIdsKeep(s, Exit(s));
    case DoExec =>
  }

  /** While every kernel stack can be allocated, a task's id is its slot in every reachable state, so that
      `wake_task` with a slot reaches that slot. */
  lemma {:induction false} WakeReaches(states: seq<Sched>, actions: seq<Action>, i: nat)
    requires IsRun(states, actions) && i < |states|
    requires forall k :: 0 <= k < |actions| && actions[k].DoSpawn? ==> actions[k].stack
    ensures IdsAreSlots(states[i])
    ensures forall slot :: 0 <= slot < |states[i].tasks| && states[i].tasks[slot].Some? ==>
              FindId(states[i].tasks, slot, 0) == Some(slot)
  {
    if i > 0 {
      WakeReaches(states, actions, i - 1);
      Reachable(states, actions, i - 1);
      ActIds(states[i - 1], actions[i - 1]);
    }
  }
}
