/** The multilevel feedback queue scheduler as a state machine on values: each queue is the sequence of the
    slots in it. */
module Mlfq {
  import opened Wrappers

  const MAX_TASKS: nat := 64
  const LEVELS: nat := 6
  const BOOST_INTERVAL: nat := 500

  function Quantum(level: nat): (q: nat)
    requires level < LEVELS
    ensures 1 <= q <= 32
  {
    match level
    case 0 => 1
    case 1 => 2
    case 2 => 4
    case 3 => 8
    case 4 => 16
    case 5 => 32
  }

  datatype TaskState = Ready | Running | Blocked | Dead

  datatype BlockReason =
    | SpscRingEmpty(producer: nat)
    | SpscRingFull(consumer: nat)
    | MutexContention | Sleep | FileRead | Yield | Waiting

  /** The scheduling part of a task control block. */
  datatype Task = Task(id: nat, state: TaskState, priority: nat, ticksUsed: nat, awakePending: bool)

  /** `current` is None before the scheduler is started (the sentinel NO_TASK). */
  datatype Sched = Sched(tasks: seq<Option<Task>>, queues: seq<seq<nat>>, current: Option<nat>, boostCountdown: nat, nextId: nat)

  function Init(): (s: Sched)
    ensures |s.tasks| == MAX_TASKS && |s.queues| == LEVELS
  {
    Sched(seq(MAX_TASKS, _ => None), seq(LEVELS, _ => []), None, BOOST_INTERVAL, 0)
  }

  // ---- Queues -------------------------------------------------------------------------------------

  /** `TaskQueue::remove`. */
  function Without(q: seq<nat>, slot: nat): (r: seq<nat>)
    ensures slot !in r
    ensures forall x :: x in r <==> x in q && x != slot
    ensures slot !in q ==> r == q
    ensures |r| <= |q|
  {
    if q == [] then []
    else if q[|q| - 1] == slot then Without(q[..|q| - 1], slot)
    else Without(q[..|q| - 1], slot) + [q[|q| - 1]]
  }

  predicate IsReady(tasks: seq<Option<Task>>, slot: nat) {
    slot < |tasks| && tasks[slot].Some? && tasks[slot].value.state == Ready
  }

  /** The inner loop of `pick_next`: entries of one queue are popped up to a Ready one. */
  function PopReady(tasks: seq<Option<Task>>, q: seq<nat>): (r: (Option<nat>, seq<nat>))
    decreases |q|
  {
    if q == [] then (None, [])
    else if IsReady(tasks, q[0]) then (Some(q[0]), q[1..])
    else PopReady(tasks, q[1..])
  }

  /** `pick_next` from level `l` down. */
  function PickFrom(tasks: seq<Option<Task>>, queues: seq<seq<nat>>, l: nat): (r: (Option<nat>, seq<seq<nat>>))
    ensures |r.1| == |queues|
    decreases |queues| - l
  {
    if l >= |queues| then (None, queues)
    else
      var (slot, rest) := PopReady(tasks, queues[l]);
      if slot.Some? then (slot, queues[l := rest]) else PickFrom(tasks, queues[l := rest], l + 1)
  }

  // ---- Operations ---------------------------------------------------------------------------------

  function PutTask(s: Sched, slot: nat, t: Task): Sched
    requires slot < |s.tasks|
  {
    s.(tasks := s.tasks[slot := Some(t)])
  }

  function PushBack(queues: seq<seq<nat>>, l: nat, slot: nat): seq<seq<nat>>
    requires l < |queues|
  {
    queues[l := queues[l] + [slot]]
  }

  function PushFront(queues: seq<seq<nat>>, l: nat, slot: nat): seq<seq<nat>>
    requires l < |queues|
  {
    queues[l := [slot] + queues[l]]
  }

  function RemoveSlot(queues: seq<seq<nat>>, l: nat, slot: nat): seq<seq<nat>>
    requires l < |queues|
  {
    queues[l := Without(queues[l], slot)]
  }

  function Popped(queues: seq<seq<nat>>, l: nat): seq<seq<nat>>
    requires l < |queues|
  {
    queues[l := if queues[l] == [] then [] else queues[l][1..]]
  }

  function Head(queues: seq<seq<nat>>, l: nat): Option<nat>
    requires l < |queues|
  {
    if queues[l] == [] then None else Some(queues[l][0])
  }

  /** Task `t` is stored in `slot` and the slot joins the back of its queue. */
  function Enqueued(s: Sched, slot: nat, t: Task): Sched
    requires slot < |s.tasks| && t.priority < |s.queues|
  {
    s.(tasks := s.tasks[slot := Some(t)], queues := PushBack(s.queues, t.priority, slot))
  }

  function Move(queues: seq<seq<nat>>, from: nat, slot: nat, to: nat, front: bool): seq<seq<nat>>
    requires from < |queues| && to < |queues|
  {
    var q := RemoveSlot(queues, from, slot);
    if front then PushFront(q, to, slot) else PushBack(q, to, slot)
  }

  function FreeSlot(tasks: seq<Option<Task>>, from: nat): (r: Option<nat>)
    ensures r.Some? ==> r.value < |tasks| && tasks[r.value].None? && forall i :: from <= i < r.value ==> tasks[i].Some?
    ensures r.None? ==> forall i :: from <= i < |tasks| ==> tasks[i].Some?
    decreases |tasks| - from
  {
    if from >= |tasks| then None
    else if tasks[from].None? then Some(from)
    else FreeSlot(tasks, from + 1)
  }

  /** `spawn` and the user variants; `stack` says whether the kernel stack could be allocated. The id is
      used up also when it could not. */
  function Spawn(s: Sched, priority: nat, stack: bool): Sched
    requires |s.queues| == LEVELS && priority < LEVELS
  {
    match FreeSlot(s.tasks, 0)
    case None => s
    case Some(slot) =>
      if !stack then s.(nextId := s.nextId + 1)
      else Enqueued(s, slot, Task(s.nextId, Ready, priority, 0, false)).(nextId := s.nextId + 1)
  }

  /** `kill`. */
  function Kill(s: Sched, slot: nat): Sched
    requires slot < |s.tasks| && (s.tasks[slot].Some? ==> s.tasks[slot].value.priority < |s.queues|)
  {
    match s.tasks[slot]
    case None => s
    case Some(t) =>
      s.(tasks := s.tasks[slot := Some(t.(state := Dead))],
         queues := RemoveSlot(s.queues, t.priority, slot))
  }

  /** Sets a task to level 0 with a fresh quantum; if it is queued below, it moves to the front of queue 0. */
  function BoostToTop(s: Sched, slot: nat): Sched
    requires slot < |s.tasks| && |s.queues| == LEVELS && (s.tasks[slot].Some? ==> s.tasks[slot].value.priority < LEVELS)
  {
    match s.tasks[slot]
    case None => s
    case Some(t) =>
      s.(tasks := s.tasks[slot := Some(t.(priority := 0, ticksUsed := 0))],
         queues := if t.state == Ready && t.priority != 0 then Move(s.queues, t.priority, slot, 0, true) else s.queues)
  }

  /** One level up with a fresh quantum; a queued task moves to the back of its new queue. */
  function BoostOne(s: Sched, slot: nat): Sched
    requires slot < |s.tasks| && |s.queues| == LEVELS && (s.tasks[slot].Some? ==> s.tasks[slot].value.priority < LEVELS)
  {
    match s.tasks[slot]
    case None => s
    case Some(t) =>
      var p := if t.priority > 0 then t.priority - 1 else 0;
      s.(tasks := s.tasks[slot := Some(t.(priority := p, ticksUsed := 0))],
         queues := if t.state == Ready && t.priority != p then Move(s.queues, t.priority, slot, p, false) else s.queues)
  }

  /** The other task named by a reason. */
  predicate ReasonOk(reason: BlockReason) {
    match reason
    case SpscRingEmpty(p) => p < MAX_TASKS
    case SpscRingFull(c) => c < MAX_TASKS
    case _ => true
  }

  predicate Sized(s: Sched) {
    |s.tasks| == MAX_TASKS && |s.queues| == LEVELS
    && forall i :: 0 <= i < MAX_TASKS && s.tasks[i].Some? ==> s.tasks[i].value.priority < LEVELS
  }

  /** `boost_for_reason`. */
  function BoostForReason(s: Sched, slot: nat, reason: BlockReason): Sched
    requires Sized(s) && slot < MAX_TASKS && ReasonOk(reason)
  {
    match reason
    case SpscRingEmpty(p) =>
      var s1 := BoostToTop(s, p);
      if s1.tasks[slot].Some? then PutTask(s1, slot, s1.tasks[slot].value.(priority := 0, ticksUsed := 0)) else s1
    case SpscRingFull(c) => BoostToTop(s, c)
    case FileRead => BoostOne(s, slot)
    case MutexContention => BoostOne(s, slot)
    case _ => s
  }

  /** `reschedule` up to the context switch. When nothing is Ready the old slot goes on, whatever its state. */
  function Reschedule(s: Sched): Sched
    requires Sized(s) && s.current.Some? && s.current.value < MAX_TASKS
  {
    var prev := s.current.value;
    var s1 := RequeueOld(s);
    var (slot, queues) := PickFrom(s1.tasks, s1.queues, 0);
    Switch(s1.(queues := queues), prev, slot)
  }

  /** The end of `reschedule`: the picked task, or else the old one, runs. */
  function Switch(s: Sched, prev: nat, slot: Option<nat>): Sched {
    if slot.None? || slot.value == prev then Resume(s, prev) else Resume(s.(current := slot), slot.value)
  }

  function RequeueOld(s: Sched): Sched
    requires Sized(s) && s.current.Some? && s.current.value < MAX_TASKS
  {
    var prev := s.current.value;
    if s.tasks[prev].Some? && s.tasks[prev].value.state == Running then
      var t := s.tasks[prev].value;
      Enqueued(s, prev, t.(state := Ready))
    else s
  }

  function Resume(s: Sched, slot: nat): Sched {
    if slot < |s.tasks| && s.tasks[slot].Some? then PutTask(s, slot, s.tasks[slot].value.(state := Running)) else s
  }

  /** `block_current` with the reschedule it ends in. */
  function Block(s: Sched, reason: BlockReason): Sched
    requires Sized(s) && s.current.Some? && s.current.value < MAX_TASKS && ReasonOk(reason)
  {
    Reschedule(BlockMark(s, reason))
  }

  /** `block_current` before the reschedule. */
  function BlockMark(s: Sched, reason: BlockReason): (r: Sched)
    requires Sized(s) && s.current.Some? && s.current.value < MAX_TASKS && ReasonOk(reason)
    ensures Sized(r) && r.current == s.current
  {
    var slot := s.current.value;
    if s.tasks[slot].Some? then BoostForReason(PutTask(s, slot, s.tasks[slot].value.(state := Blocked)), slot, reason) else s
  }

  /** `exit_current` with the reschedule it ends in. */
  function Exit(s: Sched): Sched
    requires Sized(s) && s.current.Some? && s.current.value < MAX_TASKS
  {
    Reschedule(Kill(s, s.current.value))
  }

  function FindId(tasks: seq<Option<Task>>, id: nat, from: nat): (r: Option<nat>)
    ensures r.Some? ==> r.value < |tasks| && tasks[r.value].Some? && tasks[r.value].value.id == id
    ensures r.Some? ==> forall i :: from <= i < r.value && tasks[i].Some? ==> tasks[i].value.id != id
    ensures r.None? ==> forall i :: from <= i < |tasks| && tasks[i].Some? ==> tasks[i].value.id != id
    decreases |tasks| - from
  {
    if from >= |tasks| then None
    else if tasks[from].Some? && tasks[from].value.id == id then Some(from)
    else FindId(tasks, id, from + 1)
  }

  /** `wake_task`. */
  function Wake(s: Sched, id: nat): Sched
    requires Sized(s)
  {
    match FindId(s.tasks, id, 0)
    case None => s
    case Some(slot) =>
      var t := s.tasks[slot].value;
      if t.state == Blocked
      then Enqueued(s, slot, t.(state := Ready))
      else PutTask(s, slot, t.(awakePending := true))
  }

  function BoostTask(tasks: seq<Option<Task>>, slot: nat): seq<Option<Task>>
    requires slot < |tasks|
  {
    if tasks[slot].Some? then tasks[slot := Some(tasks[slot].value.(priority := 0, ticksUsed := 0))] else tasks
  }

  /** The drain of one queue in `boost_all`. */
  function Boosted(tasks: seq<Option<Task>>, q: seq<nat>): (r: seq<Option<Task>>)
    ensures |r| == |tasks|
    ensures forall i :: 0 <= i < |tasks| ==>
              r[i] == if i in q && tasks[i].Some? then Some(tasks[i].value.(priority := 0, ticksUsed := 0)) else tasks[i]
  {
    seq(|tasks|, i requires 0 <= i < |tasks| =>
      if i in q && tasks[i].Some? then Some(tasks[i].value.(priority := 0, ticksUsed := 0)) else tasks[i])
  }

  /** `boost_all` for the queues from level `l` on. */
  function BoostFrom(s: Sched, l: nat): (r: Sched)
    requires 1 <= l && |s.queues| == LEVELS
    ensures |r.queues| == LEVELS && |r.tasks| == |s.tasks| && r.current == s.current
    decreases |s.queues| - l, s
  {
    if l >= LEVELS then s else BoostFrom(Drained(s, l), l + 1)
  }

  function Drained(s: Sched, l: nat): Sched
    requires 1 <= l < LEVELS && |s.queues| == LEVELS
  {
    s.(tasks := Boosted(s.tasks, s.queues[l]), queues := s.queues[0 := s.queues[0] + s.queues[l]][l := []])
  }

  /** The accounting of `tick`: the countdown and the boost. */
  function TickBoost(s: Sched): Sched
    requires |s.queues| == LEVELS && s.boostCountdown > 0
  {
    if s.boostCountdown == 1 then BoostFrom(s, 1).(boostCountdown := BOOST_INTERVAL)
    else s.(boostCountdown := s.boostCountdown - 1)
  }

  /** `tick` of the timer, with the reschedule when the quantum is used up. */
  function Tick(s: Sched): Sched
    requires Sized(s) && s.boostCountdown > 0 && (s.current.Some? ==> s.current.value < MAX_TASKS)
    requires Sized(TickBoost(s))
  {
    TickCurrent(TickBoost(s))
  }

  /** `demote_current`: one level down, with a fresh quantum. */
  function Demote(t: Task): Task {
    t.(ticksUsed := 0, priority := if t.priority < LEVELS - 1 then t.priority + 1 else t.priority)
  }

  function Expired(s: Sched): (r: Sched)
    requires Sized(s) && s.current.Some? && s.current.value < MAX_TASKS && s.tasks[s.current.value].Some?
    ensures Sized(r) && r.current == s.current
  {
    PutTask(s, s.current.value, Demote(s.tasks[s.current.value].value))
  }

  function TickCurrent(s: Sched): Sched
    requires Sized(s) && (s.current.Some? ==> s.current.value < MAX_TASKS)
  {
    if s.current.None? || s.tasks[s.current.value].None? then s
    else
      var slot, t := s.current.value, s.tasks[s.current.value].value;
      if t.ticksUsed + 1 >= Quantum(t.priority)
      then Reschedule(Expired(s))
      else PutTask(s, slot, t.(ticksUsed := t.ticksUsed + 1))
  }

  /** `run`: the first task is picked. It panics when nothing is Ready. */
  function Start(s: Sched): Sched
    requires Sized(s) && PickFrom(s.tasks, s.queues, 0).0.Some?
  {
    var (slot, queues) := PickFrom(s.tasks, s.queues, 0);
    Resume(s.(queues := queues, current := slot), slot.value)
  }

  /** `replace_current_task`: the current task becomes a new program at level 1. */
  function Exec(s: Sched): Sched
    requires Sized(s) && s.current.Some? && s.current.value < MAX_TASKS && s.tasks[s.current.value].Some?
  {
    PutTask(s, s.current.value, Task(s.tasks[s.current.value].value.id, Running, 1, 0, false))
  }
}
