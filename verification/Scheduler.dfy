/** The scheduler as the kernel runs it: 64-entry circular queues and an array of tasks, changed in place.
    Each method is proved to do what the function of the same purpose in `Mlfq` does. */
module Scheduler {
  import opened Wrappers
  import opened Arith
  import opened Mlfq
  import opened SchedulerInvariant
  import opened SchedulerSteps

  /** The position after `i` places in a ring of 64. */
  function Wrap(i: nat): (r: nat)
    requires i < 2 * MAX_TASKS
    ensures r < MAX_TASKS
  {
    if i < MAX_TASKS then i else i - MAX_TASKS
  }

  /** The `len` entries of a ring from `head` on. */
  function Ring(b: seq<nat>, head: nat, len: nat): (q: seq<nat>)
    requires |b| == MAX_TASKS && head < MAX_TASKS && len <= MAX_TASKS
    ensures |q| == len
  {
    seq(len, i requires 0 <= i < len => b[Wrap(head + i)])
  }

  lemma RingAt(b: seq<nat>, head: nat, len: nat)
    requires |b| == MAX_TASKS && head < MAX_TASKS && len <= MAX_TASKS
    ensures forall i :: 0 <= i < len ==> Ring(b, head, len)[i] == b[Wrap(head + i)]
  {
  }

  lemma RingBack(b: seq<nat>, head: nat, len: nat, id: nat)
    requires |b| == MAX_TASKS && head < MAX_TASKS && len < MAX_TASKS
    ensures Ring(b[Wrap(head + len) := id], head, len + 1) == Ring(b, head, len) + [id]
  {
    RingAt(b, head, len);
    RingAt(b[Wrap(head + len) := id], head, len + 1);
  }

  lemma RingFront(b: seq<nat>, head: nat, len: nat, id: nat)
    requires |b| == MAX_TASKS && head < MAX_TASKS && len < MAX_TASKS
    ensures var h := if head == 0 then MAX_TASKS - 1 else head - 1;
            Ring(b[h := id], h, len + 1) == [id] + Ring(b, head, len)
  {
    var h := if head == 0 then MAX_TASKS - 1 else head - 1;
    RingAt(b, head, len);
    RingAt(b[h := id], h, len + 1);
  }

  lemma RingPop(b: seq<nat>, head: nat, len: nat)
    requires |b| == MAX_TASKS && head < MAX_TASKS && 0 < len <= MAX_TASKS
    ensures Ring(b, head, len)[0] == b[head]
    ensures Ring(b, Wrap(head + 1), len - 1) == Ring(b, head, len)[1..]
  {
    RingAt(b, head, len);
    RingAt(b, Wrap(head + 1), len - 1);
  }

  /** A ring of slots for one priority level. */
  class TaskQueue {
    const buf: array<nat>
    var head: nat
    var tail: nat
    var len: nat

    ghost predicate Valid()
      reads this
    {
      && buf.Length == MAX_TASKS && head < MAX_TASKS && len <= MAX_TASKS
      && tail == Wrap(head + len)
    }

    ghost function Contents(): (q: seq<nat>)
      requires Valid()
      reads this, buf
    {
      Ring(buf[..], head, len)
    }

    constructor ()
      ensures Valid() && Contents() == [] && fresh(buf)
    {
      buf := new nat[MAX_TASKS](_ => MAX_TASKS);
      head, tail, len := 0, 0, 0;
    }

    method PushBack(id: nat)
      requires Valid()
      modifies this, buf
      ensures Valid()
      ensures Contents() == if |old(Contents())| < MAX_TASKS then old(Contents()) + [id] else old(Contents())
    {
      if len >= MAX_TASKS { return; }
      RingBack(buf[..], head, len, id);
      buf[tail] := id;
      tail := (tail + 1) % MAX_TASKS;
      len := len + 1;
      assert buf[..] == old(buf[..])[old(tail) := id];
    }

    method PushFront(id: nat)
      requires Valid()
      modifies this, buf
      ensures Valid()
      ensures Contents() == if |old(Contents())| < MAX_TASKS then [id] + old(Contents()) else old(Contents())
    {
      if len >= MAX_TASKS { return; }
      RingFront(buf[..], head, len, id);
      head := if head == 0 then MAX_TASKS - 1 else head - 1;
      buf[head] := id;
      len := len + 1;
      assert buf[..] == old(buf[..])[head := id];
    }

    method PopFront() returns (r: Option<nat>)
      requires Valid()
      modifies this
      ensures Valid()
      ensures var q := old(Contents());
              if q == [] then r == None && Contents() == [] else r == Some(q[0]) && Contents() == q[1..]
    {
      if len == 0 { return None; }
      RingPop(buf[..], head, len);
      r := Some(buf[head]);
      head := (head + 1) % MAX_TASKS;
      len := len - 1;
    }

    /** `*self = new`. */
    method Become(other: TaskQueue)
      requires other.Valid() && buf.Length == MAX_TASKS && other.buf != buf
      modifies this, buf
      ensures Valid() && Contents() == old(other.Contents())
    {
      forall i | 0 <= i < MAX_TASKS { buf[i] := other.buf[i]; }
      head, tail, len := other.head, other.tail, other.len;
      assert buf[..] == old(other.buf[..]);
    }

    /** The loop of `remove`: the entries are popped one by one, and those other than `id` pushed to `kept`. */
    method FilterInto(kept: TaskQueue, id: nat)
      requires Valid() && kept.Valid() && kept != this && kept.buf != buf && kept.Contents() == []
      modifies this, kept, kept.buf
      ensures Valid() && kept.Valid()
      ensures kept.Contents() == Without(old(Contents()), id)
    {
      ghost var q := Contents();
      ghost var k := 0;
      var next := PopFront();
      while next.Some?
        invariant Valid() && kept.Valid()
        invariant 0 <= k <= |q| <= MAX_TASKS && kept.Contents() == Without(q[..k], id)
        invariant if next.None? then k == |q| else k < |q| && next.value == q[k] && Contents() == q[k + 1..]
        decreases |q| - k
      {
        WithoutStep(q, k, id);
        if next.value != id { kept.PushBack(next.value); }
        k := k + 1;
        next := PopFront();
      }
      assert q[..k] == q;
    }

    /** `remove`. */
    method Remove(id: nat)
      requires Valid()
      modifies this, buf
      ensures Valid()
      ensures Contents() == Without(old(Contents()), id)
    {
      var kept := new TaskQueue();
      FilterInto(kept, id);
      Become(kept);
    }
  }

  lemma WithoutStep(q: seq<nat>, k: nat, id: nat)
    requires k < |q|
    ensures Without(q[..k + 1], id) == if q[k] == id then Without(q[..k], id) else Without(q[..k], id) + [q[k]]
    ensures |Without(q[..k], id)| <= k
  {
    assert q[..k + 1][..k] == q[..k];
  }

  class MlfqScheduler {
    const tasks: array<Option<Task>>
    const queues: seq<TaskQueue>
    var current: Option<nat>
    var boostCountdown: nat
    var nextId: nat

    ghost function Rings(): set<object> {
      (set q: TaskQueue | q in queues :: q as object) + (set q: TaskQueue | q in queues :: q.buf as object)
    }

    /** The queues are separate objects with separate rings. */
    ghost predicate Valid()
      reads queues
    {
      && tasks.Length == MAX_TASKS && |queues| == LEVELS
      && (forall l :: 0 <= l < LEVELS ==> queues[l].Valid())
      && (forall k, l :: 0 <= k < l < LEVELS ==> queues[k] != queues[l] && queues[k].buf != queues[l].buf)
    }

    ghost function QueueView(): (r: seq<seq<nat>>)
      requires Valid()
      reads queues, Rings()
      ensures |r| == LEVELS && forall l :: 0 <= l < LEVELS ==> r[l] == queues[l].Contents()
    {
      seq(LEVELS, l requires 0 <= l < LEVELS && Valid() reads queues, Rings() => queues[l].Contents())
    }

    ghost function View(): Sched
      requires Valid()
      reads this, tasks, queues, Rings()
    {
      Sched(tasks[..], QueueView(), current, boostCountdown, nextId)
    }

    /** A scheduler over six empty queues. */
    constructor (queues: seq<TaskQueue>)
      requires |queues| == LEVELS && forall l :: 0 <= l < LEVELS ==> queues[l].Valid() && queues[l].Contents() == []
      requires forall k, l :: 0 <= k < l < LEVELS ==> queues[k] != queues[l] && queues[k].buf != queues[l].buf
      ensures Valid() && View() == Init() && this.queues == queues && fresh(tasks)
    {
      tasks := new Option<Task>[MAX_TASKS](_ => None);
      this.queues := queues;
      current, boostCountdown, nextId := None, BOOST_INTERVAL, 0;
      new;
      assert QueueView() == Init().queues;
      assert tasks[..] == Init().tasks;
    }

    /** `queues[l].push_back(slot)`; the queue has room. */
    method PushBackTo(l: nat, slot: nat)
      requires Valid() && l < LEVELS && |View().queues[l]| < MAX_TASKS
      modifies Rings()
      ensures Valid() && View() == old(View()).(queues := PushBack(old(View()).queues, l, slot))
    {
      queues[l].PushBack(slot);
      assert QueueView() == PushBack(old(QueueView()), l, slot);
    }

    method PushFrontTo(l: nat, slot: nat)
      requires Valid() && l < LEVELS && |View().queues[l]| < MAX_TASKS
      modifies Rings()
      ensures Valid() && View() == old(View()).(queues := PushFront(old(View()).queues, l, slot))
    {
      queues[l].PushFront(slot);
      assert QueueView() == PushFront(old(QueueView()), l, slot);
    }

    method RemoveFrom(l: nat, slot: nat)
      requires Valid() && l < LEVELS
      modifies Rings()
      ensures Valid() && View() == old(View()).(queues := RemoveSlot(old(View()).queues, l, slot))
    {
      queues[l].Remove(slot);
      assert QueueView() == RemoveSlot(old(QueueView()), l, slot);
    }

    method PopFrom(l: nat) returns (r: Option<nat>)
      requires Valid() && l < LEVELS
      modifies Rings()
      ensures Valid() && View() == old(View()).(queues := Popped(old(View()).queues, l))
      ensures r == Head(old(View()).queues, l)
    {
      r := queues[l].PopFront();
      assert QueueView() == Popped(old(QueueView()), l);
    }

    method WriteTask(slot: nat, t: Task)
      requires Valid() && slot < MAX_TASKS
      modifies tasks
      ensures Valid() && View() == PutTask(old(View()), slot, t)
    {
      tasks[slot] := Some(t);
      assert tasks[..] == old(tasks[..])[slot := Some(t)];
    }

    /** Stores a task and pushes its slot; the queue has room. */
    method EnqueueTask(slot: nat, t: Task)
      requires Valid() && slot < MAX_TASKS && t.priority < LEVELS && |View().queues[t.priority]| < MAX_TASKS
      modifies tasks, Rings()
      ensures Valid() && View() == Enqueued(old(View()), slot, t)
    {
      tasks[slot] := Some(t);
      PushBackTo(t.priority, slot);
      assert tasks[..] == old(tasks[..])[slot := Some(t)];
    }

    // ---- Task management --------------------------------------------------------------------------

    method FindFreeSlot() returns (r: Option<nat>)
      requires Valid()
      ensures r == FreeSlot(tasks[..], 0)
    {
      for i := 0 to MAX_TASKS
        invariant FreeSlot(tasks[..], 0) == FreeSlot(tasks[..], i)
      {
        if tasks[i].None? { return Some(i); }
      }
      return None;
    }

    /** `spawn` (with the level already capped) and the user variants; it answers the slot. */
    method SpawnTask(priority: nat, stack: bool) returns (r: Option<nat>)
      requires Valid() && Inv(View()) && priority < LEVELS
      modifies this, tasks, Rings()
      ensures Valid() && View() == Spawn(old(View()), priority, stack)
      ensures r == if stack then FreeSlot(old(tasks[..]), 0) else None
    {
      r := FindFreeSlot();
      if r.None? { return; }
      var id := nextId;
      nextId := nextId + 1;
      if !stack { return None; }
      var t := Task(id, Ready, priority, 0, false);
      Enqueue(tasks[..], QueueView(), r.value, t, false);
      EnqueueTask(r.value, t);
    }

    /** `kill`. */
    method KillTask(slot: nat)
      requires Valid() && QueuesOk(View().tasks, View().queues) && slot < MAX_TASKS
      modifies tasks, Rings()
      ensures Valid() && View() == Kill(old(View()), slot)
      ensures QueuesOk(View().tasks, View().queues) && Killed(old(View()), View(), slot)
    {
      KillKeepsQueues(View(), slot);
      match tasks[slot]
      case None =>
      case Some(t) =>
        tasks[slot] := Some(t.(state := Dead));
        RemoveFrom(t.priority, slot);
        assert tasks[..] == old(tasks[..])[slot := Some(t.(state := Dead))];
    }

    // ---- Scheduling -------------------------------------------------------------------------------

    /** The inner loop of `pick_next`. */
    method PopReadyFrom(l: nat) returns (r: Option<nat>)
      requires Valid() && l < LEVELS
      modifies Rings()
      ensures Valid()
      ensures var s := old(View());
              var (slot, rest) := PopReady(s.tasks, s.queues[l]);
              r == slot && View() == s.(queues := s.queues[l := rest])
    {
      ghost var s, rest := View(), View().queues[l];
      assert s.queues[l := rest] == s.queues;
      var next := PopFrom(l);
      while next.Some?
        invariant Valid() && PopReady(s.tasks, rest) == PopReady(s.tasks, s.queues[l])
        invariant next == (if rest == [] then None else Some(rest[0]))
        invariant View() == s.(queues := s.queues[l := if rest == [] then [] else rest[1..]])
        decreases |rest|
      {
        if next.value < MAX_TASKS && tasks[next.value].Some? && tasks[next.value].value.state == Ready {
          return next;
        }
        rest := rest[1..];
        next := PopFrom(l);
      }
      return None;
    }

    /** `pick_next`. */
    method PickNext() returns (r: Option<nat>)
      requires Valid()
      modifies Rings()
      ensures Valid()
      ensures var s := old(View());
              var (slot, queues) := PickFrom(s.tasks, s.queues, 0);
              r == slot && View() == s.(queues := queues)
    {
      ghost var s := View();
      for l := 0 to LEVELS
        invariant Valid() && View() == s.(queues := View().queues)
        invariant PickFrom(s.tasks, View().queues, l) == PickFrom(s.tasks, s.queues, 0)
      {
        r := PopReadyFrom(l);
        if r.Some? { return; }
      }
      return None;
    }

    /** The part of `reschedule` that puts a Running task back into its queue. */
    method RequeueCurrent()
      requires Valid() && Pausing(View())
      modifies tasks, Rings()
      ensures Valid() && Sized(old(View())) && View() == RequeueOld(old(View()))
    {
      var prev := current.value;
      var t := tasks[prev].value;
      if t.state == Running {
        Enqueue(tasks[..], QueueView(), prev, t.(state := Ready), false);
        EnqueueTask(prev, t.(state := Ready));
      }
    }

    method SetRunning(slot: nat)
      requires Valid()
      modifies tasks
      ensures Valid() && View() == Resume(old(View()), slot)
    {
      if slot < MAX_TASKS && tasks[slot].Some? {
        var t := tasks[slot].value.(state := Running);
        tasks[slot] := Some(t);
        assert tasks[..] == old(tasks[..])[slot := Some(t)];
      }
    }

    method SwitchTo(prev: nat, next: Option<nat>)
      requires Valid()
      modifies this, tasks
      ensures Valid() && View() == Switch(old(View()), prev, next)
    {
      if next.None? || next.value == prev {
        SetRunning(prev);
        return;
      }
      current := next;
      SetRunning(next.value);
    }

    /** `reschedule`, up to the context switch. */
    method DoReschedule()
      requires Valid() && Pausing(View())
      modifies this, tasks, Rings()
      ensures Valid() && Sized(old(View())) && View() == Reschedule(old(View()))
    {
      var prev := current.value;
      RequeueCurrent();
      var next := PickNext();
      SwitchTo(prev, next);
    }

    // ---- Blocking and waking ----------------------------------------------------------------------

    method MoveSlot(from: nat, slot: nat, to: nat, front: bool)
      requires Valid() && from < LEVELS && to < LEVELS && from != to && |View().queues[to]| < MAX_TASKS
      modifies Rings()
      ensures Valid() && View() == old(View()).(queues := Move(old(View()).queues, from, slot, to, front))
    {
      RemoveFrom(from, slot);
      if front {
        PushFrontTo(to, slot);
      } else {
        PushBackTo(to, slot);
      }
    }

    /** The first two cases of `boost_for_reason`, for the slot they boost. */
    method BoostSlotToTop(slot: nat)
      requires Valid() && QueuesOk(View().tasks, View().queues) && slot < MAX_TASKS
      modifies tasks, Rings()
      ensures Valid() && View() == BoostToTop(old(View()), slot)
    {
      if tasks[slot].None? { return; }
      var t := tasks[slot].value;
      if t.state == Ready && t.priority != 0 {
        MoveRoom(tasks[..], QueueView(), slot, 0);
        MoveSlot(t.priority, slot, 0, true);
      }
      WriteTask(slot, t.(priority := 0, ticksUsed := 0));
    }

    /** The case of `boost_for_reason` for file reads and mutexes. */
    method BoostSlotOne(slot: nat)
      requires Valid() && QueuesOk(View().tasks, View().queues) && slot < MAX_TASKS
      modifies tasks, Rings()
      ensures Valid() && View() == BoostOne(old(View()), slot)
    {
      if tasks[slot].None? { return; }
      var t := tasks[slot].value;
      var p := if t.priority > 0 then t.priority - 1 else 0;
      if t.state == Ready && t.priority != p {
        MoveRoom(tasks[..], QueueView(), slot, p);
        MoveSlot(t.priority, slot, p, false);
      }
      WriteTask(slot, t.(priority := p, ticksUsed := 0));
    }

    /** `boost_for_reason`. */
    method BoostFor(slot: nat, reason: BlockReason)
      requires Valid() && QueuesOk(View().tasks, View().queues) && slot < MAX_TASKS && ReasonOk(reason)
      modifies tasks, Rings()
      ensures Valid() && Sized(old(View())) && View() == BoostForReason(old(View()), slot, reason)
    {
      match reason
      case SpscRingEmpty(p) =>
        BoostSlotToTop(p);
        if tasks[slot].Some? { WriteTask(slot, tasks[slot].value.(priority := 0, ticksUsed := 0)); }
      case SpscRingFull(c) => BoostSlotToTop(c);
      case FileRead => BoostSlotOne(slot);
      case MutexContention => BoostSlotOne(slot);
      case Sleep =>
      case Yield =>
      case Waiting =>
    }

    /** `block_current` before the reschedule. */
    method MarkBlocked(reason: BlockReason)
      requires Valid() && Inv(View()) && current.Some? && ReasonOk(reason)
      modifies tasks, Rings()
      ensures Valid() && Sized(old(View())) && View() == BlockMark(old(View()), reason)
    {
      var slot := current.value;
      var t := tasks[slot].value.(state := Blocked);
      ChangeUnqueued(tasks[..], QueueView(), slot, t);
      WriteTask(slot, t);
      BoostFor(slot, reason);
    }

    /** `block_current`, with its reschedule. */
    method BlockCurrent(reason: BlockReason)
      requires Valid() && Inv(View()) && current.Some? && ReasonOk(reason)
      modifies this, tasks, Rings()
      ensures Valid() && Sized(old(View())) && View() == Block(old(View()), reason)
    {
      BlockPausing(View(), reason);
      MarkBlocked(reason);
      DoReschedule();
    }

    method FindTask(id: nat) returns (r: Option<nat>)
      requires Valid()
      ensures r == FindId(tasks[..], id, 0)
    {
      for i := 0 to MAX_TASKS
        invariant FindId(tasks[..], id, 0) == FindId(tasks[..], id, i)
      {
        if tasks[i].Some? && tasks[i].value.id == id { return Some(i); }
      }
      return None;
    }

    /** `wake_task`. */
    method WakeTask(id: nat)
      requires Valid() && Inv(View())
      modifies tasks, Rings()
      ensures Valid() && Sized(old(View())) && View() == Wake(old(View()), id)
    {
      var slot := FindTask(id);
      if slot.None? { return; }
      var t := tasks[slot.value].value;
      if t.state == Blocked {
        Enqueue(tasks[..], QueueView(), slot.value, t.(state := Ready), false);
        EnqueueTask(slot.value, t.(state := Ready));
      } else {
        WriteTask(slot.value, t.(awakePending := true));
      }
    }

    /** `exit_current`, with its reschedule. */
    method ExitCurrent()
      requires Valid() && Inv(View()) && current.Some?
      modifies this, tasks, Rings()
      ensures Valid() && Sized(old(View())) && View() == Exit(old(View()))
      ensures IsDead(View(), old(current.value)) <==> AnyReady(old(View()))
      ensures current == old(current) <==> !AnyReady(old(View()))
    {
      ExitExact(View());
      KillPausing(View());
      KillTask(current.value);
      DoReschedule();
    }

    // ---- The timer --------------------------------------------------------------------------------

    /** The inner loop of `boost_all`: queue `l` is drained into queue 0. */
    method DrainLevel(l: nat)
      requires Valid() && 1 <= l < LEVELS && |View().queues[0]| + |View().queues[l]| <= MAX_TASKS
      requires forall i :: 0 <= i < |View().queues[l]| ==> View().queues[l][i] < MAX_TASKS
      modifies tasks, Rings()
      ensures Valid() && View() == Drained(old(View()), l)
    {
      ghost var s, k := View(), 0;
      ghost var q := s.queues[l];
      DrainNone(s, l);
      var next := PopFrom(l);
      while next.Some?
        invariant Valid() && 0 <= k <= |q|
        invariant next == if k < |q| then Some(q[k]) else None
        invariant View() == Draining(s, l, k)
        decreases |q| - k
      {
        DrainStep(s, l, k);
        next := BoostAndPop(next.value, l);
        k := k + 1;
      }
      DrainAll(s, l);
    }

    /** The loop body of `boost_all` with the next pop. */
    method BoostAndPop(slot: nat, l: nat) returns (next: Option<nat>)
      requires Valid() && slot < MAX_TASKS && |View().queues[0]| < MAX_TASKS && 1 <= l < LEVELS
      modifies tasks, Rings()
      ensures Valid() && View() == BoostPop(old(View()), slot, l)
      ensures next == Head(PushBack(old(View()).queues, 0, slot), l)
    {
      if tasks[slot].Some? { WriteTask(slot, tasks[slot].value.(priority := 0, ticksUsed := 0)); }
      PushBackTo(0, slot);
      next := PopFrom(l);
    }

    /** `boost_all`. */
    method BoostAll()
      requires Valid() && QueuesOk(View().tasks, View().queues)
      modifies tasks, Rings()
      ensures Valid() && View() == BoostFrom(old(View()), 1)
    {
      ghost var before := View();
      for l := 1 to LEVELS
        invariant Valid() && QueuesOk(View().tasks, View().queues)
        invariant BoostFrom(View(), l) == BoostFrom(before, 1)
      {
        BoostLevel(tasks[..], QueueView(), l);
        RoomToJoin(tasks[..], QueueView(), l);
        DrainLevel(l);
      }
    }

    method BoostNow()
      requires Valid() && QueuesOk(View().tasks, View().queues)
      modifies this, tasks, Rings()
      ensures Valid() && View() == BoostFrom(old(View()), 1).(boostCountdown := BOOST_INTERVAL)
    {
      BoostAll();
      boostCountdown := BOOST_INTERVAL;
    }

    /** The first half of `tick`. */
    method CountDown()
      requires Valid() && Inv(View())
      modifies this, tasks, Rings()
      ensures Valid() && View() == TickBoost(old(View()))
    {
      BoostIgnoresCountdown(View(), 0, 1);
      boostCountdown := boostCountdown - 1;
      assert View() == old(View()).(boostCountdown := boostCountdown);
      if boostCountdown == 0 { BoostNow(); }
    }

    /** The timer's `tick`, with its reschedule. */
    method TimerTick()
      requires Valid() && Inv(View())
      modifies this, tasks, Rings()
      ensures Valid() && Sized(old(View())) && Sized(TickBoost(old(View()))) && View() == Tick(old(View()))
    {
      TickBoostKeeps(View());
      CountDown();
      ChargeCurrent();
    }

    /** The second half of `tick`. */
    method ChargeCurrent()
      requires Valid() && Inv(View())
      modifies this, tasks, Rings()
      ensures Valid() && Sized(old(View())) && View() == TickCurrent(old(View()))
    {
      if current.None? { return; }
      var slot := current.value;
      var t := tasks[slot].value;
      if t.ticksUsed + 1 >= Quantum(t.priority) {
        ExpiredPausing(View());
        WriteTask(slot, Demote(t));
        DoReschedule();
      } else {
        WriteTask(slot, t.(ticksUsed := t.ticksUsed + 1));
      }
    }
  }

  /** A queue other than its own has room for a Ready task. */
  lemma MoveRoom(tasks: Tasks, queues: Queues, slot: nat, to: nat)
    requires QueuesOk(tasks, queues) && IsReady(tasks, slot) && to < LEVELS && tasks[slot].value.priority != to
    ensures |queues[to]| < MAX_TASKS
  {
    assert EntriesReady(tasks, queues, to);
    QueueRoom(tasks, queues, to, slot);
  }

  lemma RoomToJoin(tasks: Tasks, queues: Queues, l: nat)
    requires QueuesOk(tasks, queues) && 1 <= l < LEVELS
    ensures |queues[0]| + |queues[l]| <= MAX_TASKS
    ensures forall i :: 0 <= i < |queues[l]| ==> queues[l][i] < MAX_TASKS
  {
    assert EntriesReady(tasks, queues, 0) && EntriesReady(tasks, queues, l) && NoDup(queues[0]) && NoDup(queues[l]);
    JoinNoDup(queues[0], queues[l]);
    var q := queues[0] + queues[l];
    forall i | 0 <= i < |q| ensures q[i] < MAX_TASKS {
      assert q[i] in queues[0] || q[i] in queues[l];
    }
    NoDupBound(q, MAX_TASKS);
    forall i | 0 <= i < |queues[l]| ensures queues[l][i] < MAX_TASKS {
      assert queues[l][i] in queues[l];
    }
  }

  /** The state when the first `k` entries of queue `l` have gone to queue 0 and the next is popped. */
  function Draining(s: Sched, l: nat, k: nat): Sched
    requires 1 <= l < |s.queues| && k <= |s.queues[l]|
  {
    var q := s.queues[l];
    s.(tasks := Boosted(s.tasks, q[..k]),
       queues := s.queues[0 := s.queues[0] + q[..k]][l := if k < |q| then q[k + 1..] else []])
  }

  /** One turn of the loop of `boost_all`. */
  function BoostPop(s: Sched, slot: nat, l: nat): Sched
    requires slot < |s.tasks| && 1 <= l < |s.queues|
  {
    s.(tasks := BoostTask(s.tasks, slot), queues := Popped(PushBack(s.queues, 0, slot), l))
  }

  lemma DrainNone(s: Sched, l: nat)
    requires 1 <= l < |s.queues|
    ensures s.(queues := Popped(s.queues, l)) == Draining(s, l, 0)
  {
    var q := s.queues[l];
    assert s.queues[0] + q[..0] == s.queues[0];
    assert s.queues[0 := s.queues[0]] == s.queues;
    assert Boosted(s.tasks, []) == s.tasks;
    assert q[..0] == [];
  }

  lemma DrainAll(s: Sched, l: nat)
    requires 1 <= l < |s.queues| == LEVELS
    ensures Draining(s, l, |s.queues[l]|) == Drained(s, l)
  {
    assert s.queues[l][..|s.queues[l]|] == s.queues[l];
  }

  lemma DrainStep(s: Sched, l: nat, k: nat)
    requires 1 <= l < |s.queues| && k < |s.queues[l]| && s.queues[l][k] < |s.tasks|
    ensures var d, q := Draining(s, l, k), s.queues[l];
            && BoostPop(d, q[k], l) == Draining(s, l, k + 1)
            && Head(PushBack(d.queues, 0, q[k]), l) == (if k + 1 < |q| then Some(q[k + 1]) else None)
            && |d.queues[0]| == |s.queues[0]| + k
  {
    var d, q := Draining(s, l, k), s.queues[l];
    BoostedStep(s.tasks, q, k);
    assert q[..k] + [q[k]] == q[..k + 1];
    assert s.queues[0] + q[..k] + [q[k]] == s.queues[0] + q[..k + 1];
    assert BoostPop(d, q[k], l).queues == Draining(s, l, k + 1).queues;
  }

  lemma {:induction false} BoostIgnoresCountdown(s: Sched, n: nat, l: nat)
    requires |s.queues| == LEVELS && l >= 1
    ensures BoostFrom(s.(boostCountdown := n), l) == BoostFrom(s, l).(boostCountdown := n)
    decreases LEVELS - l
  {
    if l < LEVELS {
      assert Drained(s.(boostCountdown := n), l) == Drained(s, l).(boostCountdown := n);
      BoostIgnoresCountdown(Drained(s, l), n, l + 1);
    }
  }

  lemma BoostedStep(tasks: Tasks, q: seq<nat>, k: nat)
    requires k < |q| && q[k] < |tasks|
    ensures Boosted(tasks, q[..k + 1]) == BoostTask(Boosted(tasks, q[..k]), q[k])
  {
    assert q[..k + 1] == q[..k] + [q[k]];
  }
}
