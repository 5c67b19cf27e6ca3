/**
 * The alarm pool as a transition system: alarms in a heap, a hardware alarm armed for the earliest of
 * them, and the interrupt handler that runs their callbacks. The steps are the critical sections
 * under the pool's lock and the events of the hardware, in any interleaving. Setting the hardware
 * alarm either reports a missed time and changes nothing, or arms the alarm; which of the two is an
 * input of the step. Times are microseconds since boot, at most the end of time.
 */
module AlarmPoolSteps {
  import opened Options

  /** at_the_end_of_time */
  const END_OF_TIME: int := 0x7fff_ffff_ffff_ffff

  /** delayed_by_us, which never goes past the end of time. */
  function DelayedBy(t: int, us: nat): int {
    if t + us > END_OF_TIME then END_OF_TIME else t + us
  }

  /** make_public_id: the reuse count of an id above the id itself. */
  function PublicId(high: nat, id: nat): nat {
    high * 256 + id
  }

  /** Where alarm_pool_alarm_callback is. */
  datatype Handler =
    | NotRunning
    | Looping                         // about to read the clock
    | AtLock(clock: int)              // about to take the lock, with the time it read
    | InCallback(id: nat, target: int) // running a callback, its node held

  datatype Pool = Pool(
    queued: map<nat, int>,   // the ids in the heap, and their targets
    free: seq<nat>,          // the free list
    highs: seq<nat>,         // the reuse count of every id
    inProgress: nat,         // alarm_in_progress
    armed: Option<int>,      // when the hardware alarm will fire
    pending: bool,           // the alarm interrupt is pending
    handler: Handler,
    forcing: nat,            // calls between their unlock and their hardware_alarm_force_irq
    now: int)

  function Max(s: Pool): nat { |s.highs| }

  /** The ids the handler holds. */
  function HeldIds(s: Pool): set<nat> {
    if s.handler.InCallback? then {s.handler.id} else {}
  }

  /** An alarm with this target would become the head of the heap. */
  predicate BecomesHead(queued: map<nat, int>, time: int) {
    forall i :: i in queued ==> time <= queued[i]
  }

  predicate IsHead(queued: map<nat, int>, id: nat) {
    id in queued && BecomesHead(queued, queued[id])
  }

  /** How add_alarm_under_lock leaves the pool for an id that is in neither the heap nor the free list. */
  function Inserted(s: Pool, id: nat, time: int, createIfPast: bool, hwMissed: bool): Pool {
    if !BecomesHead(s.queued, time) then s.(queued := s.queued[id := time])
    else if !hwMissed then s.(queued := s.queued[id := time], armed := Some(time))
    else if createIfPast then s.(queued := s.queued[id := time])
    else s.(free := s.free + [id])
  }

  /** What add_alarm_under_lock stores through its `missed` argument, if anything. */
  function MissedReport(s: Pool, time: int, hwMissed: bool): Option<bool> {
    if s.free != [] && BecomesHead(s.queued, time) then Some(hwMissed) else None
  }

  /** add_alarm_under_lock for a new alarm. */
  function Added(s: Pool, time: int, createIfPast: bool, hwMissed: bool): Pool {
    if s.free == [] then s
    else Inserted(s.(free := s.free[1..]), s.free[0], time, createIfPast, hwMissed)
  }

  /** alarm_pool_cancel_alarm */
  function Cancelled(s: Pool, alarm: nat): Pool {
    var id := alarm % 256;
    if id in s.queued then
      if 1 <= id <= Max(s) && s.highs[id - 1] == alarm / 256 % 256
      then s.(queued := s.queued - {id}, free := s.free + [id])
      else s
    else if alarm == s.inProgress then s.(inProgress := 0)
    else s
  }

  /** The critical section at the top of the handler's loop, when `id` is the head. */
  function Dispatched(s: Pool, id: nat, hwMissed: bool): Pool
    requires s.handler.AtLock? && id in s.queued
  {
    var target := s.queued[id];
    if target <= s.handler.clock then
      s.(queued := s.queued - {id}, handler := InCallback(id, target),
         inProgress := PublicId(if 1 <= id <= Max(s) then s.highs[id - 1] else 0, id))
    else if hwMissed then s.(handler := Looping)
    else s.(armed := Some(target), handler := NotRunning)
  }

  /** The critical section after a callback. */
  function Resumed(s: Pool, repeat: int, hwMissed: bool): Pool
    requires s.handler.InCallback?
  {
    var id := s.handler.id;
    var t := if s.inProgress == 0 || repeat == 0 then
               s.(free := s.free + [id],
                  highs := if 1 <= id <= Max(s) then s.highs[id - 1 := (s.highs[id - 1] + 1) % 256] else s.highs)
             else if repeat < 0 then
               Inserted(s, id, DelayedBy(s.handler.target, -repeat), true, hwMissed)
             else
               Inserted(s, id, DelayedBy(s.now, repeat), true, hwMissed);
    t.(inProgress := 0, handler := Looping)
  }

  datatype Event =
    | Add(time: int, createIfPast: bool, hwMissed: bool)
    | ForceIrq
    | Cancel(alarm: nat)
    | Tick(to: int)
    | TimerFires
    | EnterHandler
    | ReadClock
    | DispatchNone
    | Dispatch(head: nat, missed: bool)
    | CallbackReturns(repeat: int, reMissed: bool)

  /** A forced add that finds its time passed will go on to force the interrupt. */
  function AddedAndForcing(s: Pool, time: int, createIfPast: bool, hwMissed: bool): Pool {
    var t := Added(s, time, createIfPast, hwMissed);
    if createIfPast && MissedReport(s, time, hwMissed) == Some(true) then t.(forcing := s.forcing + 1) else t
  }

  predicate Enabled(s: Pool, e: Event) {
    match e
    case Add(time, _, hwMissed) => true
    case ForceIrq => s.forcing > 0
    case Cancel(alarm) => 1 <= alarm % 256 <= Max(s)
    case Tick(to) => s.now <= to
    case TimerFires => s.armed.Some? && s.armed.value <= s.now
    case EnterHandler => s.pending && s.handler == NotRunning
    case ReadClock => s.handler == Looping
    case DispatchNone => s.handler.AtLock? && s.queued == map[]
    case Dispatch(head, _) => s.handler.AtLock? && IsHead(s.queued, head)
    case CallbackReturns(_, _) => s.handler.InCallback?
  }

  function After(s: Pool, e: Event): Pool
    requires Enabled(s, e)
  {
    match e
    case Add(time, createIfPast, hwMissed) => AddedAndForcing(s, time, createIfPast, hwMissed)
    case ForceIrq => s.(forcing := s.forcing - 1, pending := true)
    case Cancel(alarm) => Cancelled(s, alarm)
    case Tick(to) => s.(now := to)
    case TimerFires => s.(armed := None, pending := true)
    case EnterHandler => s.(pending := false, handler := Looping)
    case ReadClock => s.(handler := AtLock(s.now))
    case DispatchNone => s.(handler := NotRunning)
    case Dispatch(head, missed) => Dispatched(s, head, missed)
    case CallbackReturns(repeat, reMissed) => Resumed(s, repeat, reMissed)
  }

  ghost predicate IsRun(states: seq<Pool>, events: seq<Event>) {
    && |states| == |events| + 1
    && forall i :: 0 <= i < |events| ==>
         Enabled(states[i], events[i]) && states[i + 1] == After(states[i], events[i])
  }

  /** A newly created pool with `max` ids. */
  function Created(max: nat, now: int): Pool {
    Pool(map[], seq(max, i requires 0 <= i => i + 1), seq(max, i => 0), 0, None, false, NotRunning, 0, now)
  }

  // The invariant.

  /** Every id is in exactly one of the heap, the free list and the handler's hand. */
  ghost predicate Partitioned(s: Pool) {
    && (forall j, k :: 0 <= j < k < |s.free| ==> s.free[j] != s.free[k])
    && (forall i :: i in s.free ==> 1 <= i <= Max(s) && i !in s.queued && i !in HeldIds(s))
    && (forall i :: i in s.queued ==> 1 <= i <= Max(s) && i !in HeldIds(s))
    && (s.handler.InCallback? ==> 1 <= s.handler.id <= Max(s))
    && (forall i :: 1 <= i <= Max(s) ==> i in s.free || i in s.queued || i in HeldIds(s))
  }

  /** Something will make the handler look at the heap no later than the head's target. */
  ghost predicate Served(s: Pool) {
    || s.queued == map[]
    || s.handler != NotRunning
    || s.forcing > 0
    || s.pending
    || (s.armed.Some? && BecomesHead(s.queued, s.armed.value))
  }

  /** The handler only runs callbacks whose target has come. */
  ghost predicate OnTime(s: Pool) {
    match s.handler
    case AtLock(clock) => clock <= s.now
    case InCallback(_, target) => target <= s.now
    case _ => true
  }

  ghost predicate Inv(s: Pool) {
    Partitioned(s) && Served(s) && OnTime(s)
  }

  lemma TakenFromFree(s: Pool)
    requires Partitioned(s) && s.free != []
    ensures forall i :: i in s.free <==> i == s.free[0] || i in s.free[1..]
    ensures s.free[0] !in s.free[1..]
  {
    assert s.free == [s.free[0]] + s.free[1..];
  }

  /** Putting an id that no one has into the heap or back on the free list. */
  ghost predicate PartitionedBut(s: Pool, id: nat, held: set<nat>) {
    && (forall j, k :: 0 <= j < k < |s.free| ==> s.free[j] != s.free[k])
    && (forall i :: i in s.free ==> 1 <= i <= Max(s) && i !in s.queued && i !in held && i != id)
    && (forall i :: i in s.queued ==> 1 <= i <= Max(s) && i !in held && i != id)
    && 1 <= id <= Max(s) && id !in held
    && (forall i :: 1 <= i <= Max(s) ==> i == id || i in s.free || i in s.queued || i in held)
  }

  lemma InsertedPartitioned(s: Pool, id: nat, time: int, createIfPast: bool, hwMissed: bool, t: Pool)
    requires PartitionedBut(s, id, HeldIds(t))
    requires t.queued == Inserted(s, id, time, createIfPast, hwMissed).queued
    requires t.free == Inserted(s, id, time, createIfPast, hwMissed).free && |t.highs| == |s.highs|
    requires t.handler.InCallback? ==> 1 <= t.handler.id <= Max(t)
    ensures Partitioned(t)
  {
    assert forall i :: i in s.free + [id] <==> i in s.free || i == id;
  }

  lemma AddKeepsPartition(s: Pool, time: int, createIfPast: bool, hwMissed: bool)
    requires Partitioned(s)
    ensures Partitioned(Added(s, time, createIfPast, hwMissed))
  {
    if s.free != [] {
      TakenFromFree(s);
      var u := s.(free := s.free[1..]);
      assert PartitionedBut(u, s.free[0], HeldIds(s));
      InsertedPartitioned(u, s.free[0], time, createIfPast, hwMissed, Added(s, time, createIfPast, hwMissed));
    }
  }

  lemma CancelKeepsPartition(s: Pool, alarm: nat)
    requires Partitioned(s)
    ensures Partitioned(Cancelled(s, alarm))
  {
    var id := alarm % 256;
    assert forall i :: i in s.free + [id] <==> i in s.free || i == id;
  }

  lemma ResumeKeepsPartition(s: Pool, repeat: int, hwMissed: bool)
    requires Partitioned(s) && s.handler.InCallback?
    ensures Partitioned(Resumed(s, repeat, hwMissed))
  {
    var id, t := s.handler.id, Resumed(s, repeat, hwMissed);
    assert PartitionedBut(s, id, {}) by { assert id in HeldIds(s); }
    if s.inProgress == 0 || repeat == 0 {
      assert forall i :: i in s.free + [id] <==> i in s.free || i == id;
    } else if repeat < 0 {
      InsertedPartitioned(s, id, DelayedBy(s.handler.target, -repeat), true, hwMissed, t);
    } else {
      InsertedPartitioned(s, id, DelayedBy(s.now, repeat), true, hwMissed, t);
    }
  }

  lemma StepKeepsPartition(s: Pool, e: Event)
    requires Partitioned(s) && Enabled(s, e)
    ensures Partitioned(After(s, e))
  {
    match e
    case Add(time, createIfPast, hwMissed) =>
      AddKeepsPartition(s, time, createIfPast, hwMissed);
      SameIdsPartitioned(Added(s, time, createIfPast, hwMissed), After(s, e));
    case Cancel(alarm) =>
      CancelKeepsPartition(s, alarm);
    case Dispatch(head, missed) =>
      DispatchKeepsPartition(s, head, missed);
    case CallbackReturns(repeat, reMissed) =>
      ResumeKeepsPartition(s, repeat, reMissed);
    case _ =>
      hide Partitioned;
      SameIdsPartitioned(s, After(s, e));
  }

  lemma SameIdsPartitioned(s: Pool, t: Pool)
    requires Partitioned(s) && t.queued == s.queued && t.free == s.free && |t.highs| == |s.highs|
    requires HeldIds(t) == HeldIds(s) && (t.handler.InCallback? ==> t.handler == s.handler)
    ensures Partitioned(t)
  {
  }

  lemma DispatchKeepsPartition(s: Pool, head: nat, missed: bool)
    requires Partitioned(s) && s.handler.AtLock? && head in s.queued
    ensures Partitioned(Dispatched(s, head, missed))
  {
  }

  lemma StepKeepsServed(s: Pool, e: Event)
    requires Served(s) && Enabled(s, e)
    ensures Served(After(s, e))
  {
  }

  /** Every step keeps the invariant. */
  lemma StepKeepsInv(s: Pool, e: Event)
    requires Inv(s) && Enabled(s, e)
    ensures Inv(After(s, e))
  {
    StepKeepsPartition(s, e);
    StepKeepsServed(s, e);
  }

  lemma CreatedInv(max: nat, now: int)
    ensures Inv(Created(max, now))
  {
    var s := Created(max, now);
    forall i | 1 <= i <= max ensures i in s.free {
      assert s.free[i - 1] == i;
    }
  }

  lemma {:induction false} RunKeepsInv(states: seq<Pool>, events: seq<Event>, i: nat)
    requires IsRun(states, events) && Inv(states[0]) && i < |states|
    ensures Inv(states[i])
  {
    if i > 0 {
      RunKeepsInv(states, events, i - 1);
      StepKeepsInv(states[i - 1], events[i - 1]);
    }
  }

  /**
   * No alarm is lost: in every state of every run in which the handler is not running and no forced
   * add is on its way to force the interrupt, a pool with alarms has its interrupt pending, or its
   * hardware armed no later than the target of every one of them.
   */
  lemma NoAlarmIsLost(max: nat, now: int, states: seq<Pool>, events: seq<Event>, i: nat)
    requires IsRun(states, events) && states[0] == Created(max, now) && i < |states|
    requires states[i].handler == NotRunning && states[i].forcing == 0 && states[i].queued != map[]
    ensures states[i].pending
            || (states[i].armed.Some?
                && forall a :: a in states[i].queued ==> states[i].armed.value <= states[i].queued[a])
  {
    CreatedInv(max, now);
    RunKeepsInv(states, events, i);
  }

  /** Every id is in exactly one place in every state of every run. */
  lemma IdsArePartitioned(max: nat, now: int, states: seq<Pool>, events: seq<Event>, i: nat, id: nat)
    requires IsRun(states, events) && states[0] == Created(max, now) && i < |states|
    ensures var s := states[i];
            && Max(s) == max
            && ((1 <= id <= max) <==> (id in s.queued || id in s.free || id in HeldIds(s)))
            && !(id in s.queued && id in s.free)
            && !(id in s.queued && id in HeldIds(s))
            && !(id in s.free && id in HeldIds(s))
  {
    CreatedInv(max, now);
    RunKeepsInv(states, events, i);
    RunKeepsMax(states, events, i);
  }

  lemma {:induction false} RunKeepsMax(states: seq<Pool>, events: seq<Event>, i: nat)
    requires IsRun(states, events) && i < |states|
    ensures Max(states[i]) == Max(states[0])
  {
    if i > 0 {
      StepKeepsMax(states[i - 1], events[i - 1]);
      hide After, Max;
      RunKeepsMax(states, events, i - 1);
    }
  }

  lemma StepKeepsMax(s: Pool, e: Event)
    requires Enabled(s, e)
    ensures Max(After(s, e)) == Max(s)
  {
  }

  /**
   * A callback the handler starts is for an alarm of the heap with the least target, which has come.
   */
  lemma CallbacksAreDue(max: nat, now: int, states: seq<Pool>, events: seq<Event>, i: nat)
    requires IsRun(states, events) && states[0] == Created(max, now) && i < |events|
    requires !states[i].handler.InCallback? && states[i + 1].handler.InCallback?
    ensures var h := states[i + 1].handler;
            && h.target <= states[i].now
            && h.id in states[i].queued && states[i].queued[h.id] == h.target
            && forall a :: a in states[i].queued ==> h.target <= states[i].queued[a]
  {
    hide Partitioned, Served;
    CreatedInv(max, now);
    RunKeepsInv(states, events, i);
    RunKeepsInv(states, events, i + 1);
  }

  // What the steps do to the alarms.

  /** Adding: what becomes of the head of the free list, and of nothing else. */
  lemma AddOutcome(s: Pool, time: int, createIfPast: bool, hwMissed: bool)
    ensures var t := After(s, Add(time, createIfPast, hwMissed));
            if s.free == [] then t == s
            else
              var id, isHead := s.free[0], forall i :: i in s.queued ==> time <= s.queued[i];
              && t.queued == (if isHead && hwMissed && !createIfPast then s.queued else s.queued[id := time])
              && t.free == (if isHead && hwMissed && !createIfPast then s.free[1..] + [id] else s.free[1..])
              && t.armed == (if isHead && !hwMissed then Some(time) else s.armed)
              && t.forcing == (if isHead && hwMissed && createIfPast then s.forcing + 1 else s.forcing)
              && t.highs == s.highs && t.inProgress == s.inProgress && t.handler == s.handler
              && t.pending == s.pending && t.now == s.now
  {
  }

  /**
   * Cancelling: an alarm whose id is current is taken out of the heap, and the alarm whose callback runs
   * is marked; nothing else changes.
   */
  lemma CancelOutcome(s: Pool, alarm: nat)
    requires Partitioned(s) && 1 <= alarm % 256 <= |s.highs|
    ensures var t, id := After(s, Cancel(alarm)), alarm % 256;
            if id in s.queued && s.highs[id - 1] == alarm / 256 % 256 then
              t == s.(queued := s.queued - {id}, free := s.free + [id])
            else
              t == s.(inProgress := if id !in s.queued && alarm == s.inProgress then 0 else s.inProgress)
  {
  }

  /** Dispatching: the head runs if its time has come by the clock that was read, and else is waited for. */
  lemma DispatchOutcome(s: Pool, id: nat, hwMissed: bool)
    requires Partitioned(s) && Enabled(s, Dispatch(id, hwMissed))
    ensures var t, target := After(s, Dispatch(id, hwMissed)), s.queued[id];
            if target <= s.handler.clock then
              t == s.(queued := s.queued - {id}, handler := InCallback(id, target),
                      inProgress := s.highs[id - 1] * 256 + id)
            else if hwMissed then t == s.(handler := Looping)
            else t == s.(armed := Some(target), handler := NotRunning)
  {
  }

  /**
   * After a callback: an alarm that repeats and was not cancelled is queued, for so much after its target or
   * after now, but no later than the end of time; any other gives its id back with the next reuse count.
   */
  lemma CallbackOutcome(s: Pool, repeat: int, hwMissed: bool)
    requires Partitioned(s) && s.handler.InCallback?
    ensures var t, id := After(s, CallbackReturns(repeat, hwMissed)), s.handler.id;
            && t.handler == Looping && t.inProgress == 0
            && t.pending == s.pending && t.forcing == s.forcing && t.now == s.now
            && if repeat == 0 || s.inProgress == 0 then
                 && t.queued == s.queued && t.armed == s.armed
                 && t.free == s.free + [id] && t.highs == s.highs[id - 1 := (s.highs[id - 1] + 1) % 256]
               else
                 var due := if repeat < 0 then s.handler.target - repeat else s.now + repeat;
                 var target := if due > 0x7fff_ffff_ffff_ffff then 0x7fff_ffff_ffff_ffff else due;
                 var isHead := forall i :: i in s.queued ==> target <= s.queued[i];
                 && t.queued == s.queued[id := target] && t.free == s.free && t.highs == s.highs
                 && t.armed == if isHead && !hwMissed then Some(target) else s.armed
  {
  }

  /** The hardware's events and the handler's other steps leave the alarms alone. */
  lemma OtherOutcome(s: Pool, e: Event)
    requires Enabled(s, e) && !e.Add? && !e.Cancel? && !e.Dispatch? && !e.CallbackReturns?
    ensures var t := After(s, e);
            && t.queued == s.queued && t.free == s.free && t.highs == s.highs && t.inProgress == s.inProgress
            && (e.ReadClock? ==> t.handler == AtLock(s.now))
            && (e.EnterHandler? ==> t.handler == Looping && !t.pending)
            && (e.DispatchNone? ==> t.handler == NotRunning && s.queued == map[])
            && (e.ForceIrq? || e.TimerFires? ==> t.pending)
            && (e.ForceIrq? || e.Tick? || e.TimerFires? ==> t.handler == s.handler)
            && (!e.TimerFires? ==> t.armed == s.armed) && (!e.ForceIrq? ==> t.forcing == s.forcing)
  {
  }

  /** An id and its reuse count can be told from the public id. */
  lemma PublicIdTells(high: nat, id: nat)
    requires high < 256 && 1 <= id < 256
    ensures PublicId(high, id) % 256 == id && PublicId(high, id) / 256 % 256 == high && PublicId(high, id) > 0
  {
  }

  /** Cancelling what has just been added leaves the alarms that were queued before. */
  lemma CancelUndoesAdd(s: Pool, time: int, createIfPast: bool, hwMissed: bool)
    requires Partitioned(s) && s.free != [] && Max(s) < 256 && forall i :: 0 <= i < |s.highs| ==> s.highs[i] < 256
    requires var t := After(s, Add(time, createIfPast, hwMissed)); s.free[0] in t.queued
    ensures var t, id := After(s, Add(time, createIfPast, hwMissed)), s.free[0];
            1 <= id <= Max(s) &&
            var alarm := PublicId(s.highs[id - 1], id);
            && Enabled(t, Cancel(alarm)) && After(t, Cancel(alarm)).queued == s.queued
            && After(t, Cancel(alarm)).free == s.free[1..] + [id]
  {
    var id := s.free[0];
    var t := After(s, Add(time, createIfPast, hwMissed));
    assert id in s.free;
    StepKeepsPartition(s, Add(time, createIfPast, hwMissed));
    AddOutcome(s, time, createIfPast, hwMissed);
    PublicIdTells(s.highs[id - 1], id);
    CancelOutcome(t, PublicId(s.highs[id - 1], id));
    hide After, PublicId, Partitioned;
    assert s.queued[id := time] - {id} == s.queued;
  }

  // What happens to an alarm in a run.

  /** A step takes an id from the free list. */
  predicate Takes(s: Pool, e: Event, id: nat) { e.Add? && s.free != [] && s.free[0] == id }

  lemma StaysFree(s: Pool, e: Event, id: nat)
    requires Partitioned(s) && Enabled(s, e) && id in s.free && !Takes(s, e, id)
    ensures id in After(s, e).free
  {
    match e
    case Add(time, createIfPast, hwMissed) =>
      TakenFromFree(s);
    case _ =>
  }

  ghost predicate CancelsNow(s: Pool, e: Event, id: nat) {
    e.Cancel? && e.alarm % 256 == id && id in s.queued && 1 <= id <= Max(s) && s.highs[id - 1] == e.alarm / 256 % 256
  }

  lemma {:induction false} FreeUntilTaken(max: nat, now: int, states: seq<Pool>, events: seq<Event>, i: nat, j: nat,
                                          id: nat)
    requires IsRun(states, events) && states[0] == Created(max, now) && i <= j < |states| && id in states[i].free
    requires forall k :: i <= k < j ==> !Takes(states[k], events[k], id)
    ensures id in states[j].free
    decreases j
  {
    if j > i {
      CreatedInv(max, now);
      RunKeepsInv(states, events, j - 1);
      FreeUntilTaken(max, now, states, events, i, j - 1, id);
      StaysFree(states[j - 1], events[j - 1], id);
    }
  }

  /**
   * After an alarm has been cancelled its id is free, and neither queued nor dispatched, until an alarm
   * that is added takes it.
   */
  lemma CancelledDoesNotFire(max: nat, now: int, states: seq<Pool>, events: seq<Event>, i: nat, j: nat, id: nat)
    requires IsRun(states, events) && states[0] == Created(max, now) && i < j < |states|
    requires CancelsNow(states[i], events[i], id)
    requires forall k :: i < k < j ==> !Takes(states[k], events[k], id)
    ensures id in states[j].free && id !in states[j].queued
    ensures j < |events| && events[j].Dispatch? ==> events[j].head != id
  {
    CancelFrees(states[i], events[i], id);
    FreeUntilTaken(max, now, states, events, i + 1, j, id);
    CreatedInv(max, now);
    RunKeepsInv(states, events, j);
    FreeIsNotQueued(states[j], id);
    if j < |events| {
      FreeIsNotDispatched(states[j], events[j], id);
    }
  }

  lemma CancelFrees(s: Pool, e: Event, id: nat)
    requires Enabled(s, e) && CancelsNow(s, e, id)
    ensures id in After(s, e).free
  {
  }

  lemma FreeIsNotQueued(s: Pool, id: nat)
    requires Partitioned(s) && id in s.free
    ensures id !in s.queued
  {
  }

  lemma FreeIsNotDispatched(s: Pool, e: Event, id: nat)
    requires Partitioned(s) && Enabled(s, e) && id in s.free
    ensures e.Dispatch? ==> e.head != id
  {
  }

  lemma StaysQueued(s: Pool, e: Event, id: nat)
    requires Partitioned(s) && Enabled(s, e) && id in s.queued
    requires !CancelsNow(s, e, id) && !(e.Dispatch? && e.head == id)
    ensures id in After(s, e).queued && After(s, e).queued[id] == s.queued[id]
  {
    assert s.free != [] ==> s.free[0] in s.free;
  }

  /** An alarm stays queued for the same time until it is dispatched or cancelled. */
  lemma {:induction false} QueuedUntilDispatched(max: nat, now: int, states: seq<Pool>, events: seq<Event>, i: nat,
                                                 j: nat, id: nat)
    requires IsRun(states, events) && states[0] == Created(max, now) && i <= j < |states|
    requires id in states[i].queued
    requires forall k :: i <= k < j ==>
               !CancelsNow(states[k], events[k], id) && !(events[k].Dispatch? && events[k].head == id)
    ensures id in states[j].queued && states[j].queued[id] == states[i].queued[id]
    decreases j
  {
    if j > i {
      CreatedInv(max, now);
      RunKeepsInv(states, events, j - 1);
      QueuedUntilDispatched(max, now, states, events, i, j - 1, id);
      StaysQueued(states[j - 1], events[j - 1], id);
    }
  }

  lemma CallbackGoesOn(s: Pool, e: Event)
    requires Partitioned(s) && Enabled(s, e) && s.handler.InCallback? && !e.CallbackReturns?
    ensures After(s, e).handler == s.handler
    ensures After(s, e).inProgress == s.inProgress || After(s, e).inProgress == 0
    ensures !(e.Cancel? && e.alarm == s.inProgress) ==> After(s, e).inProgress == s.inProgress
  {
  }

  /** While a callback runs, the handler holds its alarm, whose public id is in progress unless it was cancelled. */
  lemma {:induction false} CallbackInProgress(max: nat, now: int, states: seq<Pool>, events: seq<Event>, i: nat,
                                              j: nat)
    requires IsRun(states, events) && states[0] == Created(max, now) && i < j < |states|
    requires events[i].Dispatch? && states[i + 1].handler.InCallback?
    requires forall k :: i < k < j ==> !events[k].CallbackReturns?
    ensures var id := events[i].head;
            && 1 <= id <= Max(states[i]) && id in states[i].queued
            && states[j].handler == InCallback(id, states[i].queued[id])
            && var alarm := PublicId(states[i].highs[id - 1], id);
               && (states[j].inProgress == alarm || states[j].inProgress == 0)
               && ((forall k :: i < k < j ==> events[k] != Cancel(alarm)) ==> states[j].inProgress == alarm)
    decreases j
  {
    CreatedInv(max, now);
    RunKeepsInv(states, events, i);
    if j == i + 1 {
      DispatchOutcome(states[i], events[i].head, events[i].missed);
    } else {
      RunKeepsInv(states, events, j - 1);
      CallbackInProgress(max, now, states, events, i, j - 1);
      CallbackGoesOn(states[j - 1], events[j - 1]);
      hide After, Partitioned, PublicId;
    }
  }

  /**
   * An alarm whose callback runs is queued again for its next time exactly if the callback repeats and the
   * alarm has not been cancelled meanwhile; otherwise its id is free.
   */
  lemma RepeatsUnlessCancelled(max: nat, now: int, states: seq<Pool>, events: seq<Event>, i: nat, j: nat)
    requires IsRun(states, events) && states[0] == Created(max, now) && i < j < |events| && max < 256
    requires events[i].Dispatch? && states[i + 1].handler.InCallback? && events[j].CallbackReturns?
    requires forall k :: i < k < j ==> !events[k].CallbackReturns?
    ensures var id, repeat := events[i].head, events[j].repeat;
            && 1 <= id <= Max(states[i]) && id in states[i].queued
            && var alarm := PublicId(states[i].highs[id - 1], id);
               if repeat == 0 || exists k :: i < k < j && events[k] == Cancel(alarm) then
                 id in states[j + 1].free && id !in states[j + 1].queued
               else
                 var due := if repeat < 0 then states[i].queued[id] - repeat else states[j].now + repeat;
                 id in states[j + 1].queued
                 && states[j + 1].queued[id] == if due > 0x7fff_ffff_ffff_ffff then 0x7fff_ffff_ffff_ffff else due
  {
    var id := events[i].head;
    CallbackInProgress(max, now, states, events, i, j);
    CreatedInv(max, now);
    RunKeepsInv(states, events, j);
    CallbackEnds(states[j], events[j], id, states[i].queued[id]);
    var alarm := PublicId(states[i].highs[id - 1], id);
    assert alarm > 0;
    hide After, Partitioned, PublicId, Created, Inv;
    if k :| i < k < j && events[k] == Cancel(alarm) {
      CancelledInCallback(max, now, states, events, i, k, j);
    }
  }

  lemma CallbackEnds(s: Pool, e: Event, id: nat, target: int)
    requires Partitioned(s) && e.CallbackReturns? && s.handler == InCallback(id, target)
    ensures var t := After(s, e);
            if e.repeat == 0 || s.inProgress == 0 then id in t.free && id !in t.queued
            else
              var due := if e.repeat < 0 then target - e.repeat else s.now + e.repeat;
              id in t.queued && t.queued[id] == if due > 0x7fff_ffff_ffff_ffff then 0x7fff_ffff_ffff_ffff else due
  {
    CallbackOutcome(s, e.repeat, e.reMissed);
    assert id in HeldIds(s);
    hide After;
  }

  /** After a cancel during its own callback, an alarm is not in progress any more. */
  lemma {:induction false} CancelledInCallback(max: nat, now: int, states: seq<Pool>, events: seq<Event>, i: nat,
                                               k: nat, j: nat)
    requires IsRun(states, events) && states[0] == Created(max, now) && i < k < j < |states| && max < 256
    requires events[i].Dispatch? && states[i + 1].handler.InCallback?
    requires forall l :: i < l < j ==> !events[l].CallbackReturns?
    requires 1 <= events[i].head <= Max(states[i])
    requires events[k] == Cancel(PublicId(states[i].highs[events[i].head - 1], events[i].head))
    ensures states[j].inProgress == 0
    decreases j
  {
    CreatedInv(max, now);
    if j == k + 1 {
      CallbackInProgress(max, now, states, events, i, k);
      RunKeepsInv(states, events, k);
      RunKeepsMax(states, events, i);
      PublicIdLow(states[i].highs[events[i].head - 1], events[i].head);
      assert events[i].head in HeldIds(states[k]);
      CancelOutcome(states[k], events[k].alarm);
    } else {
      CancelledInCallback(max, now, states, events, i, k, j - 1);
      CallbackInProgress(max, now, states, events, i, j - 1);
      RunKeepsInv(states, events, j - 1);
      CallbackGoesOn(states[j - 1], events[j - 1]);
    }
  }

  lemma PublicIdLow(high: nat, id: nat)
    requires id < 256
    ensures PublicId(high, id) % 256 == id
  {
  }

  // alarm_pool_add_alarm_at: retrying while the callback of a missed alarm asks to repeat.

  /** What one iteration meets: the hardware's answer, and the callback's if it is called. */
  datatype Answer = Answer(hwMissed: bool, repeat: int, now: int)

  /** The pool, the id returned unless the answers ran out, and the targets the callback ran for. */
  datatype AddResult = AddResult(pool: Pool, returned: Option<int>, fired: seq<int>)

  /** The `missed` variable after an iteration: it keeps its value when nothing is reported. */
  function MissedAfter(s: Pool, time: int, missed: bool, hwMissed: bool): bool {
    match MissedReport(s, time, hwMissed)
    case Some(b) => b
    case None => missed
  }

  function NextTime(time: int, a: Answer): int {
    if a.repeat < 0 then DelayedBy(time, -a.repeat) else DelayedBy(a.now, if a.repeat > 0 then a.repeat else 0)
  }

  /** A negative repeat counts from the time of the round, a positive one from the end of the callback. */
  lemma NextTimeOutcome(time: int, a: Answer)
    ensures var due := if a.repeat < 0 then time - a.repeat else a.now + a.repeat;
            NextTime(time, a) == if due > 0x7fff_ffff_ffff_ffff then 0x7fff_ffff_ffff_ffff else due
  {
  }

  function AddAlarmAt(s: Pool, time: int, fireIfPast: bool, missed: bool, answers: seq<Answer>): AddResult
    decreases answers
  {
    if answers == [] then AddResult(s, None, [])
    else
      var a := answers[0];
      var t, missed' := Added(s, time, false, a.hwMissed), MissedAfter(s, time, missed, a.hwMissed);
      if s.free == [] then AddResult(t, Some(-1), [])
      else if !(missed' && fireIfPast) then
        var id := s.free[0];
        AddResult(t, Some(if missed' || !(1 <= id <= Max(s)) then 0 else PublicId(s.highs[id - 1], id)), [])
      else if a.repeat == 0 then AddResult(t, Some(0), [time])
      else
        var rest := AddAlarmAt(t, NextTime(time, a), fireIfPast, missed', answers[1..]);
        rest.(fired := [time] + rest.fired)
  }

  /** An iteration runs the callback itself although it has put the alarm in the heap. */
  predicate FiresQueuedAlarm(s: Pool, time: int, fireIfPast: bool, missed: bool, a: Answer) {
    && s.free != [] && MissedAfter(s, time, missed, a.hwMissed) && fireIfPast
    && s.free[0] in Added(s, time, false, a.hwMissed).queued
  }

  /**
   * An iteration only runs the callback for an alarm that is not in the heap, except in one case:
   * the alarm does not become the head, and an earlier iteration left `missed` set.
   */
  lemma FiresQueuedAlarmIff(s: Pool, time: int, fireIfPast: bool, missed: bool, a: Answer)
    requires Partitioned(s)
    ensures FiresQueuedAlarm(s, time, fireIfPast, missed, a)
            <==> missed && fireIfPast && s.free != [] && !BecomesHead(s.queued, time)
  {
  }

  // A whole call, from the pools and the answers it meets. The lock is free while a callback runs, so each
  // round starts from a pool of its own, whatever the callback and others have done to it.

  /** A round in which the callback ran: for which time, whether the alarm is in the heap, and the time afterwards. */
  datatype Round = Round(time: int, queued: bool, now: int)

  predicate IsEarly(r: Round) { r.now < r.time }

  /** The rounds of alarm_pool_add_alarm_at in which it runs the callback. */
  function FiredRounds(pools: seq<Pool>, time: int, fireIfPast: bool, missed: bool, answers: seq<Answer>): seq<Round>
    requires |pools| == |answers|
    decreases answers
  {
    if answers == [] || pools[0].free == [] then []
    else
      var a := answers[0];
      var missed' := MissedAfter(pools[0], time, missed, a.hwMissed);
      if !(missed' && fireIfPast) then []
      else
        [Round(time, pools[0].free[0] in Added(pools[0], time, false, a.hwMissed).queued, a.now)]
        + if a.repeat == 0 then [] else FiredRounds(pools[1..], NextTime(time, a), fireIfPast, missed', answers[1..])
  }

  /** The pools of a call that nobody disturbs. */
  function PoolsAt(s: Pool, time: int, answers: seq<Answer>): (pools: seq<Pool>)
    ensures |pools| == |answers|
    decreases answers
  {
    if answers == [] then []
    else [s] + PoolsAt(Added(s, time, false, answers[0].hwMissed), NextTime(time, answers[0]), answers[1..])
  }

  /** The rounds of an undisturbed call are those whose times it reports. */
  lemma {:induction false} RoundsAreFired(s: Pool, time: int, fireIfPast: bool, missed: bool, answers: seq<Answer>)
    ensures var fired, rounds := AddAlarmAt(s, time, fireIfPast, missed, answers).fired,
                                 FiredRounds(PoolsAt(s, time, answers), time, fireIfPast, missed, answers);
            |fired| == |rounds| && forall i :: 0 <= i < |rounds| ==> rounds[i].time == fired[i]
    decreases answers
  {
    if answers != [] {
      var a := answers[0];
      var t := Added(s, time, false, a.hwMissed);
      assert PoolsAt(s, time, answers)[1..] == PoolsAt(t, NextTime(time, a), answers[1..]);
      RoundsAreFired(t, NextTime(time, a), fireIfPast, MissedAfter(s, time, missed, a.hwMissed), answers[1..]);
    }
  }

  /** The time for which round k adds the alarm. */
  function TimeAt(time: int, answers: seq<Answer>, k: nat): int
    requires k <= |answers|
    decreases k
  {
    if k == 0 then time else TimeAt(NextTime(time, answers[0]), answers[1..], k - 1)
  }

  /** The alarm of round j becomes the head of the pool of that round. */
  predicate HeadAt(pools: seq<Pool>, time: int, answers: seq<Answer>, j: nat)
    requires j < |answers| == |pools|
  {
    BecomesHead(pools[j].queued, TimeAt(time, answers, j))
  }

  /** Round j has a free id, and if its alarm becomes the head, it has been missed. */
  predicate LeftMissed(pools: seq<Pool>, time: int, answers: seq<Answer>, j: nat)
    requires j < |answers| == |pools|
  {
    pools[j].free != [] && (HeadAt(pools, time, answers, j) ==> answers[j].hwMissed)
  }

  /** No round up to k is left without a miss or a free id, and the callback repeats in those before. */
  ghost predicate RunsCallback(pools: seq<Pool>, time: int, missed: bool, answers: seq<Answer>, k: nat)
    requires |pools| == |answers|
  {
    && k < |answers|
    && (missed || HeadAt(pools, time, answers, 0))
    && (forall j :: 0 <= j <= k ==> LeftMissed(pools, time, answers, j))
    && (forall j :: 0 <= j < k ==> answers[j].repeat != 0)
  }

  ghost predicate AllPartitioned(pools: seq<Pool>) {
    forall j :: 0 <= j < |pools| ==> Partitioned(pools[j])
  }

  lemma LaterRound(pools: seq<Pool>, time: int, answers: seq<Answer>, j: nat)
    requires 0 < j < |answers| == |pools|
    ensures TimeAt(time, answers, j) == TimeAt(NextTime(time, answers[0]), answers[1..], j - 1)
    ensures HeadAt(pools, time, answers, j) <==> HeadAt(pools[1..], NextTime(time, answers[0]), answers[1..], j - 1)
    ensures LeftMissed(pools, time, answers, j)
            <==> LeftMissed(pools[1..], NextTime(time, answers[0]), answers[1..], j - 1)
  {
  }

  lemma RunsLater(pools: seq<Pool>, time: int, missed: bool, answers: seq<Answer>, k: nat)
    requires 0 < k < |answers| == |pools|
    ensures RunsCallback(pools, time, missed, answers, k)
            <==> RunsCallback(pools, time, missed, answers, 0) && answers[0].repeat != 0
                 && RunsCallback(pools[1..], NextTime(time, answers[0]), true, answers[1..], k - 1)
  {
    hide HeadAt, LeftMissed;
    var later, time', rest := pools[1..], NextTime(time, answers[0]), answers[1..];
    forall j | 0 < j <= k
      ensures LeftMissed(pools, time, answers, j) <==> LeftMissed(later, time', rest, j - 1)
    {
      LaterRound(pools, time, answers, j);
    }
    if RunsCallback(pools, time, missed, answers, k) {
      forall j | 0 <= j <= k - 1 ensures LeftMissed(later, time', rest, j) {
        assert LeftMissed(pools, time, answers, j + 1);
      }
    }
    if RunsCallback(later, time', true, rest, k - 1) && answers[0].repeat != 0 {
      forall j | 0 < j <= k ensures LeftMissed(pools, time, answers, j) {
        assert LeftMissed(later, time', rest, j - 1);
      }
      forall j | 0 < j < k ensures answers[j].repeat != 0 {
        assert answers[j] == rest[j - 1];
      }
    }
  }

  lemma FirstRoundRuns(pools: seq<Pool>, time: int, missed: bool, answers: seq<Answer>)
    requires |pools| == |answers| > 0 && pools[0].free != []
    ensures RunsCallback(pools, time, missed, answers, 0)
            <==> MissedAfter(pools[0], time, missed, answers[0].hwMissed)
    ensures TimeAt(time, answers, 0) == time
    ensures HeadAt(pools, time, answers, 0) <==> BecomesHead(pools[0].queued, time)
  {
    assert TimeAt(time, answers, 0) == time;
    assert RunsCallback(pools, time, missed, answers, 0)
           <==> (missed || HeadAt(pools, time, answers, 0)) && LeftMissed(pools, time, answers, 0);
  }

  lemma FirstRound(pools: seq<Pool>, time: int, missed: bool, answers: seq<Answer>)
    requires |pools| == |answers| > 0 && pools[0].free != [] && Partitioned(pools[0])
    ensures var a, missed' := answers[0], MissedAfter(pools[0], time, missed, answers[0].hwMissed);
            FiredRounds(pools, time, true, missed, answers)
            == if !missed' then []
               else [Round(time, !HeadAt(pools, time, answers, 0), a.now)]
                    + if a.repeat == 0 then [] else FiredRounds(pools[1..], NextTime(time, a), true, true, answers[1..])
  {
    FiresQueuedAlarmIff(pools[0], time, true, missed, answers[0]);
    assert pools[0].free[0] in pools[0].free;
  }

  /**
   * Round k runs the callback exactly if the call is to fire late alarms, the first alarm becomes the head,
   * every alarm up to k that does has been missed and had a free id, and the callback keeps repeating. The
   * alarm is in the heap exactly if it has not become the head.
   */
  lemma {:induction false} RoundRunsIff(pools: seq<Pool>, time: int, fireIfPast: bool, missed: bool,
                                        answers: seq<Answer>, k: nat)
    requires |pools| == |answers| && AllPartitioned(pools)
    ensures var rounds := FiredRounds(pools, time, fireIfPast, missed, answers);
            && (k < |rounds| <==> fireIfPast && RunsCallback(pools, time, missed, answers, k))
            && (k < |rounds| ==>
                  rounds[k] == Round(TimeAt(time, answers, k), !HeadAt(pools, time, answers, k), answers[k].now))
    decreases answers
  {
    hide FiredRounds, MissedAfter, HeadAt, LeftMissed, RunsCallback, NextTime, TimeAt, Partitioned;
    if k >= |answers| || pools[0].free == [] || !fireIfPast {
      NoSuchRound(pools, time, fireIfPast, missed, answers, k);
    } else {
      var a := answers[0];
      FirstRoundRuns(pools, time, missed, answers);
      FirstRound(pools, time, missed, answers);
      if k > 0 {
        RunsLater(pools, time, missed, answers, k);
        LaterRound(pools, time, answers, k);
        if MissedAfter(pools[0], time, missed, a.hwMissed) && a.repeat != 0 {
          RoundRunsIff(pools[1..], NextTime(time, a), true, true, answers[1..], k - 1);
        }
      }
    }
  }

  lemma NoSuchRound(pools: seq<Pool>, time: int, fireIfPast: bool, missed: bool, answers: seq<Answer>, k: nat)
    requires |pools| == |answers| && (k >= |answers| || pools[0].free == [] || !fireIfPast)
    ensures k >= |FiredRounds(pools, time, fireIfPast, missed, answers)|
    ensures !(fireIfPast && RunsCallback(pools, time, missed, answers, k))
  {
    NoMoreRounds(pools, time, fireIfPast, missed, answers);
    if RunsCallback(pools, time, missed, answers, k) {
      assert LeftMissed(pools, time, answers, 0);
    }
  }

  lemma {:induction false} NoMoreRounds(pools: seq<Pool>, time: int, fireIfPast: bool, missed: bool,
                                        answers: seq<Answer>)
    requires |pools| == |answers|
    ensures |FiredRounds(pools, time, fireIfPast, missed, answers)| <= |answers|
    decreases answers
  {
    if answers != [] {
      var missed' := MissedAfter(pools[0], time, missed, answers[0].hwMissed);
      NoMoreRounds(pools[1..], NextTime(time, answers[0]), fireIfPast, missed', answers[1..]);
    }
  }

  ghost predicate SomeQueued(rounds: seq<Round>) {
    exists i :: 0 <= i < |rounds| && rounds[i].queued
  }

  /** Round j has a free id, becomes the head of its pool, is missed, and its callback asks to repeat. */
  predicate MissedAndRepeats(pools: seq<Pool>, time: int, answers: seq<Answer>, j: nat)
    requires j < |answers| == |pools|
  {
    pools[j].free != [] && HeadAt(pools, time, answers, j) && answers[j].hwMissed && answers[j].repeat != 0
  }

  /** Every round before k is missed and repeats, and round k has a free id and does not become the head. */
  ghost predicate StaleAt(pools: seq<Pool>, time: int, answers: seq<Answer>, k: nat)
    requires |pools| == |answers|
  {
    && k < |answers|
    && (forall j :: 0 <= j < k ==> MissedAndRepeats(pools, time, answers, j))
    && pools[k].free != [] && !HeadAt(pools, time, answers, k)
  }

  /** The first round that runs the callback of a queued alarm. */
  lemma {:induction false} FirstStale(pools: seq<Pool>, time: int, answers: seq<Answer>, i: nat) returns (k: nat)
    requires |pools| == |answers| && RunsCallback(pools, time, false, answers, i) && !HeadAt(pools, time, answers, i)
    ensures 0 < k <= i && StaleAt(pools, time, answers, k)
  {
    assert LeftMissed(pools, time, answers, i);
    if j: nat :| j < i && !HeadAt(pools, time, answers, j) {
      k := FirstStale(pools, time, answers, j);
    } else {
      k := i;
      forall j | 0 <= j < k ensures MissedAndRepeats(pools, time, answers, j) {
        assert LeftMissed(pools, time, answers, j);
      }
    }
  }

  lemma StaleRuns(pools: seq<Pool>, time: int, answers: seq<Answer>, k: nat)
    requires |pools| == |answers| && 0 < k && StaleAt(pools, time, answers, k)
    ensures RunsCallback(pools, time, false, answers, k)
  {
    assert MissedAndRepeats(pools, time, answers, 0);
    forall j | 0 <= j <= k ensures LeftMissed(pools, time, answers, j) {
      if j < k {
        assert MissedAndRepeats(pools, time, answers, j);
      }
    }
    forall j | 0 <= j < k ensures answers[j].repeat != 0 {
      assert MissedAndRepeats(pools, time, answers, j);
    }
  }

  /**
   * Whatever happens to the pool between its rounds, a call runs a callback while its alarm is queued exactly
   * if it is to fire late alarms, its first alarm has a free id, becomes the head and is missed, its callback
   * asks to repeat, and after some more rounds of the same kind a repeat does not become the head.
   */
  lemma CallFiresQueuedIff(pools: seq<Pool>, time: int, fireIfPast: bool, answers: seq<Answer>)
    requires |pools| == |answers| && AllPartitioned(pools)
    ensures SomeQueued(FiredRounds(pools, time, fireIfPast, false, answers))
            <==> fireIfPast && exists k: nat :: k > 0 && StaleAt(pools, time, answers, k)
  {
    var rounds := FiredRounds(pools, time, fireIfPast, false, answers);
    if i: nat :| i < |rounds| && rounds[i].queued {
      RoundRunsIff(pools, time, fireIfPast, false, answers, i);
      var k := FirstStale(pools, time, answers, i);
    }
    if k: nat :| k > 0 && StaleAt(pools, time, answers, k) && fireIfPast {
      StaleRuns(pools, time, answers, k);
      RoundRunsIff(pools, time, fireIfPast, false, answers, k);
      assert rounds[k].queued;
    }
  }

  /** What a call returns when round n is the first that does not run the callback, or none is left. */
  ghost predicate Returns(r: AddResult, pools: seq<Pool>, time: int, fireIfPast: bool, answers: seq<Answer>, n: nat)
    requires |pools| == |answers|
  {
    && n <= |answers|
    && if n > 0 && answers[n - 1].repeat == 0 then r.returned == Some(0)
       else if n == |answers| then r.returned == None
       else if pools[n].free == [] then r.returned == Some(-1)
       else if HeadAt(pools, time, answers, n) && answers[n].hwMissed then !fireIfPast && r.returned == Some(0)
       else
         var id := pools[n].free[0];
         && 1 <= id <= Max(pools[n]) && r.returned == Some(pools[n].highs[id - 1] * 256 + id)
         && r.pool.queued == pools[n].queued[id := TimeAt(time, answers, n)]
  }

  lemma ReturnsLater(r: AddResult, r': AddResult, pools: seq<Pool>, time: int, fireIfPast: bool, answers: seq<Answer>,
                     n: nat)
    requires |pools| == |answers| > 0 && answers[0].repeat != 0 && r'.returned == r.returned && r'.pool == r.pool
    requires Returns(r, pools[1..], NextTime(time, answers[0]), fireIfPast, answers[1..], n)
    ensures Returns(r', pools, time, fireIfPast, answers, n + 1)
  {
    if n + 1 < |answers| {
      LaterRound(pools, time, answers, n + 1);
    }
    hide HeadAt;
  }

  lemma ReturnsNow(s: Pool, time: int, fireIfPast: bool, missed: bool, answers: seq<Answer>)
    requires Partitioned(s) && (missed ==> fireIfPast) && answers != []
    requires s.free == [] || !MissedAfter(s, time, missed, answers[0].hwMissed) || !fireIfPast || answers[0].repeat == 0
    ensures var pools := PoolsAt(s, time, answers);
            Returns(AddAlarmAt(s, time, fireIfPast, missed, answers), pools, time, fireIfPast, answers,
                    |FiredRounds(pools, time, fireIfPast, missed, answers)|)
  {
    assert s.free != [] ==> s.free[0] in s.free;
    assert TimeAt(time, answers, 0) == time;
    hide Partitioned;
  }

  lemma ReturnsNothing(s: Pool, time: int, fireIfPast: bool, missed: bool)
    ensures Returns(AddAlarmAt(s, time, fireIfPast, missed, []), PoolsAt(s, time, []), time, fireIfPast, [],
                    |FiredRounds(PoolsAt(s, time, []), time, fireIfPast, missed, [])|)
  {
  }

  lemma ReturnsRest(s: Pool, time: int, missed: bool, answers: seq<Answer>)
    requires answers != [] && s.free != [] && MissedAfter(s, time, missed, answers[0].hwMissed)
    requires answers[0].repeat != 0
    ensures var a, t := answers[0], Added(s, time, false, answers[0].hwMissed);
            var rest := AddAlarmAt(t, NextTime(time, a), true, true, answers[1..]);
            && AddAlarmAt(s, time, true, missed, answers).returned == rest.returned
            && AddAlarmAt(s, time, true, missed, answers).pool == rest.pool
            && PoolsAt(s, time, answers)[1..] == PoolsAt(t, NextTime(time, a), answers[1..])
            && |FiredRounds(PoolsAt(s, time, answers), time, true, missed, answers)|
               == 1 + |FiredRounds(PoolsAt(t, NextTime(time, a), answers[1..]), NextTime(time, a), true, true,
                                   answers[1..])|
  {
    var t := Added(s, time, false, answers[0].hwMissed);
    assert PoolsAt(s, time, answers)[1..] == PoolsAt(t, NextTime(time, answers[0]), answers[1..]);
  }

  lemma {:induction false} ReturnsFrom(s: Pool, time: int, fireIfPast: bool, missed: bool, answers: seq<Answer>)
    requires Partitioned(s) && (missed ==> fireIfPast)
    ensures var pools := PoolsAt(s, time, answers);
            Returns(AddAlarmAt(s, time, fireIfPast, missed, answers), pools, time, fireIfPast, answers,
                    |FiredRounds(pools, time, fireIfPast, missed, answers)|)
    decreases answers
  {
    hide Returns, AddAlarmAt, FiredRounds, PoolsAt, Added, Partitioned;
    if answers == [] {
      ReturnsNothing(s, time, fireIfPast, missed);
    } else {
      var a := answers[0];
      if s.free == [] || !MissedAfter(s, time, missed, a.hwMissed) || !fireIfPast || a.repeat == 0 {
        ReturnsNow(s, time, fireIfPast, missed, answers);
      } else {
        var t := Added(s, time, false, a.hwMissed);
        AddKeepsPartition(s, time, false, a.hwMissed);
        ReturnsRest(s, time, missed, answers);
        ReturnsFrom(t, NextTime(time, a), true, true, answers[1..]);
        var pools := PoolsAt(t, NextTime(time, a), answers[1..]);
        ReturnsLater(AddAlarmAt(t, NextTime(time, a), true, true, answers[1..]),
                     AddAlarmAt(s, time, true, missed, answers), PoolsAt(s, time, answers), time, true, answers,
                     |FiredRounds(pools, NextTime(time, a), true, true, answers[1..])|);
      }
    }
  }

  /**
   * A call returns 0 if its callback did not repeat, or the time was missed and late alarms are not to be
   * fired, -1 if there was no free id, and otherwise the public id of the alarm it has queued.
   */
  lemma CallReturns(s: Pool, time: int, fireIfPast: bool, answers: seq<Answer>)
    requires Partitioned(s)
    ensures var pools := PoolsAt(s, time, answers);
            Returns(AddAlarmAt(s, time, fireIfPast, false, answers), pools, time, fireIfPast, answers,
                    |FiredRounds(pools, time, fireIfPast, false, answers)|)
  {
    ReturnsFrom(s, time, fireIfPast, false, answers);
  }

  /** An alarm that becomes the head and has been missed leaves the heap as it was. */
  lemma MissedLeavesHeap(s: Pool, time: int)
    requires s.free != [] && BecomesHead(s.queued, time)
    ensures var t := Added(s, time, false, true); t.queued == s.queued && t.free != []
  {
  }

  /** Rounds that are missed leave an undisturbed pool with the alarms it had. */
  lemma {:induction false} UndisturbedHeap(s: Pool, time: int, answers: seq<Answer>, k: nat)
    requires s.free != [] && k < |answers|
    requires forall j :: 0 <= j < k ==> MissedAndRepeats(PoolsAt(s, time, answers), time, answers, j)
    ensures var t := PoolsAt(s, time, answers)[k]; t.queued == s.queued && t.free != []
    decreases k
  {
    if k > 0 {
      var pools, t := PoolsAt(s, time, answers), Added(s, time, false, answers[0].hwMissed);
      assert MissedAndRepeats(pools, time, answers, 0);
      MissedLeavesHeap(s, time);
      assert pools[1..] == PoolsAt(t, NextTime(time, answers[0]), answers[1..]);
      forall j | 0 <= j < k - 1 ensures MissedAndRepeats(pools[1..], NextTime(time, answers[0]), answers[1..], j) {
        assert MissedAndRepeats(pools, time, answers, j + 1);
        LaterRound(pools, time, answers, j + 1);
      }
      UndisturbedHeap(t, NextTime(time, answers[0]), answers[1..], k - 1);
    }
  }

  lemma {:induction false} UndisturbedPartitioned(s: Pool, time: int, answers: seq<Answer>)
    requires Partitioned(s)
    ensures AllPartitioned(PoolsAt(s, time, answers))
    decreases answers
  {
    if answers != [] {
      AddKeepsPartition(s, time, false, answers[0].hwMissed);
      hide Partitioned, Added;
      UndisturbedPartitioned(Added(s, time, false, answers[0].hwMissed), NextTime(time, answers[0]), answers[1..]);
    }
  }

  function Unchanging(s: Pool, n: nat): seq<Pool> { seq(n, _ => s) }

  /** For a call that nobody disturbs, the alarms that were queued before it decide. */
  lemma UndisturbedIff(s: Pool, time: int, fireIfPast: bool, answers: seq<Answer>)
    requires Partitioned(s)
    ensures SomeQueued(FiredRounds(PoolsAt(s, time, answers), time, fireIfPast, false, answers))
            <==> fireIfPast && exists k: nat :: k > 0 && StaleAt(Unchanging(s, |answers|), time, answers, k)
  {
    var pools, same := PoolsAt(s, time, answers), Unchanging(s, |answers|);
    UndisturbedPartitioned(s, time, answers);
    CallFiresQueuedIff(pools, time, fireIfPast, answers);
    if k: nat :| k > 0 && StaleAt(pools, time, answers, k) {
      assert MissedAndRepeats(pools, time, answers, 0) && pools[0] == s;
      forall j: nat | j <= k ensures pools[j].queued == s.queued {
        UndisturbedHeap(s, time, answers, j);
      }
      forall j | 0 <= j < k ensures MissedAndRepeats(same, time, answers, j) {
        assert MissedAndRepeats(pools, time, answers, j);
      }
      assert StaleAt(same, time, answers, k);
    }
    if k: nat :| k > 0 && StaleAt(same, time, answers, k) {
      forall j: nat | j <= k ensures pools[j].queued == s.queued && pools[j].free != [] {
        SameAsUndisturbed(s, time, answers, j);
      }
      forall j | 0 <= j < k ensures MissedAndRepeats(pools, time, answers, j) {
        assert MissedAndRepeats(same, time, answers, j);
      }
      assert StaleAt(pools, time, answers, k);
    }
  }

  lemma {:induction false} SameAsUndisturbed(s: Pool, time: int, answers: seq<Answer>, j: nat)
    requires s.free != [] && j < |answers|
    requires forall i :: 0 <= i < j ==> MissedAndRepeats(Unchanging(s, |answers|), time, answers, i)
    ensures var t := PoolsAt(s, time, answers)[j]; t.queued == s.queued && t.free != []
    decreases j
  {
    var same, pools := Unchanging(s, |answers|), PoolsAt(s, time, answers);
    forall i: nat | i < j ensures MissedAndRepeats(pools, time, answers, i) {
      assert MissedAndRepeats(same, time, answers, i);
      SameAsUndisturbed(s, time, answers, i);
    }
    UndisturbedHeap(s, time, answers, j);
  }

  /** The hardware only reports a miss for a time that has passed when the callback is done. */
  ghost predicate Plausible(time: int, answers: seq<Answer>) {
    forall j :: 0 <= j < |answers| && answers[j].hwMissed ==> TimeAt(time, answers, j) <= answers[j].now
  }

  /**
   * A callback is done before its time exactly if its alarm does not become the head, the time has not come,
   * and all rounds before it went on; then it is, or is behind, a round that runs the callback of a queued
   * alarm after rounds that were all missed.
   */
  lemma RunsEarlyIff(pools: seq<Pool>, time: int, fireIfPast: bool, answers: seq<Answer>, i: nat)
    requires |pools| == |answers| && AllPartitioned(pools) && Plausible(time, answers)
    ensures var rounds := FiredRounds(pools, time, fireIfPast, false, answers);
            && (i < |rounds| && IsEarly(rounds[i])
                <==> fireIfPast && RunsCallback(pools, time, false, answers, i)
                     && !HeadAt(pools, time, answers, i) && answers[i].now < TimeAt(time, answers, i))
            && (i < |rounds| && IsEarly(rounds[i]) ==>
                  exists k: nat :: 0 < k <= i && StaleAt(pools, time, answers, k))
  {
    var rounds := FiredRounds(pools, time, fireIfPast, false, answers);
    RoundRunsIff(pools, time, fireIfPast, false, answers, i);
    if i < |rounds| && IsEarly(rounds[i]) {
      assert LeftMissed(pools, time, answers, i);
      var k := FirstStale(pools, time, answers, i);
    }
  }

  /**
   * A call whose callback is run for a time yet to come, and returns 0 as if nothing were left to
   * do, while the alarm stays in the heap.
   */
  lemma StaleMissedFiresEarly() returns (s: Pool, answers: seq<Answer>)
    ensures Inv(s) && |answers| == 2
    ensures var r := AddAlarmAt(s, 5, true, false, answers);
            && r.returned == Some(0) && |r.fired| == 2 && r.fired[1] > answers[1].now
            && r.pool.queued == s.queued[2 := r.fired[1]]
  {
    s := TwoFreeIds();
    TwoFreeIdsInv();
    hide Inv;
    answers := [Answer(true, 100, 5), Answer(false, 0, 6)];
    var s1 := Added(s, 5, false, true);
    assert s1 == s.(free := [2, 3]);
    assert !BecomesHead(s1.queued, 105) by { assert 1 in s1.queued; }
    assert answers[1..] == [answers[1]];
    LastAnswer(s1, 105, answers[1]);
  }

  function TwoFreeIds(): Pool {
    Pool(map[1 := 10], [3, 2], [0, 0, 0], 0, Some(10), false, NotRunning, 0, 5)
  }

  lemma TwoFreeIdsInv()
    ensures Inv(TwoFreeIds())
  {
  }

  /** An iteration entered with `missed` set, whose alarm does not become the head. */
  lemma LastAnswer(s: Pool, time: int, a: Answer)
    requires s.free != [] && !BecomesHead(s.queued, time) && a.repeat == 0
    ensures AddAlarmAt(s, time, true, true, [a])
            == AddResult(s.(queued := s.queued[s.free[0] := time], free := s.free[1..]), Some(0), [time])
  {
  }
}
