/**
 * The alarm pool's critical sections as code over the pairing heap. Each method is one step of the
 * transition system of AlarmPoolSteps on the pool's abstract value.
 */
module AlarmPool {
  import opened AlarmPoolSteps
  import opened Options
  import PH = PairingHeap

  /** The part of the system's state that is outside the pool's own fields. */
  datatype Context = Context(handler: Handler, forcing: nat, now: int)

  class Pool {
    const heap: PH.Heap
    var targets: seq<int>   // the entries' targets, by id
    var highs: seq<nat>     // entry_ids_high
    var alarmInProgress: nat
    var armed: Option<int>  // the pool's hardware alarm
    var pending: bool

    ghost predicate Valid()
      reads this, heap, heap.nodes
    {
      && heap.Valid()
      && |targets| == |highs| == heap.nodes.Length < PH.ID_LIMIT
      && PH.HeapOrdered(targets, heap.tree)
      && (forall i :: 0 <= i < |highs| ==> highs[i] < 256)
    }

    ghost function Queued(): map<nat, int>
      reads this, heap
    {
      map i | i in PH.Ids(heap.tree) && 1 <= i <= |targets| :: targets[i - 1]
    }

    ghost function Abs(c: Context): AlarmPoolSteps.Pool
      reads this, heap
    {
      AlarmPoolSteps.Pool(Queued(), heap.free, highs, alarmInProgress, armed, pending, c.handler, c.forcing, c.now)
    }

    constructor (maxTimers: nat)
      requires 0 < maxTimers < PH.ID_LIMIT
      ensures Valid() && fresh(heap) && fresh(heap.nodes)
      ensures forall now :: Abs(Context(NotRunning, 0, now)) == Created(maxTimers, now)
    {
      heap := new PH.Heap(maxTimers);
      targets := seq(maxTimers, i => 0);
      highs := seq(maxTimers, i => 0);
      alarmInProgress := 0;
      armed, pending := None, false;
    }

    /** add_alarm_under_lock; the result also holds what it stores through its `missed` argument. */
    method AddAlarmUnderLock(time: int, reuseId: nat, createIfPast: bool, hwMissed: bool, ghost c: Context)
      returns (id: nat, missed: Option<bool>)
      requires Valid() && (reuseId != 0 ==> heap.Held(reuseId))
      modifies this`targets, this`armed, heap, heap.nodes
      ensures Valid()
      ensures reuseId != 0 ==> id == reuseId && Abs(c) == Inserted(old(Abs(c)), reuseId, time, createIfPast, hwMissed)
      ensures reuseId == 0 ==>
                && Abs(c) == Added(old(Abs(c)), time, createIfPast, hwMissed)
                && (if old(heap.free) == [] then id == 0 else id == old(heap.free)[0] && 1 <= id <= |highs|)
                && missed == MissedReport(old(Abs(c)), time, hwMissed)
    {
      hide Inserted, MissedReport;
      id, missed := reuseId, None;
      if reuseId == 0 {
        id := heap.NewNode();
        ReportNothing(old(Abs(c)), time, hwMissed);
      }
      if id != 0 {
        missed := InsertAndArm(id, time, createIfPast, hwMissed, c);
      }
    }

    /** The body of add_alarm_under_lock for an id that is allocated. */
    method InsertAndArm(id: nat, time: int, createIfPast: bool, hwMissed: bool, ghost c: Context)
      returns (missed: Option<bool>)
      requires Valid() && heap.Held(id)
      modifies this`targets, this`armed, heap, heap.nodes
      ensures Valid()
      ensures Abs(c) == Inserted(old(Abs(c)), id, time, createIfPast, hwMissed)
      ensures missed == if BecomesHead(old(Queued()), time) then Some(hwMissed) else None
    {
      hide PH.Consistent, PH.HeapOrdered, PH.Ids;
      missed := None;
      ghost var queued := Queued();
      SetTarget(id, time);
      HeadDecides(targets, heap, queued, time);
      var head := heap.InsertNode(id, targets);
      assert Queued() == queued[id := time];
      if id == head {
        if !hwMissed {
          armed := Some(time);
        } else if !createIfPast {
          var removed := heap.RemoveAndFreeNode(id, targets);
          assert Queued() == queued;
        }
        missed := Some(hwMissed);
      }
    }

    /** entry->target = time */
    method SetTarget(id: nat, time: int)
      requires Valid() && heap.Held(id)
      modifies this`targets
      ensures Valid() && Queued() == old(Queued()) && targets == old(targets)[id - 1 := time]
    {
      targets := targets[id - 1 := time];
      OrderedWithoutId(old(targets), targets, heap.tree, id);
      assert Queued() == old(Queued());
    }

    /**
     * The critical section at the top of alarm_pool_alarm_callback's loop: the head leaves the heap
     * if its target is not after the time read, and otherwise the hardware is armed for it. The id
     * is that of the head, 0 if there is none; `fire` says that its callback is to be run.
     */
    method AlarmCallbackTop(clock: int, hwMissed: bool, ghost c: Context) returns (nextId: nat, fire: bool, again: bool)
      requires Valid() && c.handler == AtLock(clock)
      modifies this`alarmInProgress, this`armed, heap, heap.nodes
      ensures Valid()
      ensures nextId == 0 ==> old(Queued()) == map[] && !fire && !again
      ensures nextId == 0 ==> Abs(c.(handler := NotRunning)) == After(old(Abs(c)), DispatchNone)
      ensures nextId != 0 ==> IsHead(old(Queued()), nextId)
      ensures nextId != 0 ==>
                var t := Dispatched(old(Abs(c)), nextId, hwMissed);
                && Abs(c.(handler := t.handler)) == t
                && (fire <==> t.handler.InCallback?) && (again <==> t.handler == Looping)
      ensures fire ==> heap.Held(nextId)
    {
      hide PH.Consistent, PH.HeapOrdered;
      fire, again := false, false;
      ghost var queued := Queued();
      HeadDecides(targets, heap, queued, 0);
      nextId := heap.rootId;
      if nextId != 0 {
        assert nextId in queued;
        if targets[nextId - 1] <= clock {
          var removed := heap.RemoveHead(false, targets);
          assert Queued() == queued - {nextId};
          alarmInProgress := PublicId(highs[nextId - 1], nextId);
          fire := true;
        } else if hwMissed {
          again := true;
        } else {
          armed := Some(targets[nextId - 1]);
        }
      }
    }

    /**
     * The critical section after a callback: a repeating alarm goes back into the heap with the same
     * id unless it was cancelled meanwhile, and otherwise its id is freed.
     */
    method AlarmCallbackBottom(id: nat, target: int, repeat: int, now: int, hwMissed: bool, ghost c: Context)
      requires Valid() && heap.Held(id)
      requires c.handler == InCallback(id, target) && c.now == now
      modifies this, heap, heap.nodes
      ensures Valid()
      ensures Abs(c.(handler := Looping)) == Resumed(old(Abs(c)), repeat, hwMissed)
    {
      hide PH.Consistent, PH.HeapOrdered, Inserted;
      if repeat < 0 && alarmInProgress != 0 {
        var _, _ := AddAlarmUnderLock(DelayedBy(target, -repeat), id, true, hwMissed, c);
        InsertedKeeps(old(Abs(c)), id, DelayedBy(target, -repeat), hwMissed);
      } else if repeat > 0 && alarmInProgress != 0 {
        var _, _ := AddAlarmUnderLock(DelayedBy(now, repeat), id, true, hwMissed, c);
        InsertedKeeps(old(Abs(c)), id, DelayedBy(now, repeat), hwMissed);
      } else {
        heap.FreeNode(id);
        highs := highs[id - 1 := (highs[id - 1] + 1) % 256];
      }
      alarmInProgress := 0;
    }

    /** alarm_pool_cancel_alarm */
    method CancelAlarm(alarm: nat, ghost c: Context) returns (rc: bool)
      requires Valid() && 1 <= alarm % 256 <= heap.nodes.Length
      modifies this`alarmInProgress, heap, heap.nodes
      ensures Valid()
      ensures Abs(c) == Cancelled(old(Abs(c)), alarm)
      ensures rc <==> alarm % 256 in old(Queued()) && highs[alarm % 256 - 1] == alarm / 256 % 256
      ensures Queued() == if rc then old(Queued()) - {alarm % 256} else old(Queued())
      ensures heap.free == if rc then old(heap.free) + [alarm % 256] else old(heap.free)
      ensures alarmInProgress ==
        if alarm % 256 !in old(Queued()) && alarm == old(alarmInProgress) then 0 else old(alarmInProgress)
    {
      hide PH.Consistent, PH.HeapOrdered;
      rc := false;
      var id := alarm % 256;
      ghost var queued := Queued();
      var contained := heap.ContainsNode(id);
      if contained {
        var idHigh := alarm / 256 % 256;
        if idHigh == highs[id - 1] {
          rc := heap.RemoveAndFreeNode(id, targets);
          assert Queued() == queued - {id};
        }
      } else if alarm == alarmInProgress {
        alarmInProgress := 0;
      }
    }

    /**
     * alarm_pool_add_alarm_at, when nobody else uses the pool meanwhile: what the hardware and the
     * callback answer in each iteration is given, and no result means that the answers ran out.
     */
    method AddAlarmAt(at: int, fireIfPast: bool, answers: seq<Answer>, ghost c: Context)
      returns (returned: Option<int>, fired: seq<int>)
      requires Valid()
      modifies this`targets, this`armed, heap, heap.nodes
      ensures Valid()
      ensures AddResult(Abs(c), returned, fired)
              == AlarmPoolSteps.AddAlarmAt(old(Abs(c)), at, fireIfPast, false, answers)
    {
      hide PH.Consistent, PH.HeapOrdered, Added, MissedReport, AlarmPoolSteps.AddAlarmAt, DelayedBy;
      var time, missed, i := at, false, 0;
      fired := [];
      assert answers[0..] == answers;
      while i < |answers|
        invariant Valid() && i <= |answers|
        invariant AlarmPoolSteps.AddAlarmAt(old(Abs(c)), at, fireIfPast, false, answers)
                  == Prefixed(fired, AlarmPoolSteps.AddAlarmAt(Abs(c), time, fireIfPast, missed, answers[i..]))
      {
        var a := answers[i];
        ghost var s := Abs(c);
        Unfolded(s, time, fireIfPast, missed, answers[i..]);
        var id, report := AddAlarmUnderLock(time, 0, false, a.hwMissed, c);
        assert answers[i..][1..] == answers[i + 1..];
        if id == 0 {
          return Some(-1), fired;
        }
        if report.Some? {
          missed := report.value;
        }
        if missed && fireIfPast {
          fired := fired + [time];
          if a.repeat == 0 {
            return Some(0), fired;
          } else if a.repeat < 0 {
            time := DelayedBy(time, -a.repeat);
          } else {
            time := DelayedBy(a.now, a.repeat);
          }
        } else {
          return Some(if missed then 0 else PublicId(highs[id - 1], id)), fired;
        }
        i := i + 1;
      }
      Exhausted(Abs(c), time, fireIfPast, missed);
      assert answers[i..] == [];
      returned := None;
    }

    /** hardware_alarm_force_irq, after a forced add that found its time passed. */
    method ForceIrq(ghost c: Context)
      requires c.forcing > 0
      modifies this`pending
      ensures Abs(c.(forcing := c.forcing - 1)) == After(old(Abs(c)), AlarmPoolSteps.Event.ForceIrq)
      ensures old(Valid()) ==> Valid()
    {
      pending := true;
    }
  }

  function Prefixed(fired: seq<int>, r: AddResult): AddResult {
    r.(fired := fired + r.fired)
  }

  /** One unfolding of the recursion of AlarmPoolSteps.AddAlarmAt. */
  lemma Unfolded(s: AlarmPoolSteps.Pool, time: int, fireIfPast: bool, missed: bool, answers: seq<Answer>)
    requires answers != []
    ensures var a := answers[0];
            var t, missed' := Added(s, time, false, a.hwMissed), MissedAfter(s, time, missed, a.hwMissed);
            AlarmPoolSteps.AddAlarmAt(s, time, fireIfPast, missed, answers) ==
            if s.free == [] then AddResult(t, Some(-1), [])
            else if !(missed' && fireIfPast) then
              AddResult(t, Some(if missed' || !(1 <= s.free[0] <= Max(s)) then 0
                                else PublicId(s.highs[s.free[0] - 1], s.free[0])), [])
            else if a.repeat == 0 then AddResult(t, Some(0), [time])
            else Prefixed([time], AlarmPoolSteps.AddAlarmAt(t, NextTime(time, a), fireIfPast, missed', answers[1..]))
  {
  }

  lemma Exhausted(s: AlarmPoolSteps.Pool, time: int, fireIfPast: bool, missed: bool)
    ensures AlarmPoolSteps.AddAlarmAt(s, time, fireIfPast, missed, []) == AddResult(s, None, [])
  {
  }

  lemma InsertedKeeps(s: AlarmPoolSteps.Pool, id: nat, time: int, hwMissed: bool)
    ensures var t := Inserted(s, id, time, true, hwMissed);
            && t.inProgress == s.inProgress && t.handler == s.handler
            && t.highs == s.highs && t.pending == s.pending && t.forcing == s.forcing && t.now == s.now
  {
  }

  lemma ReportNothing(s: AlarmPoolSteps.Pool, time: int, hwMissed: bool)
    ensures s.free == [] ==> MissedReport(s, time, hwMissed) == None
    ensures s.free != [] ==>
              MissedReport(s, time, hwMissed) == if BecomesHead(s.queued, time) then Some(hwMissed) else None
  {
  }

  lemma {:induction false} OrderedFrame(key: seq<int>, key': seq<int>, f: PH.Forest, lo: int)
    requires |key'| == |key|
    requires forall i {:trigger i in PH.Ids(f)} :: i in PH.Ids(f) && 1 <= i <= |key| ==> key'[i - 1] == key[i - 1]
    requires PH.Ordered(key, f, lo)
    ensures PH.Ordered(key', f, lo)
    decreases f
  {
    match f
    case Nil =>
    case Tree(id, kids, next) =>
      assert PH.Ids(f) == {id} + PH.Ids(kids) + PH.Ids(next);
      assert id in PH.Ids(f);
      OrderedFrame(key, key', kids, key[id - 1]);
      OrderedFrame(key, key', next, lo);
  }

  /** The target of an id outside the heap does not matter to it. */
  lemma OrderedWithoutId(key: seq<int>, key': seq<int>, f: PH.Forest, id: nat)
    requires 1 <= id <= |key| && |key'| == |key| && key' == key[id - 1 := key'[id - 1]]
    requires id !in PH.Ids(f) && PH.HeapOrdered(key, f)
    ensures PH.HeapOrdered(key', f)
  {
    if f.Tree? {
      OrderedFrame(key, key', f, key[f.id - 1]);
    }
  }

  /** An alarm becomes the head exactly when the present head's target is not before its own. */
  lemma HeadDecides(key: seq<int>, heap: PH.Heap, queued: map<nat, int>, time: int)
    requires heap.Valid() && PH.HeapOrdered(key, heap.tree) && |key| == heap.nodes.Length
    requires queued == map i | i in PH.Ids(heap.tree) && 1 <= i <= |key| :: key[i - 1]
    ensures heap.rootId == 0 <==> queued == map[]
    ensures heap.rootId != 0 ==> heap.rootId <= |key| && IsHead(queued, heap.rootId)
    ensures heap.rootId != 0 ==> queued[heap.rootId] == key[heap.rootId - 1]
    ensures BecomesHead(queued, time) <==> heap.rootId == 0 || !(key[heap.rootId - 1] < time)
  {
    if heap.tree.Tree? {
      PH.RootIsMinimal(key, heap.tree);
      assert heap.rootId in queued;
    }
  }
}
