/**
 * The worker lists of an asynchronous context: workers that are to run at a time, and workers that run
 * when they have been marked as having work. The clock is a non-decreasing series of readings.
 */
module AsyncContext {

  const AT_THE_END_OF_TIME: int := 0x7fff_ffff_ffff_ffff

  class AtTimeWorker {
    var nextTime: int

    constructor (nextTime: int)
      ensures this.nextTime == nextTime
    {
      this.nextTime := nextTime;
    }
  }

  class WhenPendingWorker {
    var workPending: bool

    constructor ()
      ensures !workPending
    {
      workPending := false;
    }
  }

  ghost predicate Distinct<T>(s: seq<T>) {
    forall i, j :: 0 <= i < j < |s| ==> s[i] != s[j]
  }

  function Without<T>(s: seq<T>, k: nat): seq<T>
    requires k < |s|
  {
    s[..k] + s[k + 1..]
  }

  ghost predicate Monotone(clock: nat -> int) {
    forall i: nat, j: nat :: i <= j ==> clock(i) <= clock(j)
  }

  /** The workers of a list that have work, in the order of the list. */
  function Pending(workers: seq<WhenPendingWorker>): seq<WhenPendingWorker>
    reads workers
  {
    if workers == [] then []
    else Pending(workers[..|workers| - 1]) + if workers[|workers| - 1].workPending then [workers[|workers| - 1]] else []
  }

  /** x is before y in a list. */
  ghost predicate Before<T>(s: seq<T>, x: T, y: T) {
    exists a, b :: 0 <= a < b < |s| && s[a] == x && s[b] == y
  }

  /** Some of the elements of a list, each once and in its order. */
  ghost predicate IsPart<T>(p: seq<T>, s: seq<T>) {
    && (forall i :: 0 <= i < |p| ==> p[i] in s) && Distinct(p)
    && forall i, j :: 0 <= i < j < |p| ==> Before(s, p[i], p[j])
  }

  lemma BeforeInLonger<T>(s: seq<T>, last: T, x: T, y: T)
    ensures Before(s, x, y) ==> Before(s + [last], x, y)
    ensures x in s ==> Before(s + [last], x, last)
  {
    var t := s + [last];
    if Before(s, x, y) {
      var a, b :| 0 <= a < b < |s| && s[a] == x && s[b] == y;
      assert t[a] == x && t[b] == y;
    }
    if x in s {
      var a :| 0 <= a < |s| && s[a] == x;
      assert t[a] == x && t[|s|] == last;
    }
  }

  lemma PartGrows<T>(p: seq<T>, s: seq<T>, w: T)
    requires IsPart(p, s) && Distinct(s + [w])
    ensures IsPart(p, s + [w]) && IsPart(p + [w], s + [w]) && w !in p
  {
    assert w !in s by {
      assert forall i :: 0 <= i < |s| ==> (s + [w])[i] == s[i] && (s + [w])[|s|] == w;
    }
    hide Before;
    var q := p + [w];
    forall i | 0 <= i < |p| ensures q[i] in s && q[i] != w {
      assert p[i] in s;
    }
    assert w in s + [w];
    forall i, j | 0 <= i < j < |p| ensures Before(s + [w], p[i], p[j]) {
      BeforeInLonger(s, w, p[i], p[j]);
    }
    forall i, j | 0 <= i < j < |q| ensures Before(s + [w], q[i], q[j]) {
      BeforeInLonger(s, w, q[i], q[j]);
    }
  }

  /** The pending workers are the workers of the list that have work, each once and in the order of the list. */
  lemma {:induction false} PendingIs(workers: seq<WhenPendingWorker>)
    requires Distinct(workers)
    ensures IsPart(Pending(workers), workers)
    ensures forall w :: w in workers ==> (w in Pending(workers) <==> w.workPending)
    decreases |workers|
  {
    if workers != [] {
      var last := |workers| - 1;
      var before, w := workers[..last], workers[last];
      assert workers == before + [w];
      PendingIs(before);
      PartGrows(Pending(before), before, w);
      hide IsPart, Before, Distinct;
      assert w.workPending ==> Pending(workers) == Pending(before) + [w];
    }
  }

  ghost predicate SortedByTime(ran: seq<AtTimeWorker>)
    reads ran
  {
    forall i, j :: 0 <= i < j < |ran| ==> ran[i].nextTime <= ran[j].nextTime
  }

  /** The workers whose time has come have run, and the others are left. */
  ghost predicate RanIfDue(ran: seq<AtTimeWorker>, rest: seq<AtTimeWorker>, all: seq<AtTimeWorker>, now: int)
    reads all
  {
    forall w :: w in all ==> (w in ran <==> w.nextTime <= now) && (w in rest <==> w.nextTime > now)
  }

  /** The first of the workers' times, or the end of time. */
  ghost predicate IsNextTimeout(workers: seq<AtTimeWorker>, t: int)
    reads workers
  {
    && t <= AT_THE_END_OF_TIME
    && (forall i :: 0 <= i < |workers| ==> t <= workers[i].nextTime)
    && (t == AT_THE_END_OF_TIME || exists i :: 0 <= i < |workers| && workers[i].nextTime == t)
  }

  lemma WithoutParts<T>(s: seq<T>, k: nat)
    requires k < |s|
    ensures multiset(Without(s, k)) + multiset{s[k]} == multiset(s)
    ensures Distinct(s) ==> Distinct(Without(s, k)) && s[k] !in Without(s, k)
    ensures forall x :: x in s <==> x == s[k] || x in Without(s, k)
  {
    assert s == s[..k] + [s[k]] + s[k + 1..];
  }

  /** A worker taken from a list at a time, if one was ready. */
  ghost predicate Picked(list: seq<AtTimeWorker>, worker: AtTimeWorker?, rest: seq<AtTimeWorker>, now: int)
    reads list, if worker == null then {} else {worker}
  {
    if worker == null then rest == list && forall i :: 0 <= i < |list| ==> list[i].nextTime > now
    else
      && worker.nextTime <= now
      && (forall i :: 0 <= i < |list| ==> worker.nextTime <= list[i].nextTime)
      && exists k :: 0 <= k < |list| && list[k] == worker && rest == Without(list, k)
                     && forall j :: k < j < |list| ==> list[j].nextTime > worker.nextTime
  }

  /** Between two rounds of the loop: workers that ran, one about to run, and the rest. */
  ghost predicate Progress(ran: seq<AtTimeWorker>, worker: AtTimeWorker?, rest: seq<AtTimeWorker>, now: int,
                           all: seq<AtTimeWorker>)
    reads ran, rest, if worker == null then {} else {worker}
  {
    && SortedByTime(ran) && (forall i :: 0 <= i < |ran| ==> ran[i].nextTime <= now)
    && if worker == null then
         multiset(ran) + multiset(rest) == multiset(all) && forall i :: 0 <= i < |rest| ==> now < rest[i].nextTime
       else
         && multiset(ran) + multiset{worker} + multiset(rest) == multiset(all) && worker.nextTime <= now
         && (forall i :: 0 <= i < |ran| ==> ran[i].nextTime <= worker.nextTime)
         && (forall i :: 0 <= i < |rest| ==> worker.nextTime <= rest[i].nextTime)
  }

  /** What a worker that has been picked leaves behind. */
  lemma PickedParts(list: seq<AtTimeWorker>, worker: AtTimeWorker, rest: seq<AtTimeWorker>, now: int)
    requires Picked(list, worker, rest, now)
    ensures worker in list && worker.nextTime <= now && |rest| < |list|
    ensures multiset(rest) + multiset{worker} == multiset(list)
    ensures forall i :: 0 <= i < |rest| ==> worker.nextTime <= rest[i].nextTime
  {
    var k :| 0 <= k < |list| && list[k] == worker && rest == Without(list, k);
    WithoutParts(list, k);
    hide Without;
    forall i | 0 <= i < |rest| ensures worker.nextTime <= rest[i].nextTime {
      assert rest[i] in list;
    }
  }

  lemma FirstProgress(list: seq<AtTimeWorker>, worker: AtTimeWorker?, rest: seq<AtTimeWorker>, now: int)
    requires Picked(list, worker, rest, if list == [] then 0 else now)
    ensures Progress([], worker, rest, now, list)
    ensures list == [] ==> worker == null
  {
    if worker != null {
      PickedParts(list, worker, rest, if list == [] then 0 else now);
    }
  }

  lemma SortedMore(ran: seq<AtTimeWorker>, worker: AtTimeWorker)
    requires SortedByTime(ran) && forall i :: 0 <= i < |ran| ==> ran[i].nextTime <= worker.nextTime
    ensures SortedByTime(ran + [worker])
  {
  }

  /** One round: the worker runs, and another one is picked at a later time. */
  lemma MoreProgress(ran: seq<AtTimeWorker>, worker: AtTimeWorker, list: seq<AtTimeWorker>, now: int,
                     worker': AtTimeWorker?, rest: seq<AtTimeWorker>, now': int, all: seq<AtTimeWorker>)
    requires Progress(ran, worker, list, now, all) && now <= now'
    requires Picked(list, worker', rest, if list == [] then 0 else now')
    ensures Progress(ran + [worker], worker', rest, now', all)
    ensures |rest| < |list| || (rest == list && worker' == null)
    ensures list == [] ==> worker' == null
  {
    assert multiset(ran + [worker]) == multiset(ran) + multiset{worker};
    if worker' == null {
      SortedMore(ran, worker);
      hide SortedByTime;
    } else {
      PickedParts(list, worker', rest, if list == [] then 0 else now');
      hide Picked;
      NextProgress(ran, worker, list, now, worker', rest, now', all);
    }
  }

  lemma NextProgress(ran: seq<AtTimeWorker>, worker: AtTimeWorker, list: seq<AtTimeWorker>, now: int,
                     worker': AtTimeWorker, rest: seq<AtTimeWorker>, now': int, all: seq<AtTimeWorker>)
    requires Progress(ran, worker, list, now, all) && now <= now' && worker' in list && worker'.nextTime <= now'
    requires multiset(rest) + multiset{worker'} == multiset(list)
    requires forall i :: 0 <= i < |rest| ==> worker'.nextTime <= rest[i].nextTime
    ensures Progress(ran + [worker], worker', rest, now', all)
  {
    SortedMore(ran, worker);
    hide SortedByTime;
    assert multiset(ran + [worker]) == multiset(ran) + multiset{worker};
    assert worker.nextTime <= worker'.nextTime;
  }

  lemma ProgressEnds(ran: seq<AtTimeWorker>, rest: seq<AtTimeWorker>, now: int, all: seq<AtTimeWorker>)
    requires Progress(ran, null, rest, now, all) && Distinct(all)
    ensures SortedByTime(ran) && Distinct(ran) && multiset(ran) + multiset(rest) == multiset(all)
    ensures forall i :: 0 <= i < |ran| ==> ran[i].nextTime <= now
    ensures forall i :: 0 <= i < |rest| ==> now < rest[i].nextTime
  {
    DistinctPart(ran, rest, all);
  }

  class Context {
    var atTimeList: seq<AtTimeWorker>
    var whenPendingList: seq<WhenPendingWorker>
    var nextTime: int
    const clock: nat -> int
    var readings: nat

    /** No worker is twice in a list, the clock never goes back, and no time is beyond the end of time. */
    ghost predicate Valid()
      reads this, atTimeList
    {
      && Distinct(atTimeList) && Distinct(whenPendingList) && Monotone(clock)
      && forall i :: 0 <= i < |atTimeList| ==> 0 <= atTimeList[i].nextTime <= AT_THE_END_OF_TIME
    }

    constructor (clock: nat -> int)
      requires Monotone(clock)
      ensures Valid() && atTimeList == [] && whenPendingList == [] && this.clock == clock
    {
      atTimeList := [];
      whenPendingList := [];
      nextTime := AT_THE_END_OF_TIME;
      this.clock := clock;
      readings := 0;
    }

    /** Appends a worker unless it is in the list. */
    method AddAtTimeWorker(worker: AtTimeWorker) returns (added: bool)
      requires Valid() && 0 <= worker.nextTime <= AT_THE_END_OF_TIME
      modifies `atTimeList
      ensures Valid()
      ensures added <==> worker !in old(atTimeList)
      ensures atTimeList == if added then old(atTimeList) + [worker] else old(atTimeList)
    {
      var i := 0;
      while i < |atTimeList|
        invariant i <= |atTimeList| && worker !in atTimeList[..i]
      {
        if worker == atTimeList[i] {
          return false;
        }
        i := i + 1;
      }
      atTimeList := atTimeList + [worker];
      return true;
    }

    /** Unlinks a worker if it is in the list. */
    method RemoveAtTimeWorker(worker: AtTimeWorker) returns (removed: bool)
      requires Valid()
      modifies `atTimeList
      ensures Valid()
      ensures removed <==> worker in old(atTimeList)
      ensures worker !in atTimeList
      ensures !removed ==> atTimeList == old(atTimeList)
      ensures removed ==> exists k :: 0 <= k < |old(atTimeList)| && old(atTimeList)[k] == worker
                                      && atTimeList == Without(old(atTimeList), k)
    {
      var i := 0;
      while i < |atTimeList|
        invariant i <= |atTimeList| && worker !in atTimeList[..i]
      {
        if worker == atTimeList[i] {
          WithoutParts(atTimeList, i);
          atTimeList := Without(atTimeList, i);
          return true;
        }
        i := i + 1;
      }
      return false;
    }

    /**
     * Takes out the worker with the earliest time that has come, the last one of several with that time.
     * The clock is read only if there are workers.
     */
    method RemoveReadyAtTimeWorker() returns (worker: AtTimeWorker?)
      requires Valid()
      modifies `atTimeList, `readings
      ensures Valid()
      ensures readings == old(readings) + if old(atTimeList) == [] then 0 else 1
      ensures Picked(old(atTimeList), worker, atTimeList, if old(atTimeList) == [] then 0 else clock(readings - 1))
    {
      var best := -1;
      if atTimeList != [] {
        var now := clock(readings);
        readings := readings + 1;
        best := LastOfEarliest(now);
      }
      if best >= 0 {
        worker := atTimeList[best];
        WithoutParts(atTimeList, best);
        atTimeList := Without(atTimeList, best);
      } else {
        worker := null;
      }
    }

    /** The loop of that: the place of the last worker with the least time that has come, or -1. */
    method LastOfEarliest(now: int) returns (best: int)
      ensures -1 <= best < |atTimeList|
      ensures best == -1 ==> forall j :: 0 <= j < |atTimeList| ==> atTimeList[j].nextTime > now
      ensures best >= 0 ==>
        && atTimeList[best].nextTime <= now
        && (forall j :: 0 <= j < |atTimeList| ==> atTimeList[best].nextTime <= atTimeList[j].nextTime)
        && (forall j :: best < j < |atTimeList| ==> atTimeList[best].nextTime < atTimeList[j].nextTime)
    {
      best := -1;
      var earliest := now;
      var i := 0;
      while i < |atTimeList|
        invariant i <= |atTimeList| && -1 <= best < i
        invariant best == -1 ==>
          earliest == now && forall j :: 0 <= j < i ==> atTimeList[j].nextTime > earliest
        invariant best >= 0 ==>
          && earliest == atTimeList[best].nextTime && earliest <= now
          && (forall j :: 0 <= j < i ==> earliest <= atTimeList[j].nextTime)
          && (forall j :: best < j < i ==> earliest < atTimeList[j].nextTime)
      {
        if earliest - atTimeList[i].nextTime >= 0 {
          earliest := atTimeList[i].nextTime;
          best := i;
        }
        i := i + 1;
      }
    }

    /** The first time of any worker left, or the end of time. */
    method RefreshNextTimeout()
      requires Valid()
      modifies `nextTime
      ensures Valid() && IsNextTimeout(atTimeList, nextTime)
    {
      var earliest := AT_THE_END_OF_TIME;
      var i := 0;
      while i < |atTimeList|
        invariant i <= |atTimeList| && IsNextTimeout(atTimeList[..i], earliest)
      {
        if earliest - atTimeList[i].nextTime > 0 {
          earliest := atTimeList[i].nextTime;
        }
        assert forall j :: 0 <= j < i ==> atTimeList[..i + 1][j] == atTimeList[..i][j];
        assert atTimeList[..i + 1][i] == atTimeList[i];
        i := i + 1;
      }
      assert atTimeList[..i] == atTimeList;
      nextTime := earliest;
    }

    /** The at-time loop of execute_once, for work that does not touch the lists: the workers run, in order. */
    method RunReady() returns (ran: seq<AtTimeWorker>)
      requires Valid()
      modifies `atTimeList, `readings
      ensures Valid()
      ensures SortedByTime(ran) && Distinct(ran) && multiset(ran) + multiset(atTimeList) == multiset(old(atTimeList))
      ensures old(atTimeList) == [] ==> readings == old(readings)
      ensures old(atTimeList) != [] ==>
        && readings > old(readings)
        && (forall i :: 0 <= i < |ran| ==> ran[i].nextTime <= clock(readings - 1))
        && (forall i :: 0 <= i < |atTimeList| ==> clock(readings - 1) < atTimeList[i].nextTime)
    {
      hide Progress, Distinct, Picked, SortedByTime;
      ran := [];
      var worker: AtTimeWorker? := RemoveReadyAtTimeWorker();
      ghost var now := if readings > 0 then clock(readings - 1) else 0;
      FirstProgress(old(atTimeList), worker, atTimeList, now);
      while worker != null
        invariant Valid() && Progress(ran, worker, atTimeList, now, old(atTimeList))
        invariant old(atTimeList) == [] ==> readings == old(readings) && worker == null
        invariant old(atTimeList) != [] ==> readings > old(readings) && now == clock(readings - 1)
        decreases |atTimeList|, worker != null
      {
        ghost var before, earlier := atTimeList, now;
        ghost var current := worker;
        ran := ran + [worker];
        worker := RemoveReadyAtTimeWorker();
        now := if before == [] then earlier else clock(readings - 1);
        MoreProgress(ran[..|ran| - 1], current, before, earlier, worker, atTimeList, now, old(atTimeList));
        assert ran == ran[..|ran| - 1] + [current];
      }
      ProgressEnds(ran, atTimeList, now, old(atTimeList));
    }

    /** The when-pending loop of execute_once: the workers run, and have no work afterwards. */
    method RunPending() returns (ran: seq<WhenPendingWorker>)
      requires Distinct(whenPendingList)
      modifies whenPendingList
      ensures ran == old(Pending(whenPendingList))
      ensures IsPart(ran, whenPendingList)
      ensures forall w :: w in whenPendingList ==> (w in ran <==> old(w.workPending)) && !w.workPending
    {
      PendingIs(whenPendingList);
      ghost var pending := Pending(whenPendingList);
      assert forall w :: w in whenPendingList ==> (w in pending <==> old(w.workPending));
      hide IsPart;
      ran := [];
      var i := 0;
      while i < |whenPendingList|
        invariant i <= |whenPendingList|
        invariant ran == old(Pending(whenPendingList[..i]))
        invariant forall j :: 0 <= j < i ==> !whenPendingList[j].workPending
        invariant forall j :: i <= j < |whenPendingList| ==>
          whenPendingList[j].workPending == old(whenPendingList[j].workPending)
      {
        var worker := whenPendingList[i];
        assert whenPendingList[..i + 1][..i] == whenPendingList[..i];
        if worker.workPending {
          worker.workPending := false;
          ran := ran + [worker];
        }
        i := i + 1;
      }
      assert whenPendingList[..i] == whenPendingList;
      assert ran == pending;
    }

    /**
     * execute_once: every worker whose time has come at the last reading of the clock runs exactly once,
     * in the order of their times; the others stay; pending workers run once, in the order of their list;
     * the next timeout is the time of the first worker left.
     */
    method ExecuteOnce() returns (ran: seq<AtTimeWorker>, ranPending: seq<WhenPendingWorker>)
      requires Valid()
      modifies this, whenPendingList
      ensures Valid() && whenPendingList == old(whenPendingList)
      ensures SortedByTime(ran) && Distinct(ran)
      ensures multiset(ran) + multiset(atTimeList) == multiset(old(atTimeList))
      ensures old(atTimeList) != [] ==>
        readings > old(readings) && RanIfDue(ran, atTimeList, old(atTimeList), clock(readings - 1))
      ensures IsPart(ranPending, whenPendingList)
      ensures forall w :: w in whenPendingList ==> (w in ranPending <==> old(w.workPending)) && !w.workPending
      ensures IsNextTimeout(atTimeList, nextTime)
    {
      hide Distinct, SortedByTime, IsNextTimeout, Monotone, Pending, RanIfDue, IsPart;
      ran := RunReady();
      if old(atTimeList) != [] {
        ReadyOrLeft(ran, atTimeList, old(atTimeList), clock(readings - 1));
      }
      ranPending := RunPending();
      RefreshNextTimeout();
    }
  }

  /** Workers that ran, or were left, by whether their time has come. */
  lemma ReadyOrLeft(ran: seq<AtTimeWorker>, rest: seq<AtTimeWorker>, all: seq<AtTimeWorker>, now: int)
    requires multiset(ran) + multiset(rest) == multiset(all)
    requires forall i :: 0 <= i < |ran| ==> ran[i].nextTime <= now
    requires forall i :: 0 <= i < |rest| ==> now < rest[i].nextTime
    ensures RanIfDue(ran, rest, all, now)
  {
    ghost var parts := multiset(ran) + multiset(rest);
    forall w | w in all ensures w in ran || w in rest {
      assert w in parts;
    }
  }

  /** Parts of a list without repetitions have none either. */
  lemma DistinctPart<T>(ran: seq<T>, rest: seq<T>, all: seq<T>)
    requires Distinct(all) && multiset(ran) + multiset(rest) == multiset(all)
    ensures Distinct(ran)
  {
    forall i, j | 0 <= i < j < |ran| ensures ran[i] != ran[j] {
      if ran[i] == ran[j] {
        assert ran == ran[..i] + [ran[i]] + ran[i + 1..j] + [ran[j]] + ran[j + 1..];
        assert multiset(ran)[ran[i]] >= 2;
        assert multiset(all)[ran[i]] >= 2;
        OnceEach(all, ran[i]);
      }
    }
  }

  lemma {:induction false} OnceEach<T>(s: seq<T>, x: T)
    requires Distinct(s)
    ensures multiset(s)[x] <= 1
  {
    if s != [] {
      var last := |s| - 1;
      assert s == s[..last] + [s[last]];
      OnceEach(s[..last], x);
      if x == s[last] {
        assert x !in s[..last];
      }
    }
  }
}
