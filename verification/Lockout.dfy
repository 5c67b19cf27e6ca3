/**
 * The multicore lockout protocol as a transition system: one core initiates lockouts, the other is
 * the victim whose FIFO interrupt handler answers them, and the two FIFOs carry nothing else. Every
 * FIFO access is one step, the initiator may time out at every point where the source looks at the
 * clock, and steps of the two cores interleave freely.
 */
module Lockout {

  /** LOCKOUT_MAGIC_START and its complement. */
  datatype Word = Start | End

  const FIFO_DEPTH: nat := 8

  /** Where the victim is in its interrupt handler. */
  datatype VictimAt =
    | Outside        // not in the handler
    | Polling        // at the test that the FIFO has a word
    | Entering       // a START was read, interrupts still on
    | Answering      // interrupts off, the START response is to be pushed
    | Spinning       // waiting for END
    | Leaving        // END was read, interrupts still off
    | Acknowledging  // interrupts restored, the END response is to be pushed

  /** Where the initiator is in a handshake for a word. */
  datatype InitiatorAt =
    | Idle
    | Checking(magic: Word)            // at the first look at the clock in the loop
    | Pushing(magic: Word)
    | Rechecking(magic: Word)          // at the second look at the clock
    | Popping(magic: Word)
    | Finished(magic: Word, rc: bool)  // the handshake is over, the call has not returned

  datatype State = State(
    victim: VictimAt,
    masked: bool,             // interrupts of the victim core are off
    saved: bool,              // what save_and_disable_interrupts returned
    toVictim: seq<Word>,
    toInitiator: seq<Word>,
    initiator: InitiatorAt,
    inProgress: bool)         // lockout_in_progress

  const INITIALLY := State(Outside, false, false, [], [], Idle, false)

  datatype Step =
    // victim core
    | EnterHandler | LeaveHandler | PollPop | DisableInterrupts | PushStartResponse
    | SpinPop | RestoreInterrupts | PushEndResponse
    // initiator core
    | CallStart | CallEnd | TimeRemains | TimedOut | Push | PushTimedOut | Pop | PopTimedOut | Return

  /** The guard of a step. A wait may time out although the FIFO has just been served: it is looked at first. */
  predicate Enabled(s: State, step: Step) {
    match step
    case EnterHandler => s.victim == Outside && !s.masked
    case LeaveHandler => s.victim == Polling && s.toVictim == []
    case PollPop => s.victim == Polling && s.toVictim != []
    case DisableInterrupts => s.victim == Entering
    case PushStartResponse => s.victim == Answering && |s.toInitiator| < FIFO_DEPTH
    case SpinPop => s.victim == Spinning && s.toVictim != []
    case RestoreInterrupts => s.victim == Leaving
    case PushEndResponse => s.victim == Acknowledging && |s.toInitiator| < FIFO_DEPTH
    case CallStart => s.initiator == Idle && !s.inProgress
    case CallEnd => s.initiator == Idle && s.inProgress
    case TimeRemains => s.initiator.Checking? || s.initiator.Rechecking?
    case TimedOut => s.initiator.Checking? || s.initiator.Rechecking?
    case Push => s.initiator.Pushing? && |s.toVictim| < FIFO_DEPTH
    case PushTimedOut => s.initiator.Pushing?
    case Pop => s.initiator.Popping? && s.toInitiator != []
    case PopTimedOut => s.initiator.Popping?
    case Return => s.initiator.Finished?
  }

  function After(s: State, step: Step): State
    requires Enabled(s, step)
  {
    match step
    case EnterHandler => s.(victim := Polling)
    case LeaveHandler => s.(victim := Outside)
    case PollPop =>
      s.(toVictim := s.toVictim[1..], victim := if s.toVictim[0] == Start then Entering else Polling)
    case DisableInterrupts => s.(saved := s.masked, masked := true, victim := Answering)
    case PushStartResponse => s.(toInitiator := s.toInitiator + [Start], victim := Spinning)
    case SpinPop =>
      s.(toVictim := s.toVictim[1..], victim := if s.toVictim[0] != End then Spinning else Leaving)
    case RestoreInterrupts => s.(masked := s.saved, victim := Acknowledging)
    case PushEndResponse => s.(toInitiator := s.toInitiator + [End], victim := Polling)
    case CallStart => s.(initiator := Checking(Start))
    case CallEnd => s.(initiator := Checking(End))
    case TimeRemains =>
      s.(initiator := if s.initiator.Checking? then Pushing(s.initiator.magic)
                      else Popping(s.initiator.magic))
    case TimedOut => s.(initiator := Finished(s.initiator.magic, false))
    case Push =>
      s.(toVictim := s.toVictim + [s.initiator.magic], initiator := Rechecking(s.initiator.magic))
    case PushTimedOut => s.(initiator := Rechecking(s.initiator.magic))
    case Pop =>
      var magic := s.initiator.magic;
      s.(toInitiator := s.toInitiator[1..],
         initiator := if s.toInitiator[0] == magic then Finished(magic, true) else Checking(magic))
    case PopTimedOut => s.(initiator := Finished(s.initiator.magic, false))
    case Return =>
      s.(initiator := Idle,
         inProgress := match s.initiator.magic
                       case Start => s.initiator.rc
                       case End => if s.initiator.rc then false else s.inProgress)
  }

  /** The states of a run from s along the given steps, each step enabled. */
  ghost predicate IsRun(states: seq<State>, steps: seq<Step>) {
    && |states| == |steps| + 1
    && forall i :: 0 <= i < |steps| ==>
         Enabled(states[i], steps[i]) && states[i + 1] == After(states[i], steps[i])
  }

  // The invariant.

  ghost predicate AllAre(q: seq<Word>, w: Word) {
    forall i :: 0 <= i < |q| ==> q[i] == w
  }

  /** No word `first` comes after another word. */
  ghost predicate LeadBy(q: seq<Word>, first: Word) {
    forall i, j :: 0 <= i < j < |q| && q[j] == first ==> q[i] == first
  }

  /** The initiator has taken the START response and not yet the END response. */
  predicate Held(s: State) {
    match s.initiator
    case Finished(Start, true) => true
    case Finished(End, true) => false
    case _ => s.inProgress
  }

  ghost predicate Inv(s: State) {
    && (s.masked <==> s.victim in {Answering, Spinning, Leaving})
    && (s.masked ==> !s.saved)
    && (!s.initiator.Idle? ==> (s.initiator.magic == Start <==> !s.inProgress))
    && (if Held(s) then InvHeld(s) else InvFree(s))
    && (s.initiator == Finished(Start, true) ==> s.victim == Spinning && AllAre(s.toVictim, Start))
    && (s.initiator == Finished(End, true) ==>
          s.victim in {Outside, Polling} && AllAre(s.toVictim, End))
  }

  ghost predicate InvFree(s: State) {
    match s.victim
    case Outside => s.toInitiator == [] && LeadBy(s.toVictim, End)
    case Polling => s.toInitiator == [] && LeadBy(s.toVictim, End)
    case Entering => s.toInitiator == [] && AllAre(s.toVictim, Start)
    case Answering => s.toInitiator == [] && AllAre(s.toVictim, Start)
    case Spinning => s.toInitiator == [Start] && AllAre(s.toVictim, Start)
    case _ => false
  }

  ghost predicate InvHeld(s: State) {
    match s.victim
    case Spinning => s.toInitiator == [] && LeadBy(s.toVictim, Start)
    case Leaving => s.toInitiator == [] && AllAre(s.toVictim, End)
    case Acknowledging => s.toInitiator == [] && AllAre(s.toVictim, End)
    case Polling => s.toInitiator == [End] && AllAre(s.toVictim, End)
    case Outside => s.toInitiator == [End] && AllAre(s.toVictim, End)
    case _ => false
  }

  lemma Dequeued(q: seq<Word>, w: Word)
    requires q != []
    ensures AllAre(q, w) ==> q[0] == w && AllAre(q[1..], w)
    ensures LeadBy(q, w) ==> LeadBy(q[1..], w) && (q[0] != w ==> AllAre(q[1..], q[0]))
  {
    assert forall i :: 0 <= i < |q| - 1 ==> q[1..][i] == q[i + 1];
  }

  lemma Enqueued(q: seq<Word>, w: Word, v: Word)
    ensures AllAre(q, w) ==> AllAre(q + [w], w)
    ensures LeadBy(q, w) && v != w ==> LeadBy(q + [v], w)
    ensures AllAre(q, w) ==> LeadBy(q + [v], w)
  {
    assert forall i :: 0 <= i < |q| ==> (q + [v])[i] == q[i];
    assert forall i :: 0 <= i < |q| ==> (q + [w])[i] == q[i];
  }

  lemma Leading(q: seq<Word>, w: Word, v: Word)
    requires AllAre(q, w)
    ensures LeadBy(q, v)
  {
  }

  predicate OfVictim(step: Step) {
    step in {EnterHandler, LeaveHandler, PollPop, DisableInterrupts, PushStartResponse, SpinPop,
             RestoreInterrupts, PushEndResponse}
  }

  lemma VictimKeepsInv(s: State, step: Step)
    requires Inv(s) && Enabled(s, step) && OfVictim(step)
    ensures Inv(After(s, step))
  {
    hide AllAre, LeadBy;
    if s.toVictim != [] {
      Dequeued(s.toVictim, Start);
      Dequeued(s.toVictim, End);
    }
  }

  lemma InitiatorKeepsInv(s: State, step: Step)
    requires Inv(s) && Enabled(s, step) && !OfVictim(step)
    ensures Inv(After(s, step))
  {
    hide AllAre, LeadBy;
    var q := s.toVictim;
    if step == Push {
      Enqueued(q, Start, Start);
      Enqueued(q, End, End);
      Enqueued(q, Start, End);
      Enqueued(q, End, Start);
    }
    if step == Pop {
      assert s.toInitiator[1..] == [];
      if AllAre(q, Start) {
        Leading(q, Start, Start);
      }
      if AllAre(q, End) {
        Leading(q, End, End);
      }
    }
  }

  /** Every step keeps the invariant. */
  lemma StepKeepsInv(s: State, step: Step)
    requires Inv(s) && Enabled(s, step)
    ensures Inv(After(s, step))
  {
    if OfVictim(step) {
      VictimKeepsInv(s, step);
    } else {
      InitiatorKeepsInv(s, step);
    }
  }

  lemma {:induction false} RunKeepsInv(states: seq<State>, steps: seq<Step>, i: nat)
    requires IsRun(states, steps) && Inv(states[0]) && i < |states|
    ensures Inv(states[i])
  {
    if i > 0 {
      RunKeepsInv(states, steps, i - 1);
      StepKeepsInv(states[i - 1], steps[i - 1]);
    }
  }

  // What runs guarantee.

  /** The END word is pushed in this step. */
  predicate Pushes(s: State, step: Step, w: Word) {
    step == Push && s.initiator == Pushing(w)
  }

  /** The call in progress returns true in this step. */
  predicate Succeeds(s: State, step: Step, w: Word) {
    step == Return && s.initiator == Finished(w, true)
  }

  ghost predicate Locked(s: State) {
    Inv(s) && Held(s) && s.victim == Spinning && AllAre(s.toVictim, Start)
  }

  lemma LockedUntilEnd(s: State, step: Step)
    requires Locked(s) && Enabled(s, step) && !Pushes(s, step, End)
    ensures Locked(After(s, step))
  {
    StepKeepsInv(s, step);
  }

  /**
   * Once a lockout start has returned true, the victim spins with interrupts off in every later
   * state up to the next push of an END word.
   */
  lemma {:induction false} StartLocksVictim(states: seq<State>, steps: seq<Step>, i: nat, j: nat)
    requires IsRun(states, steps) && states[0] == INITIALLY
    requires i < j < |states| && Succeeds(states[i], steps[i], Start)
    requires forall k :: i < k < j ==> !Pushes(states[k], steps[k], End)
    ensures states[j].victim == Spinning && states[j].masked
    ensures Locked(states[j])
    decreases j
  {
    if j == i + 1 {
      RunKeepsInv(states, steps, i);
      StepKeepsInv(states[i], steps[i]);
    } else {
      StartLocksVictim(states, steps, i, j - 1);
      LockedUntilEnd(states[j - 1], steps[j - 1]);
    }
  }

  ghost predicate Released(s: State) {
    Inv(s) && !Held(s) && s.victim in {Outside, Polling} && AllAre(s.toVictim, End)
  }

  lemma ReleasedUntilStart(s: State, step: Step)
    requires Released(s) && Enabled(s, step) && !Pushes(s, step, Start)
    ensures Released(After(s, step))
  {
    StepKeepsInv(s, step);
  }

  /**
   * Once a lockout end has returned true, the victim is out of the spin loop with interrupts on, in
   * every later state up to the next push of a START word.
   */
  lemma {:induction false} EndReleasesVictim(states: seq<State>, steps: seq<Step>, i: nat, j: nat)
    requires IsRun(states, steps) && states[0] == INITIALLY
    requires i < j < |states| && Succeeds(states[i], steps[i], End)
    requires forall k :: i < k < j ==> !Pushes(states[k], steps[k], Start)
    ensures states[j].victim in {Outside, Polling} && !states[j].masked
    ensures Released(states[j])
    decreases j
  {
    if j == i + 1 {
      RunKeepsInv(states, steps, i);
      StepKeepsInv(states[i], steps[i]);
    } else {
      EndReleasesVictim(states, steps, i, j - 1);
      ReleasedUntilStart(states[j - 1], steps[j - 1]);
    }
  }

  /**
   * In every state of every run at most one response is outstanding, so the victim never blocks on a
   * push, and whatever word the initiator pops is the one its handshake waits for.
   */
  lemma ResponsesMatch(states: seq<State>, steps: seq<Step>, i: nat)
    requires IsRun(states, steps) && states[0] == INITIALLY && i < |states|
    ensures var s := states[i];
            && |s.toInitiator| <= 1
            && (s.victim == Answering ==> Enabled(s, PushStartResponse))
            && (s.victim == Acknowledging ==> Enabled(s, PushEndResponse))
            && (Enabled(s, Pop) ==> After(s, Pop).initiator == Finished(s.initiator.magic, true))
  {
    RunKeepsInv(states, steps, i);
  }

  /**
   * How a call ends: with success only when the awaited word is popped, and with failure only when the time is
   * up at a look at the clock or while waiting for a response; a push that times out only goes on to look at
   * the clock. The lockout is in progress from a start that succeeded to an end that succeeded.
   */
  lemma CallEnds(s: State, step: Step)
    requires Enabled(s, step) && !OfVictim(step)
    ensures var t := After(s, step);
            && (!s.initiator.Finished? && t.initiator.Finished?
                <==> step == TimedOut || step == PopTimedOut || (step == Pop && s.toInitiator[0] == s.initiator.magic))
            && (!s.initiator.Finished? && t.initiator.Finished? ==>
                  t.initiator == Finished(s.initiator.magic, step == Pop))
            && (step == PushTimedOut ==> t == s.(initiator := Rechecking(s.initiator.magic)))
            && (step == Pop && !t.initiator.Finished? ==> t.initiator == Checking(s.initiator.magic))
            && t.victim == s.victim && t.masked == s.masked && t.saved == s.saved
            && t.inProgress == if step == Return && s.initiator.magic == Start then s.initiator.rc
                               else if step == Return && s.initiator.rc then false
                               else s.inProgress
  {
  }

  // Progress: a handshake that gets to its push can always complete.

  predicate IsTimeout(step: Step) {
    step in {TimedOut, PushTimedOut, PopTimedOut}
  }

  /** The word of the handshake has been pushed and not yet lost. */
  ghost predicate Served(s: State, w: Word) {
    w in s.toVictim ||
    match w
    case Start => s.victim in {Entering, Answering, Spinning}
    case End => s.victim in {Leaving, Acknowledging} || s.toInitiator == [End]
  }

  ghost predicate UnderWay(s: State) {
    match s.initiator
    case Checking(_) => true
    case Pushing(_) => true
    case Rechecking(w) => Served(s, w)
    case Popping(w) => Served(s, w)
    case _ => false
  }

  /** The next step of a schedule without timeouts. */
  function NextStep(s: State): Step {
    if s.initiator.Checking? || s.initiator.Rechecking? then TimeRemains
    else if s.initiator.Pushing? && |s.toVictim| < FIFO_DEPTH then Push
    else if s.initiator.Popping? && s.toInitiator != [] then Pop
    else match s.victim
         case Outside => EnterHandler
         case Polling => PollPop
         case Entering => DisableInterrupts
         case Answering => PushStartResponse
         case Spinning => SpinPop
         case Leaving => RestoreInterrupts
         case Acknowledging => PushEndResponse
  }

  function InitiatorRank(a: InitiatorAt): nat {
    match a
    case Checking(_) => 3
    case Pushing(_) => 2
    case Rechecking(_) => 1
    case _ => 0
  }

  function VictimRank(v: VictimAt): nat {
    match v
    case Polling => 0
    case Outside => 1
    case Spinning => 2
    case Answering => 3
    case Entering => 4
    case Acknowledging => 5
    case Leaving => 6
  }

  /** t comes before s in the order by initiator, queued words and victim. */
  predicate Closer(t: State, s: State) {
    if InitiatorRank(t.initiator) != InitiatorRank(s.initiator) then
      InitiatorRank(t.initiator) < InitiatorRank(s.initiator)
    else if |t.toVictim| != |s.toVictim| then
      |t.toVictim| < |s.toVictim|
    else
      VictimRank(t.victim) < VictimRank(s.victim)
  }

  lemma NextStepServes(s: State)
    requires Inv(s) && UnderWay(s)
    ensures Enabled(s, NextStep(s)) && !IsTimeout(NextStep(s))
    ensures var t := After(s, NextStep(s));
            && Inv(t)
            && (UnderWay(t) || t.initiator == Finished(s.initiator.magic, true))
            && (UnderWay(t) ==> t.initiator.magic == s.initiator.magic && Closer(t, s))
  {
    if s.initiator.Popping? && s.toInitiator == [] {
      VictimStepServes(s);
    } else if s.initiator.Pushing? && |s.toVictim| >= FIFO_DEPTH {
      VictimStepServes(s);
    } else {
      StepKeepsInv(s, NextStep(s));
      hide AllAre, LeadBy;
      if NextStep(s) == Push {
        assert (s.toVictim + [s.initiator.magic])[|s.toVictim|] == s.initiator.magic;
      }
    }
  }

  /** The initiator waits, and the victim goes on. */
  lemma VictimStepServes(s: State)
    requires Inv(s) && UnderWay(s)
    requires (s.initiator.Popping? && s.toInitiator == []) || (s.initiator.Pushing? && |s.toVictim| >= FIFO_DEPTH)
    ensures Enabled(s, NextStep(s)) && OfVictim(NextStep(s))
    ensures var t := After(s, NextStep(s));
            Inv(t) && UnderWay(t) && t.initiator.magic == s.initiator.magic && Closer(t, s)
  {
    var q := s.toVictim;
    if s.initiator.Popping? && Served(s, s.initiator.magic) && s.toInitiator == [] {
      assert s.victim in {Outside, Polling, Spinning} ==> s.initiator.magic in q;
    }
    assert q != [] ==> q == [q[0]] + q[1..];
    assert Enabled(s, NextStep(s));
    StepKeepsInv(s, NextStep(s));
  }

  /**
   * From every reachable state where a handshake begins or its word is on its way, some run without
   * timeouts completes it.
   */
  lemma {:induction false} HandshakeCanComplete(s: State) returns (states: seq<State>, steps: seq<Step>)
    requires Inv(s) && UnderWay(s)
    ensures IsRun(states, steps) && states[0] == s
    ensures forall i :: 0 <= i < |steps| ==> !IsTimeout(steps[i])
    ensures states[|steps|].initiator == Finished(s.initiator.magic, true)
    decreases InitiatorRank(s.initiator), |s.toVictim|, VictimRank(s.victim)
  {
    NextStepServes(s);
    var t := After(s, NextStep(s));
    if UnderWay(t) {
      states, steps := HandshakeCanComplete(t);
      states, steps := [s] + states, [NextStep(s)] + steps;
    } else {
      states, steps := [s, t], [NextStep(s)];
    }
  }
}
