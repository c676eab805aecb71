/**
 All interleavings of the event flag's critical sections, for any number of threads. Wake-ups are
 arbitrary: a parked thread may go on at any time and with any elapsed time, so signals, timeouts
 and spurious wake-ups are all covered. Setting, clearing or cancelling a flag that is already
 being deleted ends the original process, so such a call is no step; once the destructor has
 finished the object is gone and no step is left.
 */
module EventFlagRuns {
  import opened Common
  import opened EventFlag

  type Thread = nat

  /** The operations whose first loop waits for the status to be Set. */
  datatype Op = SetOp(bits: Pattern) | ClearOp(bits: Pattern) | CancelOp(bits: Pattern) | DestroyOp

  /** What a thread is doing when no thread holds the mutex. */
  datatype Phase =
    | Outside
    | Parked(req: Request)
    | Spinning(op: Op)
    | DrainingCancel
    | DrainingDestroy
    | Destroyed

  datatype System = System(flag: Flag, threads: map<Thread, Phase>)

  datatype Step =
    | CallWait(t: Thread, req: Request)
    | Wake(t: Thread, elapsed: nat)
    | Call(t: Thread, op: Op)
    | Retry(t: Thread)
    | Drain(t: Thread)

  /** What a step shows to its caller. */
  datatype Event =
    | Silent
    | WaitReturned(outcome: Outcome)
    | SetDone
    | ClearDone
    | CancelCommitted(reported: int)
    | DestroyCommitted
    | CancelFinished
    | DestroyFinished

  datatype Effect = Effect(next: System, event: Event)

  predicate Gone(s: System)
  {
    exists t :: t in s.threads && s.threads[t] == Destroyed
  }

  ghost predicate Enabled(s: System, step: Step)
  {
    && step.t in s.threads && !Gone(s)
    && var phase := s.threads[step.t];
    match step
    case CallWait(_, _) => phase == Outside
    case Wake(_, _) => phase.Parked?
    case Call(_, op) => phase == Outside && (op == DestroyOp || s.flag.status != Deleted)
    case Retry(_) => phase.Spinning?
    case Drain(_) => phase == DrainingCancel || phase == DrainingDestroy
  }

  function At(s: System, t: Thread, flag: Flag, phase: Phase): System
  {
    System(flag, s.threads[t := phase])
  }

  function AfterWait(s: System, t: Thread, req: Request, r: (Flag, Outcome)): Effect
  {
    if r.1 == Parks then Effect(At(s, t, r.0, Parked(req)), Silent)
    else Effect(At(s, t, r.0, Outside), WaitReturned(r.1))
  }

  /** One round of an operation's first loop. */
  function Attempt(s: System, t: Thread, op: Op): Effect
  {
    var f := s.flag;
    if f.status != Set then Effect(At(s, t, f, Spinning(op)), Silent)
    else
      match op
      case SetOp(b) => Effect(At(s, t, AfterSet(f, b), Outside), SetDone)
      case ClearOp(b) => Effect(At(s, t, AfterClear(f, b), Outside), ClearDone)
      case CancelOp(b) =>
        var phase := if f.waiting > 0 then DrainingCancel else Outside;
        Effect(At(s, t, AfterCancel(f, b), phase), CancelCommitted(f.waiting))
      case DestroyOp =>
        var phase := if f.waiting > 0 then DrainingDestroy else Destroyed;
        Effect(At(s, t, AfterDestroy(f), phase), DestroyCommitted)
  }

  function Do(s: System, step: Step): Effect
    requires step.t in s.threads
  {
    match step
    case CallWait(t, req) => AfterWait(s, t, req, EnterWait(s.flag, req))
    case Wake(t, elapsed) =>
      (match s.threads[t]
       case Parked(req) => AfterWait(s, t, req, ResumeWait(s.flag, req, elapsed))
       case _ => Effect(s, Silent))
    case Call(t, op) => Attempt(s, t, op)
    case Retry(t) =>
      (match s.threads[t]
       case Spinning(op) => Attempt(s, t, op)
       case _ => Effect(s, Silent))
    case Drain(t) =>
      if s.flag.waiting > 0 then Effect(s, Silent)
      else if s.threads[t] == DrainingCancel then
        Effect(At(s, t, s.flag.(status := Set), Outside), CancelFinished)
      else Effect(At(s, t, s.flag, Destroyed), DestroyFinished)
  }

  /** A run: states[0], then each step enabled and producing the next state. */
  ghost predicate Run(states: seq<System>, steps: seq<Step>)
  {
    && |states| == |steps| + 1
    && Initial(states[0])
    && forall i :: 0 <= i < |steps| ==> RunStep(states, steps, i)
  }

  ghost predicate RunStep(states: seq<System>, steps: seq<Step>, i: nat)
    requires |states| == |steps| + 1 && i < |steps|
  {
    Enabled(states[i], steps[i]) && states[i + 1] == Do(states[i], steps[i]).next
  }

  ghost function EventAt(states: seq<System>, steps: seq<Step>, i: nat): Event
    requires Run(states, steps) && i < |steps|
  {
    assert RunStep(states, steps, i);
    Do(states[i], steps[i]).event
  }

  ghost predicate Initial(s: System)
  {
    && s.flag.status == Set && s.flag.waiting == 0
    && forall t :: t in s.threads ==> s.threads[t] == Outside
  }

  // ---------------------------------------------------------------- the invariant of every run

  ghost function ParkedSet(s: System): set<Thread>
  {
    set t | t in s.threads && s.threads[t].Parked?
  }

  ghost predicate InPhase(s: System, t: Thread, p: Phase)
  {
    t in s.threads && s.threads[t] == p
  }

  ghost predicate Ending(s: System, t: Thread)
  {
    InPhase(s, t, DrainingDestroy) || InPhase(s, t, Destroyed)
  }

  ghost predicate Inv(s: System)
  {
    && s.flag.waiting == |ParkedSet(s)|
    && (s.flag.single ==> s.flag.waiting <= 1)
    && (s.flag.status == Canceled <==> exists t :: InPhase(s, t, DrainingCancel))
    && (s.flag.status == Deleted <==> exists t :: Ending(s, t))
    && (forall t, u :: InPhase(s, t, DrainingCancel) && InPhase(s, u, DrainingCancel) ==> t == u)
    && (forall t, u :: Ending(s, t) && Ending(s, u) ==> t == u)
  }

  lemma InitialInv(s: System)
    requires Initial(s)
    ensures Inv(s)
  {
    assert ParkedSet(s) == {};
    assert forall t :: !InPhase(s, t, DrainingCancel);
  }

  /** Changing one thread's phase changes the parked set by at most that thread. */
  lemma ParkedAfter(s: System, t: Thread, flag: Flag, phase: Phase)
    requires t in s.threads
    ensures ParkedSet(At(s, t, flag, phase)) ==
      if phase.Parked? then ParkedSet(s) + {t} else ParkedSet(s) - {t}
    ensures |ParkedSet(At(s, t, flag, phase))| == |ParkedSet(s)|
      + (if phase.Parked? then 1 else 0) - (if s.threads[t].Parked? then 1 else 0)
  {
    var s' := At(s, t, flag, phase);
    var rest := ParkedSet(s) - {t};
    if s.threads[t].Parked? {
      assert ParkedSet(s) == rest + {t};
    } else {
      assert ParkedSet(s) == rest;
    }
    if phase.Parked? {
      assert ParkedSet(s') == rest + {t};
    } else {
      assert ParkedSet(s') == rest;
    }
  }

  lemma PhasesAfter(s: System, t: Thread, flag: Flag, phase: Phase)
    requires t in s.threads
    ensures forall u, p :: InPhase(At(s, t, flag, phase), u, p) <==>
              if u == t then p == phase else InPhase(s, u, p)
    ensures forall u :: Ending(At(s, t, flag, phase), u) <==>
              if u == t then phase == DrainingDestroy || phase == Destroyed else Ending(s, u)
  {
  }

  ghost predicate Calm(p: Phase)
  {
    p != DrainingCancel && p != DrainingDestroy && p != Destroyed
  }

  /** A step that neither starts nor ends a cancellation or deletion. */
  lemma CalmStep(s: System, t: Thread, flag: Flag, phase: Phase)
    requires Inv(s) && t in s.threads && Calm(s.threads[t]) && Calm(phase)
    requires flag.status == s.flag.status && flag.single == s.flag.single
    requires flag.waiting == s.flag.waiting
      + (if phase.Parked? then 1 else 0) - (if s.threads[t].Parked? then 1 else 0)
    requires flag.single ==> flag.waiting <= 1
    ensures Inv(At(s, t, flag, phase))
  {
    ParkedAfter(s, t, flag, phase);
    PhasesAfter(s, t, flag, phase);
    SamePhases(s, At(s, t, flag, phase));
  }

  lemma SamePhases(s: System, s': System)
    requires forall u :: InPhase(s, u, DrainingCancel) <==> InPhase(s', u, DrainingCancel)
    requires forall u :: Ending(s, u) <==> Ending(s', u)
    ensures (exists u :: InPhase(s, u, DrainingCancel)) <==> (exists u :: InPhase(s', u, DrainingCancel))
    ensures (exists u :: Ending(s, u)) <==> (exists u :: Ending(s', u))
  {
  }

  /** With status Set nobody is cancelling or deleting, so thread t becomes the only one. */
  lemma TakeOver(s: System, t: Thread, flag: Flag, phase: Phase)
    requires Inv(s) && t in s.threads && Calm(s.threads[t]) && !s.threads[t].Parked?
    requires s.flag.status == Set && flag.single == s.flag.single && flag.waiting == s.flag.waiting
    requires || (phase == DrainingCancel && flag.status == Canceled)
             || ((phase == DrainingDestroy || phase == Destroyed) && flag.status == Deleted)
    ensures Inv(At(s, t, flag, phase))
  {
    var s' := At(s, t, flag, phase);
    ParkedAfter(s, t, flag, phase);
    PhasesAfter(s, t, flag, phase);
    assert forall u :: !InPhase(s, u, DrainingCancel) && !Ending(s, u);
    if phase == DrainingCancel {
      assert InPhase(s', t, DrainingCancel);
      assert forall u :: !Ending(s', u);
    } else {
      assert Ending(s', t);
      assert forall u :: !InPhase(s', u, DrainingCancel);
    }
  }

  /** The one cancelling or deleting thread leaves that phase. */
  lemma HandBack(s: System, t: Thread, flag: Flag, phase: Phase)
    requires Inv(s) && t in s.threads && flag.single == s.flag.single
    requires flag.waiting == s.flag.waiting
    requires || (s.threads[t] == DrainingCancel && phase == Outside && flag.status == Set)
             || (s.threads[t] == DrainingDestroy && phase == Destroyed && flag.status == Deleted)
    ensures Inv(At(s, t, flag, phase))
  {
    var s' := At(s, t, flag, phase);
    ParkedAfter(s, t, flag, phase);
    PhasesAfter(s, t, flag, phase);
    if phase == Destroyed {
      assert Ending(s, t) && Ending(s', t);
      assert forall u :: !InPhase(s, u, DrainingCancel) && !InPhase(s', u, DrainingCancel);
    } else {
      assert InPhase(s, t, DrainingCancel);
      assert forall u :: !Ending(s, u) && !Ending(s', u);
      assert forall u :: !InPhase(s', u, DrainingCancel);
    }
  }

  /** Every step keeps the invariant. */
  lemma InvStep(s: System, step: Step)
    requires Inv(s) && Enabled(s, step)
    ensures Inv(Do(s, step).next)
  {
    var t := step.t;
    match step
    case CallWait(_, req) =>
      var r := EnterWait(s.flag, req);
      CalmStep(s, t, r.0, if r.1 == Parks then Parked(req) else Outside);
    case Wake(_, elapsed) =>
      var req := s.threads[t].req;
      var r := ResumeWait(s.flag, req, elapsed);
      CalmStep(s, t, r.0, if r.1 == Parks then Parked(req) else Outside);
    case Call(_, op) => AttemptInv(s, t, op);
    case Retry(_) => AttemptInv(s, t, s.threads[t].op);
    case Drain(_) =>
      if s.flag.waiting <= 0 {
        if s.threads[t] == DrainingCancel {
          HandBack(s, t, s.flag.(status := Set), Outside);
        } else {
          assert Ending(s, t);
          HandBack(s, t, s.flag, Destroyed);
        }
      }
  }

  lemma InvFacts(s: System)
    requires Inv(s)
    ensures s.flag.waiting >= 0 && (s.flag.single ==> s.flag.waiting <= 1)
  {
  }

  lemma AttemptInv(s: System, t: Thread, op: Op)
    requires Inv(s) && t in s.threads && Calm(s.threads[t]) && !s.threads[t].Parked?
    ensures Inv(Attempt(s, t, op).next)
  {
    hide Inv, At, Raise, Keep;
    var f := s.flag;
    InvFacts(s);
    if f.status != Set {
      CalmStep(s, t, f, Spinning(op));
    } else {
      match op
      case SetOp(b) =>
        CalmStep(s, t, AfterSet(f, b), Outside);
      case ClearOp(b) =>
        CalmStep(s, t, AfterClear(f, b), Outside);
      case CancelOp(b) => CancelInv(s, t, b);
      case DestroyOp =>
        TakeOver(s, t, AfterDestroy(f),
                 if f.waiting > 0 then DrainingDestroy else Destroyed);
    }
  }

  lemma CancelInv(s: System, t: Thread, b: Pattern)
    requires Inv(s) && t in s.threads && Calm(s.threads[t]) && !s.threads[t].Parked?
    requires s.flag.status == Set
    ensures Inv(Attempt(s, t, CancelOp(b)).next)
  {
    hide Inv, At;
    var f := s.flag;
    InvFacts(s);
    if f.waiting > 0 {
      TakeOver(s, t, AfterCancel(f, b), DrainingCancel);
    } else {
      CalmStep(s, t, AfterCancel(f, b), Outside);
    }
  }

  /**
   In every state of every run: the waiter count is the number of parked threads, at most one
   thread is parked on a single-thread flag, the status is Canceled or Deleted exactly while one
   thread cancels or deletes.
   */
  lemma {:induction false} RunInv(states: seq<System>, steps: seq<Step>, i: nat)
    requires Run(states, steps) && i < |states|
    ensures Inv(states[i])
  {
    if i == 0 {
      InitialInv(states[0]);
    } else {
      RunInv(states, steps, i - 1);
      assert RunStep(states, steps, i - 1);
      InvStep(states[i - 1], steps[i - 1]);
    }
  }

  // ---------------------------------------------------------------- cancellation and deletion

  ghost predicate IsParked(s: System, t: Thread)
  {
    t in s.threads && s.threads[t].Parked?
  }

  /** While somebody is parked, a Canceled or Deleted status stays as it is. */
  lemma StatusStays(s: System, step: Step, t: Thread)
    requires Inv(s) && Enabled(s, step) && IsParked(s, t) && s.flag.status != Set
    ensures Do(s, step).next.flag.status == s.flag.status
  {
    assert t in ParkedSet(s);
    assert s.flag.waiting > 0;
  }

  /** A step after which the status is Set again leaves nobody parked. */
  lemma SetOnlyWhenDrained(s: System, step: Step)
    requires Inv(s) && Enabled(s, step)
    requires s.flag.status != Set && Do(s, step).next.flag.status == Set
    ensures s.flag.status == Canceled && ParkedSet(Do(s, step).next) == {}
    ensures step.Drain? && Do(s, step).event == CancelFinished
  {
    assert InPhase(s, step.t, DrainingCancel);
    assert |ParkedSet(s)| == 0;
    ParkedAfter(s, step.t, s.flag.(status := Set), Outside);
  }

  /** The destructor finishes only when nobody is parked. */
  lemma DestroyedOnlyWhenDrained(s: System, step: Step)
    requires Inv(s) && Enabled(s, step) && Gone(Do(s, step).next)
    ensures ParkedSet(Do(s, step).next) == {}
  {
    InvStep(s, step);
    hide Inv, Enabled, Do, ParkedSet;
    GoneHere(s, step);
    DrainedWhenEmpty(Do(s, step).next);
  }

  /** The thread that has just returned is the one that made the step, and it saw no waiters. */
  lemma GoneHere(s: System, step: Step)
    requires Enabled(s, step) && Gone(Do(s, step).next)
    ensures Do(s, step).next.flag.waiting <= 0
  {
    var next := Do(s, step).next;
    var u :| u in next.threads && next.threads[u] == Destroyed;
    assert u == step.t;
  }

  lemma DrainedWhenEmpty(s: System)
    requires Inv(s) && s.flag.waiting <= 0
    ensures ParkedSet(s) == {}
  {
  }

  /** A parked thread stays parked until it wakes itself. */
  lemma OthersKeepParked(s: System, step: Step, t: Thread)
    requires Enabled(s, step) && IsParked(s, t) && !(step.Wake? && step.t == t)
    ensures IsParked(Do(s, step).next, t)
  {
  }

  ghost predicate Wakes(step: Step, t: Thread)
  {
    step.Wake? && step.t == t
  }

  /** From a cancellation or deletion on, the status stays until thread t, parked then, wakes. */
  lemma {:induction false} StatusUntilWake(states: seq<System>, steps: seq<Step>,
                                           i: nat, k: nat, t: Thread, status: Status)
    requires Run(states, steps) && i < k <= |steps|
    requires IsParked(states[i + 1], t) && states[i + 1].flag.status == status != Set
    requires forall j :: i < j < k ==> !Wakes(steps[j], t)
    ensures IsParked(states[k], t) && states[k].flag.status == status
    decreases k
  {
    if k > i + 1 {
      StatusUntilWake(states, steps, i, k - 1, t, status);
      assert RunStep(states, steps, k - 1);
      RunInv(states, steps, k - 1);
      StatusStays(states[k - 1], steps[k - 1], t);
      OthersKeepParked(states[k - 1], steps[k - 1], t);
    }
  }

  /**
   Every thread parked when Cancel goes through returns WasCanceled from its next wake-up, never Ok
   or TimedOut, and the count Cancel reports is exactly the number of those threads.
   */
  lemma CancelReachesEveryWaiter(states: seq<System>, steps: seq<Step>, i: nat, k: nat, t: Thread)
    requires Run(states, steps) && i < k < |steps|
    requires EventAt(states, steps, i).CancelCommitted? && IsParked(states[i], t)
    requires Wakes(steps[k], t) && forall j :: i < j < k ==> !Wakes(steps[j], t)
    ensures EventAt(states, steps, i).reported == |ParkedSet(states[i])|
    ensures EventAt(states, steps, k).WaitReturned?
    ensures EventAt(states, steps, k).outcome.result == WasCanceled
  {
    RunInv(states, steps, i);
    assert RunStep(states, steps, i) && RunStep(states, steps, k);
    assert t in ParkedSet(states[i]);
    OthersKeepParked(states[i], steps[i], t);
    StatusUntilWake(states, steps, i, k, t, Canceled);
  }

  /** Likewise every thread parked when the destructor goes through returns WasDeleted. */
  lemma DeleteReachesEveryWaiter(states: seq<System>, steps: seq<Step>, i: nat, k: nat, t: Thread)
    requires Run(states, steps) && i < k < |steps|
    requires EventAt(states, steps, i) == DestroyCommitted && IsParked(states[i], t)
    requires Wakes(steps[k], t) && forall j :: i < j < k ==> !Wakes(steps[j], t)
    ensures EventAt(states, steps, k).WaitReturned?
    ensures EventAt(states, steps, k).outcome.result == WasDeleted
  {
    RunInv(states, steps, i);
    assert RunStep(states, steps, i) && RunStep(states, steps, k);
    OthersKeepParked(states[i], steps[i], t);
    StatusUntilWake(states, steps, i, k, t, Deleted);
  }

  // ---------------------------------------------------------------- what a returning Wait says

  ghost function RequestOf(s: System, step: Step): Request
    requires Enabled(s, step) && (step.CallWait? || step.Wake?)
  {
    if step.CallWait? then step.req else s.threads[step.t].req
  }

  /**
   An Ok result reports the pattern at that instant, which satisfies the request, and clears what
   the request says; a TimedOut result saw an unsatisfied pattern with the time used up, and
   neither it nor AlreadyWaiting changes anything but the parked set.
   */
  lemma ReturnMeaning(s: System, step: Step)
    requires Inv(s) && Enabled(s, step) && Do(s, step).event.WaitReturned?
    ensures (step.CallWait? || step.Wake?) && Do(s, step).event.outcome.Returns?
    ensures var req := RequestOf(s, step);
      var out := Do(s, step).event.outcome;
      var next := Do(s, step).next;
      && (out.result == Ok ==> out.seen == Some(s.flag.bits) && Satisfied(s.flag.bits, req)
                               && next.flag.bits == Cleared(s.flag.bits, req))
      && (out.result == TimedOut ==> out.seen == Some(s.flag.bits)
                                     && !Satisfied(s.flag.bits, req) && out.left == Some(0))
      && (out.result == AlreadyWaiting ==> step.CallWait? && s.flag.single && ParkedSet(s) != {})
      && (out.result != Ok ==> next.flag.bits == s.flag.bits)
      && ParkedSet(next) == ParkedSet(s) - {step.t}
  {
    hide Satisfied, Cleared, Expired;
    ParkedAfter(s, step.t, Do(s, step).next.flag, Outside);
    ExpiredLeavesNothing(RequestOf(s, step), if step.Wake? then step.elapsed else 0);
  }

  lemma ExpiredLeavesNothing(req: Request, elapsed: nat)
    ensures Expired(req, elapsed) ==> TimeLeft(req, elapsed) == Some(0)
  {
  }

  /** A poll, which is a wait with no time at all, returns at once. */
  lemma PollNeverParks(s: System, t: Thread, req: Request)
    requires Enabled(s, CallWait(t, req)) && req.micros == Some(0)
    ensures Do(s, CallWait(t, req)).event.WaitReturned?
    ensures forall u :: IsParked(Do(s, CallWait(t, req)).next, u) ==> IsParked(s, u)
  {
  }

  /** Some bit of the mask m is raised. */
  predicate Has(bits: Pattern, m: Pattern)
  {
    bits & m != 0
  }

  /** Step i is an Ok return that saw some bit of m and left none of them. */
  ghost predicate Takes(states: seq<System>, steps: seq<Step>, i: nat, m: Pattern)
    requires Run(states, steps) && i < |steps|
  {
    && EventAt(states, steps, i).WaitReturned?
    && EventAt(states, steps, i).outcome.Returns?
    && EventAt(states, steps, i).outcome.result == Ok
    && EventAt(states, steps, i).outcome.seen.Some?
    && Has(EventAt(states, steps, i).outcome.seen.value, m)
    && !Has(states[i + 1].flag.bits, m)
  }

  ghost predicate Raises(states: seq<System>, steps: seq<Step>, j: nat, m: Pattern)
    requires Run(states, steps) && j < |steps|
  {
    && (EventAt(states, steps, j) == SetDone || EventAt(states, steps, j).CancelCommitted?)
    && !Has(states[j].flag.bits, m) && Has(states[j + 1].flag.bits, m)
  }

  lemma KeepLowers(bits: Pattern, kept: Pattern, m: Pattern)
    requires !Has(bits, m)
    ensures !Has(Keep(bits, kept), m)
  {
  }

  lemma NothingRaised(m: Pattern)
    ensures !Has(0, m)
  {
  }

  lemma ClearingLowers(bits: Pattern, req: Request, kept: Pattern, m: Pattern)
    requires !Has(bits, m)
    ensures !Has(Cleared(bits, req), m) && !Has(Keep(bits, kept), m)
  {
    hide Has, Keep;
    KeepLowers(bits, !req.bits, m);
    KeepLowers(bits, kept, m);
    NothingRaised(m);
  }

  /** Only Set and Cancel can raise a bit. */
  lemma OnlySetAndCancelRaise(s: System, step: Step, m: Pattern)
    requires Inv(s) && Enabled(s, step) && !Has(s.flag.bits, m)
    requires Has(Do(s, step).next.flag.bits, m)
    ensures Do(s, step).event == SetDone || Do(s, step).event.CancelCommitted?
  {
    hide Cleared, Keep, Raise, Satisfied, Has;
    match step
    case CallWait(_, req) => ClearingLowers(s.flag.bits, req, 0, m);
    case Wake(t, _) => ClearingLowers(s.flag.bits, s.threads[t].req, 0, m);
    case Call(_, op) => AttemptRaises(s, step.t, op, m);
    case Retry(t) => AttemptRaises(s, t, s.threads[t].op, m);
    case Drain(_) =>
  }

  lemma AttemptRaises(s: System, t: Thread, op: Op, m: Pattern)
    requires !Has(s.flag.bits, m) && Has(Attempt(s, t, op).next.flag.bits, m)
    ensures Attempt(s, t, op).event == SetDone || Attempt(s, t, op).event.CancelCommitted?
  {
    hide Raise, Keep, Has;
    if op.ClearOp? {
      ClearingLowers(s.flag.bits, Request(0, And, ClearNone, None), op.bits, m);
    }
  }

  /** If bits of m are clear at i and set at k, some step in between raises them. */
  lemma {:induction false} RaisedBetween(states: seq<System>, steps: seq<Step>, i: nat, k: nat,
                                         m: Pattern) returns (j: nat)
    requires Run(states, steps) && i <= k <= |steps|
    requires !Has(states[i].flag.bits, m) && Has(states[k].flag.bits, m)
    ensures i <= j < k && Raises(states, steps, j, m)
    decreases k
  {
    hide Has;
    if !Has(states[k - 1].flag.bits, m) {
      j := k - 1;
      assert RunStep(states, steps, j);
      RunInv(states, steps, j);
      OnlySetAndCancelRaise(states[j], steps[j], m);
    } else {
      j := RaisedBetween(states, steps, i, k - 1, m);
    }
  }

  /**
   A raised bit is consumed once: between two Ok returns that both saw and cleared bits of m there
   is a Set or Cancel that raised them again.
   */
  lemma ConsumedOnce(states: seq<System>, steps: seq<Step>, i: nat, k: nat, m: Pattern)
    returns (j: nat)
    requires Run(states, steps) && i < k < |steps|
    requires Takes(states, steps, i, m) && Takes(states, steps, k, m)
    ensures i < j < k && Raises(states, steps, j, m)
  {
    hide Has, Satisfied, Cleared, Do;
    RunInv(states, steps, k);
    assert RunStep(states, steps, k);
    ReturnMeaning(states[k], steps[k]);
    j := RaisedBetween(states, steps, i + 1, k, m);
  }
}
