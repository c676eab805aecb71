/**
 What the calls on an event flag mean bit by bit, over every run: which wait returns and which one
 parks, what it reports, and what every call leaves in the pattern. The statements speak of single
 bits, of the time asked for and of what the other threads are doing.
 */
module EventFlagBits {
  import opened Common
  import opened EventFlag
  import opened EventFlagRuns

  // ---------------------------------------------------------------- single bits

  /** Bit j of the pattern is raised; there are none from 64 on. */
  predicate Bit(p: Pattern, j: nat)
  {
    if j == 0 then Odd(p) else Bit(Half(p), j - 1)
  }

  predicate Odd(p: Pattern)
  {
    p & 1 == 1
  }

  function Half(p: Pattern): Pattern
  {
    p >> 1
  }

  /** Some bit of a pattern that is not zero is raised. */
  lemma {:induction false} SomeBit(p: Pattern) returns (j: nat)
    requires p != 0
    ensures Bit(p, j)
    decreases p
  {
    if Odd(p) {
      j := 0;
    } else {
      HalfRemains(p);
      j := SomeBit(Half(p));
      j := j + 1;
    }
  }

  lemma HalfRemains(p: Pattern)
    requires p != 0 && !Odd(p)
    ensures Half(p) != 0 && Half(p) < p
  {
  }

  lemma {:induction false} ZeroBit(j: nat)
    ensures !Bit(0, j)
  {
    assert Half(0) == 0;
    if j > 0 {
      ZeroBit(j - 1);
    }
  }

  function Without(p: Pattern, q: Pattern): Pattern
  {
    p & !q
  }

  lemma {:induction false} AndBit(p: Pattern, q: Pattern, j: nat)
    ensures Bit(Keep(p, q), j) <==> Bit(p, j) && Bit(q, j)
    decreases j
  {
    hide Odd, Half, Keep;
    AndParts(p, q);
    if j > 0 {
      AndBit(Half(p), Half(q), j - 1);
    }
  }

  lemma AndParts(p: Pattern, q: Pattern)
    ensures Odd(Keep(p, q)) <==> Odd(p) && Odd(q)
    ensures Half(Keep(p, q)) == Keep(Half(p), Half(q))
  {
  }

  lemma {:induction false} OrBit(p: Pattern, q: Pattern, j: nat)
    ensures Bit(Raise(p, q), j) <==> Bit(p, j) || Bit(q, j)
    decreases j
  {
    hide Odd, Half, Raise;
    OrParts(p, q);
    if j > 0 {
      OrBit(Half(p), Half(q), j - 1);
    }
  }

  lemma OrParts(p: Pattern, q: Pattern)
    ensures Odd(Raise(p, q)) <==> Odd(p) || Odd(q)
    ensures Half(Raise(p, q)) == Raise(Half(p), Half(q))
  {
  }

  lemma {:induction false} WithoutBit(p: Pattern, q: Pattern, j: nat)
    ensures Bit(Without(p, q), j) <==> Bit(p, j) && !Bit(q, j)
    decreases j
  {
    hide Odd, Half, Without;
    WithoutParts(p, q);
    if j > 0 {
      WithoutBit(Half(p), Half(q), j - 1);
    }
  }

  lemma WithoutParts(p: Pattern, q: Pattern)
    ensures Odd(Without(p, q)) <==> Odd(p) && !Odd(q)
    ensures Half(Without(p, q)) == Without(Half(p), Half(q))
  {
  }

  // ---------------------------------------------------------------- what a request asks for

  /** The pattern has what the request asks for: all of its bits, or one of them. */
  ghost predicate Asked(p: Pattern, req: Request)
  {
    match req.wait
    case And => HasAll(p, req.bits)
    case Or => HasOne(p, req.bits)
  }

  ghost predicate HasAll(p: Pattern, want: Pattern)
  {
    forall j :: Bit(want, j) ==> Bit(p, j)
  }

  ghost predicate HasOne(p: Pattern, want: Pattern)
  {
    exists j :: Bit(want, j) && Bit(p, j)
  }

  lemma SatisfiedIsAsked(p: Pattern, req: Request)
    ensures Satisfied(p, req) <==> Asked(p, req)
  {
    hide Bit, Keep;
    var want := req.bits;
    match req.wait
    case And => AllAsked(p, want);
    case Or => OneAsked(p, want);
  }

  lemma AllAsked(p: Pattern, want: Pattern)
    ensures Keep(p, want) == want <==> HasAll(p, want)
  {
    hide Bit, Keep;
    if Keep(p, want) == want {
      forall j | Bit(want, j) ensures Bit(p, j) {
        AndBit(p, want, j);
      }
    } else {
      var j := MissingBit(p, want);
    }
  }

  lemma MissingBit(p: Pattern, want: Pattern) returns (j: nat)
    requires Keep(p, want) != want
    ensures Bit(want, j) && !Bit(p, j)
  {
    hide Bit, Keep, Without;
    NothingMissing(p, want);
    j := SomeBit(Without(want, p));
    WithoutBit(want, p, j);
  }

  lemma NothingMissing(p: Pattern, want: Pattern)
    requires Keep(p, want) != want
    ensures Without(want, p) != 0
  {
  }

  lemma OneAsked(p: Pattern, want: Pattern)
    ensures Keep(p, want) != 0 <==> HasOne(p, want)
  {
    hide Bit, Keep;
    if Keep(p, want) != 0 {
      var j := SomeBit(Keep(p, want));
      AndBit(p, want, j);
    } else {
      forall j ensures !(Bit(want, j) && Bit(p, j)) {
        AndBit(p, want, j);
        ZeroBit(j);
      }
    }
  }

  /** What a successful wait leaves: everything, nothing, or all but the bits of the request. */
  ghost predicate Consumed(before: Pattern, after: Pattern, req: Request)
  {
    forall j :: Bit(after, j) <==>
      match req.clear
      case ClearNone => Bit(before, j)
      case ClearAll => false
      case ClearBits => Bit(before, j) && !Bit(req.bits, j)
  }

  lemma ClearedIsConsumed(p: Pattern, req: Request)
    ensures Consumed(p, Cleared(p, req), req)
  {
    hide Bit, Keep, Without;
    forall j
      ensures Bit(Without(p, req.bits), j) <==> Bit(p, j) && !Bit(req.bits, j)
      ensures !Bit(0, j)
    {
      WithoutBit(p, req.bits, j);
      ZeroBit(j);
    }
    KeptBut(p, req.bits);
  }

  lemma KeptBut(p: Pattern, q: Pattern)
    ensures Keep(p, !q) == Without(p, q)
  {
  }

  // ---------------------------------------------------------------- waiting, over every run

  /** The time since the call, as the step knows it: none at the call itself. */
  function Elapsed(step: Step): nat
  {
    if step.Wake? then step.elapsed else 0
  }

  /** What is left of the time asked for; infinite waits stay infinite. */
  ghost predicate RestOf(asked: Option<nat>, elapsed: nat, left: Option<nat>)
  {
    match asked
    case None => left == None
    case Some(micros) =>
      left.Some? && if elapsed < micros then left.value + elapsed == micros else left.value == 0
  }

  ghost predicate OutOfTime(asked: Option<nat>, elapsed: nat)
  {
    RestOf(asked, elapsed, Some(0))
  }

  /** A thread is in the middle of Cancel. */
  ghost predicate Cancelling(s: System)
  {
    exists t :: InPhase(s, t, DrainingCancel)
  }

  /** A thread is in the middle of the destructor. */
  ghost predicate Deleting(s: System)
  {
    exists t :: InPhase(s, t, DrainingDestroy)
  }

  /** The wait ends here with this result. */
  ghost predicate Ends(states: seq<System>, steps: seq<Step>, i: nat, result: Result)
    requires Run(states, steps) && i < |steps| && (steps[i].CallWait? || steps[i].Wake?)
  {
    && EventAt(states, steps, i).WaitReturned?
    && EventAt(states, steps, i).outcome.Returns?
    && EventAt(states, steps, i).outcome.result == result
    && !IsParked(states[i + 1], steps[i].t)
  }

  /** What it reports is the pattern it saw and the rest of the time. */
  ghost predicate ReportsRest(states: seq<System>, steps: seq<Step>, i: nat)
    requires Run(states, steps) && i < |steps| && (steps[i].CallWait? || steps[i].Wake?)
  {
    assert RunStep(states, steps, i);
    && EventAt(states, steps, i).WaitReturned?
    && EventAt(states, steps, i).outcome.Returns?
    && EventAt(states, steps, i).outcome.seen == Some(states[i].flag.bits)
    && RestOf(RequestOf(states[i], steps[i]).micros, Elapsed(steps[i]),
              EventAt(states, steps, i).outcome.left)
  }

  /**
   Every critical section of every wait in every run, decided by what the other threads are doing,
   by the bits and by the time. A call on a single-thread flag on which somebody is parked is
   refused. A woken thread is told of a cancellation or a deletion in progress. Otherwise the wait
   succeeds exactly when the pattern has what is asked for, times out exactly when it has not and
   the time is used up, and parks exactly when it has not and there is time left. Every return but
   the refusal reports the pattern it saw and the rest of the time; only success changes the
   pattern, as the clear mode says.
   */
  lemma WaitDecides(states: seq<System>, steps: seq<Step>, i: nat)
    requires Run(states, steps) && i < |steps| && (steps[i].CallWait? || steps[i].Wake?)
    ensures Enabled(states[i], steps[i])
    ensures var s, next := states[i], states[i + 1];
      var req, elapsed := RequestOf(s, steps[i]), Elapsed(steps[i]);
      if steps[i].CallWait? && s.flag.single && ParkedSet(s) != {} then
        Ends(states, steps, i, AlreadyWaiting) && next.flag.bits == s.flag.bits
      else if steps[i].Wake? && Cancelling(s) then
        && Ends(states, steps, i, WasCanceled) && ReportsRest(states, steps, i)
        && next.flag.bits == s.flag.bits
      else if steps[i].Wake? && Deleting(s) then
        && Ends(states, steps, i, WasDeleted) && ReportsRest(states, steps, i)
        && next.flag.bits == s.flag.bits
      else if Asked(s.flag.bits, req) then
        && Ends(states, steps, i, Ok) && ReportsRest(states, steps, i)
        && Consumed(s.flag.bits, next.flag.bits, req)
      else if OutOfTime(req.micros, elapsed) then
        && Ends(states, steps, i, TimedOut) && ReportsRest(states, steps, i)
        && next.flag.bits == s.flag.bits
      else
        && EventAt(states, steps, i) == Silent && InPhase(next, steps[i].t, Parked(req))
        && next.flag.bits == s.flag.bits
  {
    RunInv(states, steps, i);
    assert RunStep(states, steps, i);
    var s := states[i];
    var req := RequestOf(s, steps[i]);
    StatusTells(s);
    SatisfiedIsAsked(s.flag.bits, req);
    ClearedIsConsumed(s.flag.bits, req);
    hide Satisfied, Asked, Cleared, Consumed, Inv, Run, Cancelling, Deleting, ParkedSet;
  }

  /** The status is what the other threads are doing. */
  lemma StatusTells(s: System)
    requires Inv(s) && !Gone(s)
    ensures s.flag.waiting == |ParkedSet(s)| && (s.flag.waiting > 0 <==> ParkedSet(s) != {})
    ensures s.flag.status == Canceled <==> Cancelling(s)
    ensures s.flag.status == Deleted <==> Deleting(s)
  {
    if s.flag.status == Deleted {
      var t :| Ending(s, t);
      assert InPhase(s, t, DrainingDestroy);
    }
    if Deleting(s) {
      var t :| InPhase(s, t, DrainingDestroy);
      assert Ending(s, t);
    }
  }

  // ---------------------------------------------------------------- setting, clearing, cancelling

  /** The operation that is called or tried again. */
  ghost function OpOf(s: System, step: Step): Op
    requires Enabled(s, step) && (step.Call? || step.Retry?)
  {
    if step.Call? then step.op else s.threads[step.t].op
  }

  /**
   Every attempt of Set, Clear, Cancel and the destructor in every run: it goes through exactly when
   nobody cancels or deletes. Set then adds exactly its bits, Clear keeps exactly those it names,
   Cancel leaves its own pattern and reports how many are parked.
   */
  lemma CallDecides(states: seq<System>, steps: seq<Step>, i: nat)
    requires Run(states, steps) && i < |steps| && (steps[i].Call? || steps[i].Retry?)
    ensures Enabled(states[i], steps[i])
    ensures var s, next, e := states[i], states[i + 1], EventAt(states, steps, i);
      var before, after := s.flag.bits, next.flag.bits;
      var op := OpOf(s, steps[i]);
      if Cancelling(s) || Deleting(s) then
        e == Silent && after == before && InPhase(next, steps[i].t, Spinning(op))
      else
        match op
        case SetOp(b) => e == SetDone && forall j :: Bit(after, j) <==> Bit(before, j) || Bit(b, j)
        case ClearOp(b) =>
          e == ClearDone && forall j :: Bit(after, j) <==> Bit(before, j) && Bit(b, j)
        case CancelOp(b) => e == CancelCommitted(|ParkedSet(s)|) && after == b
        case DestroyOp => e == DestroyCommitted && after == before
  {
    RunInv(states, steps, i);
    assert RunStep(states, steps, i);
    var s := states[i];
    var op := OpOf(s, steps[i]);
    StatusTells(s);
    hide Inv, Run, Cancelling, Deleting, ParkedSet, Bit, Raise, Keep;
    if op.SetOp? {
      RaisedBits(s.flag.bits, op.bits);
    } else if op.ClearOp? {
      KeptBits(s.flag.bits, op.bits);
    }
  }

  lemma RaisedBits(p: Pattern, more: Pattern)
    ensures forall j :: Bit(Raise(p, more), j) <==> Bit(p, j) || Bit(more, j)
  {
    hide Bit, Raise;
    forall j ensures Bit(Raise(p, more), j) <==> Bit(p, j) || Bit(more, j) {
      OrBit(p, more, j);
    }
  }

  lemma KeptBits(p: Pattern, kept: Pattern)
    ensures forall j :: Bit(Keep(p, kept), j) <==> Bit(p, j) && Bit(kept, j)
  {
    hide Bit, Keep;
    forall j ensures Bit(Keep(p, kept), j) <==> Bit(p, j) && Bit(kept, j) {
      AndBit(p, kept, j);
    }
  }

  /** The second loops of Cancel and the destructor leave the pattern alone. */
  lemma DrainLeavesPattern(states: seq<System>, steps: seq<Step>, i: nat)
    requires Run(states, steps) && i < |steps| && steps[i].Drain?
    ensures states[i + 1].flag.bits == states[i].flag.bits
    ensures ParkedSet(states[i]) != {} ==> states[i + 1] == states[i]
    ensures ParkedSet(states[i]) == {} ==>
      !InPhase(states[i + 1], steps[i].t, DrainingCancel)
      && !InPhase(states[i + 1], steps[i].t, DrainingDestroy)
  {
    RunInv(states, steps, i);
    assert RunStep(states, steps, i);
    StatusTells(states[i]);
    hide Inv, Run, ParkedSet;
  }
}
