/**
 The kernel event flag. Every operation is a sequence of critical sections: what a thread does
 between taking and releasing the mutex. The class has one method per critical section, each
 proved to compute a function on the flag's state; EventFlagRuns interleaves those functions for
 any number of threads.
 */
module EventFlag {
  import opened Common

  type Pattern = bv64

  datatype Status = Set | Canceled | Deleted

  datatype WaitMode = And | Or

  datatype ClearMode = ClearNone | ClearAll | ClearBits

  /** One call of Wait; no timeout means waiting infinitely. Poll is a wait with timeout 0. */
  datatype Request = Request(bits: Pattern, wait: WaitMode, clear: ClearMode, micros: Option<nat>)

  datatype Result = Ok | AlreadyWaiting | TimedOut | WasCanceled | WasDeleted

  /**
   How a critical section of Wait ends: parked in the condition variable, or returning a result.
   A return reports the pattern it saw (AlreadyWaiting reports none) and the time left.
   */
  datatype Outcome = Parks | Returns(result: Result, seen: Option<Pattern>, left: Option<nat>)

  /** The fields of KernelEventFlagPrivate that its operations read or write. */
  datatype Flag = Flag(status: Status, bits: Pattern, waiting: int, single: bool)

  /** Set raises bits; Clear keeps only the bits it names. */
  function Raise(bits: Pattern, more: Pattern): Pattern
  {
    bits | more
  }

  function Keep(bits: Pattern, kept: Pattern): Pattern
  {
    bits & kept
  }

  predicate Satisfied(bits: Pattern, req: Request)
  {
    match req.wait
    case And => Keep(bits, req.bits) == req.bits
    case Or => Keep(bits, req.bits) != 0
  }

  function Cleared(bits: Pattern, req: Request): Pattern
  {
    match req.clear
    case ClearAll => 0
    case ClearBits => Keep(bits, !req.bits)
    case ClearNone => bits
  }

  function TimeLeft(req: Request, elapsed: nat): Option<nat>
  {
    match req.micros
    case None => None
    case Some(micros) => Some(if elapsed >= micros then 0 else micros - elapsed)
  }

  predicate Expired(req: Request, elapsed: nat)
  {
    req.micros.Some? && elapsed >= req.micros.value
  }

  /** One evaluation of the loop in Wait, up to returning or parking. */
  function WaitLoop(f: Flag, req: Request, elapsed: nat): (Flag, Outcome)
  {
    if Satisfied(f.bits, req) then
      (f.(bits := Cleared(f.bits, req)), Returns(Ok, Some(f.bits), TimeLeft(req, elapsed)))
    else if Expired(req, elapsed) then
      (f, Returns(TimedOut, Some(f.bits), TimeLeft(req, elapsed)))
    else
      (f.(waiting := f.waiting + 1), Parks)
  }

  function EnterWait(f: Flag, req: Request): (Flag, Outcome)
  {
    if f.single && f.waiting > 0 then (f, Returns(AlreadyWaiting, None, req.micros))
    else WaitLoop(f, req, 0)
  }

  /** A parked thread goes on, for whatever reason, after elapsed microseconds. */
  function ResumeWait(f: Flag, req: Request, elapsed: nat): (Flag, Outcome)
  {
    var g := f.(waiting := f.waiting - 1);
    match f.status
    case Canceled => (g, Returns(WasCanceled, Some(f.bits), TimeLeft(req, elapsed)))
    case Deleted => (g, Returns(WasDeleted, Some(f.bits), TimeLeft(req, elapsed)))
    case Set => WaitLoop(g, req, elapsed)
  }

  /** What Set, Clear, Cancel and the destructor do once their first loop goes through. */
  function AfterSet(f: Flag, bits: Pattern): Flag
  {
    f.(bits := Raise(f.bits, bits))
  }

  function AfterClear(f: Flag, bits: Pattern): Flag
  {
    f.(bits := Keep(f.bits, bits))
  }

  /** With nobody waiting, Cancel is over in the same critical section. */
  function AfterCancel(f: Flag, bits: Pattern): Flag
  {
    f.(status := if f.waiting > 0 then Canceled else Set, bits := bits)
  }

  function AfterDestroy(f: Flag): Flag
  {
    f.(status := Deleted)
  }

  class KernelEventFlagPrivate {
    var m_status: Status
    var m_bits: Pattern
    var m_waiting_threads: int
    const m_single_thread: bool

    function State(): Flag
      reads this
    {
      Flag(m_status, m_bits, m_waiting_threads, m_single_thread)
    }

    constructor (single: bool, bits: Pattern)
      ensures State() == Flag(Set, bits, 0, single)
    {
      m_status := Set;
      m_bits := bits;
      m_waiting_threads := 0;
      m_single_thread := single;
    }

    /** Wait from its entry to its return or to its first wait on the condition variable. */
    method Enter(req: Request) returns (out: Outcome)
      modifies this
      ensures (State(), out) == EnterWait(old(State()), req)
    {
      if m_single_thread && m_waiting_threads > 0 {
        return Returns(AlreadyWaiting, None, req.micros);
      }
      out := Evaluate(req, 0);
    }

    /** Wait from a wake-up to its return or to its next wait on the condition variable. */
    method Resume(req: Request, elapsed: nat) returns (out: Outcome)
      modifies this
      ensures (State(), out) == ResumeWait(old(State()), req, elapsed)
    {
      m_waiting_threads := m_waiting_threads - 1;
      match m_status
      case Canceled => return Returns(WasCanceled, Some(m_bits), TimeLeft(req, elapsed));
      case Deleted => return Returns(WasDeleted, Some(m_bits), TimeLeft(req, elapsed));
      case Set =>
        out := Evaluate(req, elapsed);
    }

    method Evaluate(req: Request, elapsed: nat) returns (out: Outcome)
      modifies this
      ensures (State(), out) == WaitLoop(old(State()), req, elapsed)
    {
      if !Satisfied(m_bits, req) {
        if Expired(req, elapsed) {
          return Returns(TimedOut, Some(m_bits), TimeLeft(req, elapsed));
        }
        m_waiting_threads := m_waiting_threads + 1;
        return Parks;
      }
      hide Satisfied, Cleared, TimeLeft, Expired;
      out := Returns(Ok, Some(m_bits), TimeLeft(req, elapsed));
      m_bits := Cleared(m_bits, req);
    }

    /** One round of Set's loop: it goes through only while the status is Set. */
    method TrySet(bits: Pattern) returns (done: bool)
      modifies this
      ensures done <==> old(m_status) == Set
      ensures State() == if done then AfterSet(old(State()), bits) else old(State())
    {
      if m_status != Set {
        return false;
      }
      m_bits := m_bits | bits;
      return true;
    }

    method TryClear(bits: Pattern) returns (done: bool)
      modifies this
      ensures done <==> old(m_status) == Set
      ensures State() == if done then AfterClear(old(State()), bits) else old(State())
    {
      if m_status != Set {
        return false;
      }
      m_bits := m_bits & bits;
      return true;
    }

    /** One round of Cancel's first loop; going through it reports the waiters and cancels them. */
    method TryCancel(bits: Pattern) returns (done: bool, reported: int)
      modifies this
      ensures done <==> old(m_status) == Set
      ensures done ==> reported == old(m_waiting_threads)
      ensures State() == if done then AfterCancel(old(State()), bits) else old(State())
    {
      reported := 0;
      if m_status != Set {
        return false, reported;
      }
      reported := m_waiting_threads;
      m_status := Canceled;
      m_bits := bits;
      var finished := DrainCancel();
      return true, reported;
    }

    /** One round of Cancel's second loop: the status goes back once nobody waits. */
    method DrainCancel() returns (finished: bool)
      modifies this
      ensures finished <==> old(m_waiting_threads) <= 0
      ensures State() == if finished then old(State()).(status := Set) else old(State())
    {
      if m_waiting_threads > 0 {
        return false;
      }
      m_status := Set;
      return true;
    }

    /** One round of the destructor's first loop. */
    method TryDestroy() returns (done: bool)
      modifies this
      ensures done <==> old(m_status) == Set
      ensures State() == if done then AfterDestroy(old(State())) else old(State())
    {
      if m_status != Set {
        return false;
      }
      m_status := Deleted;
      return true;
    }

    /** One round of the destructor's second loop. */
    method DrainDestroy() returns (finished: bool)
      ensures finished <==> m_waiting_threads <= 0
    {
      return m_waiting_threads <= 0;
    }
  }
}
