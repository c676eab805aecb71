/**
 The kernel event queue: registered events, each with a current event, a triggered flag and a FIFO
 of events triggered while it was still undelivered. The trigger and reset callbacks are the ones
 the queue's own source defines (user, AMPR, timer). The clock is an argument, and the lock makes
 every method one step.
 */
module EventQueue {
  import opened Common

  const EV_ADD: bv16 := 0x01
  const EV_ONESHOT: bv16 := 0x10
  const EV_CLEAR: bv16 := 0x20

  const EVFILT_USER: int := -11
  const EVFILT_HRTIMER: int := -15

  const UINT64_MAX: nat := 0xFFFF_FFFF_FFFF_FFFF
  const UINT32_MAX: nat := 0xFFFF_FFFF

  datatype KernelEvent =
    KernelEvent(ident: nat, filter: int, flags: bv16, fflags: nat, data: int, udata: int)

  datatype TriggerKind = NoTrigger | UserTrigger | AmprTrigger

  datatype ResetKind = NoReset | UserReset

  datatype Event = Event(triggered: bool, deadline: nat, event: KernelEvent,
                         trigger: TriggerKind, reset: ResetKind, pending: seq<KernelEvent>)

  datatype Error = EBADF | ENOENT | EINVAL

  datatype Reply<T> = Done(value: T) | Failed(error: Error)

  datatype Key = Key(ident: nat, filter: int)

  predicate OneShot(e: Event)
  {
    e.event.flags & EV_ONESHOT != 0
  }

  predicate ClearsItself(e: Event)
  {
    e.event.flags & EV_CLEAR != 0
  }

  function KeyOf(e: KernelEvent): Key
  {
    Key(e.ident, e.filter)
  }

  // ---------------------------------------------------------------- one event

  /** What the clearing branch of the delivery loop and of UserEventResetFunc does. */
  function Quiet(e: Event): Event
  {
    e.(triggered := false, event := e.event.(fflags := 0, data := 0))
  }

  /** The event after one of its occurrences has been copied out. */
  function AfterDelivery(e: Event): Event
  {
    var e' := if ClearsItself(e) then Quiet(e) else e;
    if e.pending != [] then e'.(event := e.pending[0], pending := e.pending[1..], triggered := true)
    else e'
  }

  datatype Drained = Drained(out: seq<KernelEvent>, event: Event, erase: bool)

  /** Copying out the occurrences of one event into the given number of free slots. */
  function Drain(e: Event, room: nat): (d: Drained)
    requires room > 0
    ensures |d.out| <= room
    decreases room
  {
    if !e.triggered then Drained([], e, false)
    else if OneShot(e) then Drained([e.event], e, true)
    else if room == 1 then Drained([e.event], AfterDelivery(e), false)
    else
      var rest := Drain(AfterDelivery(e), room - 1);
      Drained([e.event] + rest.out, rest.event, rest.erase)
  }

  lemma DrainUnfolds(e: Event, room: nat)
    requires room > 0
    ensures !e.triggered ==> Drain(e, room) == Drained([], e, false)
    ensures e.triggered && OneShot(e) ==> Drain(e, room) == Drained([e.event], e, true)
    ensures e.triggered && !OneShot(e) && room == 1 ==>
              Drain(e, room) == Drained([e.event], AfterDelivery(e), false)
    ensures e.triggered && !OneShot(e) && room > 1 ==>
              var rest := Drain(AfterDelivery(e), room - 1);
              Drain(e, room) == Drained([e.event] + rest.out, rest.event, rest.erase)
  {
  }

  /** Copying out one occurrence moves it from what is still to deliver to what is done. */
  lemma DrainStep(whole: Drained, done: seq<KernelEvent>, e: Event, room: nat)
    requires room > 0 && e.triggered
    requires var d := Drain(e, room); whole == Drained(done + d.out, d.event, d.erase)
    ensures OneShot(e) ==> whole == Drained(done + [e.event], e, true)
    ensures !OneShot(e) && room == 1 ==>
              whole == Drained(done + [e.event], AfterDelivery(e), false)
    ensures !OneShot(e) && room > 1 ==>
              var d := Drain(AfterDelivery(e), room - 1);
              whole == Drained((done + [e.event]) + d.out, d.event, d.erase)
  {
    hide AfterDelivery, OneShot;
    if !OneShot(e) && room > 1 {
      var d := Drain(AfterDelivery(e), room - 1);
      assert done + ([e.event] + d.out) == (done + [e.event]) + d.out;
    }
  }

  function Kept(d: Drained): seq<Event>
  {
    if d.erase then [] else [d.event]
  }

  // ---------------------------------------------------------------- the whole list

  datatype Collected = Collected(out: seq<KernelEvent>, events: seq<Event>)

  /** Delivering from the list in order until the slots are full. */
  function Collect(events: seq<Event>, room: nat): (c: Collected)
    ensures |c.out| <= room
  {
    if events == [] || room == 0 then Collected([], events)
    else
      var d := Drain(events[0], room);
      var rest := Collect(events[1..], room - |d.out|);
      Collected(d.out + rest.out, Kept(d) + rest.events)
  }

  lemma CollectUnfolds(events: seq<Event>, room: nat)
    ensures events == [] || room == 0 ==> Collect(events, room) == Collected([], events)
    ensures events != [] && room > 0 ==>
      var d := Drain(events[0], room);
      var rest := Collect(events[1..], room - |d.out|);
      Collect(events, room) == Collected(d.out + rest.out, Kept(d) + rest.events)
  {
  }

  /** Moving one event from the list still to visit to what has been delivered and kept. */
  lemma CollectStep(whole: Collected, outs: seq<KernelEvent>, kept: seq<Event>,
                    left: seq<Event>, room: nat)
    requires left != [] && room > 0
    requires var c := Collect(left, room); whole == Collected(outs + c.out, kept + c.events)
    ensures var d := Drain(left[0], room);
      var c := Collect(left[1..], room - |d.out|);
      whole == Collected((outs + d.out) + c.out, (kept + Kept(d)) + c.events)
  {
    hide Drain, Kept, Collect;
    CollectUnfolds(left, room);
    var d := Drain(left[0], room);
    var c := Collect(left[1..], room - |d.out|);
    assert outs + (d.out + c.out) == (outs + d.out) + c.out;
    assert kept + (Kept(d) + c.events) == (kept + Kept(d)) + c.events;
  }

  function Expire(e: Event, now: nat): Event
  {
    if !e.triggered && e.deadline != 0 && e.deadline <= now then e.(triggered := true) else e
  }

  function ExpireAll(events: seq<Event>, now: nat): (r: seq<Event>)
    ensures |r| == |events| && forall i :: 0 <= i < |r| ==> r[i] == Expire(events[i], now)
  {
    if events == [] then [] else [Expire(events[0], now)] + ExpireAll(events[1..], now)
  }

  /** The first registration with the key, or the length of the list. */
  function Find(events: seq<Event>, k: Key): (i: nat)
    ensures i <= |events|
    ensures i < |events| ==> KeyOf(events[i].event) == k
    ensures forall j :: 0 <= j < i ==> KeyOf(events[j].event) != k
  {
    if events == [] || KeyOf(events[0].event) == k then 0 else 1 + Find(events[1..], k)
  }

  function WithUdata(pending: seq<KernelEvent>, udata: int): (r: seq<KernelEvent>)
    ensures |r| == |pending|
    ensures forall i :: 0 <= i < |r| ==> r[i] == pending[i].(udata := udata)
  {
    if pending == [] then [] else [pending[0].(udata := udata)] + WithUdata(pending[1..], udata)
  }

  /** Registering again keeps the occurrences and callbacks and replaces deadline and user data. */
  function Updated(e: Event, again: Event): Event
  {
    e.(deadline := again.deadline, event := e.event.(udata := again.event.udata),
       pending := WithUdata(e.pending, again.event.udata))
  }

  function Added(events: seq<Event>, e: Event): seq<Event>
  {
    var i := Find(events, KeyOf(e.event));
    if i < |events| then events[i := Updated(events[i], e)] else events + [e]
  }

  function Fired(e: Event, data: int): Event
  {
    match e.trigger
    case NoTrigger => e.(triggered := true)
    case UserTrigger => e.(triggered := true, event := e.event.(data := data, udata := data))
    case AmprTrigger =>
      var occurrence := e.event.(data := data);
      if e.triggered then e.(pending := e.pending + [occurrence])
      else e.(event := occurrence, triggered := true)
  }

  function Removed(events: seq<Event>, i: nat): seq<Event>
    requires i < |events|
  {
    events[..i] + events[i + 1..]
  }

  /** An event whose deadline can still trigger it. */
  predicate Pending(e: Event)
  {
    !e.triggered && e.deadline != 0
  }

  /** The wait for a deadline, in whole microseconds rounded up, at least 1 and capped to 32 bits. */
  function WaitMicros(deadline: nat, now: nat): nat
  {
    var remaining := if deadline > now then deadline - now else 0;
    var rounded := ((remaining + 999) % (UINT64_MAX + 1)) / 1000;
    var atLeastOne := if rounded < 1 then 1 else rounded;
    if atLeastOne < UINT32_MAX then atLeastOne else UINT32_MAX
  }

  /**
   A wait reaches its deadline exactly when the deadline is at most 2^32 - 1 microseconds away, and
   then it is less than a microsecond too long. Beyond that the cap ends it early, and within a
   microsecond of 2^64 nanoseconds the rounding wraps and makes it one microsecond.
   */
  lemma WaitReachesDeadline(deadline: nat, now: nat)
    requires deadline <= UINT64_MAX && now < deadline
    ensures now + 1000 * WaitMicros(deadline, now) >= deadline
            <==> deadline - now <= 1000 * UINT32_MAX
    ensures deadline - now <= 1000 * UINT32_MAX ==>
              now + 1000 * (WaitMicros(deadline, now) - 1) < deadline
  {
    var remaining := deadline - now;
    if remaining <= UINT64_MAX - 999 {
      assert (remaining + 999) % (UINT64_MAX + 1) == remaining + 999;
    } else {
      assert (remaining + 999) % (UINT64_MAX + 1) == remaining + 999 - (UINT64_MAX + 1);
      assert WaitMicros(deadline, now) == 1;
    }
  }

  /** A timer 5000 seconds away is waited for about 4295 seconds. */
  lemma LongWaitEndsEarly()
    ensures WaitMicros(5_000_000_000_000, 0) == UINT32_MAX
    ensures 1000 * WaitMicros(5_000_000_000_000, 0) < 5_000_000_000_000
  {
    WaitReachesDeadline(5_000_000_000_000, 0);
  }

  // ---------------------------------------------------------------- the queue

  class KernelEqueuePrivate {
    var m_events: seq<Event>
    var m_closed: bool

    constructor ()
      ensures m_events == [] && !m_closed
    {
      m_events := [];
      m_closed := false;
    }

    method Close()
      modifies this
      ensures m_closed
      ensures m_events == if old(m_closed) then old(m_events) else []
    {
      if m_closed {
        return;
      }
      m_closed := true;
      m_events := [];
    }

    method AddEvent(e: Event) returns (r: Reply<()>)
      modifies this
      ensures m_closed == old(m_closed)
      ensures old(m_closed) ==> r == Failed(EBADF) && m_events == old(m_events)
      ensures !old(m_closed) ==> r == Done(()) && m_events == Added(old(m_events), e)
    {
      if m_closed {
        return Failed(EBADF);
      }
      var i := FindIndex(KeyOf(e.event));
      if i < |m_events| {
        m_events := m_events[i := Updated(m_events[i], e)];
      } else {
        m_events := m_events + [e];
      }
      return Done(());
    }

    method TriggerEvent(ident: nat, filter: int, data: int) returns (r: Reply<()>)
      modifies this
      ensures m_closed == old(m_closed)
      ensures var i := Find(old(m_events), Key(ident, filter));
        if old(m_closed) then r == Failed(EBADF) && m_events == old(m_events)
        else if i < |old(m_events)| then
          r == Done(()) && m_events == old(m_events)[i := Fired(old(m_events)[i], data)]
        else r == Failed(ENOENT) && m_events == old(m_events)
    {
      if m_closed {
        return Failed(EBADF);
      }
      var i := FindIndex(Key(ident, filter));
      if i < |m_events| {
        m_events := m_events[i := Fired(m_events[i], data)];
        return Done(());
      }
      return Failed(ENOENT);
    }

    method DeleteEvent(ident: nat, filter: int) returns (r: Reply<()>)
      modifies this
      ensures m_closed == old(m_closed)
      ensures var i := Find(old(m_events), Key(ident, filter));
        if old(m_closed) then r == Failed(EBADF) && m_events == old(m_events)
        else if i < |old(m_events)| then r == Done(()) && m_events == Removed(old(m_events), i)
        else r == Failed(ENOENT) && m_events == old(m_events)
    {
      if m_closed {
        return Failed(EBADF);
      }
      var i := FindIndex(Key(ident, filter));
      if i < |m_events| {
        m_events := Removed(m_events, i);
        return Done(());
      }
      return Failed(ENOENT);
    }

    method FindIndex(k: Key) returns (i: nat)
      ensures i == Find(m_events, k)
    {
      i := 0;
      while i < |m_events| && KeyOf(m_events[i].event) != k
        invariant i <= |m_events|
        invariant Find(m_events, k) == i + Find(m_events[i..], k)
      {
        i := i + 1;
      }
      assert i < |m_events| ==> m_events[i..][0] == m_events[i];
    }

    method TriggerExpiredTimers(now: nat)
      modifies `m_events
      ensures m_events == ExpireAll(old(m_events), now)
    {
      for i := 0 to |m_events|
        invariant |m_events| == |old(m_events)|
        invariant forall j :: 0 <= j < i ==> m_events[j] == Expire(old(m_events)[j], now)
        invariant forall j :: i <= j < |m_events| ==> m_events[j] == old(m_events)[j]
      {
        var e := m_events[i];
        if !e.triggered && e.deadline != 0 && e.deadline <= now {
          m_events := m_events[i := e.(triggered := true)];
        }
      }
    }

    /**
     How long to wait for the next timer: the wait for the earliest pending deadline, or none when
     there is no pending deadline other than the saturated one.
     */
    method GetNextTimerWaitMicros(now: nat) returns (r: Option<nat>)
      requires forall i :: 0 <= i < |m_events| ==> m_events[i].deadline <= UINT64_MAX
      ensures r == None <==>
        forall i :: 0 <= i < |m_events| && Pending(m_events[i]) ==> m_events[i].deadline == UINT64_MAX
      ensures r.Some? ==> exists i ::
                (0 <= i < |m_events| && Pending(m_events[i])
                 && r.value == WaitMicros(m_events[i].deadline, now)
                 && forall j :: 0 <= j < |m_events| && Pending(m_events[j]) ==>
                      m_events[i].deadline <= m_events[j].deadline)
    {
      hide WaitMicros;
      var nearest := UINT64_MAX;
      for i := 0 to |m_events|
        invariant nearest <= UINT64_MAX
        invariant nearest < UINT64_MAX ==>
          exists j :: 0 <= j < i && Pending(m_events[j]) && m_events[j].deadline == nearest
        invariant forall j :: 0 <= j < i && Pending(m_events[j]) ==> nearest <= m_events[j].deadline
      {
        if Pending(m_events[i]) && m_events[i].deadline < nearest {
          nearest := m_events[i].deadline;
        }
      }
      if nearest == UINT64_MAX {
        return None;
      }
      return Some(WaitMicros(nearest, now));
    }

    /**
     Copies triggered occurrences into the first slots of ev, at most num of them, and reports how
     many: exactly what Collect delivers, in that order, leaving exactly the list it leaves.
     */
    method GetTriggeredEvents(ev: array<KernelEvent>, num: nat, now: nat) returns (r: Reply<nat>)
      requires 1 <= num <= ev.Length
      modifies this, ev
      ensures m_closed == old(m_closed)
      ensures old(m_closed) ==> r == Failed(EBADF) && m_events == old(m_events) && ev[..] == old(ev[..])
      ensures !old(m_closed) ==>
        var c := Collect(ExpireAll(old(m_events), now), num);
        && r == Done(|c.out|) && ev[..|c.out|] == c.out && m_events == c.events
        && ev[|c.out|..] == old(ev[|c.out|..])
    {
      if m_closed {
        return Failed(EBADF);
      }
      hide Collect, ExpireAll;
      TriggerExpiredTimers(now);
      var ret := DeliverAll(ev, num);
      return Done(ret);
    }

    /** The outer loop of GetTriggeredEvents. */
    method DeliverAll(ev: array<KernelEvent>, num: nat) returns (ret: nat)
      requires 1 <= num <= ev.Length
      modifies `m_events, ev
      ensures var c := Collect(old(m_events), num);
        && ret == |c.out| && ev[..ret] == c.out && m_events == c.events
      ensures ret <= num && ev[ret..] == old(ev[ret..])
    {
      hide Collect, Drain, Kept;
      var it := 0;
      ret := 0;
      ghost var left, outs, kept := m_events, [], [];
      ghost var whole := Collect(left, num);
      while it < |m_events|
        invariant it == |kept| && ret == |outs| < num
        invariant m_events == kept + left && ev[..ret] == outs && ev[ret..] == old(ev[ret..])
        invariant var c := Collect(left, num - ret);
          whole == Collected(outs + c.out, kept + c.events)
        decreases |left|
      {
        CollectStep(whole, outs, kept, left, num - ret);
        ghost var d := Drain(left[0], num - ret);
        assert m_events[it] == left[0] && m_events[it + 1..] == left[1..] && m_events[..it] == kept;
        ret, it := DeliverAt(ev, ret, num, it);
        outs, kept, left := outs + d.out, kept + Kept(d), left[1..];
        if ret >= num {
          break;
        }
      }
      CollectUnfolds(left, num - ret);
      assert whole.out == outs && whole.events == m_events;
    }

    /** One turn of the outer loop: delivers event `at` and drops it if it is one-shot. */
    method DeliverAt(ev: array<KernelEvent>, start: nat, num: nat, at: nat)
      returns (ret: nat, it: nat)
      requires start < num <= ev.Length && at < |m_events|
      modifies `m_events, ev
      ensures var d := Drain(old(m_events)[at], num - start);
        && ret == start + |d.out| <= num && it == at + |Kept(d)|
        && m_events == old(m_events)[..at] + Kept(d) + old(m_events)[at + 1..]
        && ev[..ret] == old(ev[..start]) + d.out
      ensures ret <= num && ev[ret..] == old(ev[ret..])
    {
      hide Drain;
      var erase: bool;
      ret, erase := DeliverOne(ev, start, num, at);
      it := at;
      if erase {
        m_events := Removed(m_events, it);
      } else {
        it := it + 1;
      }
    }

    /** What the loop does to an event after copying it: reset it, then take the next occurrence. */
    method Reset(e: Event) returns (next: Event)
      ensures next == AfterDelivery(e)
    {
      hide ClearsItself;
      next := e;
      if e.reset == UserReset {
        if ClearsItself(e) {
          next := Quiet(e);
        }
      } else if ClearsItself(e) {
        next := Quiet(e);
      }
      if next.pending != [] {
        next := next.(event := next.pending[0], pending := next.pending[1..], triggered := true);
      }
    }

    /** The inner loop: copies out the occurrences of event `at` while there is room. */
    method DeliverOne(ev: array<KernelEvent>, start: nat, num: nat, at: nat)
      returns (ret: nat, erase: bool)
      requires start < num <= ev.Length && at < |m_events|
      modifies `m_events, ev
      ensures var d := Drain(old(m_events)[at], num - start);
        && ret == start + |d.out| && erase == d.erase
        && m_events == old(m_events)[at := d.event]
        && ev[..ret] == old(ev[..start]) + d.out
      ensures ret <= num && ev[ret..] == old(ev[ret..])
    {
      hide *;
      var event: Event;
      ret, event, erase := CopyOccurrences(m_events[at], ev, start, num);
      m_events := m_events[at := event];
    }

    lemma Snoc(before: seq<KernelEvent>, done: seq<KernelEvent>, e: KernelEvent)
      ensures (before + done) + [e] == before + (done + [e])
    {
    }

    /** Copies one occurrence into the next slot. */
    method Store(ev: array<KernelEvent>, at: nat, e: KernelEvent)
      requires at < ev.Length
      modifies ev
      ensures ev[..at + 1] == old(ev[..at]) + [e]
      ensures forall j :: at < j < ev.Length ==> ev[j] == old(ev[j])
    {
      ev[at] := e;
    }

    /** What the inner loop copies out of one event, and what becomes of the event. */
    method CopyOccurrences(e: Event, ev: array<KernelEvent>, start: nat, num: nat)
      returns (ret: nat, event: Event, erase: bool)
      requires start < num <= ev.Length
      modifies ev
      ensures var d := Drain(e, num - start);
        && ret == start + |d.out| && event == d.event && erase == d.erase
        && ev[..ret] == old(ev[..start]) + d.out
      ensures ret <= num && forall j :: ret <= j < ev.Length ==> ev[j] == old(ev[j])
    {
      hide *;
      ret, event, erase := start, e, false;
      ghost var d := Drain(e, num - start);
      ghost var done: seq<KernelEvent> := [];
      while event.triggered
        invariant start <= ret < num && !erase
        invariant ret == start + |done| && ev[..ret] == old(ev[..start]) + done
        invariant forall j :: ret <= j < ev.Length ==> ev[j] == old(ev[j])
        invariant var rest := Drain(event, num - ret);
          d == Drained(done + rest.out, rest.event, rest.erase)
        decreases num - ret
      {
        DrainStep(d, done, event, num - ret);
        ghost var before := old(ev[..start]);
        Store(ev, ret, event.event);
        Snoc(before, done, event.event);
        ret := ret + 1;
        done := done + [event.event];
        if OneShot(event) {
          erase := true;
          break;
        }
        event := Reset(event);
        if ret >= num {
          break;
        }
      }
      if ret < num {
        DrainUnfolds(event, num - ret);
      }
    }
  }
}
