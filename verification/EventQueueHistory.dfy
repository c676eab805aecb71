/**
 Whole occurrences over runs of the event queue: every field of what a delivery copies out, told by
 the calls made before it alone. User data comes from the last registration and, for user events,
 the last trigger; data comes from the triggers; a timer follows its last registration.
 */
module EventQueueHistory {
  import opened Common
  import opened EventQueue
  import opened EventQueueRuns

  // ---------------------------------------------------------------- what the calls say

  /** The user data of key k: the last call that sets it, if any; triggers do for user events only. */
  function UserData(ops: seq<Op>, k: Key, byTrigger: bool, before: int): int
  {
    if ops == [] then before else UserData(ops[1..], k, byTrigger, SetBy(ops[0], k, byTrigger, before))
  }

  function SetBy(op: Op, k: Key, byTrigger: bool, before: int): int
  {
    match op
    case Add(e) => if KeyOf(e.event) == k then e.event.udata else before
    case Trigger(ident, filter, data) =>
      if byTrigger && Key(ident, filter) == k then data else before
    case _ => before
  }

  /** The deadline of key k: that of its last registration. */
  function Deadline(ops: seq<Op>, k: Key, before: nat): nat
  {
    if ops == [] then before
    else Deadline(ops[1..], k, if Registers(ops[0], k) then ops[0].e.deadline else before)
  }

  predicate Registers(op: Op, k: Key)
  {
    op.Add? && KeyOf(op.e.event) == k
  }

  /** An occurrence of key k with the flags of its registration and the given user data. */
  predicate Is(o: KernelEvent, k: Key, flags: bv16, user: int)
  {
    o == KernelEvent(k.ident, k.filter, flags, 0, o.data, user)
  }

  /** The current occurrence and all the waiting ones are such. */
  ghost predicate Marked(e: Event, k: Key, flags: bv16, user: int)
  {
    Is(e.event, k, flags, user) && forall p :: p in e.pending ==> Is(p, k, flags, user)
  }

  // ---------------------------------------------------------------- one operation on one event

  lemma AfterDeliveryMarked(e: Event, k: Key, flags: bv16, user: int)
    requires Marked(e, k, flags, user)
    ensures Marked(AfterDelivery(e), k, flags, user) && AfterDelivery(e).trigger == e.trigger
    ensures AfterDelivery(e).deadline == e.deadline
  {
    if e.pending != [] {
      assert e.pending[0] in e.pending;
      assert forall p :: p in e.pending[1..] ==> p in e.pending;
    }
  }

  lemma {:induction false} DrainMarked(e: Event, room: nat, k: Key, flags: bv16, user: int)
    requires room > 0 && Marked(e, k, flags, user)
    ensures var d := Drain(e, room);
      && Marked(d.event, k, flags, user) && d.event.trigger == e.trigger
      && d.event.deadline == e.deadline
      && forall o :: o in d.out ==> Is(o, k, flags, user)
    decreases room
  {
    DrainUnfolds(e, room);
    assert Is(e.event, k, flags, user);
    hide AfterDelivery, Marked, OneShot, Is;
    if e.triggered && !OneShot(e) {
      AfterDeliveryMarked(e, k, flags, user);
      if room > 1 {
        DrainMarked(AfterDelivery(e), room - 1, k, flags, user);
      }
    }
  }

  lemma UpdatedMarked(e: Event, again: Event, k: Key, flags: bv16, user: int)
    requires Marked(e, k, flags, user)
    ensures Marked(Updated(e, again), k, flags, again.event.udata)
  {
    var p := Updated(e, again).pending;
    forall q | q in p ensures Is(q, k, flags, again.event.udata) {
      var i :| 0 <= i < |p| && p[i] == q;
      assert e.pending[i] in e.pending;
    }
  }

  lemma FiredMarked(e: Event, data: int, k: Key, flags: bv16, user: int)
    requires Marked(e, k, flags, user) && (e.trigger == UserTrigger ==> e.pending == [])
    ensures Marked(Fired(e, data), k, flags, if e.trigger == UserTrigger then data else user)
    ensures Fired(e, data).triggered
  {
  }

  /** What every operation leaves of the marks of an event, and what it copies out. */
  lemma MarkedStep(e: Event, op: Op, k: Key, left: nat, flags: bv16, user: int)
    requires Marked(e, k, flags, user) && (e.trigger == UserTrigger ==> e.pending == [])
    ensures var s := Seen(Some(e), op, k, left);
      && (forall o :: o in s.out ==> op.Get? && Is(o, k, flags, user))
      && (s.at.Some? ==>
            && Marked(s.at.value, k, flags, SetBy(op, k, e.trigger == UserTrigger, user))
            && s.at.value.trigger == e.trigger
            && s.at.value.deadline == if Registers(op, k) then op.e.deadline else e.deadline)
  {
    hide Drain, Marked, Is;
    match op
    case Add(again) => UpdatedMarked(e, again, k, flags, user);
    case Trigger(_, _, data) => FiredMarked(e, data, k, flags, user);
    case Delete(_, _) =>
    case Get(_, now) =>
      ExpireMarked(e, now, k, flags, user);
      if left > 0 {
        DrainMarked(Expire(e, now), left, k, flags, user);
      }
  }

  lemma ExpireMarked(e: Event, now: nat, k: Key, flags: bv16, user: int)
    requires Marked(e, k, flags, user)
    ensures Marked(Expire(e, now), k, flags, user)
  {
  }

  // ---------------------------------------------------------------- AMPR events

  ghost predicate AmprHeld(events: seq<Event>, k: Key, user: int)
  {
    AmprAt(events, k) && Marked(EventAt(events, k).value, k, EV_ADD | EV_CLEAR, user)
  }

  lemma {:induction false} AmprMarks(events: seq<Event>, ops: seq<Op>, k: Key, user: int)
    requires QueueInv(events) && AmprHeld(events, k, user) && k.filter != EVFILT_HRTIMER
    requires forall op :: op in ops ==> Allowed(op, k)
    ensures QueueInv(Final(events, ops))
    ensures AmprHeld(Final(events, ops), k, UserData(ops, k, false, user))
    decreases |ops|
  {
    if ops != [] {
      hide After, Output, QueueInv, IsAmpr, Allowed, Seen, Marked, SetBy, BacklogOf;
      assert ops[0] in ops;
      var op := ops[0];
      AllowedFacts(op, k);
      OwnedAt(events, k);
      var left := OneKey(events, op, k);
      var e := EventAt(events, k).value;
      AmprStep(e, op, k, left);
      AmprKind(e);
      MarkedStep(e, op, k, left, EV_ADD | EV_CLEAR, user);
      AmprMarks(After(events, op), ops[1..], k, SetBy(op, k, false, user));
    }
  }

  lemma AmprKind(e: Event)
    requires IsAmpr(e)
    ensures e.trigger == AmprTrigger
  {
  }

  /**
   What any delivery after any calls copies out for an AMPR key: the occurrences of the next
   triggers, in order, each as registered, with the data of its own trigger and with the user data
   of the last registration.
   */
  lemma AmprDelivery(before: seq<Event>, id: nat, udata: int, ops: seq<Op>, num: nat, now: nat)
    requires QueueInv(before) && !HasKey(before, Key(id, EVFILT_USER))
    requires forall op :: op in ops ==> Allowed(op, Key(id, EVFILT_USER))
    ensures var k, start := Key(id, EVFILT_USER), Added(before, AmprEvent(id, udata));
      var out := OutFor(Output(Final(start, ops), Get(num, now)), k);
      var done, fired := |DeliveredFor(start, ops, k)|, TriggeredFor(ops, k);
      && done + |out| <= |fired|
      && forall i :: 0 <= i < |out| ==>
           out[i] == KernelEvent(id, EVFILT_USER, EV_ADD | EV_CLEAR, 0, fired[done + i],
                                 UserData(ops, k, false, udata))
  {
    var k, start := Key(id, EVFILT_USER), Added(before, AmprEvent(id, udata));
    hide *;
    AmprStart(before, id, udata);
    ExactlyOncePerTrigger(before, id, udata, ops);
    AmprMarks(start, ops, k, udata);
    AmprNext(Final(start, ops), k, UserData(ops, k, false, udata), num, now,
             DataOf(DeliveredFor(start, ops, k)), TriggeredFor(ops, k));
  }

  lemma AmprStart(before: seq<Event>, id: nat, udata: int)
    requires QueueInv(before) && !HasKey(before, Key(id, EVFILT_USER))
    ensures var k, start := Key(id, EVFILT_USER), Added(before, AmprEvent(id, udata));
      QueueInv(start) && AmprHeld(start, k, udata) && k.filter != EVFILT_HRTIMER
  {
    FlagBits();
    NewlyAdded(before, AmprEvent(id, udata));
    hide QueueInv, Added;
  }

  /** One delivery of an AMPR event, given what was triggered and delivered before it. */
  lemma AmprNext(events: seq<Event>, k: Key, user: int, num: nat, now: nat,
                 done: seq<int>, fired: seq<int>)
    requires QueueInv(events) && AmprHeld(events, k, user) && k.filter != EVFILT_HRTIMER
    requires done + Backlog(events, k) == fired
    ensures var out := OutFor(Output(events, Get(num, now)), k);
      && |done| + |out| <= |fired|
      && forall i :: 0 <= i < |out| ==>
           out[i] == KernelEvent(k.ident, k.filter, EV_ADD | EV_CLEAR, 0, fired[|done| + i], user)
  {
    hide After, Output, QueueInv, IsAmpr, Seen, Marked, BacklogOf;
    var get, e := Get(num, now), EventAt(events, k).value;
    var left := OneKey(events, get, k);
    OwnedAt(events, k);
    AmprStep(e, get, k, left);
    AmprKind(e);
    MarkedStep(e, get, k, left, EV_ADD | EV_CLEAR, user);
    var out := OutFor(Output(events, get), k);
    var s := Seen(Some(e), get, k, left);
    assert TriggerOf(get, k) == [];
    Next(done, DataOf(out), BacklogOf(s.at.value), BacklogOf(e), fired);
    forall i | 0 <= i < |out|
      ensures out[i].data == fired[|done| + i]
      ensures Is(out[i], k, EV_ADD | EV_CLEAR, user)
    {
      DataOfAt(out, i);
      assert out[i] in s.out;
    }
  }

  lemma {:induction false} DataOfAt(es: seq<KernelEvent>, i: nat)
    requires i < |es|
    ensures DataOf(es)[i] == es[i].data
  {
    if i > 0 {
      DataOfAt(es[1..], i - 1);
    }
  }

  lemma Next(done: seq<int>, out: seq<int>, left: seq<int>, waited: seq<int>, fired: seq<int>)
    requires done + waited == fired && out + left == waited + []
    ensures |done| + |out| <= |fired|
    ensures forall i :: 0 <= i < |out| ==> out[i] == fired[|done| + i]
  {
    assert waited + [] == waited;
    forall i | 0 <= i < |out| ensures out[i] == fired[|done| + i] {
      assert out[i] == (out + left)[i] == (done + waited)[|done| + i];
    }
  }

  // ---------------------------------------------------------------- user events

  /**
   A user event after the given triggers: as registered, and while it is triggered its data is that
   of the last one.
   */
  ghost predicate UserHeld(e: Event, k: Key, flags: bv16, user: int, fired: seq<int>)
  {
    && Marked(e, k, flags, user) && e.trigger == UserTrigger && e.deadline == 0 && e.pending == []
    && if e.triggered then fired != [] && e.event.data == Last(fired) else e.event.data == 0
  }

  lemma UserStep(e: Event, op: Op, k: Key, left: nat, flags: bv16, user: int, fired: seq<int>)
    requires UserHeld(e, k, flags, user, fired) && Allowed(op, k) && k.filter != EVFILT_HRTIMER
    requires flags & EV_ONESHOT == 0
    ensures var s := Seen(Some(e), op, k, left);
      && s.at.Some?
      && UserHeld(s.at.value, k, flags, SetBy(op, k, true, user), fired + TriggerOf(op, k))
      && forall o :: o in s.out ==>
           fired != [] && o == KernelEvent(k.ident, k.filter, flags, 0, Last(fired), user)
  {
    MarkedStep(e, op, k, left, flags, user);
    match op
    case Add(again) =>
    case Trigger(_, _, data) =>
    case Delete(_, _) =>
    case Get(_, now) =>
      assert Expire(e, now) == e;
      if left > 0 {
        UserDrain(e, left, k, flags, user, fired);
      }
      assert fired + [] == fired;
  }

  lemma {:induction false} UserDrain(e: Event, room: nat, k: Key, flags: bv16, user: int,
                                     fired: seq<int>)
    requires UserHeld(e, k, flags, user, fired) && flags & EV_ONESHOT == 0 && room > 0
    ensures var d := Drain(e, room);
      && !d.erase && UserHeld(d.event, k, flags, user, fired)
      && forall o :: o in d.out ==> fired != [] && o == e.event && o.data == Last(fired)
    decreases room
  {
    DrainUnfolds(e, room);
    if e.triggered {
      assert !OneShot(e);
      var next := AfterDelivery(e);
      AfterDeliveryMarked(e, k, flags, user);
      assert UserHeld(next, k, flags, user, fired);
      assert next.triggered ==> next == e;
      hide AfterDelivery, UserHeld;
      if room > 1 {
        UserDrain(next, room - 1, k, flags, user, fired);
        DrainUnfolds(next, room - 1);
      }
    }
  }

  ghost predicate UserAt(events: seq<Event>, k: Key, flags: bv16, user: int, fired: seq<int>)
  {
    HasKey(events, k) && UserHeld(EventAt(events, k).value, k, flags, user, fired)
  }

  lemma {:induction false} UserRun(events: seq<Event>, ops: seq<Op>, k: Key, flags: bv16,
                                   user: int, fired: seq<int>)
    requires QueueInv(events) && UserAt(events, k, flags, user, fired)
    requires flags & EV_ONESHOT == 0 && k.filter != EVFILT_HRTIMER
    requires forall op :: op in ops ==> Allowed(op, k)
    ensures QueueInv(Final(events, ops))
    ensures UserAt(Final(events, ops), k, flags, UserData(ops, k, true, user),
                   fired + TriggeredFor(ops, k))
    decreases |ops|
  {
    if ops == [] {
      assert fired + [] == fired;
    } else {
      hide After, Output, QueueInv, Allowed, Seen, UserHeld, SetBy, TriggerOf;
      assert ops[0] in ops;
      var op := ops[0];
      AllowedFacts(op, k);
      var left := OneKey(events, op, k);
      UserStep(EventAt(events, k).value, op, k, left, flags, user, fired);
      UserRun(After(events, op), ops[1..], k, flags, SetBy(op, k, true, user),
              fired + TriggerOf(op, k));
      Regroup(fired, TriggerOf(op, k), TriggeredFor(ops[1..], k));
    }
  }

  /** What KernelAddUserEvent and KernelAddUserEventEdge register. */
  function UserRegistration(id: nat, edge: bool): Event
  {
    if edge then UserEventEdge(id) else UserEvent(id)
  }

  /**
   What any delivery after any calls copies out for a user key, level or edge: nothing before the
   first trigger, and then occurrences as registered, with the data of the last trigger and with
   the user data of the last trigger or registration, whichever came later.
   */
  lemma UserDelivery(before: seq<Event>, id: nat, edge: bool, ops: seq<Op>, num: nat, now: nat)
    requires QueueInv(before) && !HasKey(before, Key(id, EVFILT_USER))
    requires forall op :: op in ops ==> Allowed(op, Key(id, EVFILT_USER))
    ensures var k, start := Key(id, EVFILT_USER), Added(before, UserRegistration(id, edge));
      var fired := TriggeredFor(ops, k);
      forall o :: o in OutFor(Output(Final(start, ops), Get(num, now)), k) ==>
        fired != []
        && o == KernelEvent(id, EVFILT_USER, if edge then EV_ADD | EV_CLEAR else EV_ADD, 0,
                            Last(fired), UserData(ops, k, true, 0))
  {
    var k, e := Key(id, EVFILT_USER), UserRegistration(id, edge);
    FlagBits();
    NewlyAdded(before, e);
    var events, get := Final(Added(before, e), ops), Get(num, now);
    UserRun(Added(before, e), ops, k, e.event.flags, 0, []);
    assert [] + TriggeredFor(ops, k) == TriggeredFor(ops, k);
    var left := OneKey(events, get, k);
    hide After, Output, QueueInv, Seen, UserHeld;
    UserStep(EventAt(events, k).value, get, k, left, e.event.flags, UserData(ops, k, true, 0),
             TriggeredFor(ops, k));
  }

  /** With no registration since the last trigger, its argument is both the data and the user data. */
  lemma {:induction false} LastTriggerSetsBoth(ops: seq<Op>, k: Key, user: int, at: nat)
    requires at < |ops| && TriggerOf(ops[at], k) != []
    requires forall j :: at < j < |ops| ==> TriggerOf(ops[j], k) == [] && !Registers(ops[j], k)
    ensures TriggeredFor(ops, k) != []
    ensures UserData(ops, k, true, user) == Last(TriggeredFor(ops, k)) == ops[at].data
  {
    if at > 0 {
      LastTriggerSetsBoth(ops[1..], k, SetBy(ops[0], k, true, user), at - 1);
      assert Last(TriggeredFor(ops, k)) == Last(TriggeredFor(ops[1..], k));
    } else {
      NothingSetsIt(ops[1..], k, true, ops[0].data);
      assert TriggeredFor(ops, k) == [ops[0].data];
    }
  }

  lemma {:induction false} NothingSetsIt(ops: seq<Op>, k: Key, byTrigger: bool, user: int)
    requires forall j :: 0 <= j < |ops| ==> TriggerOf(ops[j], k) == [] && !Registers(ops[j], k)
    ensures UserData(ops, k, byTrigger, user) == user && TriggeredFor(ops, k) == []
  {
    if ops != [] {
      NothingSetsIt(ops[1..], k, byTrigger, user);
    }
  }

  // ---------------------------------------------------------------- timers

  /** A registration of KernelAddHRTimerEvent under key k. */
  predicate IsTimer(e: Event, k: Key)
  {
    && k.filter == EVFILT_HRTIMER
    && e == Event(false, e.deadline,
                  KernelEvent(k.ident, k.filter, EV_ADD | EV_ONESHOT, 0, 0, e.event.udata),
                  NoTrigger, NoReset, [])
  }

  /** The key is registered as a timer only. */
  ghost predicate TimerOnly(op: Op, k: Key)
  {
    op.Add? ==> op.e.pending == [] && (Registers(op, k) ==> IsTimer(op.e, k))
  }

  /** Whatever is there under the key is the timer with this deadline and user data. */
  ghost predicate TimerHeld(at: Option<Event>, k: Key, deadline: nat, user: int)
  {
    at.Some? ==> IsTimer(at.value.(triggered := false), k) && at.value.deadline == deadline
                 && at.value.event.udata == user
  }

  /** The occurrence a timer delivers. */
  function TimerOccurrence(k: Key, user: int): KernelEvent
  {
    KernelEvent(k.ident, k.filter, EV_ADD | EV_ONESHOT, 0, 0, user)
  }

  function DeadlineBy(op: Op, k: Key, before: nat): nat
  {
    if Registers(op, k) then op.e.deadline else before
  }

  /** One operation, seen from a timer's key: a delivery drops the timer, and only when it is due. */
  lemma TimerStep(at: Option<Event>, op: Op, k: Key, left: nat, deadline: nat, user: int)
    requires TimerHeld(at, k, deadline, user) && TimerOnly(op, k)
    ensures var s := Seen(at, op, k, left);
      && TimerHeld(s.at, k, DeadlineBy(op, k, deadline), SetBy(op, k, false, user))
      && (s.out == [] || (s.out == [TimerOccurrence(k, user)] && s.at == None && op.Get?))
      && (s.out == [] && !Deletes(op, k) ==> s.at.Some? == (at.Some? || Registers(op, k)))
      && (s.out != [] ==> at.Some? && (at.value.triggered || Due(deadline, op.now)))
  {
    FlagBits();
    assert at.Some? ==> OneShot(at.value) && at.value.pending == [];
    if op.Get? && at.Some? && left > 0 {
      DrainUnfolds(Expire(at.value, op.now), left);
    }
  }

  predicate Deletes(op: Op, k: Key)
  {
    op.Delete? && Key(op.ident, op.filter) == k
  }

  /** The time has come; deadline 0 stands for none. */
  predicate Due(deadline: nat, now: nat)
  {
    0 < deadline <= now
  }

  /** The operation neither triggers the timer nor is a delivery at or after its deadline. */
  predicate Early(op: Op, k: Key, deadline: nat)
  {
    TriggerOf(op, k) == [] && (op.Get? ==> !Due(deadline, op.now))
  }

  /** A timer that is left in the list waits on, or is marked as due for good. */
  lemma MarkStep(e: Event, op: Op, k: Key, left: nat, user: int)
    requires TimerHeld(Some(e), k, e.deadline, user) && TimerOnly(op, k) && !Deletes(op, k)
    ensures var s := Seen(Some(e), op, k, left);
      && (s.out == [] ==> s.at.Some? && (s.at.value.triggered <==> e.triggered || !Early(op, k, e.deadline)))
      && (!e.triggered && Early(op, k, e.deadline) ==> s.out == [])
  {
    FlagBits();
    if op.Get? && left > 0 {
      DrainUnfolds(Expire(e, op.now), left);
    }
  }

  /** After every run the timer has the deadline and the user data of its last registration. */
  lemma {:induction false} TimerRun(events: seq<Event>, ops: seq<Op>, k: Key, deadline: nat, user: int)
    requires QueueInv(events) && TimerHeld(EventAt(events, k), k, deadline, user)
    requires forall op :: op in ops ==> TimerOnly(op, k)
    ensures QueueInv(Final(events, ops))
    ensures TimerHeld(EventAt(Final(events, ops), k), k, Deadline(ops, k, deadline),
                      UserData(ops, k, false, user))
    decreases |ops|
  {
    if ops != [] {
      hide After, Output, QueueInv, TimerHeld, TimerOnly, Seen, SetBy, Registers;
      assert ops[0] in ops;
      var op := ops[0];
      TimerOnlyFacts(op, k);
      var left := OneKey(events, op, k);
      TimerStep(EventAt(events, k), op, k, left, deadline, user);
      TimerRun(After(events, op), ops[1..], k, DeadlineBy(op, k, deadline), SetBy(op, k, false, user));
    }
  }

  lemma TimerOnlyFacts(op: Op, k: Key)
    requires TimerOnly(op, k)
    ensures op.Add? ==> op.e.pending == []
  {
  }

  /** The registrations of key k that find it absent. */
  function Arms(events: seq<Event>, ops: seq<Op>, k: Key): nat
    decreases |ops|
  {
    if ops == [] then 0
    else (if Registers(ops[0], k) && !HasKey(events, k) then 1 else 0)
         + Arms(After(events, ops[0]), ops[1..], k)
  }

  /**
   Every armed timer is delivered exactly once, unless it still waits: over any run that does not
   delete it, whatever registers it again and whatever triggers it.
   */
  lemma {:induction false} OncePerArming(events: seq<Event>, ops: seq<Op>, k: Key,
                                         deadline: nat, user: int)
    requires QueueInv(events) && TimerHeld(EventAt(events, k), k, deadline, user)
    requires forall op :: op in ops ==> TimerOnly(op, k) && !Deletes(op, k)
    ensures |DeliveredFor(events, ops, k)| + (if HasKey(Final(events, ops), k) then 1 else 0)
         == Arms(events, ops, k) + (if HasKey(events, k) then 1 else 0)
    decreases |ops|
  {
    if ops != [] {
      hide After, Output, QueueInv, TimerHeld, TimerOnly, Seen, SetBy, Registers, Deletes;
      assert ops[0] in ops;
      var op := ops[0];
      TimerOnlyFacts(op, k);
      var left := OneKey(events, op, k);
      TimerStep(EventAt(events, k), op, k, left, deadline, user);
      RegistersAdds(op, k);
      OncePerArming(After(events, op), ops[1..], k,
                    DeadlineBy(op, k, deadline), SetBy(op, k, false, user));
    }
  }

  lemma RegistersAdds(op: Op, k: Key)
    ensures Registers(op, k) ==> op.Add?
  {
  }

  /**
   What any delivery after any calls copies out for a timer key: nothing, or its one occurrence, as
   registered and with the user data of the last registration, and then the key is gone.
   */
  lemma TimerDelivery(before: seq<Event>, id: nat, seconds: int, nanos: int, at: nat, udata: int,
                      ops: seq<Op>, num: nat, now: nat)
    requires QueueInv(before) && !HasKey(before, Key(id, EVFILT_HRTIMER))
    requires HRTimerEvent(id, seconds, nanos, at, udata).Done?
    requires forall op :: op in ops ==> TimerOnly(op, Key(id, EVFILT_HRTIMER))
    ensures var k, e := Key(id, EVFILT_HRTIMER), HRTimerEvent(id, seconds, nanos, at, udata).value;
      var events, get := Final(Added(before, e), ops), Get(num, now);
      var out := OutFor(Output(events, get), k);
      || out == []
      || (out == [KernelEvent(id, EVFILT_HRTIMER, EV_ADD | EV_ONESHOT, 0, 0,
                              UserData(ops, k, false, udata))]
          && !HasKey(After(events, get), k))
  {
    var k, e := Key(id, EVFILT_HRTIMER), HRTimerEvent(id, seconds, nanos, at, udata).value;
    NewlyAdded(before, e);
    TimerRun(Added(before, e), ops, k, e.deadline, udata);
    var events, get := Final(Added(before, e), ops), Get(num, now);
    var left := OneKey(events, get, k);
    hide After, Output, QueueInv, Seen, TimerHeld;
    TimerStep(EventAt(events, k), get, k, left, Deadline(ops, k, e.deadline),
              UserData(ops, k, false, udata));
  }

  /** The timer is not triggered, and every delivery comes before the deadline it has at that point. */
  ghost predicate AllEarly(ops: seq<Op>, k: Key, deadline: nat)
  {
    forall i :: 0 <= i < |ops| ==> Early(ops[i], k, Deadline(ops[..i], k, deadline))
  }

  lemma EarlyRest(ops: seq<Op>, k: Key, deadline: nat)
    requires ops != []
    ensures AllEarly(ops, k, deadline) <==>
      Early(ops[0], k, deadline) && AllEarly(ops[1..], k, DeadlineBy(ops[0], k, deadline))
  {
    hide Early, Registers;
    var rest, later := ops[1..], DeadlineBy(ops[0], k, deadline);
    forall i | 0 <= i < |ops|
      ensures Early(ops[i], k, Deadline(ops[..i], k, deadline)) <==>
        if i == 0 then Early(ops[0], k, deadline)
        else Early(rest[i - 1], k, Deadline(rest[..i - 1], k, later))
    {
      if i > 0 {
        assert ops[..i][1..] == rest[..i - 1];
      }
    }
    if Early(ops[0], k, deadline) && AllEarly(rest, k, later) {
      forall i | 0 <= i < |ops| ensures Early(ops[i], k, Deadline(ops[..i], k, deadline)) {
        assert i > 0 ==> Early(rest[i - 1], k, Deadline(rest[..i - 1], k, later));
      }
    }
    if AllEarly(ops, k, deadline) {
      assert Early(ops[0], k, Deadline(ops[..0], k, deadline));
      forall i | 0 <= i < |rest| ensures Early(rest[i], k, Deadline(rest[..i], k, later)) {
        assert Early(ops[i + 1], k, Deadline(ops[..i + 1], k, deadline));
      }
    }
  }

  ghost predicate Armed(events: seq<Event>, k: Key, deadline: nat, user: int)
  {
    HasKey(events, k) && TimerHeld(EventAt(events, k), k, deadline, user)
  }

  /**
   An undelivered timer has been marked as due exactly when it was triggered, or some delivery came at
   or after the deadline that was in force then; and until that happens it is not delivered.
   */
  lemma {:induction false} MarkRun(events: seq<Event>, ops: seq<Op>, k: Key, deadline: nat, user: int)
    requires QueueInv(events) && Armed(events, k, deadline, user)
    requires forall op :: op in ops ==> TimerOnly(op, k) && !Deletes(op, k)
    ensures DeliveredFor(events, ops, k) == [] ==>
      HasKey(Final(events, ops), k)
      && (EventAt(Final(events, ops), k).value.triggered <==>
            EventAt(events, k).value.triggered || !AllEarly(ops, k, deadline))
    ensures !EventAt(events, k).value.triggered && AllEarly(ops, k, deadline) ==>
      DeliveredFor(events, ops, k) == []
    decreases |ops|
  {
    if ops != [] {
      assert ops[0] in ops;
      var op := ops[0];
      EarlyRest(ops, k, deadline);
      hide After, Output, QueueInv, TimerOnly, Seen, SetBy, Registers, Early, AllEarly, Deletes;
      TimerOnlyFacts(op, k);
      var left := OneKey(events, op, k);
      assert EventAt(events, k).value.deadline == deadline;
      hide TimerHeld;
      MarkStep(EventAt(events, k).value, op, k, left, user);
      TimerStep(EventAt(events, k), op, k, left, deadline, user);
      if OutFor(Output(events, op), k) == [] {
        MarkRun(After(events, op), ops[1..], k, DeadlineBy(op, k, deadline), SetBy(op, k, false, user));
      }
    }
  }

  /**
   Registering a timer again moves its deadline and replaces its user data. While it is neither
   triggered nor reached by a delivery at or after the deadline in force then, it is not delivered.
   The next delivery that does not fill its slots delivers it, with the user data of its last
   registration, exactly when that had happened or its last deadline has come.
   */
  lemma TimerMoves(before: seq<Event>, id: nat, seconds: int, nanos: int, at: nat, udata: int,
                   ops: seq<Op>, num: nat, now: nat)
    requires QueueInv(before) && !HasKey(before, Key(id, EVFILT_HRTIMER))
    requires HRTimerEvent(id, seconds, nanos, at, udata).Done?
    requires var k := Key(id, EVFILT_HRTIMER);
      forall op :: op in ops ==> TimerOnly(op, k) && !Deletes(op, k)
    ensures var k, e := Key(id, EVFILT_HRTIMER), HRTimerEvent(id, seconds, nanos, at, udata).value;
      var start, get := Added(before, e), Get(num, now);
      var events, early := Final(start, ops), AllEarly(ops, k, e.deadline);
      && (early ==> DeliveredFor(start, ops, k) == [])
      && (DeliveredFor(start, ops, k) == [] && |Output(events, get)| < num ==>
            OutFor(Output(events, get), k) ==
              if early && !Due(Deadline(ops, k, e.deadline), now) then []
              else [TimerOccurrence(k, UserData(ops, k, false, udata))])
  {
    var k, e := Key(id, EVFILT_HRTIMER), HRTimerEvent(id, seconds, nanos, at, udata).value;
    var start := Added(before, e);
    NewlyAdded(before, e);
    assert Armed(start, k, e.deadline, udata);
    MarkRun(start, ops, k, e.deadline, udata);
    TimerRun(start, ops, k, e.deadline, udata);
    var due, user := Deadline(ops, k, e.deadline), UserData(ops, k, false, udata);
    if DeliveredFor(start, ops, k) == [] {
      hide After, QueueInv, TimerHeld, Deadline, UserData, AllEarly, Final, DeliveredFor, Output;
      UnfilledDelivery(Final(start, ops), k, due, user, num, now);
    }
  }

  /**
   Such a timer: due at 10, passed over at 20 by a delivery that a level event fills, registered
   again for 1020, and delivered at 30 once that event is deleted.
   */
  lemma MovedTimerIsEarly()
    ensures var timer, again := HRTimerEvent(2, 0, 10, 0, 0).value, HRTimerEvent(2, 0, 1000, 20, 7).value;
      var start := [LevelFired(1, 0), timer];
      var ops := [Get(1, 20), Add(again), Delete(1, EVFILT_USER)];
      && timer.deadline == 10 && again.deadline == 1020
      && Output(Final(start, ops), Get(2, 30)) == [again.event]
  {
    FlagBits();
    var timer, again := HRTimerEvent(2, 0, 10, 0, 0).value, HRTimerEvent(2, 0, 1000, 20, 7).value;
    var level, due := LevelFired(1, 0), timer.(triggered := true);
    var start := [level, timer];
    assert ExpireAll(start, 20) == [level, due] by {
      assert start[1..] == [timer];
    }
    assert After(start, Get(1, 20)) == [level, due] by {
      DrainUnfolds(level, 1);
      CollectUnfolds([level, due], 1);
      assert AfterDelivery(level) == level;
      assert [level, due][1..] == [due];
      CollectUnfolds([due], 0);
    }
    var later := due.(deadline := 1020, event := due.event.(udata := 7));
    assert After([level, due], Add(again)) == [level, later] by {
      assert [level, due][1..] == [due];
      assert Find([level, due], KeyOf(again.event)) == 1;
      assert Updated(due, again) == later;
    }
    assert After([level, later], Delete(1, EVFILT_USER)) == [later] by {
      assert Find([level, later], Key(1, EVFILT_USER)) == 0;
    }
    assert Output([later], Get(2, 30)) == [again.event] by {
      assert ExpireAll([later], 30) == [later];
      DrainUnfolds(later, 2);
      CollectUnfolds([later], 2);
    }
    hide *;
    ThreeOps(start, Get(1, 20), Add(again), Delete(1, EVFILT_USER));
  }

  lemma ThreeOps(events: seq<Event>, a: Op, b: Op, c: Op)
    ensures Final(events, [a, b, c]) == After(After(After(events, a), b), c)
  {
    hide After;
    assert [a, b, c][1..] == [b, c] && [b, c][1..] == [c] && [c][1..] == [];
    var one := After(events, a);
    var two := After(one, b);
    assert Final(two, [c]) == Final(After(two, c), []);
    assert Final(one, [b, c]) == Final(two, [c]);
  }

  /** One delivery that does not fill its slots, seen from an armed timer. */
  lemma UnfilledDelivery(events: seq<Event>, k: Key, due: nat, user: int, num: nat, now: nat)
    requires QueueInv(events) && Armed(events, k, due, user)
    ensures var get := Get(num, now);
      |Output(events, get)| < num ==>
        OutFor(Output(events, get), k) ==
          if EventAt(events, k).value.triggered || Due(due, now) then [TimerOccurrence(k, user)] else []
  {
    var get, e := Get(num, now), EventAt(events, k).value;
    FlagBits();
    assert OneShot(e) && e.event == TimerOccurrence(k, user) && e.deadline == due;
    var left := OneKey(events, get, k);
    OneShotStep(e, get, k, left);
    if |Output(events, get)| < num && Expire(e, now).triggered && HasKey(After(events, get), k) {
      hide After, Output, Seen, OneShot;
      StillThere(events, k, num, now);
    }
  }

  lemma StillThere(events: seq<Event>, k: Key, num: nat, now: nat)
    requires QueueInv(events) && |Output(events, Get(num, now))| < num
    requires HasKey(After(events, Get(num, now)), k)
    ensures !EventAt(After(events, Get(num, now)), k).value.triggered
  {
    hide Collect, ExpireAll;
    ExpireAt(events, now, k);
    UnfilledDrainsAll(ExpireAll(events, now), num, k);
  }

  // ---------------------------------------------------------------- the order of registrations

  /** The keys that stay keep their order. */
  ghost predicate SameOrder(events: seq<Event>, later: seq<Event>)
  {
    forall j, k :: HasKey(events, j) && HasKey(events, k) && HasKey(later, j) && HasKey(later, k) ==>
      (Find(later, j) < Find(later, k) <==> Find(events, j) < Find(events, k))
  }

  /** What is copied out comes in the order of the list. */
  ghost predicate OutInOrder(events: seq<Event>, out: seq<KernelEvent>)
  {
    forall a, b :: 0 <= a < b < |out| ==> Find(events, KeyOf(out[a])) <= Find(events, KeyOf(out[b]))
  }

  /** Finding a key in a list with unique keys: it is the first, or found in the rest. */
  lemma FindInTail(events: seq<Event>, k: Key)
    requires events != []
    ensures Find(events, k) == if KeyOf(events[0].event) == k then 0 else 1 + Find(events[1..], k)
  {
  }

  /** A delivery copies out in the order of the list and keeps the order of what stays. */
  lemma {:induction false} CollectInOrder(events: seq<Event>, room: nat)
    requires QueueInv(events)
    ensures var c := Collect(events, room);
      && OutInOrder(events, c.out) && SameOrder(events, c.events)
      && forall o :: o in c.out ==> HasKey(events, KeyOf(o))
  {
    hide *;
    CollectUnfolds(events, room);
    if events == [] || room == 0 {
      NoChange(events);
    } else {
      var d := Drain(events[0], room);
      var rest := Collect(events[1..], room - |d.out|);
      FirstOfQueue(events);
      DrainOwned(events[0], room);
      CollectInOrder(events[1..], room - |d.out|);
      CollectInv(events[1..], room - |d.out|);
      OutFirst(events, d.out, rest.out);
      KeepFirst(events, d, rest.events);
    }
  }

  lemma NoChange(events: seq<Event>)
    ensures OutInOrder(events, []) && SameOrder(events, events)
  {
  }

  lemma OutFirst(events: seq<Event>, out: seq<KernelEvent>, rest: seq<KernelEvent>)
    requires events != [] && EventAt(events[1..], KeyOf(events[0].event)) == None
    requires forall o :: o in out ==> KeyOf(o) == KeyOf(events[0].event)
    requires forall o :: o in rest ==> HasKey(events[1..], KeyOf(o))
    requires OutInOrder(events[1..], rest)
    ensures OutInOrder(events, out + rest)
    ensures forall o :: o in out + rest ==> HasKey(events, KeyOf(o))
  {
    hide KeyOf, Find;
    var all, first := out + rest, KeyOf(events[0].event);
    forall a, b | 0 <= a < b < |all|
      ensures Find(events, KeyOf(all[a])) <= Find(events, KeyOf(all[b]))
    {
      FindInTail(events, KeyOf(all[a]));
      FindInTail(events, KeyOf(all[b]));
      if a < |out| {
        assert all[a] in out;
      } else {
        assert all[a] in rest && all[b] in rest;
        assert all[a] == rest[a - |out|] && all[b] == rest[b - |out|];
      }
    }
  }

  lemma KeepFirst(events: seq<Event>, d: Drained, rest: seq<Event>)
    requires events != [] && EventAt(events[1..], KeyOf(events[0].event)) == None
    requires KeyOf(d.event.event) == KeyOf(events[0].event)
    requires SameOrder(events[1..], rest) && forall j :: HasKey(rest, j) ==> HasKey(events[1..], j)
    ensures SameOrder(events, Kept(d) + rest)
  {
    hide KeyOf, Find;
    var later, first := Kept(d) + rest, KeyOf(events[0].event);
    if d.erase {
      assert later == rest;
    } else {
      assert later[0] == d.event && later[1..] == rest;
    }
    forall j, k | HasKey(events, j) && HasKey(events, k) && HasKey(later, j) && HasKey(later, k)
      ensures Find(later, j) < Find(later, k) <==> Find(events, j) < Find(events, k)
    {
      FindInTail(events, j);
      FindInTail(events, k);
      if !d.erase {
        FindInTail(later, j);
        FindInTail(later, k);
      }
    }
  }

  lemma {:induction false} ExpireFind(events: seq<Event>, now: nat, k: Key)
    ensures Find(ExpireAll(events, now), k) == Find(events, k)
  {
    hide *;
    ExpireParts(events, now);
    if events != [] {
      ExpireFind(events[1..], now, k);
      FindInTail(events, k);
      FindInTail(ExpireAll(events, now), k);
    }
  }

  lemma ExpireParts(events: seq<Event>, now: nat)
    ensures events == [] ==> ExpireAll(events, now) == events
    ensures events != [] ==>
      var r := ExpireAll(events, now);
      && r != [] && r[1..] == ExpireAll(events[1..], now)
      && KeyOf(r[0].event) == KeyOf(events[0].event)
  {
  }

  lemma {:induction false} ReplaceFind(events: seq<Event>, i: nat, e': Event, k: Key)
    requires i < |events| && KeyOf(e'.event) == KeyOf(events[i].event)
    ensures Find(events[i := e'], k) == Find(events, k)
  {
    if i > 0 {
      assert events[i := e'][1..] == events[1..][i - 1 := e'];
      ReplaceFind(events[1..], i - 1, e', k);
    } else {
      assert events[i := e'][1..] == events[1..];
    }
  }

  lemma {:induction false} AppendFind(events: seq<Event>, e: Event, k: Key)
    ensures HasKey(events, k) ==> Find(events + [e], k) == Find(events, k) < |events|
    ensures !HasKey(events, k) && KeyOf(e.event) == k ==> Find(events + [e], k) == |events|
  {
    if events != [] {
      assert (events + [e])[1..] == events[1..] + [e];
      AppendFind(events[1..], e, k);
    }
  }

  /** Dropping a registration moves the ones behind it forward by one. */
  lemma {:induction false} RemoveFind(events: seq<Event>, i: nat, k: Key)
    requires i < |events| && Find(events, k) != i && HasKey(events, k)
    ensures Find(Removed(events, i), k) == Find(events, k) - if Find(events, k) > i then 1 else 0
  {
    if i == 0 {
      assert Removed(events, i) == events[1..];
    } else if KeyOf(events[0].event) != k {
      RemovedTail(events, i);
      RemoveFind(events[1..], i - 1, k);
    }
  }

  /**
   The list is in the order of registrations, and deliveries follow it: a key that was not there
   goes behind all others, every operation keeps the order of the keys that stay, and what is copied
   out comes in that order.
   */
  lemma OrderAfter(events: seq<Event>, op: Op)
    requires QueueInv(events) && (op.Add? ==> op.e.pending == [])
    ensures OutInOrder(events, Output(events, op)) && SameOrder(events, After(events, op))
    ensures forall j, k :: HasKey(events, j) && HasKey(After(events, op), j)
                           && !HasKey(events, k) && HasKey(After(events, op), k) ==>
      Find(After(events, op), j) < Find(After(events, op), k)
  {
    hide *;
    var later := After(events, op);
    forall j, k | HasKey(events, j) && HasKey(later, j) && HasKey(later, k)
      ensures HasKey(events, k) ==>
        (Find(later, j) < Find(later, k) <==> Find(events, j) < Find(events, k))
      ensures !HasKey(events, k) ==> Find(later, j) < Find(later, k)
    {
      OrderOfTwo(events, op, j, k);
    }
    Ordered(events, later);
    OutputInOrder(events, op);
  }

  lemma Ordered(events: seq<Event>, later: seq<Event>)
    requires forall j, k :: HasKey(events, j) && HasKey(events, k) && HasKey(later, j) && HasKey(later, k) ==>
      (Find(later, j) < Find(later, k) <==> Find(events, j) < Find(events, k))
    ensures SameOrder(events, later)
  {
  }

  lemma OutputInOrder(events: seq<Event>, op: Op)
    requires QueueInv(events)
    ensures OutInOrder(events, Output(events, op))
  {
    if op.Get? {
      hide QueueInv, Find, KeyOf, HasKey, Collect, ExpireAll;
      var expired := ExpireAll(events, op.now);
      ExpireAt(events, op.now, Key(0, 0));
      CollectInOrder(expired, op.num);
      forall k ensures Find(expired, k) == Find(events, k) {
        ExpireFind(events, op.now, k);
      }
    }
  }

  lemma KeysStay(e: Event, again: Event, data: int)
    ensures KeyOf(Updated(e, again).event) == KeyOf(Fired(e, data).event) == KeyOf(e.event)
    ensures e.pending == [] ==> Owned(e)
  {
  }

  lemma OrderOfTwo(events: seq<Event>, op: Op, j: Key, k: Key)
    requires QueueInv(events) && (op.Add? ==> op.e.pending == [])
    requires HasKey(events, j) && HasKey(After(events, op), j) && HasKey(After(events, op), k)
    ensures var later := After(events, op);
      if HasKey(events, k) then Find(later, j) < Find(later, k) <==> Find(events, j) < Find(events, k)
      else Find(later, j) < Find(later, k)
  {
    hide QueueInv, Find, KeyOf, Owned, HasKey, EventAt, Updated, Fired, Removed, Collect, ExpireAll;
    FindEventAt(events, j);
    FindEventAt(events, k);
    match op
    case Add(e) => AddOrder(events, e, j, k);
    case Trigger(ident, filter, data) =>
      var i := Find(events, Key(ident, filter));
      if i < |events| {
        KeysStay(events[i], events[i], data);
        ReplaceFind(events, i, Fired(events[i], data), j);
        ReplaceFind(events, i, Fired(events[i], data), k);
        FindEventAt(After(events, op), k);
      }
    case Delete(ident, filter) =>
      var i := Find(events, Key(ident, filter));
      if i < |events| {
        RemoveAt(events, Key(ident, filter), k);
        RemoveAt(events, Key(ident, filter), j);
        RemoveFind(events, i, j);
        RemoveFind(events, i, k);
      }
    case Get(num, now) =>
      ExpireAt(events, now, k);
      CollectInOrder(ExpireAll(events, now), num);
      CollectInv(ExpireAll(events, now), num);
      ExpireFind(events, now, j);
      ExpireFind(events, now, k);
  }

  lemma AddOrder(events: seq<Event>, e: Event, j: Key, k: Key)
    requires QueueInv(events) && e.pending == []
    requires HasKey(events, j) && HasKey(Added(events, e), j) && HasKey(Added(events, e), k)
    ensures var later := Added(events, e);
      if HasKey(events, k) then Find(later, j) < Find(later, k) <==> Find(events, j) < Find(events, k)
      else Find(later, j) < Find(later, k)
  {
    hide QueueInv, Find, KeyOf, Owned, HasKey, EventAt, Updated;
    KeysStay(e, e, 0);
    FindEventAt(events, j);
    FindEventAt(events, k);
    var i := Find(events, KeyOf(e.event));
    if i < |events| {
      KeysStay(events[i], e, 0);
      ReplaceFind(events, i, Updated(events[i], e), j);
      ReplaceFind(events, i, Updated(events[i], e), k);
      FindEventAt(Added(events, e), k);
    } else {
      FindEventAt(events, KeyOf(e.event));
      AppendFind(events, e, j);
      AppendFind(events, e, k);
      AppendAt(events, e, k);
    }
  }
}
