/**
 Runs of the event queue. Every operation of the queue is a function on its list (EventQueue). Seen
 from one key the whole queue is a machine of one event (OneKey), and sequences of operations are
 followed for one key: what was triggered, what was delivered and what is still waiting.
 */
module EventQueueRuns {
  import opened Common
  import opened EventQueue

  // ---------------------------------------------------------------- registrations

  /** KernelAddAmprEvent */
  function AmprEvent(id: nat, udata: int): Event
  {
    Event(false, 0, KernelEvent(id, EVFILT_USER, EV_ADD | EV_CLEAR, 0, 0, udata),
          AmprTrigger, UserReset, [])
  }

  /** KernelAddUserEvent: level triggered, it never clears itself. */
  function UserEvent(id: nat): Event
  {
    Event(false, 0, KernelEvent(id, EVFILT_USER, EV_ADD, 0, 0, 0), UserTrigger, UserReset, [])
  }

  /** KernelAddUserEventEdge */
  function UserEventEdge(id: nat): Event
  {
    Event(false, 0, KernelEvent(id, EVFILT_USER, EV_ADD | EV_CLEAR, 0, 0, 0),
          UserTrigger, UserReset, [])
  }

  /** KernelAddHRTimerEvent: the deadline saturates instead of wrapping. */
  function HRTimerEvent(id: nat, seconds: int, nanos: int, now: nat, udata: int): Reply<Event>
  {
    if seconds < 0 || nanos < 0 || nanos >= 1_000_000_000
       || seconds > (UINT64_MAX - nanos) / 1_000_000_000 then Failed(EINVAL)
    else
      var delay := seconds * 1_000_000_000 + nanos;
      var deadline := if delay <= UINT64_MAX - now then now + delay else UINT64_MAX;
      Done(Event(false, deadline,
                 KernelEvent(id, EVFILT_HRTIMER, EV_ADD | EV_ONESHOT, 0, 0, udata),
                 NoTrigger, NoReset, []))
  }

  lemma FlagBits()
    ensures (EV_ADD | EV_CLEAR) & EV_ONESHOT == 0 && (EV_ADD | EV_CLEAR) & EV_CLEAR != 0
    ensures EV_ADD & EV_ONESHOT == 0 && EV_ADD & EV_CLEAR == 0
    ensures (EV_ADD | EV_ONESHOT) & EV_ONESHOT != 0
  {
  }

  /** A delay is accepted exactly when it is a normalised time that fits in 64 bits. */
  lemma TimerAccepts(id: nat, seconds: int, nanos: int, now: nat, udata: int)
    requires now <= UINT64_MAX
    ensures HRTimerEvent(id, seconds, nanos, now, udata).Done? <==>
      seconds >= 0 && 0 <= nanos < 1_000_000_000
      && seconds * 1_000_000_000 + nanos <= UINT64_MAX
    ensures HRTimerEvent(id, seconds, nanos, now, udata).Done? ==>
      var deadline := HRTimerEvent(id, seconds, nanos, now, udata).value.deadline;
      var exact := now + seconds * 1_000_000_000 + nanos;
      deadline == if exact <= UINT64_MAX then exact else UINT64_MAX
  {
    FlagBits();
  }

  /** What is registered has nothing waiting, and only the timer filter comes with a deadline. */
  predicate Registration(e: Event)
  {
    e.pending == [] && (e.deadline != 0 ==> e.event.filter == EVFILT_HRTIMER)
  }

  /** Every registration the queue's own source makes is one. */
  lemma OwnRegistrations(id: nat, udata: int, seconds: int, nanos: int, now: nat)
    ensures Registration(AmprEvent(id, udata)) && Registration(UserEvent(id))
    ensures Registration(UserEventEdge(id))
    ensures var timer := HRTimerEvent(id, seconds, nanos, now, udata);
      timer.Done? ==> Registration(timer.value) && OneShot(timer.value) && !timer.value.triggered
  {
    FlagBits();
  }

  // ---------------------------------------------------------------- what waits for a key

  function DataOf(es: seq<KernelEvent>): (r: seq<int>)
    ensures |r| == |es|
  {
    if es == [] then [] else [es[0].data] + DataOf(es[1..])
  }

  lemma Regroup(a: seq<int>, b: seq<int>, c: seq<int>)
    ensures a + (b + c) == (a + b) + c
  {
  }

  lemma {:induction false} DataOfConcat(a: seq<KernelEvent>, b: seq<KernelEvent>)
    ensures DataOf(a + b) == DataOf(a) + DataOf(b)
  {
    if a == [] {
      assert a + b == b;
    } else {
      DataOfConcat(a[1..], b);
      var c := a + b;
      assert c[1..] == a[1..] + b && c[0] == a[0];
      Regroup([a[0].data], DataOf(a[1..]), DataOf(b));
    }
  }

  /** The data of the occurrences of one event that are not delivered yet, oldest first. */
  function BacklogOf(e: Event): seq<int>
  {
    if e.triggered then [e.event.data] + DataOf(e.pending) else []
  }

  /** The registration with the key. */
  function EventAt(events: seq<Event>, k: Key): Option<Event>
  {
    if events == [] then None
    else if KeyOf(events[0].event) == k then Some(events[0])
    else EventAt(events[1..], k)
  }

  predicate HasKey(events: seq<Event>, k: Key): (b: bool)
    ensures b <==> EventAt(events, k).Some?
  {
    events != [] && (KeyOf(events[0].event) == k || HasKey(events[1..], k))
  }

  function Backlog(events: seq<Event>, k: Key): seq<int>
  {
    match EventAt(events, k)
    case None => []
    case Some(e) => BacklogOf(e)
  }

  /** The occurrences of key k among those copied out. */
  function OutFor(out: seq<KernelEvent>, k: Key): seq<KernelEvent>
  {
    if out == [] then []
    else (if KeyOf(out[0]) == k then [out[0]] else []) + OutFor(out[1..], k)
  }

  lemma {:induction false} OutForConcat(a: seq<KernelEvent>, b: seq<KernelEvent>, k: Key)
    ensures OutFor(a + b, k) == OutFor(a, k) + OutFor(b, k)
  {
    if a == [] {
      assert a + b == b;
    } else {
      hide KeyOf;
      OutForConcat(a[1..], b, k);
      var c := a + b;
      assert c[1..] == a[1..] + b && c[0] == a[0];
    }
  }

  lemma {:induction false} OutForOne(out: seq<KernelEvent>, j: Key, k: Key)
    requires forall o :: o in out ==> KeyOf(o) == j
    ensures OutFor(out, k) == if j == k then out else []
  {
    if out != [] {
      assert out[0] in out;
      OutForOne(out[1..], j, k);
      assert out == [out[0]] + out[1..];
    }
  }

  // ---------------------------------------------------------------- invariants of the list

  predicate UniqueKeys(events: seq<Event>)
  {
    events == []
    || (!HasKey(events[1..], KeyOf(events[0].event)) && UniqueKeys(events[1..]))
  }

  /** Occurrences carry their event's key, and only a triggered event has waiting ones. */
  ghost predicate Owned(e: Event)
  {
    && (forall p :: p in e.pending ==> KeyOf(p) == KeyOf(e.event))
    && (e.pending != [] ==> e.triggered)
  }

  ghost predicate AllOwned(events: seq<Event>)
  {
    events == [] || (Owned(events[0]) && AllOwned(events[1..]))
  }

  ghost predicate QueueInv(events: seq<Event>)
  {
    UniqueKeys(events) && AllOwned(events)
  }

  lemma {:induction false} EventAtOwned(events: seq<Event>, k: Key)
    requires AllOwned(events) && HasKey(events, k)
    ensures Owned(EventAt(events, k).value) && KeyOf(EventAt(events, k).value.event) == k
  {
    hide Owned;
    if KeyOf(events[0].event) != k {
      EventAtOwned(events[1..], k);
    }
  }

  /** The position the operations search for holds the event of the key. */
  lemma {:induction false} FindEventAt(events: seq<Event>, k: Key)
    ensures HasKey(events, k) <==> Find(events, k) < |events|
    ensures HasKey(events, k) ==> EventAt(events, k) == Some(events[Find(events, k)])
  {
    if events != [] {
      FindEventAt(events[1..], k);
    }
  }

  // ---------------------------------------------------------------- the parts of an operation, for one key

  /** Draining an event delivers only its own key, and leaves its key alone. */
  lemma {:induction false} DrainOwned(e: Event, room: nat)
    requires room > 0 && Owned(e)
    ensures var d := Drain(e, room);
      && Owned(d.event) && KeyOf(d.event.event) == KeyOf(e.event)
      && forall o :: o in d.out ==> KeyOf(o) == KeyOf(e.event)
    decreases room
  {
    hide AfterDelivery, Owned, OneShot;
    DrainUnfolds(e, room);
    if e.triggered && !OneShot(e) {
      AfterDeliveryOwned(e);
      if room > 1 {
        DrainOwned(AfterDelivery(e), room - 1);
      }
    }
  }

  lemma AfterDeliveryOwned(e: Event)
    requires Owned(e)
    ensures Owned(AfterDelivery(e)) && KeyOf(AfterDelivery(e).event) == KeyOf(e.event)
  {
    if e.pending != [] {
      assert e.pending[0] in e.pending;
      assert forall p :: p in e.pending[1..] ==> p in e.pending;
    }
  }

  /** Delivering from the whole list keeps keys unique and occurrences owned. */
  lemma {:induction false} CollectInv(events: seq<Event>, room: nat)
    requires QueueInv(events)
    ensures var c := Collect(events, room);
      QueueInv(c.events) && (forall j :: HasKey(c.events, j) ==> HasKey(events, j))
  {
    hide Collect, Drain, Owned, KeyOf;
    CollectUnfolds(events, room);
    if events != [] && room > 0 {
      var d := Drain(events[0], room);
      var rest := Collect(events[1..], room - |d.out|);
      var c := Collect(events, room);
      DrainOwned(events[0], room);
      CollectInv(events[1..], room - |d.out|);
      if d.erase {
        assert c.events == rest.events;
      } else {
        assert c.events[1..] == rest.events && c.events[0] == d.event;
      }
    }
  }

  /**
   Delivering from the whole list, seen from key k: either the slots are full before its event is
   reached, or its event is drained into the slots that are free then.
   */
  lemma {:induction false} CollectAt(events: seq<Event>, room: nat, k: Key) returns (left: nat)
    requires QueueInv(events)
    ensures left <= room
    ensures var c := Collect(events, room);
      View(EventAt(c.events, k), OutFor(c.out, k)) == Drainage(EventAt(events, k), left)
  {
    hide Collect, Drain, Owned, KeyOf, OutFor, UniqueKeys, AllOwned, Kept;
    CollectUnfolds(events, room);
    if events == [] || room == 0 {
      assert OutFor([], k) == [] by { NoOutput(k); }
      return 0;
    }
    var d := Drain(events[0], room);
    var rest := Collect(events[1..], room - |d.out|);
    FirstOfQueue(events);
    DrainOwned(events[0], room);
    OutForOne(d.out, KeyOf(events[0].event), k);
    OutForConcat(d.out, rest.out, k);
    KeptFirst(d, rest.events, k);
    left := CollectAt(events[1..], room - |d.out|, k);
    if KeyOf(events[0].event) == k {
      assert OutFor(rest.out, k) == [];
      left := room;
    }
  }

  lemma NoOutput(k: Key)
    ensures OutFor([], k) == []
  {
  }

  lemma FirstOfQueue(events: seq<Event>)
    requires QueueInv(events) && events != []
    ensures Owned(events[0]) && QueueInv(events[1..])
    ensures EventAt(events[1..], KeyOf(events[0].event)) == None
  {
  }

  lemma KeptFirst(d: Drained, rest: seq<Event>, k: Key)
    ensures EventAt(Kept(d) + rest, k) ==
      if !d.erase && KeyOf(d.event.event) == k then Some(d.event) else EventAt(rest, k)
  {
    if d.erase {
      assert Kept(d) + rest == rest;
    } else {
      assert (Kept(d) + rest)[1..] == rest;
    }
  }

  lemma {:induction false} ExpireAt(events: seq<Event>, now: nat, k: Key)
    requires QueueInv(events)
    ensures QueueInv(ExpireAll(events, now))
    ensures EventAt(ExpireAll(events, now), k) ==
      match EventAt(events, k) case None => None case Some(e) => Some(Expire(e, now))
    ensures forall j :: HasKey(ExpireAll(events, now), j) <==> HasKey(events, j)
  {
    if events != [] {
      ExpireOwned(events[0], now);
      hide Owned, KeyOf, Expire;
      ExpireAt(events[1..], now, k);
      assert ExpireAll(events, now)[1..] == ExpireAll(events[1..], now);
    }
  }

  lemma ExpireOwned(e: Event, now: nat)
    requires Owned(e)
    ensures Owned(Expire(e, now)) && KeyOf(Expire(e, now).event) == KeyOf(e.event)
  {
  }

  /** Replacing the registration of key j by one with the same key. */
  lemma {:induction false} ReplaceAt(events: seq<Event>, j: Key, e': Event, k: Key)
    requires QueueInv(events) && HasKey(events, j) && Find(events, j) < |events|
    requires KeyOf(e'.event) == j && Owned(e')
    ensures var r := events[Find(events, j) := e'];
      && QueueInv(r) && (forall k' :: HasKey(r, k') <==> HasKey(events, k'))
      && EventAt(r, k) == if k == j then Some(e') else EventAt(events, k)
  {
    hide Owned, KeyOf;
    var i := Find(events, j);
    var r := events[i := e'];
    if KeyOf(events[0].event) == j {
      assert r[1..] == events[1..];
    } else {
      ReplaceAt(events[1..], j, e', k);
      assert r[1..] == events[1..][i - 1 := e'];
    }
  }

  lemma {:induction false} AppendAt(events: seq<Event>, e: Event, k: Key)
    requires QueueInv(events) && Owned(e) && !HasKey(events, KeyOf(e.event))
    ensures QueueInv(events + [e])
    ensures forall k' :: HasKey(events + [e], k') <==> HasKey(events, k') || k' == KeyOf(e.event)
    ensures EventAt(events + [e], k) == if k == KeyOf(e.event) then Some(e) else EventAt(events, k)
  {
    hide Owned, KeyOf;
    var r := events + [e];
    if events == [] {
      assert r[1..] == [];
    } else {
      AppendAt(events[1..], e, k);
      assert r[1..] == events[1..] + [e];
    }
  }

  lemma RemovedHead(events: seq<Event>)
    requires events != []
    ensures Removed(events, 0) == events[1..]
  {
  }

  lemma RemovedTail(events: seq<Event>, i: nat)
    requires 0 < i < |events|
    ensures Removed(events, i) != [] && Removed(events, i)[0] == events[0]
    ensures Removed(events, i)[1..] == Removed(events[1..], i - 1)
  {
  }

  lemma {:induction false} RemoveAt(events: seq<Event>, j: Key, k: Key)
    requires QueueInv(events) && Find(events, j) < |events|
    ensures var r := Removed(events, Find(events, j));
      && QueueInv(r) && (forall k' :: HasKey(r, k') <==> HasKey(events, k') && k' != j)
      && EventAt(r, k) == if k == j then None else EventAt(events, k)
  {
    hide Owned, KeyOf, Removed;
    var i := Find(events, j);
    if KeyOf(events[0].event) == j {
      RemovedHead(events);
    } else {
      var tail := events[1..];
      assert Find(tail, j) == i - 1;
      RemoveAt(tail, j, k);
      RemovedTail(events, i);
    }
  }

  lemma UpdatedOwned(e: Event, again: Event)
    requires Owned(e) && KeyOf(e.event) == KeyOf(again.event)
    ensures Owned(Updated(e, again)) && KeyOf(Updated(e, again).event) == KeyOf(e.event)
  {
    var p := Updated(e, again).pending;
    forall q | q in p ensures KeyOf(q) == KeyOf(e.event) {
      var i :| 0 <= i < |p| && p[i] == q;
      assert e.pending[i] in e.pending;
    }
  }

  lemma FiredOwned(e: Event, data: int)
    requires Owned(e)
    ensures Owned(Fired(e, data)) && KeyOf(Fired(e, data).event) == KeyOf(e.event)
  {
  }

  // ---------------------------------------------------------------- runs

  datatype Op =
    | Add(e: Event)
    | Trigger(ident: nat, filter: int, data: int)
    | Delete(ident: nat, filter: int)
    | Get(num: nat, now: nat)

  /** The list after one operation on an open queue. */
  function After(events: seq<Event>, op: Op): seq<Event>
  {
    match op
    case Add(e) => Added(events, e)
    case Trigger(ident, filter, data) =>
      var i := Find(events, Key(ident, filter));
      if i < |events| then events[i := Fired(events[i], data)] else events
    case Delete(ident, filter) =>
      var i := Find(events, Key(ident, filter));
      if i < |events| then Removed(events, i) else events
    case Get(num, now) => Collect(ExpireAll(events, now), num).events
  }

  /** What an operation copies out. */
  function Output(events: seq<Event>, op: Op): seq<KernelEvent>
  {
    if op.Get? then Collect(ExpireAll(events, op.now), op.num).out else []
  }

  function Final(events: seq<Event>, ops: seq<Op>): seq<Event>
    decreases |ops|
  {
    if ops == [] then events else Final(After(events, ops[0]), ops[1..])
  }

  /** The occurrences of key k that a run delivers. */
  function DeliveredFor(events: seq<Event>, ops: seq<Op>, k: Key): seq<KernelEvent>
    decreases |ops|
  {
    if ops == [] then []
    else OutFor(Output(events, ops[0]), k) + DeliveredFor(After(events, ops[0]), ops[1..], k)
  }

  /** The data of a trigger of key k. */
  function TriggerOf(op: Op, k: Key): seq<int>
  {
    if op.Trigger? && Key(op.ident, op.filter) == k then [op.data] else []
  }

  /** The data of the triggers of key k, in order. */
  function TriggeredFor(ops: seq<Op>, k: Key): seq<int>
  {
    if ops == [] then [] else TriggerOf(ops[0], k) + TriggeredFor(ops[1..], k)
  }

  // ---------------------------------------------------------------- the queue seen from one key

  /** What one key sees of an operation: its event afterwards, and the occurrences copied out. */
  datatype View = View(at: Option<Event>, out: seq<KernelEvent>)

  /** Draining the event of a key into the slots left for it; it is not reached when there are none. */
  function Drainage(at: Option<Event>, left: nat): View
  {
    if at == None || left == 0 then View(at, [])
    else
      var d := Drain(at.value, left);
      View(if d.erase then None else Some(d.event), d.out)
  }

  /** The operations of the queue on the one event of key k. */
  function Seen(at: Option<Event>, op: Op, k: Key, left: nat): View
  {
    match op
    case Add(e) =>
      if KeyOf(e.event) != k then View(at, [])
      else View(Some(match at case None => e case Some(known) => Updated(known, e)), [])
    case Trigger(ident, filter, data) =>
      View(if Key(ident, filter) == k && at.Some? then Some(Fired(at.value, data)) else at, [])
    case Delete(ident, filter) => View(if Key(ident, filter) == k then None else at, [])
    case Get(_, now) =>
      Drainage(match at case None => None case Some(e) => Some(Expire(e, now)), left)
  }

  /**
   Whatever else the list holds, an operation of the queue does to the event of a key what the same
   operation does to that event alone; only how many slots a delivery has left for it depends on the
   others. Keys stay unique and occurrences owned.
   */
  lemma OneKey(events: seq<Event>, op: Op, k: Key) returns (left: nat)
    requires QueueInv(events) && (op.Add? ==> op.e.pending == [])
    ensures QueueInv(After(events, op)) && (op.Get? ==> left <= op.num)
    ensures View(EventAt(After(events, op), k), OutFor(Output(events, op), k))
         == Seen(EventAt(events, k), op, k, left)
  {
    hide Collect, ExpireAll, Owned, Fired, Updated, UniqueKeys, AllOwned, Expire, Drainage, KeyOf;
    left := 0;
    match op
    case Add(e) => AddAt(events, e, k);
    case Trigger(ident, filter, data) => TriggerAt(events, Key(ident, filter), data, k);
    case Delete(ident, filter) =>
      FindEventAt(events, Key(ident, filter));
      if Find(events, Key(ident, filter)) < |events| {
        RemoveAt(events, Key(ident, filter), k);
      }
    case Get(num, now) =>
      ExpireAt(events, now, k);
      left := CollectAt(ExpireAll(events, now), num, k);
      CollectInv(ExpireAll(events, now), num);
  }

  lemma AddAt(events: seq<Event>, e: Event, k: Key)
    requires QueueInv(events) && e.pending == []
    ensures QueueInv(Added(events, e))
    ensures EventAt(Added(events, e), k) == Seen(EventAt(events, k), Add(e), k, 0).at
  {
    var j := KeyOf(e.event);
    var i := Find(events, j);
    assert Owned(e);
    hide UniqueKeys, AllOwned, Owned, Updated, KeyOf;
    FindEventAt(events, j);
    if i < |events| {
      EventAtOwned(events, j);
      UpdatedOwned(events[i], e);
      ReplaceAt(events, j, Updated(events[i], e), k);
    } else {
      AppendAt(events, e, k);
    }
  }

  lemma TriggerAt(events: seq<Event>, j: Key, data: int, k: Key)
    requires QueueInv(events)
    ensures var r := After(events, Trigger(j.ident, j.filter, data));
      && QueueInv(r)
      && EventAt(r, k) ==
           if j == k && HasKey(events, k) then Some(Fired(EventAt(events, k).value, data))
           else EventAt(events, k)
  {
    hide UniqueKeys, AllOwned, Owned, Fired, KeyOf;
    FindEventAt(events, j);
    var i := Find(events, j);
    if i < |events| {
      EventAtOwned(events, j);
      FiredOwned(events[i], data);
      ReplaceAt(events, j, Fired(events[i], data), k);
    }
  }

  /** Keys stay unique and occurrences owned under every operation. */
  lemma InvAfter(events: seq<Event>, op: Op)
    requires QueueInv(events) && (op.Add? ==> op.e.pending == [])
    ensures QueueInv(After(events, op))
  {
    var left := OneKey(events, op, Key(0, 0));
  }

  /** A delivery that leaves slots free leaves nothing triggered. */
  lemma {:induction false} UnfilledDrainsAll(events: seq<Event>, room: nat, k: Key)
    requires QueueInv(events) && |Collect(events, room).out| < room
    requires HasKey(Collect(events, room).events, k)
    ensures !EventAt(Collect(events, room).events, k).value.triggered
  {
    hide Collect, Drain, Owned, KeyOf;
    CollectUnfolds(events, room);
    if events != [] {
      var d := Drain(events[0], room);
      var rest := Collect(events[1..], room - |d.out|);
      var c := Collect(events, room);
      DrainOwned(events[0], room);
      UnfilledIsQuiet(events[0], room);
      if d.erase {
        assert c.events == rest.events;
        UnfilledDrainsAll(events[1..], room - |d.out|, k);
      } else {
        assert c.events[1..] == rest.events && c.events[0] == d.event;
        if KeyOf(events[0].event) != k {
          UnfilledDrainsAll(events[1..], room - |d.out|, k);
        }
      }
    }
  }

  lemma {:induction false} UnfilledIsQuiet(e: Event, room: nat)
    requires room > 0 && |Drain(e, room).out| < room
    ensures Drain(e, room).erase || !Drain(e, room).event.triggered
    decreases room
  {
    hide AfterDelivery, OneShot;
    DrainUnfolds(e, room);
    if e.triggered && !OneShot(e) && room > 1 {
      UnfilledIsQuiet(AfterDelivery(e), room - 1);
    }
  }

  // ---------------------------------------------------------------- AMPR events

  /**
   Still what KernelAddAmprEvent registered: it queues its triggers, clears itself and has no
   deadline.
   */
  ghost predicate IsAmpr(e: Event)
  {
    && e.trigger == AmprTrigger && e.reset == UserReset && e.deadline == 0
    && !OneShot(e) && ClearsItself(e)
    && (forall p :: p in e.pending ==> p.flags == e.event.flags)
  }

  ghost predicate AmprAt(events: seq<Event>, k: Key)
  {
    HasKey(events, k) && IsAmpr(EventAt(events, k).value)
  }

  /** After delivering one occurrence the event keeps its shape, and has one occurrence less. */
  lemma AfterDeliveryAmpr(e: Event)
    requires IsAmpr(e) && e.triggered
    ensures IsAmpr(AfterDelivery(e))
    ensures BacklogOf(e) == [e.event.data] + BacklogOf(AfterDelivery(e))
  {
    if e.pending != [] {
      assert e.pending[0] in e.pending;
      assert forall p :: p in e.pending[1..] ==> p in e.pending;
      assert AfterDelivery(e).event.flags == e.event.flags;
    }
  }

  /** Draining an AMPR event delivers its oldest occurrences. */
  lemma {:induction false} DrainAmpr(e: Event, room: nat)
    requires room > 0 && IsAmpr(e)
    ensures var d := Drain(e, room);
      && !d.erase && IsAmpr(d.event) && DataOf(d.out) + BacklogOf(d.event) == BacklogOf(e)
    decreases room
  {
    hide BacklogOf, AfterDelivery;
    DrainUnfolds(e, room);
    if e.triggered {
      AfterDeliveryAmpr(e);
      var first := [e.event];
      assert first[1..] == [] && DataOf(first) == [e.event.data];
      if room > 1 {
        DrainAmpr(AfterDelivery(e), room - 1);
        DataOfConcat(first, Drain(AfterDelivery(e), room - 1).out);
      }
    }
  }

  lemma {:induction false} DataOfUdata(pending: seq<KernelEvent>, udata: int)
    ensures DataOf(WithUdata(pending, udata)) == DataOf(pending)
  {
    if pending != [] {
      DataOfUdata(pending[1..], udata);
    }
  }

  /** Registering a key again leaves its occurrences waiting. */
  lemma UpdatedAmpr(e: Event, again: Event)
    requires IsAmpr(e) && again.deadline == 0
    ensures IsAmpr(Updated(e, again)) && BacklogOf(Updated(e, again)) == BacklogOf(e)
  {
    DataOfUdata(e.pending, again.event.udata);
    var p := Updated(e, again).pending;
    forall q | q in p ensures q.flags == e.event.flags {
      var i :| 0 <= i < |p| && p[i] == q;
      assert e.pending[i] in e.pending;
    }
  }

  /** A trigger of an AMPR event adds exactly one occurrence at the end of its backlog. */
  lemma FiredAmpr(e: Event, data: int)
    requires IsAmpr(e) && Owned(e)
    ensures IsAmpr(Fired(e, data)) && BacklogOf(Fired(e, data)) == BacklogOf(e) + [data]
  {
    var one := [e.event.(data := data)];
    DataOfConcat(e.pending, one);
    assert one[1..] == [] && DataOf(one) == [data];
    if e.triggered {
      assert [e.event.data] + (DataOf(e.pending) + [data])
          == ([e.event.data] + DataOf(e.pending)) + [data];
    }
  }

  /** What may happen to key k in a run that does not delete it. */
  ghost predicate Allowed(op: Op, k: Key)
  {
    match op
    case Add(e) => Registration(e)
    case Delete(ident, filter) => Key(ident, filter) != k
    case _ => true
  }

  /** One operation, seen from an AMPR event: delivered and waiting are what waited plus its trigger. */
  lemma AmprStep(e: Event, op: Op, k: Key, left: nat)
    requires IsAmpr(e) && Owned(e) && Allowed(op, k) && k.filter != EVFILT_HRTIMER
    ensures var s := Seen(Some(e), op, k, left);
      && s.at.Some? && IsAmpr(s.at.value)
      && DataOf(s.out) + BacklogOf(s.at.value) == BacklogOf(e) + TriggerOf(op, k)
  {
    hide IsAmpr, BacklogOf, Owned, Drain, Updated, Fired;
    match op
    case Add(again) =>
      if KeyOf(again.event) == k {
        UpdatedAmpr(e, again);
      }
    case Trigger(_, _, data) => FiredAmpr(e, data);
    case Delete(_, _) =>
    case Get(_, now) =>
      AmprNeverExpires(e, now);
      if left > 0 {
        DrainAmpr(e, left);
      }
  }

  lemma AmprNeverExpires(e: Event, now: nat)
    requires IsAmpr(e)
    ensures Expire(e, now) == e
  {
  }

  /**
   Over any run in which an AMPR key is not deleted, what was delivered for it followed by what
   still waits is what waited at the start followed by what was triggered: nothing is lost, repeated
   or reordered.
   */
  lemma {:induction false} NothingLost(events: seq<Event>, ops: seq<Op>, k: Key)
    requires QueueInv(events) && AmprAt(events, k) && k.filter != EVFILT_HRTIMER
    requires forall op :: op in ops ==> Allowed(op, k)
    ensures QueueInv(Final(events, ops)) && AmprAt(Final(events, ops), k)
    ensures DataOf(DeliveredFor(events, ops, k)) + Backlog(Final(events, ops), k)
         == Backlog(events, k) + TriggeredFor(ops, k)
    decreases |ops|
  {
    if ops != [] {
      hide After, Output, QueueInv, IsAmpr, BacklogOf, Allowed, TriggerOf, Seen;
      assert ops[0] in ops;
      var op, rest := ops[0], ops[1..];
      AllowedFacts(op, k);
      var left := OneKey(events, op, k);
      var next := After(events, op);
      assert Owned(EventAt(events, k).value) by { hide *; OwnedAt(events, k); }
      AmprStep(EventAt(events, k).value, op, k, left);
      NothingLost(next, rest, k);
      var out, later := OutFor(Output(events, op), k), DeliveredFor(next, rest, k);
      DataOfConcat(out, later);
      Chain(DataOf(out), DataOf(later), Backlog(Final(events, ops), k), Backlog(events, k),
            Backlog(next, k), TriggerOf(op, k), TriggeredFor(rest, k));
    }
  }

  lemma OwnedAt(events: seq<Event>, k: Key)
    requires QueueInv(events) && HasKey(events, k)
    ensures Owned(EventAt(events, k).value)
  {
    EventAtOwned(events, k);
  }

  lemma AllowedFacts(op: Op, k: Key)
    requires Allowed(op, k)
    ensures op.Add? ==> op.e.pending == []
  {
  }

  /** Two steps of the delivery equation compose. */
  lemma Chain(now: seq<int>, later: seq<int>, left: seq<int>, waited: seq<int>, between: seq<int>,
              fired: seq<int>, firedLater: seq<int>)
    requires now + between == waited + fired && later + left == between + firedLater
    ensures (now + later) + left == waited + (fired + firedLater)
  {
    assert (now + later) + left == now + (later + left);
    assert now + (between + firedLater) == (now + between) + firedLater;
    assert (waited + fired) + firedLater == waited + (fired + firedLater);
  }

  /** A registration under a new key is the key's event. */
  lemma NewlyAdded(before: seq<Event>, e: Event)
    requires QueueInv(before) && !HasKey(before, KeyOf(e.event)) && e.pending == []
    ensures QueueInv(Added(before, e)) && EventAt(Added(before, e), KeyOf(e.event)) == Some(e)
  {
    AddAt(before, e, KeyOf(e.event));
  }

  /**
   An AMPR event is delivered exactly once per trigger, in trigger order, over every run that does
   not delete it: whatever is registered meanwhile under any key, its own included, and however the
   deliveries are cut.
   */
  lemma ExactlyOncePerTrigger(before: seq<Event>, id: nat, udata: int, ops: seq<Op>)
    requires QueueInv(before) && !HasKey(before, Key(id, EVFILT_USER))
    requires forall op :: op in ops ==> Allowed(op, Key(id, EVFILT_USER))
    ensures var k, start := Key(id, EVFILT_USER), Added(before, AmprEvent(id, udata));
      DataOf(DeliveredFor(start, ops, k)) + Backlog(Final(start, ops), k) == TriggeredFor(ops, k)
  {
    var k, start := Key(id, EVFILT_USER), Added(before, AmprEvent(id, udata));
    FlagBits();
    NewlyAdded(before, AmprEvent(id, udata));
    NothingLost(start, ops, k);
    assert [] + TriggeredFor(ops, k) == TriggeredFor(ops, k);
  }

  // ---------------------------------------------------------------- timers

  /** The operation is a delivery or concerns other keys only. */
  ghost predicate Untouched(op: Op, k: Key)
  {
    match op
    case Add(e) => e.pending == [] && KeyOf(e.event) != k
    case Trigger(ident, filter, _) => Key(ident, filter) != k
    case Delete(ident, filter) => Key(ident, filter) != k
    case Get(_, _) => true
  }

  /** An operation that leaves a one-shot event alone, marks it due, or delivers it and drops it. */
  lemma OneShotStep(e: Event, op: Op, k: Key, left: nat)
    requires OneShot(e) && Untouched(op, k)
    ensures var s := Seen(Some(e), op, k, left);
      || (s.out == [] && s.at == Some(if op.Get? then Expire(e, op.now) else e))
      || (s.out == [e.event] && s.at == None && op.Get? && Expire(e, op.now).triggered)
  {
  }

  /** Nothing is delivered for a key that is not there. */
  lemma {:induction false} NothingWithoutKey(events: seq<Event>, ops: seq<Op>, k: Key)
    requires QueueInv(events) && !HasKey(events, k)
    requires forall op :: op in ops ==> Untouched(op, k)
    ensures DeliveredFor(events, ops, k) == [] && !HasKey(Final(events, ops), k)
    decreases |ops|
  {
    if ops != [] {
      hide After, Output, QueueInv;
      assert ops[0] in ops;
      var left := OneKey(events, ops[0], k);
      NothingWithoutKey(After(events, ops[0]), ops[1..], k);
    }
  }

  /** One operation of the queue, seen from a one-shot event that only deliveries touch. */
  lemma OneShotQueueStep(events: seq<Event>, op: Op, k: Key)
    requires QueueInv(events) && HasKey(events, k) && OneShot(EventAt(events, k).value)
    requires Untouched(op, k)
    ensures QueueInv(After(events, op))
    ensures var e, out := EventAt(events, k).value, OutFor(Output(events, op), k);
      || (out == [e.event] && !HasKey(After(events, op), k) && op.Get? && Expire(e, op.now).triggered)
      || (out == [] && HasKey(After(events, op), k) && OneShot(EventAt(After(events, op), k).value)
          && EventAt(After(events, op), k).value == if op.Get? then Expire(e, op.now) else e)
  {
    hide After, Output, QueueInv, OneShot, Seen, OutFor;
    var e := EventAt(events, k).value;
    UntouchedFacts(op, k);
    var left := OneKey(events, op, k);
    OneShotStep(e, op, k, left);
    SameShot(e, if op.Get? then op.now else 0);
  }

  /**
   Over any run that touches the key with deliveries only, a one-shot event is delivered once when
   it has left the list and not at all while it is there.
   */
  lemma {:induction false} OneShotRun(events: seq<Event>, ops: seq<Op>, k: Key)
    requires QueueInv(events) && HasKey(events, k) && OneShot(EventAt(events, k).value)
    requires forall op :: op in ops ==> Untouched(op, k)
    ensures DeliveredFor(events, ops, k) ==
      if HasKey(Final(events, ops), k) then [] else [EventAt(events, k).value.event]
    decreases |ops|
  {
    if ops != [] {
      hide After, Output, QueueInv, OneShot, Untouched, HasKey, OutFor, EventAt;
      assert ops[0] in ops;
      OneShotQueueStep(events, ops[0], k);
      if HasKey(After(events, ops[0]), k) {
        OneShotRun(After(events, ops[0]), ops[1..], k);
      } else {
        NothingWithoutKey(After(events, ops[0]), ops[1..], k);
        var delivered := [EventAt(events, k).value.event];
        assert delivered + [] == delivered;
      }
    }
  }

  /** It is not delivered by deliveries that all come before its deadline. */
  lemma {:induction false} NotBeforeDeadline(events: seq<Event>, ops: seq<Op>, k: Key)
    requires QueueInv(events) && HasKey(events, k) && OneShot(EventAt(events, k).value)
    requires !EventAt(events, k).value.triggered
    requires forall op :: op in ops ==> Untouched(op, k)
    requires forall op :: op in ops && op.Get? ==> op.now < EventAt(events, k).value.deadline
    ensures HasKey(Final(events, ops), k)
    decreases |ops|
  {
    if ops != [] {
      hide After, Output, QueueInv, OneShot, Untouched, HasKey, OutFor, EventAt;
      assert ops[0] in ops;
      OneShotQueueStep(events, ops[0], k);
      NotBeforeDeadline(After(events, ops[0]), ops[1..], k);
    }
  }

  lemma UntouchedFacts(op: Op, k: Key)
    requires Untouched(op, k)
    ensures op.Add? ==> op.e.pending == []
  {
  }

  lemma SameShot(e: Event, now: nat)
    ensures OneShot(Expire(e, now)) == OneShot(e)
  {
  }

  /**
   A timer, registered under a new key and left alone from then on: it is delivered at most once,
   just as registered, and has been delivered exactly when its key has left the list; and never by
   deliveries that all come before its deadline.
   */
  lemma TimerFiresOnce(before: seq<Event>, id: nat, seconds: int, nanos: int, now: nat, udata: int,
                       ops: seq<Op>)
    requires QueueInv(before) && !HasKey(before, Key(id, EVFILT_HRTIMER))
    requires HRTimerEvent(id, seconds, nanos, now, udata).Done?
    requires forall op :: op in ops ==> Untouched(op, Key(id, EVFILT_HRTIMER))
    ensures var k, e := Key(id, EVFILT_HRTIMER), HRTimerEvent(id, seconds, nanos, now, udata).value;
      var start := Added(before, e);
      && DeliveredFor(start, ops, k) == (if HasKey(Final(start, ops), k) then [] else [e.event])
      && ((forall op :: op in ops && op.Get? ==> op.now < e.deadline) ==> HasKey(Final(start, ops), k))
  {
    var k, e := Key(id, EVFILT_HRTIMER), HRTimerEvent(id, seconds, nanos, now, udata).value;
    OwnRegistrations(id, udata, seconds, nanos, now);
    NewlyAdded(before, e);
    OneShotRun(Added(before, e), ops, k);
    if forall op :: op in ops && op.Get? ==> op.now < e.deadline {
      NotBeforeDeadline(Added(before, e), ops, k);
    }
  }

  /**
   A delivery at or after its deadline that does not fill every slot delivers the timer, whatever
   else waits. Deadline 0 stands for none.
   */
  lemma DueTimerIsDelivered(events: seq<Event>, k: Key, num: nat, now: nat)
    requires QueueInv(events) && HasKey(events, k) && OneShot(EventAt(events, k).value)
    requires 0 < EventAt(events, k).value.deadline <= now
    requires |Output(events, Get(num, now))| < num
    ensures OutFor(Output(events, Get(num, now)), k) == [EventAt(events, k).value.event]
    ensures !HasKey(After(events, Get(num, now)), k)
  {
    var get, e := Get(num, now), EventAt(events, k).value;
    var left := OneKey(events, get, k);
    OneShotStep(e, get, k, left);
    assert Expire(e, now).triggered;
    if HasKey(After(events, get), k) {
      ExpireAt(events, now, k);
      UnfilledDrainsAll(ExpireAll(events, now), num, k);
      assert false;
    }
  }

  // ---------------------------------------------------------------- user events

  /** A level-triggered event fills every free slot with the same occurrence and stays. */
  lemma {:induction false} LevelDrain(e: Event, room: nat)
    requires room > 0 && e.triggered && e.pending == [] && !OneShot(e) && !ClearsItself(e)
    ensures Drain(e, room) == Drained(seq(room, _ => e.event), e, false)
    decreases room
  {
    hide OneShot, ClearsItself;
    if room > 1 {
      LevelDrain(e, room - 1);
      assert [e.event] + seq(room - 1, _ => e.event) == seq(room, _ => e.event);
    } else {
      assert [e.event] == seq(1, _ => e.event);
    }
  }

  /** KernelAddUserEvent's event once it is triggered: data and user data are the trigger's. */
  function LevelFired(id: nat, data: int): Event
  {
    Event(true, 0, KernelEvent(id, EVFILT_USER, EV_ADD, 0, data, data), UserTrigger, UserReset, [])
  }

  /** Registering and triggering a level event makes it so. */
  lemma LevelTriggered(before: seq<Event>, id: nat, data: int)
    requires QueueInv(before) && !HasKey(before, Key(id, EVFILT_USER))
    ensures var k, start := Key(id, EVFILT_USER), Added(before, UserEvent(id));
      EventAt(After(start, Trigger(id, EVFILT_USER, data)), k) == Some(LevelFired(id, data))
  {
    NewlyAdded(before, UserEvent(id));
    TriggerAt(Added(before, UserEvent(id)), Key(id, EVFILT_USER), data, Key(id, EVFILT_USER));
  }

  /** Every delivery of the run fills all its slots. */
  ghost predicate AlwaysFilled(events: seq<Event>, ops: seq<Op>)
    decreases |ops|
  {
    ops == []
    || ((ops[0].Get? ==> |Output(events, ops[0])| == ops[0].num)
        && AlwaysFilled(After(events, ops[0]), ops[1..]))
  }

  /**
   A triggered level event stays triggered over any run that touches its key with deliveries only,
   whatever it delivers is its one occurrence, and every delivery fills every slot it has.
   */
  lemma {:induction false} LevelEventRefills(events: seq<Event>, id: nat, data: int, ops: seq<Op>)
    requires QueueInv(events)
    requires EventAt(events, Key(id, EVFILT_USER)) == Some(LevelFired(id, data))
    requires forall op :: op in ops ==> Untouched(op, Key(id, EVFILT_USER))
    ensures var k := Key(id, EVFILT_USER);
      && EventAt(Final(events, ops), k) == Some(LevelFired(id, data))
      && forall o :: o in DeliveredFor(events, ops, k) ==> o == LevelFired(id, data).event
    ensures AlwaysFilled(events, ops)
    decreases |ops|
  {
    if ops != [] {
      hide After, QueueInv, LevelFired, Untouched;
      var k, op := Key(id, EVFILT_USER), ops[0];
      assert ops[0] in ops;
      UntouchedFacts(op, k);
      var left := OneKey(events, op, k);
      LevelStep(id, data, op, left);
      if op.Get? {
        LevelFills(events, id, data, op.num, op.now);
      }
      LevelEventRefills(After(events, op), id, data, ops[1..]);
    }
  }

  lemma LevelStep(id: nat, data: int, op: Op, left: nat)
    requires Untouched(op, Key(id, EVFILT_USER))
    ensures var s := Seen(Some(LevelFired(id, data)), op, Key(id, EVFILT_USER), left);
      && s.at == Some(LevelFired(id, data))
      && s.out == seq(if op.Get? then left else 0, _ => LevelFired(id, data).event)
  {
    FlagBits();
    if left > 0 {
      LevelDrain(LevelFired(id, data), left);
    }
  }

  lemma LevelFills(events: seq<Event>, id: nat, data: int, num: nat, now: nat)
    requires QueueInv(events)
    requires EventAt(events, Key(id, EVFILT_USER)) == Some(LevelFired(id, data))
    ensures |Output(events, Get(num, now))| == num
  {
    var k, get := Key(id, EVFILT_USER), Get(num, now);
    var left := OneKey(events, get, k);
    LevelStep(id, data, get, left);
    ExpireAt(events, now, k);
    if |Output(events, get)| < num {
      UnfilledDrainsAll(ExpireAll(events, now), num, k);
    }
  }

  /** Still what KernelAddUserEventEdge registered. */
  ghost predicate IsEdge(e: Event)
  {
    && e.trigger == UserTrigger && e.deadline == 0 && e.pending == []
    && !OneShot(e) && ClearsItself(e)
  }

  /** One operation, seen from an edge event: a trigger replaces what waits, a delivery hands it out. */
  lemma EdgeStep(e: Event, op: Op, k: Key, left: nat)
    requires IsEdge(e) && Allowed(op, k) && k.filter != EVFILT_HRTIMER
    ensures var s := Seen(Some(e), op, k, left);
      && s.at.Some? && IsEdge(s.at.value)
      && (if TriggerOf(op, k) == [] then DataOf(s.out) + BacklogOf(s.at.value) == BacklogOf(e)
          else s.out == [] && BacklogOf(s.at.value) == TriggerOf(op, k))
  {
    match op
    case Add(again) =>
    case Trigger(_, _, data) => assert DataOf([]) == [];
    case Delete(_, _) =>
    case Get(_, now) =>
      assert Expire(e, now) == e;
      if left > 0 {
        EdgeDrain(e, left);
      }
  }

  lemma EdgeDrain(e: Event, room: nat)
    requires IsEdge(e) && room > 0
    ensures var d := Drain(e, room);
      !d.erase && IsEdge(d.event) && DataOf(d.out) + BacklogOf(d.event) == BacklogOf(e)
  {
    DrainUnfolds(e, room);
    if e.triggered {
      var next := AfterDelivery(e);
      assert !next.triggered && next == Quiet(e);
      var one := [e.event];
      assert one[1..] == [] && DataOf(one) == [e.event.data];
      assert one + [] == one;
      if room > 1 {
        DrainUnfolds(next, room - 1);
      }
    }
  }

  /** The last of a nonempty list. */
  function Last(s: seq<int>): int
    requires s != []
  {
    s[|s| - 1]
  }

  /**
   Triggers of an edge event coalesce: over any run that does not delete it, at most one occurrence
   comes of each trigger, none comes of nothing, and the last trigger is the last one delivered or
   waiting.
   */
  lemma {:induction false} EdgeRun(events: seq<Event>, ops: seq<Op>, k: Key)
    requires QueueInv(events) && HasKey(events, k) && IsEdge(EventAt(events, k).value)
    requires k.filter != EVFILT_HRTIMER && forall op :: op in ops ==> Allowed(op, k)
    ensures HasKey(Final(events, ops), k) && IsEdge(EventAt(Final(events, ops), k).value)
    ensures var all := DataOf(DeliveredFor(events, ops, k)) + Backlog(Final(events, ops), k);
      var fired := TriggeredFor(ops, k);
      Coalesced(all, Backlog(events, k), fired)
    decreases |ops|
  {
    if ops != [] {
      hide After, Output, QueueInv, IsEdge, BacklogOf, Allowed, Seen, Coalesced, TriggerOf;
      assert ops[0] in ops;
      var op, rest := ops[0], ops[1..];
      AllowedFacts(op, k);
      var left := OneKey(events, op, k);
      assert DataOf([]) == [];
      EdgeStep(EventAt(events, k).value, op, k, left);
      EdgeRun(After(events, op), rest, k);
      var out, later := OutFor(Output(events, op), k), DeliveredFor(After(events, op), rest, k);
      DataOfConcat(out, later);
      EdgeChain(DataOf(out), DataOf(later), Backlog(Final(events, ops), k), Backlog(events, k),
                Backlog(After(events, op), k), TriggerOf(op, k), TriggeredFor(rest, k));
    }
  }

  /** What is delivered or waiting in the end, given what was waiting and what was triggered. */
  ghost predicate Coalesced(all: seq<int>, waited: seq<int>, fired: seq<int>)
  {
    if fired == [] then all == waited
    else 0 < |all| <= |waited| + |fired| && Last(all) == Last(fired)
  }

  lemma EdgeChain(now: seq<int>, later: seq<int>, left: seq<int>, waited: seq<int>,
                  between: seq<int>, fired: seq<int>, firedLater: seq<int>)
    requires if fired == [] then now + between == waited else now == [] && between == fired
    requires Coalesced(later + left, between, firedLater)
    ensures Coalesced((now + later) + left, waited, fired + firedLater)
  {
    assert (now + later) + left == now + (later + left);
    if fired == [] {
      assert fired + firedLater == firedLater;
    } else if firedLater == [] {
      assert fired + firedLater == fired;
      assert [] + fired == fired;
    }
  }

  /** From its registration on, an edge event delivers no more often than it is triggered. */
  lemma EdgeEventCoalesces(before: seq<Event>, id: nat, ops: seq<Op>)
    requires QueueInv(before) && !HasKey(before, Key(id, EVFILT_USER))
    requires forall op :: op in ops ==> Allowed(op, Key(id, EVFILT_USER))
    ensures var k, start := Key(id, EVFILT_USER), Added(before, UserEventEdge(id));
      var all := DataOf(DeliveredFor(start, ops, k)) + Backlog(Final(start, ops), k);
      var fired := TriggeredFor(ops, k);
      && |all| <= |fired| && (fired != [] ==> all != [] && Last(all) == Last(fired))
  {
    FlagBits();
    NewlyAdded(before, UserEventEdge(id));
    EdgeRun(Added(before, UserEventEdge(id)), ops, Key(id, EVFILT_USER));
  }
}
