/**
 The registry of event flags: live objects with their open references, and the published names. An
 object is its handle; 0 is the null pointer. Where the memory of a new object comes from is a
 parameter: any handle that is not live, one that was used before included.
 */
module EventFlagRegistry {
  import opened Common

  datatype Error = Invalid | NoSuchFlag

  /** A live flag: its label and the references held on it. */
  datatype Entry = Entry(name: string, refs: int)

  datatype Registry = Registry(live: map<nat, Entry>, named: map<string, nat>)

  // ---------------------------------------------------------------- attributes

  /** The attribute word: queueing order, and whether one or many threads may wait. */
  datatype Attributes = Attributes(single: bool, fifo: bool)

  function ParseAttributes(attr: bv32): Option<Attributes>
  {
    if attr & !0x133 != 0 then None
    else
      var order := attr & 0x0f;
      var threads := attr & 0xf0;
      if order != 0x00 && order != 0x01 && order != 0x02 then None
      else if threads != 0x00 && threads != 0x10 && threads != 0x20 then None
      else Some(Attributes(threads != 0x20, order != 0x02))
  }

  /** Eighteen words are accepted; the bit 0x100 is ignored, and all but 0x20 means a single waiter. */
  lemma AcceptedAttributes(attr: bv32)
    ensures ParseAttributes(attr).Some? <==>
      attr in {0x000, 0x001, 0x002, 0x010, 0x011, 0x012, 0x020, 0x021, 0x022,
               0x100, 0x101, 0x102, 0x110, 0x111, 0x112, 0x120, 0x121, 0x122}
    ensures ParseAttributes(attr).Some? ==>
      && (ParseAttributes(attr).value.single <==> attr !in {0x020, 0x021, 0x022, 0x120, 0x121, 0x122})
      && (ParseAttributes(attr).value.fifo <==> attr !in {0x002, 0x012, 0x022, 0x102, 0x112, 0x122})
  {
    assert ParseAttributes(attr).Some? ==> attr & 0x133 == attr;
  }

  // ---------------------------------------------------------------- the operations on values

  /** Published names lead to live flags of that name; live flags are referenced and not null. */
  ghost predicate Inv(r: Registry)
  {
    && (forall n :: n in r.named ==> r.named[n] in r.live && r.live[r.named[n]].name == n)
    && (forall h :: h in r.live ==> h != 0 && r.live[h].refs > 0)
  }

  /** A second flag of the same label is live but not published. */
  function AfterCreate(r: Registry, name: string, h: nat): Registry
  {
    Registry(r.live[h := Entry(name, 1)], if name in r.named then r.named else r.named[name := h])
  }

  function AfterOpen(r: Registry, name: string): Registry
    requires Inv(r) && name in r.named
  {
    var h := r.named[name];
    r.(live := r.live[h := r.live[h].(refs := r.live[h].refs + 1)])
  }

  /** The flag is gone, and its name if it was the published one. */
  function Removed(r: Registry, h: nat): Registry
    requires h in r.live
  {
    var name := r.live[h].name;
    Registry(r.live - {h}, if name in r.named && r.named[name] == h then r.named - {name} else r.named)
  }

  function AfterClose(r: Registry, h: nat): Registry
    requires h in r.live
  {
    var left := r.live[h].refs - 1;
    if left == 0 then Removed(r, h) else r.(live := r.live[h := r.live[h].(refs := left)])
  }

  // ---------------------------------------------------------------- runs

  datatype Op =
    | Create(name: string, handle: nat)
    | Open(name: string)
    | Close(handle: nat)
    | Delete(handle: nat)

  /** New objects get memory that is not in use. */
  predicate Possible(r: Registry, op: Op)
  {
    op.Create? ==> op.handle != 0 && op.handle !in r.live
  }

  function Apply(r: Registry, op: Op): Registry
    requires Inv(r) && Possible(r, op)
  {
    match op
    case Create(name, h) => AfterCreate(r, name, h)
    case Open(name) => if name in r.named then AfterOpen(r, name) else r
    case Close(h) => if h in r.live then AfterClose(r, h) else r
    case Delete(h) => if h in r.live then Removed(r, h) else r
  }

  lemma ApplyInv(r: Registry, op: Op)
    requires Inv(r) && Possible(r, op)
    ensures Inv(Apply(r, op))
  {
    var s := Apply(r, op);
    forall n | n in s.named ensures s.named[n] in s.live && s.live[s.named[n]].name == n {
      if op.Create? && n == op.name && n !in r.named {
        assert s.named[n] == op.handle;
      } else {
        assert n in r.named && s.named[n] == r.named[n];
      }
    }
  }

  ghost predicate Run(r: Registry, ops: seq<Op>, end: Registry)
    decreases |ops|
  {
    if ops == [] then end == r else Inv(r) && Possible(r, ops[0]) && Run(Apply(r, ops[0]), ops[1..], end)
  }

  /** References held on a handle. */
  function Held(r: Registry, h: nat): int
  {
    if h in r.live then r.live[h].refs else 0
  }

  /** What a call adds to or takes from the references of a handle; deleting it takes them all. */
  function Gain(r: Registry, op: Op, h: nat): int
  {
    match op
    case Create(_, k) => if k == h then 1 else 0
    case Open(name) => if name in r.named && r.named[name] == h then 1 else 0
    case Close(k) => if k == h && h in r.live then -1 else 0
    case Delete(k) => if k == h then -Held(r, h) else 0
  }

  function Gains(r: Registry, ops: seq<Op>, h: nat, end: Registry): int
    requires Inv(r) && Run(r, ops, end)
    decreases |ops|
  {
    if ops == [] then 0
    else
      ApplyInv(r, ops[0]);
      Gain(r, ops[0], h) + Gains(Apply(r, ops[0]), ops[1..], h, end)
  }

  /** In every run the references of a flag are its creations and opens less its closes, and none after deleting it. */
  lemma {:induction false} ReferencesBalance(r: Registry, ops: seq<Op>, h: nat, end: Registry)
    requires Inv(r) && Run(r, ops, end)
    ensures Inv(end) && Held(end, h) == Held(r, h) + Gains(r, ops, h, end)
    ensures h in end.live <==> Held(r, h) + Gains(r, ops, h, end) > 0
    decreases |ops|
  {
    if ops != [] {
      ApplyInv(r, ops[0]);
      HeldStep(r, ops[0], h);
      ReferencesBalance(Apply(r, ops[0]), ops[1..], h, end);
    }
  }

  lemma HeldStep(r: Registry, op: Op, h: nat)
    requires Inv(r) && Possible(r, op)
    ensures Held(Apply(r, op), h) == Held(r, h) + Gain(r, op, h)
  {
  }

  /** While the flag a name leads to is live, the name leads to it, whatever else is created under it. */
  lemma {:induction false} NameKeepsItsFlag(r: Registry, ops: seq<Op>, name: string, end: Registry)
    requires Inv(r) && Run(r, ops, end) && name in r.named
    requires StaysLive(r, ops, r.named[name], end)
    ensures name in end.named && end.named[name] == r.named[name]
    decreases |ops|
  {
    if ops != [] {
      ApplyInv(r, ops[0]);
      NameKeepsItsFlag(Apply(r, ops[0]), ops[1..], name, end);
    }
  }

  ghost predicate StaysLive(r: Registry, ops: seq<Op>, h: nat, end: Registry)
    requires Run(r, ops, end)
    decreases |ops|
  {
    h in r.live && (ops != [] ==> StaysLive(Apply(r, ops[0]), ops[1..], h, end))
  }

  // ---------------------------------------------------------------- labels without a name

  /** The label of every live flag leads to some flag. */
  ghost predicate Published(r: Registry)
  {
    forall h :: h in r.live ==> r.live[h].name in r.named
  }

  /** The call ends the life of h: its last reference is closed, or it is deleted. */
  predicate Ends(r: Registry, op: Op, h: nat)
  {
    h in r.live && (op == Delete(h) || (op == Close(h) && r.live[h].refs == 1))
  }

  /** The label of h leads to h, and the other flag has the same label. */
  predicate Shadows(r: Registry, h: nat, other: nat)
  {
    && h in r.live && r.live[h].name in r.named && r.named[r.live[h].name] == h
    && other != h && other in r.live && r.live[other].name == r.live[h].name
  }

  /** The call ends the flag a name leads to while another live flag has the same label. */
  ghost predicate Orphans(r: Registry, op: Op)
  {
    exists h, other :: Ends(r, op, h) && Shadows(r, h, other)
  }

  /** One call leaves every label published exactly unless it orphans a flag. */
  lemma PublishedStep(r: Registry, op: Op)
    requires Inv(r) && Possible(r, op) && Published(r)
    ensures Published(Apply(r, op)) <==> !Orphans(r, op)
  {
    hide Apply, Published, Ends, Shadows, Inv;
    if Orphans(r, op) {
      var h, other :| Ends(r, op, h) && Shadows(r, h, other);
      OrphanUnpublished(r, op, h, other);
    } else if !Published(Apply(r, op)) {
      var h, other := UnpublishedOrphan(r, op);
    }
  }

  lemma OrphanUnpublished(r: Registry, op: Op, h: nat, other: nat)
    requires Inv(r) && Possible(r, op) && Ends(r, op, h) && Shadows(r, h, other)
    ensures !Published(Apply(r, op))
  {
    var s := Apply(r, op);
    assert s == Removed(r, h);
    assert other in s.live && s.live[other].name !in s.named;
  }

  lemma UnpublishedOrphan(r: Registry, op: Op) returns (h: nat, other: nat)
    requires Inv(r) && Possible(r, op) && Published(r) && !Published(Apply(r, op))
    ensures Ends(r, op, h) && Shadows(r, h, other)
  {
    var s := Apply(r, op);
    other :| other in s.live && s.live[other].name !in s.named;
    assert op.Close? || op.Delete?;
    h := op.handle;
  }

  ghost predicate AlwaysPublished(r: Registry, ops: seq<Op>, end: Registry)
    requires Run(r, ops, end)
    decreases |ops|
  {
    Published(r) && (ops != [] ==> AlwaysPublished(Apply(r, ops[0]), ops[1..], end))
  }

  ghost predicate NeverOrphans(r: Registry, ops: seq<Op>, end: Registry)
    requires Run(r, ops, end)
    decreases |ops|
  {
    ops != [] ==> !Orphans(r, ops[0]) && NeverOrphans(Apply(r, ops[0]), ops[1..], end)
  }

  /** Over a run the label of every live flag always leads to some flag exactly when no call orphans one. */
  lemma {:induction false} PublishedRun(r: Registry, ops: seq<Op>, end: Registry)
    requires Inv(r) && Run(r, ops, end) && Published(r)
    ensures AlwaysPublished(r, ops, end) <==> NeverOrphans(r, ops, end)
    decreases |ops|
  {
    if ops != [] {
      hide Published, Orphans;
      ApplyInv(r, ops[0]);
      PublishedStep(r, ops[0]);
      if Published(Apply(r, ops[0])) {
        PublishedRun(Apply(r, ops[0]), ops[1..], end);
      } else {
        assert !AlwaysPublished(Apply(r, ops[0]), ops[1..], end);
      }
    }
  }

  /** Two flags of one label: closing the first leaves the second live with no name leading anywhere. */
  lemma NameIsNotInherited(r: Registry, name: string, first: nat, second: nat)
    requires Inv(r) && name !in r.named && first != 0 && second != 0 && first != second
    requires first !in r.live && second !in r.live
    ensures var both := AfterCreate(AfterCreate(r, name, first), name, second);
            && Shadows(both, first, second) && Orphans(both, Close(first))
            && both.named[name] == first
            && name !in AfterClose(both, first).named && second in AfterClose(both, first).live
            && AfterClose(both, first).live[second].name == name
  {
    var both := AfterCreate(AfterCreate(r, name, first), name, second);
    assert Ends(both, Close(first), first) && Shadows(both, first, second);
  }

  // ---------------------------------------------------------------- the registry

  class EventFlags {
    var live: map<nat, Entry>
    var named: map<string, nat>

    function State(): Registry
      reads this
    {
      Registry(live, named)
    }

    constructor ()
      ensures State() == Registry(map[], map[]) && Inv(State())
    {
      live, named := map[], map[];
    }

    method Create(name: Option<string>, attr: bv32, noParam: bool, handle: nat) returns (out: Option<Error>)
      requires Inv(State()) && handle != 0 && handle !in live
      modifies this
      ensures Inv(State())
      ensures out == None <==> name.Some? && noParam && ParseAttributes(attr).Some?
      ensures out != None ==> out == Some(Invalid) && State() == old(State())
      ensures out == None ==> State() == AfterCreate(old(State()), name.value, handle)
    {
      hide ParseAttributes;
      if name.None? {
        return Some(Invalid);
      }
      if !noParam || ParseAttributes(attr).None? {
        return Some(Invalid);
      }
      ApplyInv(State(), Op.Create(name.value, handle));
      live := live[handle := Entry(name.value, 1)];
      if name.value !in named {
        named := named[name.value := handle];
      }
      return None;
    }

    method Open(name: Option<string>) returns (out: Option<Error>, handle: nat)
      requires Inv(State())
      modifies this
      ensures Inv(State())
      ensures out == None <==> name.Some? && name.value in old(named)
      ensures out == None ==>
        && handle == old(named)[name.value] && handle in live && live[handle].name == name.value
        && State() == AfterOpen(old(State()), name.value)
      ensures out != None ==> State() == old(State()) && out == Some(if name.None? then Invalid else NoSuchFlag)
    {
      if name.None? {
        return Some(Invalid), 0;
      }
      if name.value !in named {
        return Some(NoSuchFlag), 0;
      }
      ApplyInv(State(), Op.Open(name.value));
      handle := named[name.value];
      live := live[handle := live[handle].(refs := live[handle].refs + 1)];
      return None, handle;
    }

    method RemovePublishedName(handle: nat)
      requires handle in live
      modifies this`named
      ensures named == Removed(old(State()), handle).named
    {
      var name := live[handle].name;
      if name in named && named[name] == handle {
        named := named - {name};
      }
    }

    /** destroyed: the object is deleted, outside the lock. */
    method Close(handle: nat) returns (out: Option<Error>, destroyed: bool)
      requires Inv(State())
      modifies this
      ensures Inv(State())
      ensures out == (if handle in old(live) then None else Some(NoSuchFlag))
      ensures State() == if out == None then AfterClose(old(State()), handle) else old(State())
      ensures destroyed <==> handle in old(live) && handle !in live
    {
      if handle == 0 || handle !in live {
        return Some(NoSuchFlag), false;
      }
      ApplyInv(State(), Op.Close(handle));
      var left := live[handle].refs - 1;
      destroyed := left == 0;
      if destroyed {
        RemovePublishedName(handle);
        live := live - {handle};
      } else {
        live := live[handle := live[handle].(refs := left)];
      }
      return None, destroyed;
    }

    method Delete(handle: nat) returns (out: Option<Error>)
      requires Inv(State())
      modifies this
      ensures Inv(State()) && handle !in live
      ensures out == (if handle in old(live) then None else Some(NoSuchFlag))
      ensures State() == if out == None then Removed(old(State()), handle) else old(State())
    {
      if handle == 0 || handle !in live {
        return Some(NoSuchFlag);
      }
      ApplyInv(State(), Op.Delete(handle));
      RemovePublishedName(handle);
      live := live - {handle};
      return None;
    }
  }
}
