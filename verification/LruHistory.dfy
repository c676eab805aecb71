/**
 What a run of the cache leaves, told by the calls made so far and nothing else: which ids are in
 use, the tick of each, the order of the list, the ids handed out, and what a traversal visits.
 */
module LruHistory {
  import opened Common
  import opened LruCache

  // ---------------------------------------------------------------- what the calls say

  /** A call as its caller sees it: an insertion with the id it returned, a touch, a release. */
  datatype Call = Inserted(id: nat, tick: int) | Touched(id: nat, tick: int) | Freed(id: nat)

  /** The largest tick supplied for the id since it was last inserted; none unless it is in use. */
  function Largest(h: seq<Call>, id: nat): Option<int>
  {
    if h == [] then None
    else
      var before, c := Largest(h[..|h| - 1], id), h[|h| - 1];
      if c.id != id then before
      else
        match c
        case Inserted(_, tick) => Some(tick)
        case Touched(_, tick) =>
          if before.Some? && before.value < tick then Some(tick) else before
        case Freed(_) => None
  }

  /** The last call that made the id the most recent one: its insertion, or a touch with a new tick. */
  function Stamp(h: seq<Call>, id: nat): (n: int)
    ensures -1 <= n < |h|
  {
    if h == [] then -1
    else
      var init, c := h[..|h| - 1], h[|h| - 1];
      if c.id == id && (c.Inserted? || (c.Touched? && Largest(init, id).Some?
                                        && c.tick > Largest(init, id).value)) then |init|
      else Stamp(init, id)
  }

  /** The last release of the id. */
  function FreedAt(h: seq<Call>, id: nat): (n: int)
    ensures -1 <= n < |h|
  {
    if h == [] then -1
    else if h[|h| - 1] == Freed(id) then |h| - 1
    else FreedAt(h[..|h| - 1], id)
  }

  predicate Known(h: seq<Call>, id: nat)
  {
    exists i :: 0 <= i < |h| && h[i].Inserted? && h[i].id == id
  }

  /** Call k inserted the id, which has been neither released nor inserted since. */
  predicate InUseSince(h: seq<Call>, id: nat, k: nat)
  {
    k < |h| && h[k].Inserted? && h[k].id == id
    && forall j :: k < j < |h| && h[j].id == id ==> h[j].Touched?
  }

  /** The ticks supplied for the id from call k on are at most m, and one of them is m. */
  predicate LargestSince(h: seq<Call>, id: nat, k: nat, m: int)
  {
    && (forall j :: k <= j < |h| && h[j].id == id && !h[j].Freed? ==> h[j].tick <= m)
    && (exists j :: k <= j < |h| && h[j].id == id && !h[j].Freed? && h[j].tick == m)
  }

  /** What Largest means: the largest tick since the insertion that is still in force. */
  lemma {:induction false} LargestIs(h: seq<Call>, id: nat) returns (k: nat)
    ensures Largest(h, id).Some? ==>
      InUseSince(h, id, k) && LargestSince(h, id, k, Largest(h, id).value)
    ensures Largest(h, id).None? ==> forall i :: !InUseSince(h, id, i)
  {
    k := 0;
    if h != [] {
      var n, init, c := |h| - 1, h[..|h| - 1], h[|h| - 1];
      k := LargestIs(init, id);
      if c.id == id && c.Inserted? {
        k := n;
      } else if Largest(h, id).Some? {
        assert InUseSince(init, id, k);
        var j :| k <= j < n && init[j].id == id && !init[j].Freed? && init[j].tick == Largest(init, id).value;
        assert h[j] == init[j];
        if c.id == id && c.tick > Largest(init, id).value {
          assert h[n].tick == Largest(h, id).value;
        }
      } else {
        forall i ensures !InUseSince(h, id, i) {
          UsedBefore(h, id, i);
        }
      }
    }
  }

  lemma UsedBefore(h: seq<Call>, id: nat, i: nat)
    requires h != []
    ensures var n := |h| - 1;
      InUseSince(h, id, i) <==>
        if i == n then h[n].Inserted? && h[n].id == id
        else InUseSince(h[..n], id, i) && (h[n].id == id ==> h[n].Touched?)
  {
  }

  // ---------------------------------------------------------------- runs

  function OpOf(c: Call): Op
  {
    match c
    case Inserted(_, tick) => Insert(tick)
    case Touched(id, tick) => Touch(id, tick)
    case Freed(id) => Free(id)
  }

  /** The call, made on a live id or answered with the new one, leads from l to m. */
  ghost predicate Step(l: Lru, c: Call, m: Lru)
  {
    && Good(l) && Legal(l, OpOf(c)) && m == Apply(l, OpOf(c)) && (c.Inserted? ==> c.id == NewId(l))
  }

  /** The calls, one after another from the empty cache. */
  ghost predicate History(states: seq<Lru>, h: seq<Call>)
  {
    && |states| == |h| + 1 && states[0] == EMPTY
    && forall i :: 0 <= i < |h| ==> Step(states[i], h[i], states[i + 1])
  }

  /** The state is the one the calls tell. */
  ghost predicate Told(l: Lru, h: seq<Call>)
  {
    Good(l) && TicksTold(l, h) && OrderTold(l, h) && FreeTold(l, h)
  }

  ghost predicate TicksTold(l: Lru, h: seq<Call>)
    requires Good(l)
  {
    && (forall id: nat :: Live(l, id) <==> Largest(h, id).Some?)
    && (forall id: nat :: Live(l, id) ==> id < |l.ticks| && l.ticks[id] == Largest(h, id).value)
  }

  ghost predicate OrderTold(l: Lru, h: seq<Call>)
  {
    forall i, j :: 0 <= i < j < |l.order| ==> Stamp(h, l.order[i]) < Stamp(h, l.order[j])
  }

  ghost predicate FreeTold(l: Lru, h: seq<Call>)
  {
    && (forall i, j :: 0 <= i < j < |l.free| ==> FreedAt(h, l.free[i]) < FreedAt(h, l.free[j]))
    && (forall id: nat :: id < |l.ticks| <==> Known(h, id))
  }

  /** What one more call adds to the tale. */
  lemma OneMore(h: seq<Call>, c: Call, id: nat)
    ensures Largest(h + [c], id) ==
      if c.id != id then Largest(h, id)
      else
        match c
        case Inserted(_, tick) => Some(tick)
        case Touched(_, tick) =>
          if Largest(h, id).Some? && Largest(h, id).value < tick then Some(tick) else Largest(h, id)
        case Freed(_) => None
    ensures Stamp(h + [c], id) ==
      if c.id == id && (c.Inserted? || (c.Touched? && Largest(h, id).Some? && c.tick > Largest(h, id).value))
      then |h| else Stamp(h, id)
    ensures FreedAt(h + [c], id) == if c == Freed(id) then |h| else FreedAt(h, id)
    ensures Known(h + [c], id) <==> Known(h, id) || (c.Inserted? && c.id == id)
  {
    assert (h + [c])[..|h|] == h;
    if Known(h, id) {
      var i :| 0 <= i < |h| && h[i].Inserted? && h[i].id == id;
      assert (h + [c])[i] == h[i];
    }
    if c.Inserted? && c.id == id {
      assert (h + [c])[|h|] == c;
    }
  }

  lemma InsertTold(l: Lru, h: seq<Call>, tick: int)
    requires Told(l, h)
    ensures Told(AfterInsert(l, tick), h + [Inserted(NewId(l), tick)])
  {
    hide TicksTold, OrderTold, FreeTold, Good;
    InsertGood(l, tick);
    InsertedTicks(l, h, tick);
    InsertedOrder(l, h, tick);
    InsertedFree(l, h, tick);
  }

  lemma InsertedTicks(l: Lru, h: seq<Call>, tick: int)
    requires Good(l) && TicksTold(l, h)
    ensures Good(AfterInsert(l, tick))
    ensures TicksTold(AfterInsert(l, tick), h + [Inserted(NewId(l), tick)])
  {
    var c, m := Inserted(NewId(l), tick), AfterInsert(l, tick);
    InsertGood(l, tick);
    GoodInside(l);
    hide Good, Largest;
    forall x: nat ensures Largest(h + [c], x) == if x == c.id then Some(tick) else Largest(h, x) {
      OneMore(h, c, x);
    }
    assert forall x: nat :: Live(m, x) <==> Live(l, x) || x == c.id;
  }

  lemma InsertedOrder(l: Lru, h: seq<Call>, tick: int)
    requires Good(l) && OrderTold(l, h)
    ensures OrderTold(AfterInsert(l, tick), h + [Inserted(NewId(l), tick)])
  {
    var c, m := Inserted(NewId(l), tick), AfterInsert(l, tick);
    InsertGood(l, tick);
    hide Good, Stamp;
    forall x: nat ensures Stamp(h + [c], x) == if x == c.id then |h| else Stamp(h, x) {
      OneMore(h, c, x);
    }
    assert m.order == l.order + [c.id];
    forall i, j | 0 <= i < j < |m.order|
      ensures Stamp(h + [c], m.order[i]) < Stamp(h + [c], m.order[j])
    {
      assert m.order[i] == l.order[i] && Live(l, l.order[i]);
      StampBound(h, l.order[i]);
    }
  }

  lemma InsertedFree(l: Lru, h: seq<Call>, tick: int)
    requires Good(l) && FreeTold(l, h)
    ensures FreeTold(AfterInsert(l, tick), h + [Inserted(NewId(l), tick)])
  {
    var c := Inserted(NewId(l), tick);
    GoodInside(l);
    hide Good, FreedAt, Known;
    forall x: nat
      ensures FreedAt(h + [c], x) == FreedAt(h, x)
      ensures Known(h + [c], x) <==> Known(h, x) || x == c.id
    {
      OneMore(h, c, x);
    }
  }

  /** Without one id the rest keeps its order. */
  lemma RestTold(l: Lru, h: seq<Call>, id: nat)
    requires Good(l) && OrderTold(l, h) && Live(l, id)
    ensures var r := Without(l.order, id);
      && (forall i, j :: 0 <= i < j < |r| ==> Stamp(h, r[i]) < Stamp(h, r[j]))
      && (forall i :: 0 <= i < |r| ==> r[i] != id)
  {
    hide Stamp, Without;
    var k := WithoutIndex(l.order, id);
    var r := Without(l.order, id);
    assert forall i :: 0 <= i < |r| ==> r[i] in r;
  }

  lemma ReleaseTold(l: Lru, h: seq<Call>, id: nat)
    requires Told(l, h) && Live(l, id)
    ensures Told(AfterFree(l, id), h + [Freed(id)])
  {
    hide TicksTold, OrderTold, FreeTold, Good;
    FreeGood(l, id);
    ReleasedTicks(l, h, id);
    ReleasedOrder(l, h, id);
    ReleasedLast(l, h, id);
  }

  lemma ReleasedTicks(l: Lru, h: seq<Call>, id: nat)
    requires Good(l) && TicksTold(l, h) && Live(l, id)
    ensures Good(AfterFree(l, id)) && TicksTold(AfterFree(l, id), h + [Freed(id)])
  {
    var c := Freed(id);
    FreeGood(l, id);
    hide Good, Largest;
    forall x: nat ensures Largest(h + [c], x) == if x == id then None else Largest(h, x) {
      OneMore(h, c, x);
    }
  }

  lemma ReleasedOrder(l: Lru, h: seq<Call>, id: nat)
    requires Good(l) && OrderTold(l, h) && Live(l, id)
    ensures OrderTold(AfterFree(l, id), h + [Freed(id)])
  {
    var c := Freed(id);
    hide Good, OrderTold, Stamp;
    forall x: nat ensures Stamp(h + [c], x) == Stamp(h, x) {
      OneMore(h, c, x);
    }
    LeftBehind(l, h, c, AfterFree(l, id));
  }

  /** The list without an id, or with the id moved to its end by the last call. */
  lemma LeftBehind(l: Lru, h: seq<Call>, c: Call, m: Lru)
    requires Good(l) && OrderTold(l, h) && Live(l, c.id)
    requires forall x: nat :: Stamp(h + [c], x) == if x == c.id && !c.Freed? then |h| else Stamp(h, x)
    requires m.order == if c.Freed? then Without(l.order, c.id) else Without(l.order, c.id) + [c.id]
    ensures OrderTold(m, h + [c])
  {
    hide *;
    RestTold(l, h, c.id);
    var r := Without(l.order, c.id);
    forall i, j | 0 <= i < j < |m.order|
      ensures Stamp(h + [c], m.order[i]) < Stamp(h + [c], m.order[j])
    {
      assert m.order[i] == r[i];
      assert j < |r| ==> m.order[j] == r[j];
      StampBound(h, r[i]);
    }
    InOrder(m, h + [c]);
  }

  lemma InOrder(l: Lru, h: seq<Call>)
    requires forall i, j :: 0 <= i < j < |l.order| ==> Stamp(h, l.order[i]) < Stamp(h, l.order[j])
    ensures OrderTold(l, h)
  {
  }

  lemma StampBound(h: seq<Call>, id: nat)
    ensures Stamp(h, id) < |h|
  {
  }

  lemma ReleasedLast(l: Lru, h: seq<Call>, id: nat)
    requires Good(l) && FreeTold(l, h) && Live(l, id)
    ensures FreeTold(AfterFree(l, id), h + [Freed(id)])
  {
    var c := Freed(id);
    forall x: nat
      ensures FreedAt(h + [c], x) == if x == id then |h| else FreedAt(h, x)
      ensures Known(h + [c], x) <==> Known(h, x)
    {
      OneMore(h, c, x);
    }
    hide FreedAt, Known, Without;
    GoodInside(l);
    assert forall i :: 0 <= i < |l.free| ==> l.free[i] in l.free;
  }

  /** What a touch adds to the tale. */
  lemma TouchAdds(h: seq<Call>, id: nat, tick: int)
    requires Largest(h, id).Some?
    ensures var c, newer := Touched(id, tick), Largest(h, id).value < tick;
      forall x: nat ::
        && Largest(h + [c], x) == (if x == id && newer then Some(tick) else Largest(h, x))
        && Stamp(h + [c], x) == (if x == id && newer then |h| else Stamp(h, x))
        && FreedAt(h + [c], x) == FreedAt(h, x)
        && (Known(h + [c], x) <==> Known(h, x))
  {
    hide Largest, Stamp, FreedAt, Known;
    var c, newer := Touched(id, tick), Largest(h, id).value < tick;
    forall x: nat
      ensures Largest(h + [c], x) == if x == id && newer then Some(tick) else Largest(h, x)
      ensures Stamp(h + [c], x) == if x == id && newer then |h| else Stamp(h, x)
      ensures FreedAt(h + [c], x) == FreedAt(h, x)
      ensures Known(h + [c], x) <==> Known(h, x)
    {
      OneMore(h, c, x);
    }
  }

  lemma TouchTold(l: Lru, h: seq<Call>, id: nat, tick: int)
    requires Told(l, h) && Live(l, id)
    ensures Told(AfterTouch(l, id, tick), h + [Touched(id, tick)])
  {
    var c, m := Touched(id, tick), AfterTouch(l, id, tick);
    assert l.ticks[id] == Largest(h, id).value;
    TouchGood(l, id, tick);
    TouchAdds(h, id, tick);
    hide Largest, Stamp, FreedAt, Known, Without, Good;
    GoodInside(l);
    if Largest(h, id).value < tick {
      assert OrderTold(m, h + [c]) by {
        hide OrderTold;
        LeftBehind(l, h, c, m);
      }
      hide OrderTold;
    }
  }

  /** After every run the cache is what the calls tell. */
  lemma {:induction false} HistoryTold(states: seq<Lru>, h: seq<Call>, n: nat)
    requires History(states, h) && n <= |h|
    ensures Told(states[n], h[..n])
  {
    if n == 0 {
      NothingTold();
    } else {
      var l, c := states[n - 1], h[n - 1];
      HistoryTold(states, h, n - 1);
      assert Step(l, c, states[n]);
      assert h[..n] == h[..n - 1] + [c];
      hide Told, Good;
      match c
      case Inserted(_, tick) => InsertTold(l, h[..n - 1], tick);
      case Touched(id, tick) => TouchTold(l, h[..n - 1], id, tick);
      case Freed(id) => ReleaseTold(l, h[..n - 1], id);
    }
  }

  lemma NothingTold()
    ensures Told(EMPTY, [])
  {
  }

  // ---------------------------------------------------------------- what that means

  /** An id goes last with the first call since its insertion that supplied its largest tick. */
  lemma {:induction false} StampIs(h: seq<Call>, id: nat, k: nat)
    requires InUseSince(h, id, k)
    ensures var s := Stamp(h, id);
      && k <= s < |h| && h[s].id == id && Largest(h, id) == Some(h[s].tick)
      && forall j :: k <= j < s && h[j].id == id ==> h[j].tick < h[s].tick
  {
    var n, init := |h| - 1, h[..|h| - 1];
    var s := Stamp(h, id);
    UsedBefore(h, id, k);
    if k < n {
      StampIs(init, id, k);
      assert h == init + [h[n]];
      OneMore(init, h[n], id);
      var i := LargestIs(init, id);
      OneInsertion(init, id, i, k);
      forall j | k <= j < s && h[j].id == id ensures h[j].tick < h[s].tick {
        assert h[j] == init[j];
      }
    }
  }

  lemma OneInsertion(h: seq<Call>, id: nat, i: nat, k: nat)
    requires InUseSince(h, id, i) && InUseSince(h, id, k)
    ensures i == k
  {
  }

  lemma {:induction false} FreedAtIs(h: seq<Call>, id: nat)
    ensures var k := FreedAt(h, id);
      && (k >= 0 ==> h[k] == Freed(id)) && forall j :: k < j < |h| ==> h[j] != Freed(id)
  {
    if h != [] && h[|h| - 1] != Freed(id) {
      var init := h[..|h| - 1];
      FreedAtIs(init, id);
      assert forall j :: 0 <= j < |init| ==> init[j] == h[j];
    }
  }

  /**
   The list of a cache after any calls: it holds exactly the ids in use, each with the largest tick
   since its insertion, in the order of the calls that supplied those ticks first.
   */
  lemma ListTold(states: seq<Lru>, h: seq<Call>, l: Lru)
    requires History(states, h) && l == states[|h|]
    ensures Good(l)
    ensures forall id: nat :: Live(l, id) <==> exists k :: InUseSince(h, id, k)
    ensures forall id: nat, k :: InUseSince(h, id, k) ==>
      id < |l.ticks| && LargestSince(h, id, k, l.ticks[id])
    ensures forall i, j :: 0 <= i < j < |l.order| ==> Stamp(h, l.order[i]) < Stamp(h, l.order[j])
  {
    HistoryTold(states, h, |h|);
    assert h[..|h|] == h;
    hide Largest, Stamp, FreedAt, Good, InUseSince, LargestSince, History;
    forall id: nat
      ensures Live(l, id) <==> exists k :: InUseSince(h, id, k)
    {
      var k := LargestIs(h, id);
    }
    forall id: nat, k | InUseSince(h, id, k)
      ensures id < |l.ticks| && LargestSince(h, id, k, l.ticks[id])
    {
      var i := LargestIs(h, id);
      OneInsertion(h, id, i, k);
    }
  }

  /**
   The id an insertion returns is not in use; it is the one released longest ago, and when none is
   released the least number never returned before.
   */
  lemma NewIdTold(states: seq<Lru>, h: seq<Call>, n: nat)
    requires History(states, h) && n < |h| && h[n].Inserted?
    ensures var id, before := h[n].id, h[..n];
      && (forall k :: !InUseSince(before, id, k))
      && (Known(before, id) ==>
            forall x: nat :: Known(before, x) && (forall k :: !InUseSince(before, x, k)) ==>
              FreedAt(before, id) <= FreedAt(before, x))
      && (!Known(before, id) ==>
            && (forall x: nat :: Known(before, x) <==> x < id)
            && (forall x: nat :: Known(before, x) ==> exists k :: InUseSince(before, x, k)))
  {
    HistoryTold(states, h, n);
    var l, id, before := states[n], h[n].id, h[..n];
    assert Step(l, h[n], states[n + 1]);
    hide History, Step, Largest, FreedAt, InUseSince, Known;
    assert id == NewId(l);
    forall x: nat ensures Live(l, x) <==> exists k :: InUseSince(before, x, k) {
      var k := LargestIs(before, x);
    }
    GoodInside(l);
    if l.free != [] {
      assert l.free[0] in l.free;
    }
    assert !Live(l, id);
    forall x: nat | Known(before, x) && !Live(l, x)
      ensures l.free != [] && FreedAt(before, l.free[0]) <= FreedAt(before, x)
    {
      var i :| 0 <= i < |l.free| && l.free[i] == x;
    }
  }

  // ---------------------------------------------------------------- visiting

  /** The ticks the calls supply never decrease. */
  predicate TicksRise(h: seq<Call>)
  {
    forall i, j :: 0 <= i < j < |h| && !h[i].Freed? && !h[j].Freed? ==> h[i].tick <= h[j].tick
  }

  /**
   A traversal after any calls whose ticks never decrease, with a callback that never stops it,
   visits exactly the ids in use for which no tick above the bound has been supplied since their
   insertion.
   */
  lemma VisitsTold(states: seq<Lru>, h: seq<Call>, l: Lru, bound: int, id: nat)
    requires History(states, h) && l == states[|h|] && TicksRise(h)
    ensures Good(l) && forall i :: 0 <= i < |l.order| ==> l.order[i] < |l.ticks|
    ensures id in Visits(l.order, l.ticks, bound, {}) <==>
      exists k :: InUseSince(h, id, k) && TicksUpTo(h, id, k, bound)
  {
    ListTold(states, h, l);
    TicksOrder(l, h);
    VisitsExactly(l, bound, id);
    hide Visits, Stamp, InUseSince, History, Good, Ordered, TicksRise;
    forall k | InUseSince(h, id, k) ensures l.ticks[id] <= bound <==> TicksUpTo(h, id, k, bound) {
      assert LargestSince(h, id, k, l.ticks[id]);
    }
  }

  /** No tick above the bound for the id from call k on. */
  predicate TicksUpTo(h: seq<Call>, id: nat, k: nat, bound: int)
  {
    forall j :: k <= j < |h| && h[j].id == id && !h[j].Freed? ==> h[j].tick <= bound
  }

  lemma TicksOrder(l: Lru, h: seq<Call>)
    requires Good(l) && TicksRise(h)
    requires forall id: nat :: Live(l, id) <==> exists k :: InUseSince(h, id, k)
    requires forall id: nat, k :: InUseSince(h, id, k) ==>
      id < |l.ticks| && LargestSince(h, id, k, l.ticks[id])
    requires forall i, j :: 0 <= i < j < |l.order| ==> Stamp(h, l.order[i]) < Stamp(h, l.order[j])
    ensures Ordered(l)
  {
    hide Stamp, LargestSince, InUseSince;
    forall i | 0 <= i < |l.order|
      ensures var s := Stamp(h, l.order[i]);
        0 <= s < |h| && !h[s].Freed? && h[s].tick == l.ticks[l.order[i]]
    {
      var id := l.order[i];
      assert Live(l, id);
      var k :| InUseSince(h, id, k);
      StampIs(h, id, k);
      SameLargest(h, id, k, l.ticks[id]);
    }
  }

  lemma SameLargest(h: seq<Call>, id: nat, k: nat, m: int)
    requires InUseSince(h, id, k) && LargestSince(h, id, k, m)
    ensures Largest(h, id) == Some(m)
    ensures var s := Stamp(h, id); 0 <= s < |h| && !h[s].Freed?
  {
    hide Largest, Stamp;
    var i := LargestIs(h, id);
    OneInsertion(h, id, i, k);
    StampIs(h, id, k);
  }

  /** With a callback that stops, the traversal ends with the first item it stops at. */
  lemma {:induction false} VisitsUpTo(order: seq<nat>, ticks: seq<int>, bound: int, stops: set<nat>)
    requires forall i :: 0 <= i < |order| ==> order[i] < |ticks|
    ensures var n := |Visits(order, ticks, bound, stops)|;
      && (forall i :: 0 <= i < n ==> ticks[order[i]] <= bound)
      && (forall i :: 0 <= i < n - 1 ==> order[i] !in stops)
      && (n < |order| ==> (n > 0 && order[n - 1] in stops) || ticks[order[n]] > bound)
  {
    if order != [] && ticks[order[0]] <= bound && order[0] !in stops {
      VisitsUpTo(order[1..], ticks, bound, stops);
    }
  }

  // ---------------------------------------------------------------- freeing while visiting

  /** The ids of s that are in gone, in order. */
  function Only(s: seq<nat>, gone: set<nat>): seq<nat>
  {
    if s == [] then []
    else Only(s[..|s| - 1], gone) + if s[|s| - 1] in gone then [s[|s| - 1]] else []
  }

  /** The ids of s that are not in gone, in order. */
  function Except(s: seq<nat>, gone: set<nat>): seq<nat>
  {
    if s == [] then [] else (if s[0] in gone then [] else [s[0]]) + Except(s[1..], gone)
  }

  lemma {:induction false} ExceptOneMore(s: seq<nat>, gone: set<nat>, id: nat)
    ensures Without(Except(s, gone), id) == Except(s, gone + {id})
  {
    if s != [] {
      ExceptOneMore(s[1..], gone, id);
      var rest := Except(s[1..], gone);
      assert [] + rest == rest && [] + Without(rest, id) == Without(rest, id);
      assert ([s[0]] + rest)[1..] == rest;
    }
  }

  lemma {:induction false} ExceptNone(s: seq<nat>)
    ensures Except(s, {}) == s
  {
    if s != [] {
      ExceptNone(s[1..]);
    }
  }

  ghost function Members(s: seq<nat>): set<nat>
  {
    set x | x in s
  }

  /**
   Freeing visited items during a traversal takes exactly those off the list, leaves the others in
   their order with their ticks, and releases them in the order visited.
   */
  lemma {:induction false} DroppedTold(l: Lru, visited: seq<nat>, drops: set<nat>)
    requires Good(l) && Distinct(visited) && forall i :: 0 <= i < |visited| ==> Live(l, visited[i])
    ensures var m := Dropped(l, visited, drops);
      && m.order == Except(l.order, Members(visited) * drops)
      && m.free == l.free + Only(visited, drops) && m.ticks == l.ticks
  {
    hide *;
    DroppedOneMore(l, visited, drops);
    if visited == [] {
      ExceptNone(l.order);
    } else {
      var init, id := visited[..|visited| - 1], visited[|visited| - 1];
      DroppedTold(l, init, drops);
      ExceptOneMore(l.order, Members(init) * drops, id);
      Appended(l.free, Only(init, drops), id);
    }
  }

  lemma Appended(a: seq<nat>, b: seq<nat>, id: nat)
    ensures a + (b + [id]) == (a + b) + [id] && a + (b + []) == a + b
  {
    assert b + [] == b;
  }

  lemma DroppedOneMore(l: Lru, visited: seq<nat>, drops: set<nat>)
    requires Good(l) && Distinct(visited) && forall i :: 0 <= i < |visited| ==> Live(l, visited[i])
    ensures visited == [] ==>
      Dropped(l, visited, drops) == l && Members(visited) * drops == {} && Only(visited, drops) == []
      && l.free + [] == l.free
    ensures visited != [] ==>
      var init, id := visited[..|visited| - 1], visited[|visited| - 1];
      && Distinct(init) && (forall i :: 0 <= i < |init| ==> Live(l, init[i]))
      && Members(visited) * drops
           == (if id in drops then Members(init) * drops + {id} else Members(init) * drops)
      && Only(visited, drops) == Only(init, drops) + (if id in drops then [id] else [])
      && var m, before := Dropped(l, visited, drops), Dropped(l, init, drops);
      && m.order == (if id in drops then Without(before.order, id) else before.order)
      && m.free == (if id in drops then before.free + [id] else before.free)
      && m.ticks == before.ticks
  {
    hide Without, Only, Good;
    if visited != [] {
      var init, id := visited[..|visited| - 1], visited[|visited| - 1];
      assert visited == init + [id];
      assert Members(visited) == Members(init) + {id};
      OnlyOneMore(visited, drops);
    } else {
      OnlyOneMore(visited, drops);
    }
  }

  lemma OnlyOneMore(s: seq<nat>, gone: set<nat>)
    ensures s == [] ==> Only(s, gone) == []
    ensures s != [] ==>
      Only(s, gone) == Only(s[..|s| - 1], gone) + if s[|s| - 1] in gone then [s[|s| - 1]] else []
  {
  }
}
