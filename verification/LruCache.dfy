/**
 The least-recently-used cache: items threaded on an intrusive doubly linked list, oldest first, and
 a queue of free ids. The ghost field `order` is the list as a sequence of ids; the list operations
 are specified on it, and the ordering theorems are about those specifications.
 */
module LruCache {

  // ---------------------------------------------------------------- the list as a sequence

  predicate Distinct(s: seq<nat>)
  {
    forall i, j :: 0 <= i < j < |s| ==> s[i] != s[j]
  }

  function Without(s: seq<nat>, id: nat): (r: seq<nat>)
    ensures forall x :: x in r <==> x in s && x != id
  {
    if s == [] then []
    else if s[0] == id then Without(s[1..], id)
    else [s[0]] + Without(s[1..], id)
  }

  lemma {:induction false} WithoutAt(s: seq<nat>, k: nat)
    requires Distinct(s) && k < |s|
    ensures Without(s, s[k]) == s[..k] + s[k + 1..]
  {
    assert Distinct(s[1..]);
    if k == 0 {
      WithoutAbsent(s[1..], s[0]);
    } else {
      WithoutAt(s[1..], k - 1);
      OneFromTheMiddle(s, k);
    }
  }

  lemma OneFromTheMiddle(s: seq<nat>, k: nat)
    requires 0 < k < |s|
    ensures s[1..][k - 1] == s[k] && s[1..][k..] == s[k + 1..]
    ensures s[..k] == [s[0]] + s[1..][..k - 1]
    ensures s[..k] + s[k + 1..] == [s[0]] + (s[1..][..k - 1] + s[1..][k..])
  {
  }

  lemma {:induction false} WithoutAbsent(s: seq<nat>, id: nat)
    requires id !in s
    ensures Without(s, id) == s
  {
    if s != [] {
      WithoutAbsent(s[1..], id);
    }
  }

  lemma {:induction false} WithoutDistinct(s: seq<nat>, id: nat)
    requires Distinct(s)
    ensures Distinct(Without(s, id))
  {
    if s != [] {
      var r := Without(s[1..], id);
      WithoutDistinct(s[1..], id);
      forall i | 0 <= i < |r| ensures r[i] != s[0] {
        assert r[i] in s[1..];
      }
    }
  }

  lemma Position(s: seq<nat>, id: nat) returns (k: nat)
    requires id in s
    ensures k < |s| && s[k] == id
  {
    k :| k < |s| && s[k] == id;
  }

  // ---------------------------------------------------------------- the operations on values

  /** The ids in list order, the queue of free ids, and the tick of every id. */
  datatype Lru = Lru(order: seq<nat>, free: seq<nat>, ticks: seq<int>)

  const EMPTY := Lru([], [], [])

  predicate Live(l: Lru, id: nat)
  {
    id in l.order
  }

  /** Live and free ids are listed once each and partition the ids. */
  predicate Good(l: Lru)
  {
    && Distinct(l.order) && Distinct(l.free)
    && (forall i :: 0 <= i < |l.order| ==> l.order[i] < |l.ticks|)
    && (forall i :: 0 <= i < |l.free| ==> l.free[i] < |l.ticks|)
    && (forall id: nat :: id < |l.ticks| ==> (id in l.order <==> id !in l.free))
  }

  function NewId(l: Lru): nat
  {
    if l.free == [] then |l.ticks| else l.free[0]
  }

  function AfterInsert(l: Lru, tick: int): Lru
    requires Good(l)
  {
    if l.free == [] then Lru(l.order + [|l.ticks|], [], l.ticks + [tick])
    else Lru(l.order + [l.free[0]], l.free[1..], l.ticks[l.free[0] := tick])
  }

  /** A touch that is not newer than the item's tick does nothing. */
  function AfterTouch(l: Lru, id: nat, tick: int): Lru
    requires Good(l) && Live(l, id)
  {
    if l.ticks[id] >= tick then l
    else Lru(Without(l.order, id) + [id], l.free, l.ticks[id := tick])
  }

  function AfterFree(l: Lru, id: nat): Lru
    requires Good(l) && Live(l, id)
  {
    Lru(Without(l.order, id), l.free + [id], l.ticks)
  }

  lemma {:induction false} InsertGood(l: Lru, tick: int)
    requires Good(l)
    ensures Good(AfterInsert(l, tick)) && !Live(l, NewId(l))
    ensures forall id: nat :: id < |AfterInsert(l, tick).ticks| ==>
      (Live(AfterInsert(l, tick), id) <==> Live(l, id) || id == NewId(l))
  {
    var m, id := AfterInsert(l, tick), NewId(l);
    assert id !in l.order by {
      if l.free != [] {
        assert l.free[0] in l.free;
      }
    }
    forall i, j | 0 <= i < j < |m.order| ensures m.order[i] != m.order[j] {
      assert m.order[i] == l.order[i] && l.order[i] in l.order;
    }
    forall x: nat | x < |m.ticks| ensures x in m.order <==> x !in m.free {
      assert x in m.order <==> x in l.order || x == id;
      if l.free != [] {
        assert l.free == [id] + l.free[1..];
        assert x in l.free <==> x == id || x in l.free[1..];
        assert id !in l.free[1..];
      }
    }
  }

  lemma {:induction false} TouchGood(l: Lru, id: nat, tick: int)
    requires Good(l) && Live(l, id)
    ensures Good(AfterTouch(l, id, tick))
    ensures forall x :: Live(AfterTouch(l, id, tick), x) <==> Live(l, x)
  {
    if l.ticks[id] < tick {
      WithoutDistinct(l.order, id);
      var m := AfterTouch(l, id, tick);
      forall i | 0 <= i < |m.order| ensures m.order[i] in l.order {
        assert m.order[i] in m.order;
      }
      forall i, j | 0 <= i < j < |m.order| ensures m.order[i] != m.order[j] {
        assert m.order[i] == Without(l.order, id)[i];
        assert m.order[i] in Without(l.order, id);
      }
    }
  }

  lemma {:induction false} FreeGood(l: Lru, id: nat)
    requires Good(l) && Live(l, id)
    ensures Good(AfterFree(l, id))
    ensures forall x :: Live(AfterFree(l, id), x) <==> Live(l, x) && x != id
  {
    WithoutDistinct(l.order, id);
    var m := AfterFree(l, id);
    forall i | 0 <= i < |m.order| ensures m.order[i] in l.order {
      assert m.order[i] in m.order;
    }
    forall i, j | 0 <= i < j < |m.free| ensures m.free[i] != m.free[j] {
      assert m.free[i] == l.free[i] && l.free[i] in l.free;
    }
  }

  lemma GoodInside(l: Lru)
    requires Good(l)
    ensures Distinct(l.order)
    ensures forall id: nat :: id in l.order ==> id < |l.ticks|
    ensures forall i :: 0 <= i < |l.free| ==> l.free[i] < |l.ticks|
    ensures forall id: nat :: id < |l.ticks| ==> (id in l.order <==> id !in l.free)
  {
  }

  // ---------------------------------------------------------------- runs and ordering

  datatype Op = Insert(tick: int) | Touch(id: nat, tick: int) | Free(id: nat)

  predicate Legal(l: Lru, op: Op)
  {
    op.Insert? || Live(l, op.id)
  }

  function Apply(l: Lru, op: Op): Lru
    requires Good(l) && Legal(l, op)
  {
    match op
    case Insert(tick) => AfterInsert(l, tick)
    case Touch(id, tick) => AfterTouch(l, id, tick)
    case Free(id) => AfterFree(l, id)
  }

  lemma ApplyGood(l: Lru, op: Op)
    requires Good(l) && Legal(l, op)
    ensures Good(Apply(l, op))
  {
    match op
    case Insert(tick) => InsertGood(l, tick);
    case Touch(id, tick) => TouchGood(l, id, tick);
    case Free(id) => FreeGood(l, id);
  }

  /** The state after the operations, each of them on a live id. */
  ghost predicate Run(l: Lru, ops: seq<Op>, end: Lru)
    decreases |ops|
  {
    if ops == [] then end == l
    else Good(l) && Legal(l, ops[0]) && Run(Apply(l, ops[0]), ops[1..], end)
  }

  /** The supplied ticks never go below clock nor below each other. */
  predicate TicksNeverDecrease(ops: seq<Op>, clock: int)
  {
    ops == []
    || (if ops[0].Free? then TicksNeverDecrease(ops[1..], clock)
        else clock <= ops[0].tick && TicksNeverDecrease(ops[1..], ops[0].tick))
  }

  predicate Ordered(l: Lru)
    requires Good(l)
  {
    forall i, j :: 0 <= i < j < |l.order| ==> l.ticks[l.order[i]] <= l.ticks[l.order[j]]
  }

  predicate NotAfter(l: Lru, clock: int)
    requires Good(l)
  {
    forall i :: 0 <= i < |l.order| ==> l.ticks[l.order[i]] <= clock
  }

  /** What Without leaves is in the order it was. */
  lemma WithoutIndex(s: seq<nat>, id: nat) returns (k: nat)
    requires Distinct(s) && id in s
    ensures k < |s| && s[k] == id
    ensures |Without(s, id)| == |s| - 1
    ensures forall i :: 0 <= i < |s| - 1 ==> Without(s, id)[i] == s[if i < k then i else i + 1]
  {
    k := Position(s, id);
    WithoutAt(s, k);
  }

  lemma InsertOrdered(l: Lru, tick: int)
    requires Good(l) && Ordered(l) && NotAfter(l, tick)
    ensures Good(AfterInsert(l, tick)) && Ordered(AfterInsert(l, tick)) && NotAfter(AfterInsert(l, tick), tick)
  {
    InsertGood(l, tick);
    assert forall i :: 0 <= i < |l.order| ==> l.order[i] in l.order;
  }

  predicate OrderedBy(ids: seq<nat>, ticks: seq<int>, clock: int)
  {
    && (forall i :: 0 <= i < |ids| ==> ids[i] < |ticks| && ticks[ids[i]] <= clock)
    && (forall i, j :: 0 <= i < j < |ids| ==> ticks[ids[i]] <= ticks[ids[j]])
  }

  /** Taking an item out leaves the rest ordered. */
  lemma WithoutOrdered(l: Lru, id: nat, clock: int)
    requires Good(l) && Ordered(l) && NotAfter(l, clock) && Live(l, id)
    ensures OrderedBy(Without(l.order, id), l.ticks, clock) && id !in Without(l.order, id)
  {
    hide Without;
    var k := WithoutIndex(l.order, id);
  }

  lemma TouchOrdered(l: Lru, id: nat, tick: int)
    requires Good(l) && Ordered(l) && NotAfter(l, tick) && Live(l, id)
    ensures Good(AfterTouch(l, id, tick)) && Ordered(AfterTouch(l, id, tick)) && NotAfter(AfterTouch(l, id, tick), tick)
  {
    hide Without;
    TouchGood(l, id, tick);
    if AfterTouch(l, id, tick) != l {
      WithoutOrdered(l, id, tick);
      hide Distinct;
      var r, m := Without(l.order, id), AfterTouch(l, id, tick);
      assert forall i :: 0 <= i < |r| ==> r[i] in r;
      assert forall i :: 0 <= i < |r| ==> m.order[i] == r[i] && m.ticks[m.order[i]] == l.ticks[r[i]];
    }
  }

  lemma FreeOrdered(l: Lru, id: nat, clock: int)
    requires Good(l) && Ordered(l) && NotAfter(l, clock) && Live(l, id)
    ensures Good(AfterFree(l, id)) && Ordered(AfterFree(l, id)) && NotAfter(AfterFree(l, id), clock)
  {
    FreeGood(l, id);
    WithoutOrdered(l, id, clock);
    var r, m := Without(l.order, id), AfterFree(l, id);
    assert forall i :: 0 <= i < |r| ==> m.order[i] == r[i] && m.ticks[m.order[i]] == l.ticks[r[i]];
  }

  /** An operation with a tick at or after every live one keeps the list ordered by tick. */
  lemma ApplyOrdered(l: Lru, op: Op, clock: int)
    requires Good(l) && Legal(l, op) && Ordered(l) && NotAfter(l, clock)
    requires op.Free? || clock <= op.tick
    ensures Good(Apply(l, op)) && Ordered(Apply(l, op))
    ensures NotAfter(Apply(l, op), if op.Free? then clock else op.tick)
  {
    hide Good, Ordered, AfterInsert, AfterTouch, AfterFree;
    LaterClock(l, clock, if op.Free? then clock else op.tick);
    match op
    case Insert(tick) => InsertOrdered(l, tick);
    case Touch(id, tick) => TouchOrdered(l, id, tick);
    case Free(id) => FreeOrdered(l, id, clock);
  }

  lemma LaterClock(l: Lru, clock: int, later: int)
    requires Good(l) && NotAfter(l, clock) && clock <= later
    ensures NotAfter(l, later)
  {
  }

  /** In every run the live and free ids partition the ids; with ticks that never decrease the list stays ordered. */
  lemma {:induction false} RunOrdered(l: Lru, ops: seq<Op>, end: Lru, clock: int)
    requires Good(l) && Run(l, ops, end)
    ensures Good(end)
    ensures Ordered(l) && NotAfter(l, clock) && TicksNeverDecrease(ops, clock) ==> Ordered(end)
    decreases |ops|
  {
    if ops != [] {
      ApplyGood(l, ops[0]);
      var later := if ops[0].Free? then clock else ops[0].tick;
      if Ordered(l) && NotAfter(l, clock) && TicksNeverDecrease(ops, clock) {
        ApplyOrdered(l, ops[0], clock);
      }
      RunOrdered(Apply(l, ops[0]), ops[1..], end, later);
    }
  }

  // ---------------------------------------------------------------- visiting

  /** The ids ForEachItemBelow visits: up to the first tick above the bound or the first id in stops. */
  function Visits(order: seq<nat>, ticks: seq<int>, bound: int, stops: set<nat>): (ids: seq<nat>)
    requires forall i :: 0 <= i < |order| ==> order[i] < |ticks|
    ensures |ids| <= |order| && ids == order[..|ids|]
  {
    if order == [] || ticks[order[0]] > bound then []
    else if order[0] in stops then [order[0]]
    else [order[0]] + Visits(order[1..], ticks, bound, stops)
  }

  /** On an ordered list a callback that never stops sees exactly the live items up to the bound. */
  lemma {:induction false} VisitsExactly(l: Lru, bound: int, id: nat)
    requires Good(l) && Ordered(l)
    ensures id in Visits(l.order, l.ticks, bound, {}) <==> Live(l, id) && l.ticks[id] <= bound
  {
    VisitsExactlyFrom(l.order, l.ticks, bound, id);
  }

  lemma {:induction false} VisitsExactlyFrom(order: seq<nat>, ticks: seq<int>, bound: int, id: nat)
    requires forall i :: 0 <= i < |order| ==> order[i] < |ticks|
    requires forall i, j :: 0 <= i < j < |order| ==> ticks[order[i]] <= ticks[order[j]]
    ensures id in Visits(order, ticks, bound, {}) <==> id in order && ticks[id] <= bound
  {
    if order != [] {
      if ticks[order[0]] > bound {
        assert id in order ==> ticks[order[0]] <= ticks[id];
      } else {
        VisitsExactlyFrom(order[1..], ticks, bound, id);
      }
    }
  }

  lemma LastIsNew(s: seq<nat>)
    requires Distinct(s) && s != []
    ensures s[|s| - 1] !in s[..|s| - 1] && Distinct(s[..|s| - 1])
  {
  }

  /** The callback frees the visited items that are in drops. */
  function Dropped(l: Lru, visited: seq<nat>, drops: set<nat>): (m: Lru)
    requires Good(l) && Distinct(visited) && forall i :: 0 <= i < |visited| ==> Live(l, visited[i])
    ensures Good(m)
    ensures forall x :: Live(m, x) <==> Live(l, x) && !(x in visited && x in drops)
    ensures m.ticks == l.ticks
  {
    if visited == [] then l
    else
      var init, id := visited[..|visited| - 1], visited[|visited| - 1];
      var m := Dropped(l, init, drops);
      assert visited == init + [id];
      LastIsNew(visited);
      hide Distinct;
      if id in drops then
        FreeGood(m, id);
        AfterFree(m, id)
      else m
  }

  // ---------------------------------------------------------------- the links

  /** The links of all items, id by id, and the ends of the list. */
  datatype Links<Node> = Links(next: seq<Node>, prev: seq<Node>, first: Node, last: Node)

  /** From first, next visits the nodes of the ids in order and ends at last; prev is the way back. */
  ghost predicate Threaded<Node>(nodes: seq<Node>, end: Node, order: seq<nat>, links: Links<Node>)
  {
    && |links.next| == |links.prev| == |nodes|
    && (forall i :: 0 <= i < |order| ==> order[i] < |nodes|)
    && (if order == [] then links.first == end && links.last == end
        else
          && links.first == nodes[order[0]] && links.prev[order[0]] == end
          && links.last == nodes[order[|order| - 1]] && links.next[order[|order| - 1]] == end)
    && (forall i, j :: 0 <= i < j < |order| && j == i + 1 ==>
          links.next[order[i]] == nodes[order[j]] && links.prev[order[j]] == nodes[order[i]])
  }

  /** The links b are the links a after node id has been put at the end. */
  ghost predicate Appended<Node>(nodes: seq<Node>, end: Node, order: seq<nat>, a: Links<Node>, b: Links<Node>, id: nat)
    requires id < |nodes| == |a.next| == |a.prev| == |b.next| == |b.prev|
  {
    && b.first == (if order == [] then nodes[id] else a.first)
    && b.last == nodes[id] && b.next[id] == end && b.prev[id] == a.last
    && forall x :: 0 <= x < |nodes| && x != id ==>
      && b.prev[x] == a.prev[x]
      && b.next[x] == if order != [] && x == order[|order| - 1] then nodes[id] else a.next[x]
  }

  lemma ThreadedAppend<Node>(nodes: seq<Node>, end: Node, order: seq<nat>, a: Links<Node>, b: Links<Node>, id: nat)
    requires Threaded(nodes, end, order, a) && Distinct(order) && id < |nodes| && id !in order
    requires |b.next| == |b.prev| == |nodes| && Appended(nodes, end, order, a, b, id)
    ensures Threaded(nodes, end, order + [id], b)
  {
    var longer := order + [id];
    forall i, j | 0 <= i < j < |longer| && j == i + 1
      ensures b.next[longer[i]] == nodes[longer[j]] && b.prev[longer[j]] == nodes[longer[i]]
    {
      assert longer[i] == order[i] && order[i] in order;
      if j < |order| {
        assert longer[j] == order[j] && order[j] in order;
      }
    }
    if order != [] {
      assert order[0] in order;
    }
  }

  /** The links b are the links a after the neighbours of position k, and the ends, bypass it. */
  ghost predicate Bypassed<Node>(nodes: seq<Node>, order: seq<nat>, a: Links<Node>, b: Links<Node>, k: nat)
    requires k < |order| && order[k] < |nodes| == |a.next| == |a.prev| == |b.next| == |b.prev|
  {
    && b.first == (if k == 0 then a.next[order[k]] else a.first)
    && b.last == (if k == |order| - 1 then a.prev[order[k]] else a.last)
    && forall x :: 0 <= x < |nodes| ==>
      && b.next[x] == (if k > 0 && x == order[k - 1] then a.next[order[k]] else a.next[x])
      && b.prev[x] == (if k + 1 < |order| && x == order[k + 1] then a.prev[order[k]] else a.prev[x])
  }

  lemma ThreadedRemove<Node>(nodes: seq<Node>, end: Node, order: seq<nat>, a: Links<Node>, b: Links<Node>, k: nat)
    requires Threaded(nodes, end, order, a) && k < |order| && Distinct(order)
    requires |b.next| == |b.prev| == |nodes| && Bypassed(nodes, order, a, b, k)
    ensures Threaded(nodes, end, order[..k] + order[k + 1..], b)
  {
    var shorter := order[..k] + order[k + 1..];
    assert forall i :: 0 <= i < |shorter| ==> shorter[i] == order[if i < k then i else i + 1];
    forall i, j | 0 <= i < j < |shorter| && j == i + 1
      ensures b.next[shorter[i]] == nodes[shorter[j]] && b.prev[shorter[j]] == nodes[shorter[i]]
    {
      if j == k {
        assert a.next[order[k]] == nodes[order[k + 1]] && a.prev[order[k]] == nodes[order[k - 1]];
      }
    }
  }

  /** Only the links of the neighbours change. */
  lemma BypassedOthers<Node>(nodes: seq<Node>, order: seq<nat>, a: Links<Node>, b: Links<Node>, k: nat)
    requires k < |order| && order[k] < |nodes| == |a.next| == |a.prev| == |b.next| == |b.prev|
    requires Bypassed(nodes, order, a, b, k)
    ensures forall x :: 0 <= x < |nodes| && x !in order ==> b.next[x] == a.next[x] && b.prev[x] == a.prev[x]
  {
  }

  /** Links of nodes that are not on the list do not matter. */
  lemma ThreadedKept<Node>(nodes: seq<Node>, end: Node, order: seq<nat>, a: Links<Node>, b: Links<Node>)
    requires Threaded(nodes, end, order, a) && |b.next| == |b.prev| == |nodes|
    requires b.first == a.first && b.last == a.last
    requires forall x :: 0 <= x < |nodes| && x in order ==> b.next[x] == a.next[x] && b.prev[x] == a.prev[x]
    ensures Threaded(nodes, end, order, b)
  {
    assert forall i :: 0 <= i < |order| ==> order[i] in order;
  }

  /** Nodes that are not on the list may be added. */
  lemma ThreadedMore<Node>(nodes: seq<Node>, more: seq<Node>, end: Node, order: seq<nat>, a: Links<Node>, b: Links<Node>)
    requires Threaded(nodes, end, order, a) && nodes <= more && |b.next| == |b.prev| == |more|
    requires b.first == a.first && b.last == a.last
    requires forall x :: 0 <= x < |nodes| ==> b.next[x] == a.next[x] && b.prev[x] == a.prev[x]
    ensures Threaded(more, end, order, b)
  {
  }

  /** The neighbours of position k, and whether it is at an end. */
  lemma ThreadedAround<Node>(nodes: seq<Node>, end: Node, order: seq<nat>, links: Links<Node>, k: nat)
    requires Threaded(nodes, end, order, links) && k < |order|
    ensures |links.next| == |links.prev| == |nodes| && order[k] < |nodes|
    ensures forall i :: 0 <= i < |order| ==> order[i] < |nodes|
    ensures links.next[order[k]] == if k + 1 < |order| then nodes[order[k + 1]] else end
    ensures links.prev[order[k]] == if k > 0 then nodes[order[k - 1]] else end
    ensures links.first == nodes[order[0]] && links.last == nodes[order[|order| - 1]]
  {
    assert k > 0 ==> links.prev[order[k]] == nodes[order[k - 1]];
    assert k + 1 < |order| ==> links.next[order[k]] == nodes[order[k + 1]];
  }

  /** In a list of distinct ids the ends and the neighbours of one are others. */
  lemma OtherNodes(order: seq<nat>, k: nat)
    requires Distinct(order) && k < |order|
    ensures order[0] == order[k] <==> k == 0
    ensures order[|order| - 1] == order[k] <==> k == |order| - 1
    ensures k > 0 && k + 1 < |order| ==> order[k - 1] != order[k + 1]
    ensures k > 0 ==> order[k - 1] != order[k]
    ensures k + 1 < |order| ==> order[k + 1] != order[k]
  {
  }

  lemma ThreadedEnds<Node>(nodes: seq<Node>, end: Node, order: seq<nat>, links: Links<Node>)
    requires Threaded(nodes, end, order, links)
    ensures |links.next| == |links.prev| == |nodes|
    ensures forall i :: 0 <= i < |order| ==> order[i] < |nodes|
    ensures order == [] ==> links.first == end && links.last == end
    ensures order != [] ==> links.first == nodes[order[0]] && links.last == nodes[order[|order| - 1]]
  {
  }

  // ---------------------------------------------------------------- the cache

  lemma SuffixIndex(rest: seq<nat>, order: seq<nat>)
    requires Suffix(rest, order)
    ensures |rest| <= |order| && forall i :: 0 <= i < |rest| ==> rest[i] == order[|order| - |rest| + i]
  {
  }

  class Item<Object> {
    var entry: Object
    var tick: int
    var next: Item?<Object>
    var prev: Item?<Object>

    constructor (entry: Object, tick: int)
      ensures this.entry == entry && this.tick == tick && next == null && prev == null
    {
      this.entry, this.tick, next, prev := entry, tick, null, null;
    }
  }

  ghost function LinksOf<Object>(items: seq<Item<Object>>, first: Item?<Object>, last: Item?<Object>): Links<Item?<Object>>
    reads items
  {
    Links(seq(|items|, i requires 0 <= i < |items| reads items => items[i].next),
          seq(|items|, i requires 0 <= i < |items| reads items => items[i].prev), first, last)
  }

  ghost function TicksOf<Object>(items: seq<Item<Object>>): seq<int>
    reads items
  {
    seq(|items|, i requires 0 <= i < |items| reads items => items[i].tick)
  }

  class LeastRecentlyUsedCache<Object> {
    var items: seq<Item<Object>>
    var free: seq<nat>
    var first: Item?<Object>
    var last: Item?<Object>
    ghost var order: seq<nat>

    ghost function Snapshot(): (links: Links<Item?<Object>>)
      reads this`items, this`first, this`last, items
      ensures |links.next| == |links.prev| == |items| && links.first == first && links.last == last
      ensures forall x :: 0 <= x < |items| ==> links.next[x] == items[x].next && links.prev[x] == items[x].prev
    {
      LinksOf(items, first, last)
    }

    ghost predicate Linked()
      reads this`items, this`first, this`last, this`order, items
    {
      && (forall i, j :: 0 <= i < j < |items| ==> items[i] != items[j])
      && Distinct(order) && Threaded(items, null, order, Snapshot())
    }

    /** The abstract value. */
    ghost function Model(): (l: Lru)
      reads this, items
      ensures l.order == order && l.free == free && |l.ticks| == |items|
      ensures forall x :: 0 <= x < |items| ==> l.ticks[x] == items[x].tick
    {
      Lru(order, free, TicksOf(items))
    }

    /** The list is intact, live and free ids partition the ids, and items off the list are unlinked. */
    ghost predicate Valid()
      reads this, items
    {
      && Linked() && Good(Model())
      && (forall x :: 0 <= x < |items| && x !in order ==> items[x].next == null && items[x].prev == null)
    }

    constructor ()
      ensures Valid() && items == [] && order == [] && free == []
    {
      items, free, first, last, order := [], [], null, null, [];
    }

    method Attach(id: nat)
      requires Linked() && id < |items| && id !in order
      requires order == [] ==> items[id].next == null && items[id].prev == null
      modifies this`first, this`last, this`order, items
      ensures Linked() && order == old(order) + [id]
      ensures forall x :: 0 <= x < |items| ==> items[x].tick == old(items[x].tick) && items[x].entry == old(items[x].entry)
      ensures forall x :: 0 <= x < |items| && x !in order ==>
        items[x].next == old(items[x].next) && items[x].prev == old(items[x].prev)
    {
      hide Threaded, Snapshot;
      ghost var was, before := order, Snapshot();
      ThreadedEnds(items, null, order, before);
      var item := items[id];
      if first == null {
        first := item;
      }
      if last == null {
        last := item;
      } else {
        item.prev := last;
        last.next := item;
        item.next := null;
        last := item;
      }
      order := was + [id];
      ghost var after := Snapshot();
      assert Appended(items, null, was, before, after, id);
      ThreadedAppend(items, null, was, before, after, id);
    }

    /** The neighbours of an item are made to point past it. */
    method BypassNeighbours(id: nat, ghost k: nat)
      requires Linked() && k < |order| && order[k] == id
      modifies items
      ensures forall i :: 0 <= i < |order| ==> order[i] < |items|
      ensures forall x :: 0 <= x < |items| ==> items[x].tick == old(items[x].tick) && items[x].entry == old(items[x].entry)
      ensures forall x :: 0 <= x < |items| ==>
        items[x].next == if k > 0 && x == order[k - 1] then old(items[id].next) else old(items[x].next)
      ensures forall x :: 0 <= x < |items| ==>
        items[x].prev == if k + 1 < |order| && x == order[k + 1] then old(items[id].prev) else old(items[x].prev)
    {
      hide Threaded, Snapshot, Distinct;
      OtherNodes(order, k);
      ThreadedAround(items, null, order, Snapshot(), k);
      var item := items[id];
      if item.prev != null {
        item.prev.next := item.next;
      }
      if item.next != null {
        item.next.prev := item.prev;
      }
    }

    /** The neighbours of an item, and the ends of the list, are made to bypass it. */
    method Bypass(id: nat, ghost k: nat)
      requires Linked() && k < |order| && order[k] == id
      modifies this`first, this`last, items
      ensures order[k] < |items| && Bypassed(items, order, old(Snapshot()), Snapshot(), k)
      ensures forall x :: 0 <= x < |items| ==> items[x].tick == old(items[x].tick) && items[x].entry == old(items[x].entry)
    {
      hide Threaded, Snapshot, Distinct;
      OtherNodes(order, k);
      ThreadedAround(items, null, order, Snapshot(), k);
      var item := items[id];
      assert first == item <==> k == 0;
      assert last == item <==> k == |order| - 1;
      BypassNeighbours(id, k);
      if first == item {
        first := item.next;
      }
      if last == item {
        last := item.prev;
      }
    }

    method Detach(id: nat)
      requires Linked() && id in order
      modifies this`first, this`last, this`order, items
      ensures Linked() && order == Without(old(order), id)
      ensures forall x :: 0 <= x < |items| ==> items[x].tick == old(items[x].tick) && items[x].entry == old(items[x].entry)
      ensures forall x :: 0 <= x < |items| && x !in old(order) ==>
        items[x].next == old(items[x].next) && items[x].prev == old(items[x].prev)
    {
      hide Without, Threaded, Snapshot, Distinct, Bypassed;
      ghost var k := Position(order, id);
      ghost var was, before := order, Snapshot();
      ThreadedEnds(items, null, was, before);
      WithoutAt(was, k);
      WithoutDistinct(was, id);
      Bypass(id, k);
      ghost var after := Snapshot();
      BypassedOthers(items, was, before, after, k);
      ThreadedRemove(items, null, was, before, after, k);
      order := Without(was, id);
      assert Snapshot() == after;
    }

    /** A free id if there is one, else a new item. */
    method Build(entry: Object) returns (id: nat)
      requires Valid()
      modifies this`items, this`free
      ensures id == NewId(old(Model())) && id < |items| && id !in order
      ensures free == (if old(free) == [] then [] else old(free[1..]))
      ensures |items| == |old(items)| + (if old(free) == [] then 1 else 0) && items[..|old(items)|] == old(items)
      ensures old(free) == [] ==> fresh(items[id]) && items[id].next == null && items[id].prev == null
      ensures Linked()
    {
      hide Threaded, Snapshot;
      ThreadedEnds(items, null, order, Snapshot());
      if free == [] {
        id := |items|;
        var item := new Item(entry, 0);
        ghost var was, before := items, Snapshot();
        items := items + [item];
        ThreadedMore(was, items, null, order, before, Snapshot());
      } else {
        id := free[0];
        assert id in free && id !in order;
        free := free[1..];
      }
    }

    method SetTick(id: nat, tick: int)
      requires Linked() && id < |items|
      modifies items
      ensures Linked() && items[id].tick == tick
      ensures forall x :: 0 <= x < |items| ==> items[x].entry == old(items[x].entry)
      ensures forall x :: 0 <= x < |items| ==> items[x].next == old(items[x].next) && items[x].prev == old(items[x].prev)
      ensures forall x :: 0 <= x < |items| && x != id ==> items[x].tick == old(items[x].tick)
    {
      hide Threaded, Snapshot;
      ghost var before := Snapshot();
      items[id].tick := tick;
      assert Snapshot() == before;
    }

    method SetEntry(id: nat, entry: Object)
      requires Linked() && id < |items|
      modifies items
      ensures Linked() && items[id].entry == entry
      ensures forall x :: 0 <= x < |items| ==> items[x].tick == old(items[x].tick)
      ensures forall x :: 0 <= x < |items| ==> items[x].next == old(items[x].next) && items[x].prev == old(items[x].prev)
      ensures forall x :: 0 <= x < |items| && x != id ==> items[x].entry == old(items[x].entry)
    {
      hide Threaded, Snapshot;
      ghost var before := Snapshot();
      items[id].entry := entry;
      assert Snapshot() == before;
    }

    /** An item off the list loses its links. */
    method Unlink(id: nat)
      requires Linked() && id < |items| && id !in order
      modifies items
      ensures Linked() && items[id].next == null && items[id].prev == null
      ensures forall x :: 0 <= x < |items| ==> items[x].tick == old(items[x].tick) && items[x].entry == old(items[x].entry)
      ensures forall x :: 0 <= x < |items| && x != id ==>
        items[x].next == old(items[x].next) && items[x].prev == old(items[x].prev)
    {
      hide Threaded, Snapshot;
      ghost var before := Snapshot();
      items[id].next := null;
      items[id].prev := null;
      ThreadedKept(items, null, order, before, Snapshot());
    }

    method Insert(entry: Object, tick: int) returns (id: nat)
      requires Valid()
      modifies this, items
      ensures Valid() && id == NewId(old(Model())) && Model() == AfterInsert(old(Model()), tick)
      ensures items[id].entry == entry
      ensures forall x :: 0 <= x < |old(items)| && x != id ==> items[x].entry == old(items[x].entry)
    {
      hide Linked, Good, Model;
      ghost var was := Model();
      InsertGood(was, tick);
      GoodInside(was);
      id := Build(entry);
      SetEntry(id, entry);
      SetTick(id, tick);
      Attach(id);
      hide Distinct, Threaded;
      assert Model().ticks == AfterInsert(was, tick).ticks;
    }

    /** The item becomes the most recent one. */
    method MoveToEnd(id: nat)
      requires Linked() && id in order
      modifies this`first, this`last, this`order, items
      ensures Linked() && order == Without(old(order), id) + [id]
      ensures forall x :: 0 <= x < |items| ==> items[x].tick == old(items[x].tick) && items[x].entry == old(items[x].entry)
      ensures forall x :: 0 <= x < |items| && x !in old(order) ==>
        items[x].next == old(items[x].next) && items[x].prev == old(items[x].prev)
    {
      hide Linked;
      InRange(id);
      LastStays(id);
      if items[id] != last {
        Detach(id);
        Attach(id);
      }
    }

    method Touch(id: nat, tick: int)
      requires Valid() && id in order
      modifies this, items
      ensures Valid() && Model() == AfterTouch(old(Model()), id, tick)
      ensures items == old(items) && forall x :: 0 <= x < |items| ==> items[x].entry == old(items[x].entry)
    {
      hide Linked, Good, Model;
      ghost var was := Model();
      TouchGood(was, id, tick);
      GoodInside(was);
      var item := items[id];
      if item.tick >= tick {
        return;
      }
      SetTick(id, tick);
      MoveToEnd(id);
      assert Model().ticks == AfterTouch(was, id, tick).ticks;
    }

    lemma InRange(id: nat)
      requires Linked() && id in order
      ensures id < |items|
    {
    }

    /** Only the last item is already where a touch would put it. */
    lemma LastStays(id: nat)
      requires Linked() && id in order && id < |items|
      ensures items[id] == last ==> Without(order, id) + [id] == order
      ensures items[id] != last ==> Without(order, id) != []
    {
      ThreadedEnds(items, null, order, Snapshot());
      var k := WithoutIndex(order, id);
      if items[id] == last {
        assert items[order[|order| - 1]] == items[id];
        assert order[|order| - 1] == id;
        assert k == |order| - 1;
      }
    }

    method Free(id: nat)
      requires Valid() && id in order
      modifies this, items
      ensures Valid() && Model() == AfterFree(old(Model()), id)
      ensures items == old(items) && forall x :: 0 <= x < |items| ==> items[x].entry == old(items[x].entry)
    {
      hide Linked, Good, Model;
      ghost var was := Model();
      FreeGood(was, id);
      GoodInside(was);
      Detach(id);
      Unlink(id);
      free := free + [id];
      assert Model().ticks == AfterFree(was, id).ticks;
    }

    /** The item after a position of the list. */
    lemma NextItem(rest: seq<nat>)
      requires Linked() && Suffix(rest, order) && rest != []
      ensures forall i :: 0 <= i < |rest| ==> rest[i] < |items| && rest[i] in order
      ensures items[rest[0]].next == if |rest| == 1 then null else items[rest[1]]
    {
      hide Threaded, Snapshot, Distinct, Suffix;
      var k := |order| - |rest|;
      SuffixIndex(rest, order);
      ThreadedAround(items, null, order, Snapshot(), k);
    }

    lemma FirstItem()
      requires Linked()
      ensures forall i :: 0 <= i < |order| ==> order[i] < |items|
      ensures first == if order == [] then null else items[order[0]]
    {
    }

    method Callback(id: nat, drops: set<nat>)
      requires Valid() && id in order
      modifies this, items
      ensures items == old(items)
      ensures forall x :: 0 <= x < |items| ==> items[x].entry == old(items[x].entry)
      ensures Good(old(Model())) && Live(old(Model()), id)
      ensures Model() == if id in drops then AfterFree(old(Model()), id) else old(Model())
      ensures order == if id in drops then Without(old(order), id) else old(order)
      ensures Valid()
    {
      hide Linked, Good, Model;
      if id in drops {
        Free(id);
      }
    }

    /**
     The callback may free the item it is called on and may ask to stop: here it frees the items in
     drops and stops after those in stops. The entry tells it the id.
     */
    method ForEachItemBelow(bound: int, idOf: Object -> nat, drops: set<nat>, stops: set<nat>) returns (visited: seq<nat>)
      requires Valid()
      requires forall x :: 0 <= x < |items| && x in order ==> idOf(items[x].entry) == x
      modifies this, items
      ensures Valid() && Good(old(Model()))
      ensures visited == Visits(old(order), old(Model()).ticks, bound, stops)
      ensures Distinct(visited) && forall i :: 0 <= i < |visited| ==> Live(old(Model()), visited[i])
      ensures Model() == Dropped(old(Model()), visited, drops)
    {
      hide Linked, Good, Model, Distinct, Dropped, Visits, Suffix;
      ghost var was, rest: seq<nat> := Model(), order;
      var item := first;
      visited := [];
      GoodInside(was);
      FirstItem();
      NothingVisited(was, drops, bound, stops);
      while item != null
        invariant Valid() && items == old(items) && VisitedTo(was, visited, rest, bound, stops)
        invariant Model() == Dropped(was, visited, drops) && Suffix(rest, order)
        invariant forall x :: 0 <= x < |items| && x in order ==> idOf(items[x].entry) == x
        invariant rest == [] ==> item == null
        invariant rest != [] ==> rest[0] < |items| && item == items[rest[0]]
        decreases |rest|
      {
        NextItem(rest);
        DroppedTicks(was, visited, drops);
        VisitStep(was, visited, rest, drops, bound, stops);
        if item.tick > bound {
          return;
        }
        var next := item.next;
        var id := idOf(item.entry);
        GoodInside(Model());
        SuffixStep(rest, order);
        visited := visited + [id];
        Callback(id, drops);
        if id in stops {
          return;
        }
        rest := rest[1..];
        item := next;
      }
      VisitEnds(was, visited, rest, bound, stops);
    }
  }

  predicate Suffix(rest: seq<nat>, order: seq<nat>)
  {
    |rest| <= |order| && order[|order| - |rest|..] == rest
  }

  /** Moving on, whether or not the item just visited is taken out. */
  lemma SuffixStep(rest: seq<nat>, order: seq<nat>)
    requires Suffix(rest, order) && rest != [] && Distinct(order)
    ensures Suffix(rest[1..], order) && Suffix(rest[1..], Without(order, rest[0]))
  {
    var k := |order| - |rest|;
    assert order[k] == rest[0];
    WithoutAt(order, k);
  }

  /** The state of the traversal: what was visited, and what Visits still has to say about the rest. */
  ghost predicate VisitedTo(l: Lru, visited: seq<nat>, rest: seq<nat>, bound: int, stops: set<nat>)
  {
    && Good(l) && l.order == visited + rest && Distinct(visited)
    && (forall i :: 0 <= i < |visited| ==> Live(l, visited[i]))
    && (forall i :: 0 <= i < |rest| ==> rest[i] < |l.ticks|)
    && Visits(l.order, l.ticks, bound, stops) == visited + Visits(rest, l.ticks, bound, stops)
  }

  lemma NothingVisited(l: Lru, drops: set<nat>, bound: int, stops: set<nat>)
    requires Good(l)
    ensures VisitedTo(l, [], l.order, bound, stops) && Dropped(l, [], drops) == l && Suffix(l.order, l.order)
  {
  }

  lemma DroppedTicks(l: Lru, visited: seq<nat>, drops: set<nat>)
    requires Good(l) && Distinct(visited) && forall i :: 0 <= i < |visited| ==> Live(l, visited[i])
    ensures Dropped(l, visited, drops).ticks == l.ticks
  {
  }

  lemma VisitStep(l: Lru, visited: seq<nat>, rest: seq<nat>, drops: set<nat>, bound: int, stops: set<nat>)
    requires VisitedTo(l, visited, rest, bound, stops) && rest != []
    ensures rest[0] < |l.ticks|
    ensures l.ticks[rest[0]] > bound ==> Visits(l.order, l.ticks, bound, stops) == visited
    ensures l.ticks[rest[0]] <= bound && rest[0] in stops ==>
      Visits(l.order, l.ticks, bound, stops) == visited + [rest[0]]
    ensures l.ticks[rest[0]] <= bound && rest[0] !in stops ==>
      VisitedTo(l, visited + [rest[0]], rest[1..], bound, stops)
    ensures Distinct(visited + [rest[0]])
    ensures forall i :: 0 <= i < |visited| + 1 ==> Live(l, (visited + [rest[0]])[i])
    ensures
      var before, after := Dropped(l, visited, drops), Dropped(l, visited + [rest[0]], drops);
      Live(before, rest[0]) && after == if rest[0] in drops then AfterFree(before, rest[0]) else before
  {
    hide Visits;
    var more := visited + [rest[0]];
    assert l.order == more + rest[1..];
    assert forall i :: 0 <= i < |more| ==> more[i] == l.order[i];
    assert more[..|more| - 1] == visited;
    assert l.order[|visited|] == rest[0];
    assert rest[0] !in visited;
    VisitsUnfolds(rest, l.ticks, bound, stops);
  }

  lemma VisitsUnfolds(rest: seq<nat>, ticks: seq<int>, bound: int, stops: set<nat>)
    requires rest != [] && forall i :: 0 <= i < |rest| ==> rest[i] < |ticks|
    ensures Visits(rest, ticks, bound, stops) ==
            if ticks[rest[0]] > bound then [] else if rest[0] in stops then [rest[0]]
            else [rest[0]] + Visits(rest[1..], ticks, bound, stops)
  {
  }

  lemma VisitEnds(l: Lru, visited: seq<nat>, rest: seq<nat>, bound: int, stops: set<nat>)
    requires VisitedTo(l, visited, rest, bound, stops)
    ensures rest == [] ==> Visits(l.order, l.ticks, bound, stops) == visited
  {
  }
}
