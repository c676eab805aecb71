/**
 Start-up and shutdown of the subsystems. `started` is the ghost sequence of initialised nodes in
 the order they were initialised: the chain that starts at lastInit and follows prevInit backwards.
 */
module Subsystems {

  class Node {
    const name: string
    const deps: seq<string>
    var initialized: bool
    var prevInit: Node?

    constructor (name: string, deps: seq<string>)
      ensures this.name == name && this.deps == deps && !initialized && prevInit == null
    {
      this.name, this.deps, initialized, prevInit := name, deps, false, null;
    }
  }

  // ---------------------------------------------------------------- orders of start-up

  /** One of the nodes has the name. */
  ghost predicate Among(name: string, nodes: seq<Node>)
  {
    exists m :: 0 <= m < |nodes| && nodes[m].name == name
  }

  /** Each node comes after everything it depends on. */
  ghost predicate DependenciesFirst(started: seq<Node>)
  {
    forall k, d :: 0 <= k < |started| && d in started[k].deps ==> Among(d, started[..k])
  }

  ghost predicate Unique(nodes: seq<Node>)
  {
    forall i, j :: 0 <= i < j < |nodes| ==> nodes[i] != nodes[j] && nodes[i].name != nodes[j].name
  }

  function Reversed(s: seq<string>): (r: seq<string>)
    ensures |r| == |s| && forall i :: 0 <= i < |s| ==> r[i] == s[|s| - 1 - i]
  {
    if s == [] then [] else Reversed(s[1..]) + [s[0]]
  }

  function Names(nodes: seq<Node>): (names: seq<string>)
    ensures |names| == |nodes| && forall i :: 0 <= i < |nodes| ==> names[i] == nodes[i].name
  {
    seq(|nodes|, i requires 0 <= i < |nodes| => nodes[i].name)
  }

  lemma DependenciesFirstStep(started: seq<Node>, node: Node)
    requires DependenciesFirst(started) && forall d :: d in node.deps ==> Among(d, started)
    ensures DependenciesFirst(started + [node])
  {
    var more := started + [node];
    forall k, d | 0 <= k < |more| && d in more[k].deps ensures Among(d, more[..k]) {
      if k < |started| {
        assert more[..k] == started[..k];
      } else {
        assert more[..k] == started;
      }
    }
  }

  /** Shutting down in reverse order destroys a subsystem before anything it depends on. */
  lemma DependentsDestroyedFirst(started: seq<Node>, k: nat, d: string)
    requires DependenciesFirst(started) && Unique(started) && k < |started| && d in started[k].deps
    ensures exists i, j :: 0 <= i < j < |started| && Reversed(Names(started))[i] == started[k].name
                           && Reversed(Names(started))[j] == d
  {
    assert Among(d, started[..k]);
    var m :| 0 <= m < |started[..k]| && started[..k][m].name == d;
    var n := |started|;
    assert Reversed(Names(started))[n - 1 - k] == started[k].name && Reversed(Names(started))[n - 1 - m] == d;
  }

  /** The node could be initialised: everything it depends on has been. */
  ghost predicate Ready(node: Node, started: seq<Node>)
  {
    node !in started && forall d :: d in node.deps ==> Among(d, started)
  }

  /** Every dependency is registered, and ranks go down along dependencies. */
  ghost predicate Ranked(list: seq<Node>, rank: map<string, nat>)
  {
    && (forall n :: n in list ==> n.name in rank)
    && (forall n, d :: n in list && d in n.deps ==>
          Among(d, list) && d in rank && rank[d] < rank[n.name])
  }

  /** The dependencies of the list are registered and not circular. */
  ghost predicate Orderable(list: seq<Node>)
  {
    exists rank :: Ranked(list, rank)
  }

  /**
   When every dependency is in the list and none is circular, having nothing ready left means that
   everything has been started.
   */
  lemma {:induction false} NothingReadyMeansAllStarted(list: seq<Node>, started: seq<Node>, rank: map<string, nat>,
                                                       node: Node)
    requires Ranked(list, rank)
    requires forall n :: n in list ==> !Ready(n, started)
    requires node in list
    ensures node in started
    decreases rank[node.name]
  {
    forall d | d in node.deps ensures Among(d, started) {
      assert Among(d, list);
      var m :| 0 <= m < |list| && list[m].name == d;
      NothingReadyMeansAllStarted(list, started, rank, list[m]);
      var k :| 0 <= k < |started| && started[k] == list[m];
      assert started[k].name == d;
    }
  }

  /** The order in which the nodes were started, as ranks. */
  ghost function StartRank(started: seq<Node>): map<string, nat>
  {
    if started == [] then map[]
    else StartRank(started[..|started| - 1])[started[|started| - 1].name := |started|]
  }

  lemma {:induction false} StartRankAt(started: seq<Node>, k: nat)
    requires Unique(started) && k < |started|
    ensures started[k].name in StartRank(started) && StartRank(started)[started[k].name] == k + 1
    decreases |started|
  {
    if k < |started| - 1 {
      var init := started[..|started| - 1];
      assert init[k] == started[k];
      StartRankAt(init, k);
    }
  }

  /** An order of start-up of the whole list shows that its dependencies can be ordered. */
  lemma AllStartedIsRanked(list: seq<Node>, started: seq<Node>)
    requires Unique(started) && DependenciesFirst(started)
    requires forall n :: n in started <==> n in list
    ensures Ranked(list, StartRank(started))
  {
    hide Unique, StartRank;
    forall n | n in list ensures n.name in StartRank(started) {
      var k :| 0 <= k < |started| && started[k] == n;
      StartRankAt(started, k);
    }
    forall n, d | n in list && d in n.deps
      ensures Among(d, list) && d in StartRank(started) && StartRank(started)[d] < StartRank(started)[n.name]
    {
      var k :| 0 <= k < |started| && started[k] == n;
      assert Among(d, started[..k]);
      var m :| 0 <= m < |started[..k]| && started[..k][m].name == d;
      StartRankAt(started, k);
      StartRankAt(started, m);
      assert started[m] in list;
      var i :| 0 <= i < |list| && list[i] == started[m];
    }
  }

  /** Start-up that leaves nothing ready has started everything exactly when the list can be ordered. */
  lemma AllStartedIff(list: seq<Node>, started: seq<Node>)
    requires Unique(started) && DependenciesFirst(started)
    requires forall n :: n in started ==> n in list
    requires forall n :: n in list ==> !Ready(n, started)
    ensures (forall n :: n in list ==> n in started) <==> Orderable(list)
  {
    hide Unique, DependenciesFirst, Ready, Ranked;
    if forall n :: n in list ==> n in started {
      AllStartedIsRanked(list, started);
    }
    if Orderable(list) {
      var rank :| Ranked(list, rank);
      forall n | n in list ensures n in started {
        NothingReadyMeansAllStarted(list, started, rank, n);
      }
    }
  }

  lemma ReadyIsNew(node: Node, started: seq<Node>)
    requires Ready(node, started)
    ensures node !in started
  {
  }

  // ---------------------------------------------------------------- the list

  class SubsystemsList {
    var list: seq<Node>
    var lastInit: Node?
    var failName: string
    ghost var started: seq<Node>

    ghost predicate Chained()
      reads this`list, this`lastInit, this`started, list
    {
      && Unique(list) && Unique(started)
      && (forall k :: 0 <= k < |started| ==> started[k] in list)
      && (lastInit == if started == [] then null else started[|started| - 1])
      && (started != [] ==> started[0].prevInit == null)
      && (forall i, j :: 0 <= i < j < |started| && j == i + 1 ==> started[j].prevInit == started[i])
    }

    ghost predicate Valid()
      reads this`list, this`lastInit, this`started, list
    {
      && Chained() && DependenciesFirst(started)
      && (forall i :: 0 <= i < |list| ==> (list[i].initialized <==> list[i] in started))
    }

    constructor ()
      ensures Valid() && list == [] && started == []
    {
      list, lastInit, failName, started := [], null, "", [];
    }

    /** The node with the name, if any. */
    method FindByName(name: string) returns (n: Node?)
      ensures n == null <==> !Among(name, list)
      ensures n != null ==> n in list && n.name == name
    {
      var i := 0;
      while i < |list|
        invariant i <= |list| && !Among(name, list[..i])
      {
        if list[i].name == name {
          return list[i];
        }
        i := i + 1;
      }
      assert list[..i] == list;
      return null;
    }

    /** Names are not registered twice; a new node goes to the front, with its dependencies in reverse. */
    method Add(name: string, deps: seq<string>)
      requires Valid() && !Among(name, list)
      modifies this
      ensures Valid() && started == old(started) && |list| == |old(list)| + 1 && list[1..] == old(list)
      ensures fresh(list[0]) && list[0].name == name && list[0].deps == Reversed(deps)
    {
      hide DependenciesFirst, Among, Unique, Reversed;
      var stored: seq<string> := [];
      NoneReversed(deps);
      for i := 0 to |deps|
        invariant stored == Reversed(deps[..i])
        modifies {}
      {
        ReversedSnoc(deps[..i], deps[i]);
        assert deps[..i + 1] == deps[..i] + [deps[i]];
        stored := [deps[i]] + stored;
      }
      assert deps[..|deps|] == deps;
      var node := new Node(name, stored);
      AddedUnique(list, node);
      list := [node] + list;
      assert list[1..] == old(list);
    }

    /** A name is among the started nodes exactly when the registered node of that name is initialised. */
    lemma StartedByName(name: string, n: Node?)
      requires Valid() && (n == null <==> !Among(name, list)) && (n != null ==> n in list && n.name == name)
      ensures Among(name, started) <==> n != null && n.initialized
    {
      if Among(name, started) {
        var m :| 0 <= m < |started| && started[m].name == name;
        var i :| 0 <= i < |list| && list[i] == started[m];
      }
    }

    /** The first node of the list that is ready. */
    method FindNextToInitialize() returns (n: Node?)
      requires Valid()
      ensures n == null ==> forall i :: 0 <= i < |list| ==> !Ready(list[i], started)
      ensures n != null ==> exists k :: 0 <= k < |list| && list[k] == n && Ready(n, started)
                                        && forall i :: 0 <= i < k ==> !Ready(list[i], started)
    {
      hide DependenciesFirst, Unique;
      var k := 0;
      while k < |list|
        invariant k <= |list| && forall i :: 0 <= i < k ==> !Ready(list[i], started)
      {
        n := list[k];
        if !n.initialized {
          var d := 0;
          while d < |n.deps|
            invariant d <= |n.deps| && forall i :: 0 <= i < d ==> Among(n.deps[i], started)
          {
            var s := FindByName(n.deps[d]);
            StartedByName(n.deps[d], s);
            if s == null || !s.initialized {
              break;
            }
            d := d + 1;
          }
          if d == |n.deps| {
            assert Ready(n, started);
            return n;
          }
          assert n.deps[d] in n.deps;
        }
        k := k + 1;
      }
      return null;
    }

    /** The node is marked as initialised and becomes the head of the chain. */
    method Push(n: Node)
      requires Valid() && n in list && Ready(n, started)
      modifies this`lastInit, this`started, list
      ensures Valid() && started == old(started) + [n]
    {
      hide DependenciesFirst, Unique, Ready;
      StartOne(list, started, n);
      n.initialized := true;
      var last := lastInit;
      lastInit := n;
      n.prevInit := last;
      started := started + [n];
    }

    /**
     Initialises everything that becomes ready; fails are the subsystems whose Init fails. log is the
     sequence of Init calls.
     */
    method InitAll(fails: set<string>) returns (ok: bool, log: seq<string>)
      requires Valid()
      modifies this`lastInit, this`failName, this`started, list
      ensures Valid() && list == old(list) && old(started) <= started
      ensures forall i :: |old(started)| <= i < |started| ==> started[i].name !in fails
      ensures ok ==> log == Names(started[|old(started)|..])
      ensures ok ==> forall i :: 0 <= i < |list| ==> !Ready(list[i], started)
      ensures ok ==> ((forall n :: n in list ==> n in started) <==> Orderable(list))
      ensures !ok ==> log == Names(started[|old(started)|..]) + [failName] && failName in fails
      ensures !ok ==> exists i :: 0 <= i < |list| && list[i].name == failName && Ready(list[i], started)
    {
      hide DependenciesFirst, Unique, Ready, Chained, Valid, Orderable;
      log := [];
      while true
        invariant Valid() && list == old(list) && old(started) <= started
        invariant forall i :: |old(started)| <= i < |started| ==> started[i].name !in fails
        invariant log == Names(started[|old(started)|..])
        decreases set n | n in list && n !in started
      {
        var n := FindNextToInitialize();
        if n == null {
          EverythingStarted();
          return true, log;
        }
        log := log + [n.name];
        if n.name in fails {
          failName := n.name;
          return false, log;
        }
        ghost var before := started;
        ghost var waiting := set x | x in list && x !in started;
        ReadyIsNew(n, started);
        Push(n);
        assert n in waiting && (set x | x in list && x !in started) == waiting - {n};
        assert started[|old(started)|..] == before[|old(started)|..] + [n];
      }
    }

    lemma EverythingStarted()
      requires Valid() && forall i :: 0 <= i < |list| ==> !Ready(list[i], started)
      ensures (forall n :: n in list ==> n in started) <==> Orderable(list)
    {
      hide DependenciesFirst, Unique, Ready, Orderable;
      forall n | n in started ensures n in list {
        var k :| 0 <= k < |started| && started[k] == n;
      }
      AllStartedIff(list, started);
    }

    /** The first k nodes of the chain, and no others, are still initialised. */
    ghost predicate InitializedUpTo(k: nat)
      requires k <= |started|
      reads this`list, this`started, list
    {
      forall i :: 0 <= i < |list| ==> (list[i].initialized <==> list[i] in started[..k])
    }

    /** The mark of one node is taken away; the chain stays. */
    method Stop(n: Node, ghost k: nat)
      requires Chained() && 0 < k <= |started| && n == started[k - 1] && InitializedUpTo(k) && n in list
      modifies list
      ensures Chained() && InitializedUpTo(k - 1)
      ensures n.prevInit == old(n.prevInit)
    {
      StopOne(list, started, k);
      hide Unique, Among, DependenciesFirst;
      n.initialized := false;
    }

    /** One node is destroyed; the node before it in the chain is next. */
    method DestroyOne(n: Node, ghost k: nat) returns (next: Node?)
      requires Chained() && 0 < k <= |started| && n == started[k - 1] && InitializedUpTo(k)
      modifies list
      ensures Chained() && InitializedUpTo(k - 1)
      ensures next == if k == 1 then null else started[k - 2]
    {
      hide Unique, Among, DependenciesFirst;
      assert started[k - 1] in list;
      assert k > 1 ==> started[k - 1].prevInit == started[k - 2];
      hide Chained, InitializedUpTo;
      Stop(n, k);
      next := n.prevInit;
    }

    /** Destroys what was initialised, last first. log is the sequence of Destroy calls. */
    method DestroyAll() returns (log: seq<string>)
      requires Valid()
      modifies this`lastInit, this`started, list
      ensures Valid() && list == old(list) && started == [] && lastInit == null
      ensures log == Reversed(Names(old(started)))
    {
      hide *;
      log := [];
      var n := lastInit;
      ghost var k: nat := |started|;
      NoNames(started);
      ChainHead();
      while n != null
        invariant k <= |started| && Chained() && InitializedUpTo(k)
        invariant n == if k == 0 then null else started[k - 1]
        invariant log == Reversed(Names(started[k..]))
        modifies list
        decreases k
      {
        log := log + [n.name];
        OneMoreName(started, k);
        n := DestroyOne(n, k);
        k := k - 1;
      }
      assert started[k..] == started;
      Reset();
    }

    method Reset()
      requires Chained() && InitializedUpTo(0)
      modifies this`lastInit, this`started
      ensures Valid() && started == [] && lastInit == null
    {
      lastInit := null;
      started := [];
    }

    lemma ChainHead()
      requires Valid()
      ensures Chained() && InitializedUpTo(|started|)
      ensures lastInit == if started == [] then null else started[|started| - 1]
    {
      assert started[..|started|] == started;
    }
  }

  lemma NoNames(started: seq<Node>)
    ensures Reversed(Names(started[|started|..])) == []
  {
  }

  lemma OneMoreName(started: seq<Node>, k: nat)
    requires 0 < k <= |started|
    ensures Reversed(Names(started[k - 1..])) == Reversed(Names(started[k..])) + [started[k - 1].name]
  {
    var names := Names(started[k - 1..]);
    assert names[0] == started[k - 1].name && names[1..] == Names(started[k..]);
  }

  lemma StartOne(list: seq<Node>, started: seq<Node>, n: Node)
    requires Unique(list) && Unique(started) && DependenciesFirst(started)
    requires n in list && (forall k :: 0 <= k < |started| ==> started[k] in list) && Ready(n, started)
    ensures n !in started && Unique(started + [n]) && DependenciesFirst(started + [n])
  {
    DependenciesFirstStep(started, n);
    forall i | 0 <= i < |started| ensures started[i] != n && started[i].name != n.name {
      var a :| 0 <= a < |list| && list[a] == n;
      var b :| 0 <= b < |list| && list[b] == started[i];
    }
  }

  lemma StopOne(list: seq<Node>, started: seq<Node>, k: nat)
    requires Unique(started) && 0 < k <= |started|
    ensures forall i :: 0 <= i < |list| ==>
      (list[i] in started[..k - 1] <==> list[i] in started[..k] && list[i] != started[k - 1])
  {
  }

  lemma AddedUnique(list: seq<Node>, node: Node)
    requires Unique(list) && node !in list && !Among(node.name, list)
    ensures Unique([node] + list)
  {
  }

  lemma NoneReversed(s: seq<string>)
    ensures Reversed(s[..0]) == []
  {
  }

  lemma ReversedSnoc(s: seq<string>, x: string)
    ensures Reversed(s + [x]) == [x] + Reversed(s)
  {
  }
}