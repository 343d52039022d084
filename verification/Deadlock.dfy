/** Deadlock detection by depth-first search (crates/galleonfs/src/transaction.rs). */
module DeadlockDetection {
  import opened Wrappers

  type TransactionId = nat

  /** Who waits for whom; lists may repeat a transaction. */
  type WaitGraph = map<TransactionId, seq<TransactionId>>

  predicate Edge(g: WaitGraph, u: TransactionId, v: TransactionId) {
    u in g && v in g[u]
  }

  predicate IsWalk(g: WaitGraph, w: seq<TransactionId>) {
    |w| > 0 && forall i :: 0 < i < |w| ==> Edge(g, w[i - 1], w[i])
  }

  predicate Distinct<T(==)>(s: seq<T>) {
    forall i, j :: 0 <= i < j < |s| ==> s[i] != s[j]
  }

  /** A simple cycle of at least two transactions, the last waiting for the first. */
  predicate IsCycle(g: WaitGraph, c: seq<TransactionId>) {
    |c| >= 2 && Distinct(c) && IsWalk(g, c) && Edge(g, c[|c| - 1], c[0])
  }

  /** Two different transactions wait for each other, directly or not. */
  predicate IsDeadlock(g: WaitGraph, w: seq<TransactionId>) {
    IsWalk(g, w) && w[|w| - 1] == w[0] && exists i :: 0 <= i < |w| && w[i] != w[0]
  }

  ghost predicate Deadlocked(g: WaitGraph) {
    exists w :: IsDeadlock(g, w)
  }

  /** A simple cycle is a deadlock. */
  lemma CycleIsDeadlock(g: WaitGraph, c: seq<TransactionId>)
    requires IsCycle(g, c)
    ensures Deadlocked(g)
  {
    var w := c + [c[0]];
    assert w[1] == c[1] != c[0];
    assert IsDeadlock(g, w);
  }

  ghost function Nodes(g: WaitGraph): (s: set<TransactionId>)
    ensures forall u, v :: Edge(g, u, v) ==> u in s && v in s
  {
    g.Keys + set u, i | u in g && 0 <= i < |g[u]| :: g[u][i]
  }

  /** Everything visited and no longer on the search path is fully explored, with no way back to the target. */
  ghost predicate Explored(g: WaitGraph, visited: set<TransactionId>, path: seq<TransactionId>, target: TransactionId) {
    forall u, v :: u in visited && u !in path && Edge(g, u, v) ==> v in visited && (u != target ==> v != target)
  }

  /** The search path: a simple walk of visited transactions starting at the target. */
  ghost predicate OnPath(g: WaitGraph, visited: set<TransactionId>, path: seq<TransactionId>, target: TransactionId) {
    && Distinct(path)
    && (forall u :: u in path ==> u in visited)
    && (path != [] ==> IsWalk(g, path) && path[0] == target)
  }

  /** A closed walk through the target cannot leave it and come back through explored transactions. */
  lemma {:induction false} ExploredNoReturn(g: WaitGraph, visited: set<TransactionId>, target: TransactionId, w: seq<TransactionId>, i: nat)
    requires Explored(g, visited, [], target) && IsWalk(g, w)
    requires i < |w| && w[i] in visited && w[i] != target
    ensures forall k :: i <= k < |w| ==> w[k] in visited && w[k] != target
    decreases |w| - i
  {
    if i + 1 < |w| {
      assert Edge(g, w[i + 1 - 1], w[i + 1]);
      ExploredNoReturn(g, visited, target, w, i + 1);
    }
  }

  lemma {:induction false} ExploredClosed(g: WaitGraph, visited: set<TransactionId>, target: TransactionId, w: seq<TransactionId>, i: nat)
    requires Explored(g, visited, [], target) && IsWalk(g, w) && w[0] in visited
    requires i < |w|
    ensures w[i] in visited
    decreases i
  {
    if i > 0 {
      ExploredClosed(g, visited, target, w, i - 1);
      assert Edge(g, w[i - 1], w[i]);
    }
  }

  /** After an unsuccessful search from a transaction, no deadlock passes through it. */
  lemma NoDeadlockFrom(g: WaitGraph, visited: set<TransactionId>, target: TransactionId, w: seq<TransactionId>)
    requires Explored(g, visited, [], target) && target in visited
    requires IsWalk(g, w) && w[0] == target == w[|w| - 1]
    ensures !IsDeadlock(g, w)
  {
    if i :| 0 <= i < |w| && w[i] != w[0] {
      ExploredClosed(g, visited, target, w, i);
      ExploredNoReturn(g, visited, target, w, i);
    }
  }

  class DeadlockDetector {
    var waitGraph: WaitGraph

    constructor ()
      ensures waitGraph == map[]
    {
      waitGraph := map[];
    }

    method AddWaitEdge(waiting: TransactionId, holding: TransactionId)
      modifies this
      ensures forall u, v :: Edge(waitGraph, u, v) <==> Edge(old(waitGraph), u, v) || (u == waiting && v == holding)
    {
      var waiters := if waiting in waitGraph then waitGraph[waiting] else [];
      waitGraph := waitGraph[waiting := waiters + [holding]];
    }

    method RemoveWaitEdge(waiting: TransactionId, holding: TransactionId)
      modifies this
      ensures forall u, v :: Edge(waitGraph, u, v) <==> Edge(old(waitGraph), u, v) && !(u == waiting && v == holding)
      ensures old(forall u :: u in waitGraph ==> waitGraph[u] != []) ==> forall u :: u in waitGraph ==> waitGraph[u] != []
    {
      if waiting in waitGraph {
        var waiters := Retain(waitGraph[waiting], holding);
        if waiters == [] {
          waitGraph := waitGraph - {waiting};
        } else {
          waitGraph := waitGraph[waiting := waiters];
        }
      }
    }

    /** detect_deadlock: a simple cycle, or the certainty that there is no deadlock. */
    method DetectDeadlock() returns (r: Option<seq<TransactionId>>)
      ensures r.Some? ==> IsCycle(waitGraph, r.value)
      ensures r.None? <==> !Deadlocked(waitGraph)
    {
      forall w | IsDeadlock(waitGraph, w)
        ensures w[0] in waitGraph
      {
        assert Edge(waitGraph, w[1 - 1], w[1]);
      }
      var pending := waitGraph.Keys;
      while pending != {}
        invariant pending <= waitGraph.Keys
        invariant forall w :: IsDeadlock(waitGraph, w) ==> w[0] in pending
        decreases |pending|
      {
        var start :| start in pending;
        r := FindCycle(waitGraph, start);
        if r.Some? {
          CycleIsDeadlock(waitGraph, r.value);
          return;
        }
        pending := pending - {start};
      }
      r := None;
    }
  }

  function Retain(s: seq<TransactionId>, drop: TransactionId): (r: seq<TransactionId>)
    ensures forall v :: v in r <==> v in s && v != drop
  {
    if s == [] then [] else (if s[0] == drop then [] else [s[0]]) + Retain(s[1..], drop)
  }

  /** find_cycle: a search for a way back to `start`. */
  method FindCycle(g: WaitGraph, start: TransactionId) returns (r: Option<seq<TransactionId>>)
    ensures r.Some? ==> IsCycle(g, r.value) && r.value[0] == start
    ensures r.None? ==> forall w :: IsDeadlock(g, w) ==> w[0] != start
  {
    var visited, path;
    r, visited, path := DfsCycleDetection(g, start, {}, [], start);
    if r.None? {
      forall w | IsDeadlock(g, w)
        ensures w[0] != start
      {
        if w[0] == start {
          NoDeadlockFrom(g, visited, start, w);
        }
      }
    }
  }

  /**
   dfs_cycle_detection: one visited set shared by the whole search. It ends
   because every call either returns at once or visits one more transaction.
   */
  method DfsCycleDetection(g: WaitGraph, current: TransactionId, visited: set<TransactionId>,
                           path: seq<TransactionId>, target: TransactionId)
    returns (r: Option<seq<TransactionId>>, visited': set<TransactionId>, path': seq<TransactionId>)
    requires OnPath(g, visited, path, target) && Explored(g, visited, path, target)
    requires if path == [] then current == target else Edge(g, path[|path| - 1], current)
    ensures visited <= visited'
    ensures r.Some? ==> IsCycle(g, r.value) && r.value[0] == target
    ensures r.None? ==> path' == path && current in visited'
                        && OnPath(g, visited', path, target) && Explored(g, visited', path, target)
    ensures r.None? && |path| > 1 ==> current != target
    decreases Nodes(g) + {target} - visited, 1
  {
    visited', path' := visited, path;
    if |path| > 1 && current == target {
      return Some(path), visited', path';
    }
    if current in visited {
      return None, visited', path';
    }
    visited' := visited + {current};
    path' := path + [current];
    if current in g {
      r, visited', path' := DfsNeighbors(g, current, visited', path', target);
      if r.Some? {
        return;
      }
    }
    path' := path'[..|path'| - 1];
    assert path' == path;
    r := None;
  }

  /** The loop over the transactions `current` waits for. */
  method DfsNeighbors(g: WaitGraph, current: TransactionId, visited: set<TransactionId>,
                      path: seq<TransactionId>, target: TransactionId)
    returns (r: Option<seq<TransactionId>>, visited': set<TransactionId>, path': seq<TransactionId>)
    requires current in g && path != [] && path[|path| - 1] == current
    requires OnPath(g, visited, path, target) && Explored(g, visited, path, target)
    requires |path| > 1 <==> current != target
    ensures visited <= visited'
    ensures r.Some? ==> IsCycle(g, r.value) && r.value[0] == target
    ensures r.None? ==> path' == path && OnPath(g, visited', path, target)
                        && Explored(g, visited', path[..|path| - 1], target)
    decreases Nodes(g) + {target} - visited, 2
  {
    r := None;
    visited', path' := visited, path;
    var i := 0;
    while i < |g[current]|
      invariant 0 <= i <= |g[current]|
      invariant r.None? && path' == path && visited <= visited'
      invariant OnPath(g, visited', path, target) && Explored(g, visited', path, target)
      invariant forall k :: 0 <= k < i ==> g[current][k] in visited' && (current != target ==> g[current][k] != target)
    {
      var neighbor := g[current][i];
      assert Edge(g, current, neighbor);
      r, visited', path' := DfsCycleDetection(g, neighbor, visited', path', target);
      if r.Some? {
        return;
      }
      i := i + 1;
    }
    assert forall u :: u in path && u !in path[..|path| - 1] ==> u == current;
  }
}
