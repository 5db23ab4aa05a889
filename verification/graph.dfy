/** The task dependency graph: edges keyed by dependency id, reachability along
    outgoing edges defined by paths, and the visited-set traversal the
    circular-dependency check runs, proved to decide reachability. */
module Graph {
  import opened Entities

  type Edges = map<int, Dependency>

  /** Targets of the edges leaving `n`: what `findMany({ where: { sourceId: n } })` yields. */
  function Succ(edges: Edges, n: int): set<int> {
    set id | id in edges && edges[id].sourceId == n :: edges[id].targetId
  }

  /** Every node an edge points to. */
  function Targets(edges: Edges): set<int> {
    set id | id in edges :: edges[id].targetId
  }

  ghost predicate IsPath(edges: Edges, p: seq<int>) {
    && |p| >= 1
    && forall i :: 0 <= i < |p| - 1 ==> p[i + 1] in Succ(edges, p[i])
  }

  /** `b` can be reached from `a` by following zero or more outgoing edges. */
  ghost predicate Reachable(edges: Edges, a: int, b: int) {
    exists p :: IsPath(edges, p) && p[0] == a && p[|p| - 1] == b
  }

  /** No edge closes a cycle: the target of an edge never reaches its source. */
  ghost predicate Acyclic(edges: Edges) {
    forall id :: id in edges ==> !Reachable(edges, edges[id].targetId, edges[id].sourceId)
  }

  // ---------------------------------------------------------------------------
  // Reachability facts

  lemma ReachableRefl(edges: Edges, a: int)
    ensures Reachable(edges, a, a)
  {
    assert IsPath(edges, [a]);
  }

  lemma ReachableStep(edges: Edges, a: int, b: int, c: int)
    requires Reachable(edges, a, b)
    requires c in Succ(edges, b)
    ensures Reachable(edges, a, c)
  {
    var p :| IsPath(edges, p) && p[0] == a && p[|p| - 1] == b;
    var q := p + [c];
    assert forall i :: 0 <= i < |q| - 1 ==> q[i] == p[i];
    assert IsPath(edges, q);
  }

  lemma {:induction false} PathTrans(edges: Edges, p: seq<int>, q: seq<int>)
    requires IsPath(edges, p) && IsPath(edges, q) && p[|p| - 1] == q[0]
    ensures Reachable(edges, p[0], q[|q| - 1])
    decreases |q|
  {
    if |q| == 1 {
      assert IsPath(edges, p);
    } else {
      var q' := q[..|q| - 1];
      assert IsPath(edges, q') by {
        assert forall i :: 0 <= i < |q'| ==> q'[i] == q[i];
      }
      PathTrans(edges, p, q');
      ReachableStep(edges, p[0], q'[|q'| - 1], q[|q| - 1]);
    }
  }

  lemma ReachableTrans(edges: Edges, a: int, b: int, c: int)
    ensures Reachable(edges, a, b) && Reachable(edges, b, c) ==> Reachable(edges, a, c)
  {
    if Reachable(edges, a, b) && Reachable(edges, b, c) {
      var p :| IsPath(edges, p) && p[0] == a && p[|p| - 1] == b;
      var q :| IsPath(edges, q) && q[0] == b && q[|q| - 1] == c;
      PathTrans(edges, p, q);
    }
  }

  /** A path that starts inside a set closed under successors never leaves it. */
  lemma {:induction false} PathStaysInClosedSet(edges: Edges, s: set<int>, p: seq<int>)
    requires IsPath(edges, p) && p[0] in s
    requires forall v :: v in s ==> Succ(edges, v) <= s
    ensures p[|p| - 1] in s
    decreases |p|
  {
    if |p| > 1 {
      var p' := p[..|p| - 1];
      assert IsPath(edges, p') by {
        assert forall i :: 0 <= i < |p'| ==> p'[i] == p[i];
      }
      PathStaysInClosedSet(edges, s, p');
      assert p[|p| - 1] in Succ(edges, p[|p| - 2]);
    }
  }

  lemma ClosedSetBlocks(edges: Edges, s: set<int>, a: int, b: int)
    requires a in s && b !in s
    requires forall v :: v in s ==> Succ(edges, v) <= s
    ensures !Reachable(edges, a, b)
  {
    forall p | IsPath(edges, p) && p[0] == a
      ensures p[|p| - 1] != b
    {
      PathStaysInClosedSet(edges, s, p);
    }
  }

  // ---------------------------------------------------------------------------
  // The circular-dependency check

  lemma SuccInTargets(edges: Edges, n: int)
    ensures Succ(edges, n) <= Targets(edges)
  {
  }

  lemma MarkShrinksUnvisited(universe: set<int>, visited: set<int>, n: int)
    requires n in universe && n !in visited
    ensures |universe - (visited + {n})| < |universe - visited|
  {
    assert (universe - (visited + {n})) + {n} == universe - visited;
  }

  /** Every node in `s` is reachable from `from`. */
  ghost predicate AllReachable(edges: Edges, from: int, s: set<int>) {
    forall n :: n in s ==> Reachable(edges, from, n)
  }

  /** The successors of every visited node are visited or queued. */
  ghost predicate Covered(edges: Edges, visited: set<int>, frontier: set<int>) {
    forall v :: v in visited ==> Succ(edges, v) <= frontier
  }

  /** The traversal invariant: everything seen lies in `universe` and is
      reachable from `from`, `from` has been seen, `to` was never expanded,
      and every expanded node has its successors seen. */
  ghost predicate TraversalInv(edges: Edges, from: int, to: int, universe: set<int>,
                               visited: set<int>, work: set<int>) {
    && visited <= universe && work <= universe
    && from in visited + work
    && to !in visited
    && AllReachable(edges, from, visited + work)
    && Covered(edges, visited, visited + work)
  }

  /** Expanding a node other than `to` keeps the traversal invariant and marks
      one more node of `universe`. */
  lemma ExpandKeepsInv(edges: Edges, from: int, to: int, universe: set<int>,
                       visited: set<int>, work: set<int>, n: int)
    requires universe == Targets(edges) + {from}
    requires TraversalInv(edges, from, to, universe, visited, work)
    requires n in work && n !in visited && n != to
    ensures TraversalInv(edges, from, to, universe, visited + {n}, work - {n} + Succ(edges, n))
    ensures |universe - (visited + {n})| < |universe - visited|
  {
    var succ := Succ(edges, n);
    var visited', work' := visited + {n}, work - {n} + succ;
    assert visited' + work' == (visited + work) + succ;
    forall m | m in succ
      ensures Reachable(edges, from, m)
    {
      ReachableStep(edges, from, n, m);
    }
    assert AllReachable(edges, from, visited' + work');
    assert Covered(edges, visited', visited' + work') by {
      forall v | v in visited'
        ensures Succ(edges, v) <= visited' + work'
      {
        if v != n {
          assert Succ(edges, v) <= visited + work;
        }
      }
    }
    SuccInTargets(edges, n);
    MarkShrinksUnvisited(universe, visited, n);
  }

  /** Decides whether `to` is reachable from `from`, as the check's `hasPath`
      does: a node equal to `to` ends the search, a visited node is skipped,
      any other node is marked visited and its successors are queued. The
      number of expansions is bounded by the number of distinct nodes, so each
      node is expanded at most once. */
  method HasPath(edges: Edges, from: int, to: int) returns (found: bool, expansions: nat)
    ensures found <==> Reachable(edges, from, to)
    ensures expansions <= |Targets(edges) + {from}|
  {
    ghost var universe := Targets(edges) + {from};
    var visited: set<int> := {};
    var work: set<int> := {from};
    expansions := 0;
    ReachableRefl(edges, from);
    while work != {}
      invariant TraversalInv(edges, from, to, universe, visited, work)
      invariant expansions == |visited|
      decreases |universe - visited|, |work|
    {
      var n :| n in work;
      if n == to {
        return true, expansions;
      }
      if n in visited {
        work := work - {n};
      } else {
        ExpandKeepsInv(edges, from, to, universe, visited, work, n);
        visited := visited + {n};
        work := work - {n} + Succ(edges, n);
        expansions := expansions + 1;
      }
    }
    ClosedSetBlocks(edges, visited, from, to);
    assert |visited| <= |universe| by {
      assert visited <= universe;
    }
    return false, expansions;
  }

  // ---------------------------------------------------------------------------
  // Edge insertion and removal

  /** The successors after writing edge `e` under key `id`: the old ones, plus
      `e`'s target when `n` is its source. */
  lemma SuccAfterInsert(edges: Edges, id: int, e: Dependency, n: int)
    ensures Succ(edges[id := e], n) <= Succ(edges, n) + (if n == e.sourceId then {e.targetId} else {})
  {
  }

  lemma {:induction false} PathAfterInsert(edges: Edges, id: int, e: Dependency, p: seq<int>)
    requires IsPath(edges[id := e], p)
    ensures || Reachable(edges, p[0], p[|p| - 1])
            || (Reachable(edges, p[0], e.sourceId) && Reachable(edges, e.targetId, p[|p| - 1]))
    decreases |p|
  {
    var a, b := p[0], p[|p| - 1];
    if |p| == 1 {
      ReachableRefl(edges, a);
    } else {
      var p' := p[..|p| - 1];
      assert IsPath(edges[id := e], p') by {
        assert forall i :: 0 <= i < |p'| ==> p'[i] == p[i];
      }
      PathAfterInsert(edges, id, e, p');
      var x := p'[|p'| - 1];
      assert b in Succ(edges[id := e], x);
      SuccAfterInsert(edges, id, e, x);
      if b in Succ(edges, x) {
        if Reachable(edges, a, x) {
          ReachableStep(edges, a, x, b);
        } else {
          ReachableStep(edges, e.targetId, x, b);
        }
      } else {
        assert x == e.sourceId && b == e.targetId;
        ReachableRefl(edges, e.targetId);
        ReachableTrans(edges, a, x, e.sourceId);
      }
    }
  }

  /** A path in the grown graph either avoids the new edge or runs through it. */
  lemma ReachableAfterInsert(edges: Edges, id: int, e: Dependency, a: int, b: int)
    ensures Reachable(edges[id := e], a, b) ==>
              || Reachable(edges, a, b)
              || (Reachable(edges, a, e.sourceId) && Reachable(edges, e.targetId, b))
  {
    if Reachable(edges[id := e], a, b) {
      var p :| IsPath(edges[id := e], p) && p[0] == a && p[|p| - 1] == b;
      PathAfterInsert(edges, id, e, p);
    }
  }

  /** Inserting an edge whose target cannot reach its source keeps the graph acyclic. */
  lemma InsertPreservesAcyclic(edges: Edges, id: int, e: Dependency)
    requires Acyclic(edges)
    requires !Reachable(edges, e.targetId, e.sourceId)
    ensures Acyclic(edges[id := e])
  {
    var edges' := edges[id := e];
    forall k | k in edges'
      ensures !Reachable(edges', edges'[k].targetId, edges'[k].sourceId)
    {
      var f := edges'[k];
      ReachableAfterInsert(edges, id, e, f.targetId, f.sourceId);
      if k != id {
        assert f == edges[k];
        assert f.targetId in Succ(edges, f.sourceId);
        ReachableRefl(edges, f.sourceId);
        ReachableStep(edges, f.sourceId, f.sourceId, f.targetId);
        ReachableTrans(edges, e.targetId, f.sourceId, f.targetId);
        ReachableTrans(edges, e.targetId, f.targetId, e.sourceId);
      }
    }
  }

  /** Reachability only shrinks when edges are taken away. */
  lemma {:induction false} PathInSubgraph(small: Edges, big: Edges, p: seq<int>)
    requires small.Items <= big.Items
    requires IsPath(small, p)
    ensures IsPath(big, p)
  {
    forall i | 0 <= i < |p| - 1
      ensures p[i + 1] in Succ(big, p[i])
    {
      assert p[i + 1] in Succ(small, p[i]);
      var id :| id in small && small[id].sourceId == p[i] && small[id].targetId == p[i + 1];
      assert (id, small[id]) in small.Items;
    }
  }

  lemma ReachableInSubgraph(small: Edges, big: Edges, a: int, b: int)
    requires small.Items <= big.Items
    ensures Reachable(small, a, b) ==> Reachable(big, a, b)
  {
    if Reachable(small, a, b) {
      var p :| IsPath(small, p) && p[0] == a && p[|p| - 1] == b;
      PathInSubgraph(small, big, p);
    }
  }

  /** Removing an edge keeps the graph acyclic, and every insertion the check
      admitted before the removal it still admits after it. */
  lemma RemovePreservesAcyclic(edges: Edges, id: int)
    ensures Acyclic(edges) ==> Acyclic(edges - {id})
    ensures forall a, b :: Reachable(edges - {id}, a, b) ==> Reachable(edges, a, b)
  {
    var small := edges - {id};
    assert small.Items <= edges.Items;
    forall a, b ensures Reachable(small, a, b) ==> Reachable(edges, a, b) {
      ReachableInSubgraph(small, edges, a, b);
    }
  }
}
