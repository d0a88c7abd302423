// Reachability in a finite graph, as the worklist loops of the release scripts compute it.
module Closure {
  // A node the graph does not hold has no successors.
  ghost predicate Closed<K>(graph: map<K, set<K>>, seeds: set<K>, nodes: set<K>) {
    seeds <= nodes && forall k :: k in nodes && k in graph ==> graph[k] <= nodes
  }

  ghost function Universe<K>(graph: map<K, set<K>>, seeds: set<K>): set<K> {
    seeds + (set k, n | k in graph && n in graph[k] :: n)
  }

  // The least closed set of nodes.
  ghost function Reach<K(!new)>(graph: map<K, set<K>>, seeds: set<K>): set<K> {
    set k | k in Universe(graph, seeds) && forall nodes :: Closed(graph, seeds, nodes) ==> k in nodes
  }

  lemma ReachIsLeastClosed<K(!new)>(graph: map<K, set<K>>, seeds: set<K>)
    ensures Closed(graph, seeds, Reach(graph, seeds))
    ensures forall nodes :: Closed(graph, seeds, nodes) ==> Reach(graph, seeds) <= nodes
  {
    var reach := Reach(graph, seeds);
    forall k, n | k in reach && k in graph && n in graph[k] ensures n in reach {
      forall nodes | Closed(graph, seeds, nodes) ensures n in nodes {
        assert k in nodes;
      }
    }
  }

  // What a worklist has when it runs dry is exactly the reachable nodes, in whatever order it was worked off.
  lemma DrainedWorklist<K(!new)>(graph: map<K, set<K>>, seeds: set<K>, seen: set<K>)
    requires Closed(graph, seeds, seen) && seen <= Reach(graph, seeds)
    ensures seen == Reach(graph, seeds)
  {
    ReachIsLeastClosed(graph, seeds);
  }

  // Only the part of the graph that is reached matters.
  lemma ReachIsLocal<K(!new)>(graph: map<K, set<K>>, other: map<K, set<K>>, seeds: set<K>)
    requires forall k :: k in Reach(graph, seeds) ==> (k in graph <==> k in other)
    requires forall k :: k in Reach(graph, seeds) && k in graph ==> graph[k] == other[k]
    ensures Reach(other, seeds) == Reach(graph, seeds)
  {
    var reach := Reach(graph, seeds);
    ReachIsLeastClosed(graph, seeds);
    ReachIsLeastClosed(other, seeds);
    assert Closed(other, seeds, reach);
    var both := reach * Reach(other, seeds);
    forall k | k in both && k in graph ensures graph[k] <= both {
      assert k in other;
    }
    assert Closed(graph, seeds, both);
  }

  ghost predicate IsStep<K>(graph: map<K, set<K>>, walk: seq<K>, i: int)
    requires 0 < i < |walk|
  {
    walk[i - 1] in graph && walk[i] in graph[walk[i - 1]]
  }

  // A walk from a seed along the edges of the graph.
  ghost predicate IsWalk<K>(graph: map<K, set<K>>, seeds: set<K>, walk: seq<K>) {
    && walk != []
    && walk[0] in seeds
    && forall i :: 0 < i < |walk| ==> IsStep(graph, walk, i)
  }

  ghost predicate Walkable<K(!new)>(graph: map<K, set<K>>, seeds: set<K>, k: K) {
    exists walk :: IsWalk(graph, seeds, walk) && walk[|walk| - 1] == k
  }

  // The least closed set is the set of nodes some walk leads to.
  lemma ReachIsWalks<K(!new)>(graph: map<K, set<K>>, seeds: set<K>, k: K)
    ensures k in Reach(graph, seeds) <==> Walkable(graph, seeds, k)
  {
    if Walkable(graph, seeds, k) {
      var walk :| IsWalk(graph, seeds, walk) && walk[|walk| - 1] == k;
      WalkStaysInReach(graph, seeds, walk);
    }
    var walked := set n | n in Universe(graph, seeds) && Walkable(graph, seeds, n);
    forall n | n in seeds ensures n in walked {
      assert IsWalk(graph, seeds, [n]) && [n][|[n]| - 1] == n;
    }
    forall n, next | n in walked && n in graph && next in graph[n] ensures next in walked {
      WalkOneFurther(graph, seeds, n, next);
    }
    assert Closed(graph, seeds, walked);
  }

  lemma WalkOneFurther<K(!new)>(graph: map<K, set<K>>, seeds: set<K>, n: K, next: K)
    requires Walkable(graph, seeds, n) && n in graph && next in graph[n]
    ensures Walkable(graph, seeds, next)
  {
    var walk :| IsWalk(graph, seeds, walk) && walk[|walk| - 1] == n;
    var longer := walk + [next];
    forall i | 0 < i < |longer| ensures IsStep(graph, longer, i) {
      if i < |walk| { assert IsStep(graph, walk, i); }
    }
    assert IsWalk(graph, seeds, longer) && longer[|longer| - 1] == next;
  }

  lemma WalkStaysInReach<K(!new)>(graph: map<K, set<K>>, seeds: set<K>, walk: seq<K>)
    requires IsWalk(graph, seeds, walk)
    ensures walk[|walk| - 1] in Reach(graph, seeds)
  {
    ReachIsLeastClosed(graph, seeds);
    if |walk| > 1 {
      var shorter := walk[..|walk| - 1];
      forall i | 0 < i < |shorter| ensures IsStep(graph, shorter, i) {
        assert IsStep(graph, walk, i);
      }
      assert IsStep(graph, walk, |walk| - 1);
      WalkStaysInReach(graph, seeds, shorter);
    }
  }
}
