// Path reconstruction, path cost and path edge set: the three helpers
// that the searches of app.js share (tracePath, calculateCost, pathEdges).
module Paths {
  import opened Graphs

  /** The node after `n` on the walk up the parent map: its parent, or
      nothing when `n` holds the Root entry (null) or no entry (undefined). */
  function Up(parents: ParentMap, n: NodeId): (r: Option<NodeId>)
    ensures r.Some? <==> HasParent(parents, n)
    ensures r.Some? ==> parents[n] == From(r.value)
  {
    if n in parents && parents[n].From? then Some(parents[n].node) else None
  }

  function UpMeasure(parents: ParentMap, rank: map<NodeId, nat>, current: Option<NodeId>): nat
    requires parents.Keys <= rank.Keys
  {
    if current.None? then 0
    else if current.value in parents then rank[current.value] + 2
    else 1
  }

  /** tracePath: collects target, its parent, its parent's parent, ...
      until a node with no parent, reverses the collection, and keeps it
      only if it begins at `source`. The ghost `rank` witnesses that the
      parent links contain no cycle, so the walk up terminates. The result
      is the unique rooted chain from `source` to `target`, or [] when
      there is none. */
  method TracePath(parents: ParentMap, source: NodeId, target: NodeId, ghost rank: map<NodeId, nat>)
    returns (path: seq<NodeId>)
    requires RankedBy(parents, rank)
    ensures path != [] ==> IsRootedChain(parents, path) && path[0] == source && path[|path| - 1] == target
    ensures forall c :: IsRootedChain(parents, c) && c[0] == source && c[|c| - 1] == target ==> path == c
    ensures target !in parents && target != source ==> path == []
  {
    var result: seq<NodeId> := [];
    var current: Option<NodeId> := Some(target);
    while current.Some?
      invariant result == [] ==> current == Some(target)
      invariant result != [] ==> result[0] == target && current == Up(parents, result[|result| - 1])
      invariant forall i :: 0 <= i < |result| - 1 ==> result[i] in parents && parents[result[i]] == From(result[i + 1])
      decreases UpMeasure(parents, rank, current)
    {
      result := result + [current.value];
      current := Up(parents, current.value);
    }
    path := Reverse(result);
    if path[0] != source {
      path := [];
    }
    ghost var chain := Reverse(result);
    assert IsRootedChain(parents, chain) by {
      forall i | 0 < i < |chain| ensures chain[i] in parents && parents[chain[i]] == From(chain[i - 1]) {
        var j := |result| - 1 - i;
        assert chain[i] == result[j] && chain[i - 1] == result[j + 1];
      }
    }
    forall c | IsRootedChain(parents, c) && c[0] == source && c[|c| - 1] == target ensures path == c {
      RootedChainUnique(parents, c, chain);
    }
  }

  /** In a parent tree whose links are graph edges, what tracePath
      returns is empty exactly when the target has no parent-map entry,
      and otherwise a walk from the root to the target with one node
      more than the target's depth. */
  lemma TracedInTree(g: Graph, parents: ParentMap, root: NodeId, depth: map<NodeId, nat>,
                     target: NodeId, path: seq<NodeId>)
    requires ParentTree(parents, root, depth) && LinksAreEdges(g, parents)
    requires path != [] ==> IsRootedChain(parents, path) && path[0] == root && path[|path| - 1] == target
    requires forall c :: IsRootedChain(parents, c) && c[0] == root && c[|c| - 1] == target ==> path == c
    requires target !in parents && target != root ==> path == []
    ensures path != [] <==> target in parents
    ensures path != [] ==> IsPathBetween(g, path, root, target) && |path| == depth[target] + 1
    ensures NoDuplicates(path)
    ensures NoLookupFault(g, path)
  {
    if target in parents {
      var c := ChainToRoot(parents, root, depth, target);
      assert path == c;
      ChainIsWalk(g, parents, path);
      ChainDistinct(parents, root, depth, path);
    }
    WalkHasNoLookupFault(g, path);
  }

  /** Lookups calculateCost performs are defined: whenever the path is a
      walk up to index i, `graph[path[i]]` exists (otherwise the source
      throws when it calls `.find` on undefined). */
  predicate NoLookupFault(g: Graph, p: seq<NodeId>) {
    forall i :: 0 <= i < |p| - 1 && IsWalk(g, p[..i + 1]) ==> p[i] in g
  }

  /** Every walk, and every path of at most one node, is safe to cost. */
  lemma WalkHasNoLookupFault(g: Graph, p: seq<NodeId>)
    requires IsWalk(g, p) || |p| <= 1
    ensures NoLookupFault(g, p)
  {
    forall i | 0 <= i < |p| - 1 ensures p[i] in g {
      assert HasEdge(g, p[i], p[i + 1]);
    }
  }

  /** calculateCost: accumulates the first matching entry's cost for each
      consecutive pair and returns Infinity as soon as a pair has none. */
  method CalculateCost(g: Graph, path: seq<NodeId>) returns (c: Cost)
    requires NoLookupFault(g, path)
    ensures c == PathCost(g, path)
    ensures |path| <= 1 ==> c == Fin(0)
    ensures c.Inf? <==> !IsWalk(g, path)
  {
    PathCostFiniteIffWalk(g, path);
    var total: nat := 0;
    var i := 0;
    while i < |path| - 1
      invariant 0 <= i <= if |path| == 0 then 0 else |path| - 1
      invariant |path| > 0 ==> PathCost(g, path[..i + 1]) == Fin(total)
      invariant |path| == 0 ==> total == 0
    {
      PathCostFiniteIffWalk(g, path[..i + 1]);
      var edge := FindEdge(g[path[i]], path[i + 1]);
      assert path[..i + 2][..i + 1] == path[..i + 1];
      if edge.None? {
        assert PathCost(g, path[..i + 2]) == Inf;
        PathCostPrefix(g, path, i + 2);
        c := Inf;
        return;
      }
      total := total + edge.value.cost;
      i := i + 1;
    }
    if |path| > 0 {
      assert path[..i + 1] == path;
    }
    c := Fin(total);
  }

  /** The two orientations of the i-th consecutive pair of `p`. */
  predicate IsPathEdge(p: seq<NodeId>, e: (NodeId, NodeId)) {
    exists i :: 0 <= i < |p| - 1 && (e == (p[i], p[i + 1]) || e == (p[i + 1], p[i]))
  }

  lemma AddPairBound<T>(s: set<T>, x: T, y: T)
    ensures |s + {x, y}| <= |s| + 2
  {
    if x in s {
      assert s + {x, y} == s + {y};
    } else if y in s {
      assert s + {x, y} == s + {x};
    } else if x == y {
      assert s + {x, y} == s + {x};
    }
  }

  /** `s` holds exactly the two orientations of the first `i` pairs of `p`. */
  predicate PairsSoFar(p: seq<NodeId>, i: nat, s: set<(NodeId, NodeId)>)
    requires i < |p| || i == 0
  {
    && (forall j :: 0 <= j < i ==> (p[j], p[j + 1]) in s && (p[j + 1], p[j]) in s)
    && (forall e :: e in s ==> exists j :: 0 <= j < i && (e == (p[j], p[j + 1]) || e == (p[j + 1], p[j])))
  }

  lemma PairsStep(p: seq<NodeId>, i: nat, s: set<(NodeId, NodeId)>)
    requires i + 1 < |p| && PairsSoFar(p, i, s)
    ensures PairsSoFar(p, i + 1, s + {(p[i], p[i + 1]), (p[i + 1], p[i])})
  {
    var t := s + {(p[i], p[i + 1]), (p[i + 1], p[i])};
    forall e | e in t ensures exists j :: 0 <= j < i + 1 && (e == (p[j], p[j + 1]) || e == (p[j + 1], p[j])) {
      if e in s {
        var j :| 0 <= j < i && (e == (p[j], p[j + 1]) || e == (p[j + 1], p[j]));
        assert 0 <= j < i + 1;
      } else {
        assert e == (p[i], p[i + 1]) || e == (p[i + 1], p[i]);
      }
    }
  }

  /** pathEdges: the set of both orientations of every consecutive pair
      of `path` (the source encodes a pair as the string "a__b"). */
  method PathEdges(path: seq<NodeId>) returns (s: set<(NodeId, NodeId)>)
    ensures forall i :: 0 <= i < |path| - 1 ==> (path[i], path[i + 1]) in s && (path[i + 1], path[i]) in s
    ensures forall e :: e in s ==> IsPathEdge(path, e)
    ensures forall a, b :: (a, b) in s ==> (b, a) in s
    ensures |path| <= 1 ==> s == {}
    ensures |path| > 0 ==> |s| <= 2 * (|path| - 1)
  {
    s := {};
    var i := 0;
    while i < |path| - 1
      invariant 0 <= i <= if |path| == 0 then 0 else |path| - 1
      invariant PairsSoFar(path, i, s)
      invariant |s| <= 2 * i
    {
      AddPairBound(s, (path[i], path[i + 1]), (path[i + 1], path[i]));
      PairsStep(path, i, s);
      s := s + {(path[i], path[i + 1]), (path[i + 1], path[i])};
      i := i + 1;
    }
    forall a, b | (a, b) in s ensures (b, a) in s {
      var j :| 0 <= j < i && ((a, b) == (path[j], path[j + 1]) || (a, b) == (path[j + 1], path[j]));
    }
  }
}
