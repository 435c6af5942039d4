// Routes: a walk together with the adjacency entry taken at each step.
// calculateCost always takes the first entry that leads to the next node
// (PathCost); uniformCost relaxes along every entry, so its distances are
// route costs. This module relates the two.
module Routes {
  import opened Graphs

  /** `ks[i]` picks an entry of `w[i]`'s adjacency list that leads to `w[i + 1]`. */
  predicate IsRoute(g: Graph, w: seq<NodeId>, ks: seq<nat>) {
    && |w| > 0 && |ks| == |w| - 1
    && forall i :: 0 <= i < |ks| ==> w[i] in g && ks[i] < |g[w[i]]| && g[w[i]][ks[i]].to == w[i + 1]
  }

  lemma RoutePrefix(g: Graph, w: seq<NodeId>, ks: seq<nat>)
    requires IsRoute(g, w, ks) && ks != []
    ensures IsRoute(g, w[..|w| - 1], ks[..|ks| - 1])
  {
  }

  /** The total cost of the entries a route takes. */
  function RouteCost(g: Graph, w: seq<NodeId>, ks: seq<nat>): nat
    requires IsRoute(g, w, ks)
    decreases |ks|
  {
    if ks == [] then 0
    else
      RoutePrefix(g, w, ks);
      RouteCost(g, w[..|w| - 1], ks[..|ks| - 1]) + g[w[|w| - 2]][ks[|ks| - 1]].cost
  }

  /** Extending a route by one entry adds that entry's cost. */
  lemma RouteSnoc(g: Graph, w: seq<NodeId>, ks: seq<nat>, k: nat)
    requires IsRoute(g, w, ks) && w[|w| - 1] in g && k < |g[w[|w| - 1]]|
    ensures IsRoute(g, w + [g[w[|w| - 1]][k].to], ks + [k])
    ensures RouteCost(g, w + [g[w[|w| - 1]][k].to], ks + [k]) == RouteCost(g, w, ks) + g[w[|w| - 1]][k].cost
  {
    var x := g[w[|w| - 1]][k].to;
    assert (w + [x])[..|w|] == w;
    assert (ks + [k])[..|ks|] == ks;
  }

  /** A route visits a walk. */
  lemma RouteIsWalk(g: Graph, w: seq<NodeId>, ks: seq<nat>)
    requires IsRoute(g, w, ks)
    ensures IsWalk(g, w)
  {
    forall i | 0 <= i < |w| - 1 ensures HasEdge(g, w[i], w[i + 1]) {
      EntryGivesEdge(g, w[i], ks[i]);
    }
  }

  /** Every walk is a route through the first matching entries, and what
      calculateCost charges for it is that route's cost. */
  lemma {:induction false} WalkHasRoute(g: Graph, w: seq<NodeId>) returns (ks: seq<nat>)
    requires IsWalk(g, w) && |w| > 0
    ensures IsRoute(g, w, ks) && PathCost(g, w) == Fin(RouteCost(g, w, ks))
    decreases |w|
  {
    if |w| == 1 {
      ks := [];
    } else {
      var init := w[..|w| - 1];
      assert IsWalk(g, init) by {
        forall i | 0 <= i < |init| - 1 ensures HasEdge(g, init[i], init[i + 1]) {
          assert init[i] == w[i] && init[i + 1] == w[i + 1];
        }
      }
      var ks0 := WalkHasRoute(g, init);
      var a, b := w[|w| - 2], w[|w| - 1];
      assert HasEdge(g, a, b);
      FindEdgeIffHasEdge(g, a, b);
      var e := FindEdge(g[a], b).value;
      var k :| 0 <= k < |g[a]| && g[a][k] == e && e.to == b && forall j :: 0 <= j < k ==> g[a][j].to != b;
      RouteSnoc(g, init, ks0, k);
      assert init + [b] == w;
      PathCostSnoc(g, init, b);
      ks := ks0 + [k];
    }
  }

  /** No adjacency list holds two entries to the same node. */
  predicate NoParallelEdges(g: Graph) {
    forall u, i, j :: u in g && 0 <= i < j < |g[u]| ==> g[u][i].to != g[u][j].to
  }

  /** Without parallel entries a walk has one route only, and
      calculateCost charges exactly its cost. */
  lemma {:induction false} RouteCostUnique(g: Graph, w: seq<NodeId>, ks: seq<nat>)
    requires NoParallelEdges(g) && IsRoute(g, w, ks)
    ensures PathCost(g, w) == Fin(RouteCost(g, w, ks))
    decreases |ks|
  {
    if ks != [] {
      var init, ks0 := w[..|w| - 1], ks[..|ks| - 1];
      RoutePrefix(g, w, ks);
      RouteCostUnique(g, init, ks0);
      var a, b, k := w[|w| - 2], w[|w| - 1], ks[|ks| - 1];
      assert g[a][k].to == b;
      var f := FindEdge(g[a], b);
      assert f.Some?;
      var k0 :| 0 <= k0 < |g[a]| && g[a][k0] == f.value && f.value.to == b && forall j :: 0 <= j < k0 ==> g[a][j].to != b;
      assert k0 == k;
    }
  }
}
