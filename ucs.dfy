// uniformCost: Dijkstra's algorithm over a list frontier. Distances start
// at Infinity except for the start node; each round removes the cheapest
// frontier entry (the earliest inserted one among equals, which is what a
// stable sort followed by shift yields), skips it if its node is already
// finalized, and otherwise finalizes the node and relaxes its adjacency
// entries with a strict comparison.
module Ucs {
  import opened Graphs
  import opened Paths
  import opened Routes

  /** A frontier entry: a node and the tentative cost it was pushed with. */
  datatype Entry = Entry(node: NodeId, cost: nat)

  type Distances = map<NodeId, Cost>

  // ----- choosing the entry to pop -----

  /** The position of the entry that sorting the frontier by cost (a
      stable sort) and shifting removes: the first entry of least cost. */
  function FirstMin(pq: seq<Entry>): (i: nat)
    requires pq != []
    ensures i < |pq|
    ensures forall j :: 0 <= j < |pq| ==> pq[i].cost <= pq[j].cost
    ensures forall j :: 0 <= j < i ==> pq[i].cost < pq[j].cost
    decreases |pq|
  {
    if |pq| == 1 then 0
    else
      var init := pq[..|pq| - 1];
      var i := FirstMin(init);
      assert forall j :: 0 <= j < |init| ==> init[j] == pq[j];
      if pq[|pq| - 1].cost < pq[i].cost then |pq| - 1 else i
  }

  /** The frontier after removing position i. */
  function Without(pq: seq<Entry>, i: nat): (r: seq<Entry>)
    requires i < |pq|
    ensures |r| == |pq| - 1
    ensures forall e :: e in pq && e != pq[i] ==> e in r
    ensures forall e :: e in r ==> e in pq
    ensures multiset(r) == multiset(pq) - multiset{pq[i]}
    ensures forall j :: 0 <= j < i ==> r[j] == pq[j]
    ensures forall j :: i <= j < |r| ==> r[j] == pq[j + 1]
  {
    assert pq == pq[..i] + [pq[i]] + pq[i + 1..];
    pq[..i] + pq[i + 1..]
  }

  // ----- relaxing the entries of one node -----

  /** The lesser of two costs. */
  function CMin(a: Cost, b: Cost): (r: Cost)
    ensures r.AtMost(a) && r.AtMost(b) && (r == a || r == b)
  {
    if a.AtMost(b) then a else b
  }

  /** The cheapest cost at which the entries `es` of a node at distance
      `base` reach `x`, or Inf when none of them leads to `x`. */
  function MinVia(es: seq<Edge>, x: NodeId, base: nat): (r: Cost)
    ensures r.Fin? ==> base <= r.n
    decreases |es|
  {
    if es == [] then Inf
    else CMin(MinVia(es[..|es| - 1], x, base),
              if es[|es| - 1].to == x then Fin(base + es[|es| - 1].cost) else Inf)
  }

  /** MinVia is no more than what any entry to `x` offers ... */
  lemma {:induction false} MinViaBelow(es: seq<Edge>, x: NodeId, base: nat, k: nat)
    requires k < |es| && es[k].to == x
    ensures MinVia(es, x, base).AtMost(Fin(base + es[k].cost))
    decreases |es|
  {
    if k < |es| - 1 {
      var init := es[..|es| - 1];
      assert init[k] == es[k];
      MinViaBelow(init, x, base, k);
    }
  }

  /** ... and a finite MinVia is what some entry to `x` offers. */
  lemma {:induction false} MinViaAchieved(es: seq<Edge>, x: NodeId, base: nat) returns (k: nat)
    requires MinVia(es, x, base).Fin?
    ensures k < |es| && es[k].to == x && MinVia(es, x, base) == Fin(base + es[k].cost)
    decreases |es|
  {
    var init := es[..|es| - 1];
    if MinVia(es, x, base) == MinVia(init, x, base) {
      k := MinViaAchieved(init, x, base);
      assert init[k] == es[k];
    } else {
      k := |es| - 1;
    }
  }

  /** Parent and depth entries follow the distances: a key is added or
      rewritten exactly when its distance drops, and then names `node` as
      parent, one level below it. */
  ghost predicate Relinked(node: NodeId, dist: Distances, parent: ParentMap, depth: map<NodeId, nat>,
                           dist': Distances, parent': ParentMap, depth': map<NodeId, nat>)
    requires parent.Keys == depth.Keys && node in depth && dist'.Keys == dist.Keys
  {
    && (forall x :: x in parent' <==> x in parent || (x in dist && dist'[x] != dist[x]))
    && parent'.Keys == depth'.Keys
    && (forall x :: x in parent && x in dist && dist'[x] == dist[x] ==> parent'[x] == parent[x] && depth'[x] == depth[x])
    && (forall x :: x in dist && dist'[x] != dist[x] ==> parent'[x] == From(node) && depth'[x] == depth[node] + 1)
  }

  /** Every distance is the lesser of the old one and what the first `k`
      entries of `node` offer. */
  ghost predicate Lowered(g: Graph, node: NodeId, k: nat, dist: Distances, dist': Distances)
    requires node in g && k <= |g[node]| && node in dist && dist[node].Fin?
  {
    && dist'.Keys == dist.Keys
    && forall x :: x in dist ==> dist'[x] == CMin(dist[x], MinVia(g[node][..k], x, dist[node].n))
  }

  /** The frontier only grew, by entries no cheaper than `base` and no
      cheaper than their node's distance, and it holds every lowered
      distance. */
  ghost predicate Grown(base: nat, dist: Distances, pq: seq<Entry>, dist': Distances, pq': seq<Entry>)
    requires dist'.Keys == dist.Keys
  {
    && |pq| <= |pq'| && pq'[..|pq|] == pq
    && (forall i :: |pq| <= i < |pq'| ==>
          pq'[i].node in dist && dist'[pq'[i].node].AtMost(Fin(pq'[i].cost)) && base <= pq'[i].cost)
    && (forall x :: x in dist && dist'[x] != dist[x] ==> dist'[x].Fin? && Entry(x, dist'[x].n) in pq')
  }

  /** What the inner loop has done after the first `k` entries of `node`. */
  ghost predicate RelaxedUpTo(g: Graph, node: NodeId, k: nat,
                              dist: Distances, parent: ParentMap, pq: seq<Entry>, depth: map<NodeId, nat>,
                              dist': Distances, parent': ParentMap, pq': seq<Entry>, depth': map<NodeId, nat>)
    requires node in g && k <= |g[node]| && node in dist && dist[node].Fin?
    requires parent.Keys == depth.Keys && node in depth
  {
    && Lowered(g, node, k, dist, dist')
    && Relinked(node, dist, parent, depth, dist', parent', depth')
    && Grown(dist[node].n, dist, pq, dist', pq')
  }

  lemma CMinAssoc(a: Cost, b: Cost, c: Cost)
    ensures CMin(CMin(a, b), c) == CMin(a, CMin(b, c))
  {
  }

  /** Taking one more entry into account. */
  lemma MinViaStep(es: seq<Edge>, k: nat, x: NodeId, base: nat)
    requires k < |es|
    ensures MinVia(es[..k + 1], x, base) ==
            CMin(MinVia(es[..k], x, base), if es[k].to == x then Fin(base + es[k].cost) else Inf)
  {
    assert es[..k + 1][..k] == es[..k];
    assert es[..k + 1][k] == es[k];
  }

  /** No entry of `node` lowers `node`'s own distance. */
  lemma NodeKept(g: Graph, node: NodeId, k: nat, dist: Distances, dist': Distances)
    requires node in g && k <= |g[node]| && node in dist && dist[node].Fin? && node in dist'
    requires dist'[node] == CMin(dist[node], MinVia(g[node][..k], node, dist[node].n))
    ensures dist'[node] == dist[node]
  {
  }

  /** The distances after entry k, given those before it. */
  lemma OfferStep(g: Graph, node: NodeId, k: nat, dist: Distances, dist': Distances)
    requires node in g && k < |g[node]| && node in dist && dist[node].Fin? && dist'.Keys == dist.Keys
    requires forall x :: x in dist ==> dist'[x] == CMin(dist[x], MinVia(g[node][..k], x, dist[node].n))
    ensures forall x :: x in dist ==>
              CMin(dist[x], MinVia(g[node][..k + 1], x, dist[node].n)) ==
              CMin(dist'[x], if g[node][k].to == x then Fin(dist[node].n + g[node][k].cost) else Inf)
  {
    forall x | x in dist
      ensures CMin(dist[x], MinVia(g[node][..k + 1], x, dist[node].n)) ==
              CMin(dist'[x], if g[node][k].to == x then Fin(dist[node].n + g[node][k].cost) else Inf)
    {
      MinViaStep(g[node], k, x, dist[node].n);
      CMinAssoc(dist[x], MinVia(g[node][..k], x, dist[node].n),
                if g[node][k].to == x then Fin(dist[node].n + g[node][k].cost) else Inf);
    }
  }

  /** Entry k offers no improvement: nothing changes. */
  lemma RelaxKeep(g: Graph, node: NodeId, k: nat,
                  dist: Distances, parent: ParentMap, pq: seq<Entry>, depth: map<NodeId, nat>,
                  dist': Distances, parent': ParentMap, pq': seq<Entry>, depth': map<NodeId, nat>)
    requires WellFormed(g) && dist.Keys == g.Keys
    requires node in g && k < |g[node]| && node in dist && dist[node].Fin? && parent.Keys == depth.Keys && node in depth
    requires RelaxedUpTo(g, node, k, dist, parent, pq, depth, dist', parent', pq', depth')
    requires dist'[g[node][k].to].AtMost(Fin(dist[node].n + g[node][k].cost))
    ensures RelaxedUpTo(g, node, k + 1, dist, parent, pq, depth, dist', parent', pq', depth')
  {
    OfferStep(g, node, k, dist, dist');
  }

  /** Entry k improves its target: the target's distance, parent and
      depth are rewritten and the target is pushed. */
  lemma RelaxUpdate(g: Graph, node: NodeId, k: nat,
                    dist: Distances, parent: ParentMap, pq: seq<Entry>, depth: map<NodeId, nat>,
                    dist': Distances, parent': ParentMap, pq': seq<Entry>, depth': map<NodeId, nat>,
                    alt: Cost, d2: Distances, p2: ParentMap, q2: seq<Entry>, h2: map<NodeId, nat>)
    requires WellFormed(g) && dist.Keys == g.Keys
    requires node in g && k < |g[node]| && node in dist && dist[node].Fin? && parent.Keys == depth.Keys && node in depth
    requires RelaxedUpTo(g, node, k, dist, parent, pq, depth, dist', parent', pq', depth')
    requires alt == Fin(dist[node].n + g[node][k].cost) && !dist'[g[node][k].to].AtMost(alt)
    requires d2 == dist'[g[node][k].to := alt] && p2 == parent'[g[node][k].to := From(node)]
    requires q2 == pq' + [Entry(g[node][k].to, alt.n)] && h2 == depth'[g[node][k].to := depth[node] + 1]
    ensures RelaxedUpTo(g, node, k + 1, dist, parent, pq, depth, d2, p2, q2, h2)
  {
    UpdateDistances(g, node, k, dist, dist');
    UpdateLinks(node, dist, parent, depth, dist', parent', depth', g[node][k].to, alt, d2, p2, h2);
    UpdateQueue(dist, pq, dist', pq', dist[node].n, g[node][k].to, alt);
  }

  /** Entry k lowers its target to `alt`; the other distances stay. */
  lemma UpdateDistances(g: Graph, node: NodeId, k: nat, dist: Distances, dist': Distances)
    requires WellFormed(g) && dist.Keys == g.Keys
    requires node in g && k < |g[node]| && node in dist && dist[node].Fin? && dist'.Keys == dist.Keys
    requires forall x :: x in dist ==> dist'[x] == CMin(dist[x], MinVia(g[node][..k], x, dist[node].n))
    requires !dist'[g[node][k].to].AtMost(Fin(dist[node].n + g[node][k].cost))
    ensures Lowered(g, node, k + 1, dist, dist'[g[node][k].to := Fin(dist[node].n + g[node][k].cost)])
    ensures dist'[g[node][k].to].AtMost(dist[g[node][k].to])
  {
    OfferStep(g, node, k, dist, dist');
  }

  /** Lowering the distance of `x` and relinking it to `node` keeps the
      parent map in step with the distances. */
  lemma UpdateLinks(node: NodeId, dist: Distances, parent: ParentMap, depth: map<NodeId, nat>,
                    dist': Distances, parent': ParentMap, depth': map<NodeId, nat>, x: NodeId, alt: Cost,
                    d2: Distances, p2: ParentMap, h2: map<NodeId, nat>)
    requires parent.Keys == depth.Keys && node in depth && dist'.Keys == dist.Keys && x in dist
    requires Relinked(node, dist, parent, depth, dist', parent', depth')
    requires dist'[x].AtMost(dist[x]) && !dist'[x].AtMost(alt)
    requires d2 == dist'[x := alt] && p2 == parent'[x := From(node)] && h2 == depth'[x := depth[node] + 1]
    ensures d2.Keys == dist.Keys && Relinked(node, dist, parent, depth, d2, p2, h2)
  {
    assert d2[x] != dist[x];
    forall y ensures y in p2 <==> y in parent || (y in dist && d2[y] != dist[y]) {
      if y != x {
        assert (y in p2 <==> y in parent') && (y in dist ==> d2[y] == dist'[y]);
      }
    }
    forall y | y in parent && y in dist && d2[y] == dist[y] ensures p2[y] == parent[y] && h2[y] == depth[y] {
      assert y != x && dist'[y] == d2[y];
    }
    forall y | y in dist && d2[y] != dist[y] ensures p2[y] == From(node) && h2[y] == depth[node] + 1 {
      if y != x {
        assert dist'[y] == d2[y];
      }
    }
  }

  /** Pushing the lowered distance of `x` keeps the frontier's growth in step. */
  lemma UpdateQueue(dist: Distances, pq: seq<Entry>, dist': Distances, pq': seq<Entry>, base: nat, x: NodeId, alt: Cost)
    requires dist'.Keys == dist.Keys && x in dist && alt.Fin? && base <= alt.n
    requires Grown(base, dist, pq, dist', pq')
    requires !dist'[x].AtMost(alt)
    ensures Grown(base, dist, pq, dist'[x := alt], pq' + [Entry(x, alt.n)])
  {
    var d2, q2 := dist'[x := alt], pq' + [Entry(x, alt.n)];
    assert q2[..|pq|] == pq'[..|pq|];
    assert Entry(x, alt.n) in q2;
    forall i | |pq| <= i < |q2| ensures q2[i].node in dist && d2[q2[i].node].AtMost(Fin(q2[i].cost)) && base <= q2[i].cost {
      if i < |pq'| {
        assert q2[i] == pq'[i];
      }
    }
  }
  /** The frontier entries the inner loop of uniformCost pushes while it
      walks `es` from a node at distance `base`: one per entry whose
      offer `base + cost` is strictly below its target's distance at that
      moment (the old distance lowered by the earlier entries). */
  ghost function Improvements(es: seq<Edge>, dist: Distances, base: nat): seq<Entry>
    decreases |es|
  {
    if es == [] then []
    else
      var init, e := es[..|es| - 1], es[|es| - 1];
      Improvements(init, dist, base) +
        (if e.to in dist && !CMin(dist[e.to], MinVia(init, e.to, base)).AtMost(Fin(base + e.cost))
         then [Entry(e.to, base + e.cost)] else [])
  }

  /** Taking one more entry into account. */
  lemma ImprovementsStep(es: seq<Edge>, k: nat, dist: Distances, base: nat)
    requires k < |es|
    ensures Improvements(es[..k + 1], dist, base) ==
            Improvements(es[..k], dist, base) +
              (if es[k].to in dist && !CMin(dist[es[k].to], MinVia(es[..k], es[k].to, base)).AtMost(Fin(base + es[k].cost))
               then [Entry(es[k].to, base + es[k].cost)] else [])
  {
    assert es[..k + 1][..k] == es[..k];
    assert es[..k + 1][k] == es[k];
  }

  /** The frontier after entry k: grown by that entry's offer exactly
      when the offer beats the target's current distance. */
  lemma QueueStep(g: Graph, node: NodeId, k: nat, dist: Distances, dist': Distances,
                  pq: seq<Entry>, pq': seq<Entry>, alt: Cost)
    requires WellFormed(g) && dist.Keys == g.Keys
    requires node in g && k < |g[node]| && node in dist && dist[node].Fin?
    requires Lowered(g, node, k, dist, dist')
    requires pq' == pq + Improvements(g[node][..k], dist, dist[node].n)
    requires alt == Fin(dist[node].n + g[node][k].cost)
    ensures pq + Improvements(g[node][..k + 1], dist, dist[node].n) ==
            pq' + (if !dist'[g[node][k].to].AtMost(alt) then [Entry(g[node][k].to, alt.n)] else [])
  {
    ImprovementsStep(g[node], k, dist, dist[node].n);
    assert g[node][k].to in dist;
  }

  /** The inner loop of uniformCost: for each entry of `node`, in order,
      `alt = distance[node] + cost`; when alt is strictly below the
      target's distance, the distance and parent are updated and the
      target is pushed with cost alt. */
  method RelaxEdges(g: Graph, node: NodeId, dist: Distances, parent: ParentMap, pq: seq<Entry>,
                    ghost depth: map<NodeId, nat>)
    returns (dist': Distances, parent': ParentMap, pq': seq<Entry>, ghost depth': map<NodeId, nat>)
    requires WellFormed(g) && node in g && dist.Keys == g.Keys && dist[node].Fin?
    requires parent.Keys == depth.Keys && node in parent
    ensures RelaxedUpTo(g, node, |g[node]|, dist, parent, pq, depth, dist', parent', pq', depth')
    ensures Lowered(g, node, |g[node]|, dist, dist') && Grown(dist[node].n, dist, pq, dist', pq')
    ensures forall x :: x in parent' <==> x in parent || (x in dist && dist'[x] != dist[x])
    ensures forall x :: x in dist && dist'[x] != dist[x] ==> parent'[x] == From(node)
    ensures forall x :: x in parent && x in dist && dist'[x] == dist[x] ==> parent'[x] == parent[x]
    ensures pq' == pq + Improvements(g[node], dist, dist[node].n)
  {
    dist', parent', pq', depth' := dist, parent, pq, depth;
    assert g[node][..0] == [];
    for k := 0 to |g[node]|
      invariant RelaxedUpTo(g, node, k, dist, parent, pq, depth, dist', parent', pq', depth')
      invariant pq' == pq + Improvements(g[node][..k], dist, dist[node].n)
    {
      NodeKept(g, node, k, dist, dist');
      var e := g[node][k];
      var alt := dist'[node].Plus(e.cost);
      QueueStep(g, node, k, dist, dist', pq, pq', alt);
      if !dist'[e.to].AtMost(alt) {
        RelaxUpdate(g, node, k, dist, parent, pq, depth, dist', parent', pq', depth', alt,
                    dist'[e.to := alt], parent'[e.to := From(node)], pq' + [Entry(e.to, alt.n)],
                    depth'[e.to := depth[node] + 1]);
        dist' := dist'[e.to := alt];
        parent' := parent'[e.to := From(node)];
        depth' := depth'[e.to := depth[node] + 1];
        pq' := pq' + [Entry(e.to, alt.n)];
      } else {
        RelaxKeep(g, node, k, dist, parent, pq, depth, dist', parent', pq', depth');
      }
    }
    assert g[node][..|g[node]|] == g[node];
  }

  /** After relaxing all entries: distances never rise, every entry's
      target is within the entry's cost of `node`, a node no farther than
      `node` keeps its distance, and a lowered distance comes from an
      entry of `node`. */
  lemma RelaxedAll(g: Graph, node: NodeId, dist: Distances, dist': Distances)
    requires node in g && node in dist && dist[node].Fin? && dist'.Keys == dist.Keys
    requires forall x :: x in dist ==> dist'[x] == CMin(dist[x], MinVia(g[node][..|g[node]|], x, dist[node].n))
    ensures forall x :: x in dist ==> dist'[x].AtMost(dist[x])
    ensures forall k :: 0 <= k < |g[node]| ==>
              g[node][k].to in dist ==> dist'[g[node][k].to].AtMost(dist[node].Plus(g[node][k].cost))
    ensures forall x :: x in dist && dist[x].AtMost(dist[node]) ==> dist'[x] == dist[x]
    ensures forall x :: x in dist && dist'[x] != dist[x] ==>
              exists k :: 0 <= k < |g[node]| && g[node][k].to == x && dist'[x] == dist[node].Plus(g[node][k].cost)
  {
    var es, base := g[node], dist[node].n;
    assert es[..|es|] == es;
    forall k | 0 <= k < |es| && es[k].to in dist ensures dist'[es[k].to].AtMost(dist[node].Plus(es[k].cost)) {
      MinViaBelow(es, es[k].to, base, k);
    }
    forall x | x in dist && dist'[x] != dist[x]
      ensures exists k :: 0 <= k < |es| && es[k].to == x && dist'[x] == dist[node].Plus(es[k].cost)
    {
      var k := MinViaAchieved(es, x, base);
    }
  }


  // ----- the state of the outer loop -----

  /** The parent links and distances are consistent: the parent map is
      keyed by the nodes of finite distance, its links form the discovery
      tree over the finalized nodes, and each link carries an entry whose
      cost accounts for the step in distance. */
  ghost predicate Books(g: Graph, start: NodeId, order: seq<NodeId>, visited: set<NodeId>,
                        dist: Distances, parent: ParentMap, depth: map<NodeId, nat>)
  {
    && start in g && dist.Keys == g.Keys && dist[start] == Fin(0)
    && Distinct(order) && (forall x :: x in visited <==> x in order) && visited <= g.Keys
    && (forall v :: v in g ==> (v in parent <==> dist[v].Fin?))
    && parent.Keys <= g.Keys && parent.Keys == depth.Keys
    && DiscoveryTree(g, start, order, parent, depth)
    && CostTree(g, start, parent, dist)
  }

  /** Each parent link is an entry of the parent whose cost is the step in distance. */
  ghost predicate CostTree(g: Graph, start: NodeId, parent: ParentMap, dist: Distances) {
    forall v {:trigger parent[v]} :: v in parent && v != start ==>
      && parent[v].From? && parent[v].node in g && parent[v].node in dist && v in dist
      && exists k :: 0 <= k < |g[parent[v].node]| && g[parent[v].node][k].to == v &&
                    dist[v] == dist[parent[v].node].Plus(g[parent[v].node][k].cost)
  }

  /** Finalized nodes: visited in non-decreasing order of distance, with
      finite distances no greater than the last one's. Before the first
      round nothing but the start has a finite distance. */
  ghost predicate Settled(g: Graph, start: NodeId, order: seq<NodeId>, visited: set<NodeId>, dist: Distances) {
    && (order != [] ==> order[0] == start && order[|order| - 1] in dist)
    && (order == [] ==> forall v :: v in dist && v != start ==> dist[v].Inf?)
    && Ascending(order, dist)
    && (forall u :: u in visited ==> u in dist && dist[u].Fin?)
    && (order != [] ==> forall u :: u in visited && u in dist ==> dist[u].AtMost(dist[order[|order| - 1]]))
  }

  /** The distance of a finalized node is the least cost of any route to it. */
  ghost predicate Optimal(g: Graph, start: NodeId, visited: set<NodeId>, dist: Distances) {
    forall w, ks {:trigger IsRoute(g, w, ks)} ::
      IsRoute(g, w, ks) && w[0] == start && w[|w| - 1] in visited && w[|w| - 1] in dist ==>
        dist[w[|w| - 1]].AtMost(Fin(RouteCost(g, w, ks)))
  }

  /** Every entry of a node in `done` was relaxed. */
  ghost predicate Relaxed(g: Graph, done: set<NodeId>, dist: Distances) {
    forall u, k :: u in done && u in g && 0 <= k < |g[u]| ==>
      g[u][k].to in dist && u in dist && dist[g[u][k].to].AtMost(dist[u].Plus(g[u][k].cost))
  }

  /** The frontier: no entry is below its node's distance or below the last
      finalized distance, and every unfinalized node of finite distance has
      an entry at exactly that distance. */
  ghost predicate Queue(order: seq<NodeId>, visited: set<NodeId>, dist: Distances, pq: seq<Entry>) {
    && (forall i :: 0 <= i < |pq| ==>
          pq[i].node in dist && dist[pq[i].node].AtMost(Fin(pq[i].cost)) &&
          (order != [] ==> order[|order| - 1] in dist && dist[order[|order| - 1]].AtMost(Fin(pq[i].cost))))
    && (forall v :: v in dist && v !in visited && dist[v].Fin? ==> Entry(v, dist[v].n) in pq)
  }

  ghost predicate Explored(g: Graph, start: NodeId, goal: NodeId, order: seq<NodeId>, visited: set<NodeId>,
                           dist: Distances, parent: ParentMap, depth: map<NodeId, nat>, pq: seq<Entry>)
  {
    && Books(g, start, order, visited, dist, parent, depth)
    && Settled(g, start, order, visited, dist)
    && Optimal(g, start, visited, dist)
    && Relaxed(g, visited, dist)
    && Queue(order, visited, dist, pq)
    && goal !in order
  }

  lemma ExploredStart(g: Graph, start: NodeId, goal: NodeId, dist: Distances)
    requires start in g && dist == (map k | k in g :: Inf)[start := Fin(0)]
    ensures Explored(g, start, goal, [], {}, dist, map[start := Root], map[start := 0], [Entry(start, 0)])
  {
  }

  // ----- the frontier bounds every route that leaves the finalized set -----

  /** Any route from the start to a node that is not finalized costs at
      least the cheapest frontier entry (here: at least any lower bound
      `low` of the frontier). */
  lemma {:induction false} FrontierBound(g: Graph, start: NodeId, order: seq<NodeId>, visited: set<NodeId>,
                                         dist: Distances, pq: seq<Entry>, low: nat, w: seq<NodeId>, ks: seq<nat>)
    requires start in g && dist.Keys == g.Keys && dist[start] == Fin(0)
    requires Optimal(g, start, visited, dist) && Relaxed(g, visited, dist) && Queue(order, visited, dist, pq)
    requires forall i :: 0 <= i < |pq| ==> low <= pq[i].cost
    requires IsRoute(g, w, ks) && w[0] == start && w[|w| - 1] !in visited
    ensures low <= RouteCost(g, w, ks)
    decreases |ks|
  {
    var v := w[|w| - 1];
    if ks == [] {
      assert v == start;
      assert Entry(start, 0) in pq;
    } else {
      var init, ks0 := w[..|w| - 1], ks[..|ks| - 1];
      RoutePrefix(g, w, ks);
      var u, k := init[|init| - 1], ks[|ks| - 1];
      assert u == w[|w| - 2] && g[u][k].to == v;
      if u in visited {
        assert dist[u].AtMost(Fin(RouteCost(g, init, ks0)));
        assert dist[v].AtMost(dist[u].Plus(g[u][k].cost));
        assert Entry(v, dist[v].n) in pq;
      } else {
        FrontierBound(g, start, order, visited, dist, pq, low, init, ks0);
      }
    }
  }

  // ----- one round of the outer loop -----

  /** Removing an entry of a finalized node leaves the frontier invariant intact. */
  lemma PopStale(g: Graph, start: NodeId, goal: NodeId, order: seq<NodeId>, visited: set<NodeId>,
                 dist: Distances, parent: ParentMap, depth: map<NodeId, nat>, pq: seq<Entry>, i: nat)
    requires Explored(g, start, goal, order, visited, dist, parent, depth, pq)
    requires i < |pq| && pq[i].node in visited
    ensures Explored(g, start, goal, order, visited, dist, parent, depth, Without(pq, i))
  {
    var r := Without(pq, i);
    forall j | 0 <= j < |r| ensures r[j] in pq {
      assert r[j] in r;
    }
  }

  /** The node popped from the frontier has the popped entry's cost as
      its distance, and finalizing it keeps the order sorted. */
  lemma PopSettles(g: Graph, start: NodeId, order: seq<NodeId>, visited: set<NodeId>, dist: Distances, pq: seq<Entry>)
    requires start in g && dist.Keys == g.Keys && (forall x :: x in visited <==> x in order)
    requires Settled(g, start, order, visited, dist) && Queue(order, visited, dist, pq)
    requires pq != [] && pq[FirstMin(pq)].node !in visited
    ensures var e := pq[FirstMin(pq)];
            && e.node in g && dist[e.node] == Fin(e.cost)
            && (order == [] ==> e.node == start)
            && Settled(g, start, order + [e.node], visited + {e.node}, dist)
  {
    var i := FirstMin(pq);
    var e := pq[i];
    var node := e.node;
    assert dist[node].AtMost(Fin(e.cost));
    assert Entry(node, dist[node].n) in pq;
    var j :| 0 <= j < |pq| && pq[j] == Entry(node, dist[node].n);
    assert dist[node] == Fin(e.cost);
    var o := order + [node];
    assert o[..|o| - 1] == order;
    if order != [] {
      var last := order[|order| - 1];
      assert last in visited;
      assert dist[last].AtMost(Fin(e.cost));
      forall u | u in visited + {node} && u in dist ensures dist[u].AtMost(dist[node]) {
        if u in visited {
          assert dist[u].AtMost(dist[last]);
        }
      }
    } else {
      assert node == start;
    }
  }

  /** The popped node's distance is its least route cost. */
  lemma PopOptimal(g: Graph, start: NodeId, goal: NodeId, order: seq<NodeId>, visited: set<NodeId>,
                   dist: Distances, parent: ParentMap, depth: map<NodeId, nat>, pq: seq<Entry>)
    requires Explored(g, start, goal, order, visited, dist, parent, depth, pq)
    requires pq != [] && pq[FirstMin(pq)].node !in visited && dist[pq[FirstMin(pq)].node] == Fin(pq[FirstMin(pq)].cost)
    ensures Optimal(g, start, visited + {pq[FirstMin(pq)].node}, dist)
  {
    var e := pq[FirstMin(pq)];
    forall w, ks {:trigger IsRoute(g, w, ks)} |
      IsRoute(g, w, ks) && w[0] == start && w[|w| - 1] in visited + {e.node} && w[|w| - 1] in dist
      ensures dist[w[|w| - 1]].AtMost(Fin(RouteCost(g, w, ks)))
    {
      if w[|w| - 1] !in visited {
        FrontierBound(g, start, order, visited, dist, pq, e.cost, w, ks);
      }
    }
  }

  /** Every node some route from `start` reaches for less than `bound` is finalized. */
  ghost predicate FinalizedBelow(g: Graph, start: NodeId, order: seq<NodeId>, bound: nat) {
    forall w, ks {:trigger IsRoute(g, w, ks)} ::
      IsRoute(g, w, ks) && w[0] == start && RouteCost(g, w, ks) < bound ==> w[|w| - 1] in order
  }

  /** When the least frontier entry is popped, every node reached for
      less than its cost is already finalized. */
  lemma CheaperFinalized(g: Graph, start: NodeId, goal: NodeId, order: seq<NodeId>, visited: set<NodeId>,
                         dist: Distances, parent: ParentMap, depth: map<NodeId, nat>, pq: seq<Entry>)
    requires Explored(g, start, goal, order, visited, dist, parent, depth, pq) && pq != []
    ensures FinalizedBelow(g, start, order + [pq[FirstMin(pq)].node], pq[FirstMin(pq)].cost)
  {
    var e := pq[FirstMin(pq)];
    forall w, ks {:trigger IsRoute(g, w, ks)} | IsRoute(g, w, ks) && w[0] == start
      ensures w[|w| - 1] in visited || e.cost <= RouteCost(g, w, ks)
    {
      if w[|w| - 1] !in visited {
        FrontierBound(g, start, order, visited, dist, pq, e.cost, w, ks);
      }
    }
  }

  /** Finalizing the goal ends the search. */
  lemma GoalStep(g: Graph, start: NodeId, goal: NodeId, order: seq<NodeId>, visited: set<NodeId>,
                 dist: Distances, parent: ParentMap, depth: map<NodeId, nat>, pq: seq<Entry>)
    requires Explored(g, start, goal, order, visited, dist, parent, depth, pq)
    requires pq != [] && pq[FirstMin(pq)].node == goal && goal !in visited
    ensures UcsOutcome(g, start, goal, order + [goal], dist, parent)
    ensures DiscoveryTree(g, start, order + [goal], parent, depth)
  {
    PopSettles(g, start, order, visited, dist, pq);
    PopOptimal(g, start, goal, order, visited, dist, parent, depth, pq);
    CheaperFinalized(g, start, goal, order, visited, dist, parent, depth, pq);
    DistinctAppend(order, goal);
    var o := order + [goal];
    assert DiscoveryTree(g, start, o, parent, depth);
    assert forall x :: x in visited + {goal} <==> x in o;
    OptimalOnOrder(g, start, o, visited + {goal}, dist);
    AscendingSorted(o, dist);
  }

  /** An empty frontier ends the search with every reachable node finalized. */
  lemma Drained(g: Graph, start: NodeId, goal: NodeId, order: seq<NodeId>, visited: set<NodeId>,
                dist: Distances, parent: ParentMap, depth: map<NodeId, nat>)
    requires Explored(g, start, goal, order, visited, dist, parent, depth, [])
    ensures UcsOutcome(g, start, goal, order, dist, parent)
    ensures DiscoveryTree(g, start, order, parent, depth)
  {
    assert start in visited;
    forall u, v | u in visited && HasEdge(g, u, v) ensures v in visited {
      var k := EdgeGivesEntry(g, u, v);
      assert dist[v].AtMost(dist[u].Plus(g[u][k].cost));
    }
    ClosedSetHoldsReach(g, visited, start);
    ClosedSetBlocksReach(g, visited, start, goal);
    OptimalOnOrder(g, start, order, visited, dist);
    AscendingSorted(order, dist);
  }

  /** The distances of a set of nodes are the same in two maps. */
  ghost predicate KeptOn(s: set<NodeId>, dist: Distances, dist': Distances) {
    forall u :: u in s ==> u in dist && u in dist' && dist'[u] == dist[u]
  }

  /** Nodes no farther than `node` keep their distances. */
  lemma KeptClose(v: set<NodeId>, node: NodeId, dist: Distances, dist': Distances)
    requires node in dist && dist'.Keys == dist.Keys
    requires forall x :: x in dist && dist[x].AtMost(dist[node]) ==> dist'[x] == dist[x]
    requires forall u :: u in v ==> u in dist && dist[u].AtMost(dist[node])
    ensures KeptOn(v, dist, dist')
  {
  }

  /** Each node's parent is the first finalized node one of whose entries
      offers exactly the node's distance: an offer replaces the recorded
      one only when it is strictly cheaper, so a later node offering the
      same distance leaves the parent as it was. */
  ghost predicate FirstAchievers(g: Graph, start: NodeId, goal: NodeId, done: seq<NodeId>, dist: Distances, parent: ParentMap) {
    forall j, k {:trigger g[done[j]][k]} ::
      && 0 <= j < |done| && done[j] != goal && done[j] in g && done[j] in dist && dist[done[j]].Fin?
      && 0 <= k < |g[done[j]]| && g[done[j]][k].to != start && g[done[j]][k].to in dist
      && dist[g[done[j]][k].to] == dist[done[j]].Plus(g[done[j]][k].cost)
      ==> && g[done[j]][k].to in parent && parent[g[done[j]][k].to].From?
          && AmongFirst(done, parent[g[done[j]][k].to].node, j)
  }

  /** Finalizing and relaxing `node` keeps every parent a first achiever:
      the offers of earlier nodes were already relaxed, so a distance one
      of them achieves did not drop and its parent stayed; a distance
      `node` achieves either dropped now (parent `node`) or was already
      there with an earlier parent. */
  lemma AchieversGrow(g: Graph, start: NodeId, goal: NodeId, order: seq<NodeId>, visited: set<NodeId>,
                      dist: Distances, parent: ParentMap, depth: map<NodeId, nat>,
                      node: NodeId, dist': Distances, parent': ParentMap, depth': map<NodeId, nat>)
    requires FirstAchievers(g, start, goal, order, dist, parent)
    requires Books(g, start, order, visited, dist, parent, depth) && Relaxed(g, visited, dist)
    requires node in g && node in depth && dist[node].Fin? && dist'.Keys == dist.Keys
    requires Relinked(node, dist, parent, depth, dist', parent', depth')
    requires KeptOn(visited + {node}, dist, dist')
    requires forall x :: x in dist ==> dist'[x].AtMost(dist[x])
    ensures FirstAchievers(g, start, goal, order + [node], dist', parent')
  {
    var o := order + [node];
    forall j, k |
      && 0 <= j < |o| && o[j] != goal && o[j] in g && o[j] in dist' && dist'[o[j]].Fin?
      && 0 <= k < |g[o[j]]| && g[o[j]][k].to != start && g[o[j]][k].to in dist'
      && dist'[g[o[j]][k].to] == dist'[o[j]].Plus(g[o[j]][k].cost)
      ensures && g[o[j]][k].to in parent' && parent'[g[o[j]][k].to].From?
              && AmongFirst(o, parent'[g[o[j]][k].to].node, j)
    {
      var x := g[o[j]][k].to;
      if j < |order| {
        assert o[j] == order[j];
        AchieverKept(g, start, goal, order, visited, dist, parent, depth, node, dist', parent', depth', j, k);
        var i :| 0 <= i <= j && i < |order| && order[i] == parent'[x].node;
        assert o[i] == order[i];
      } else if dist'[x] == dist[x] {
        var i :| 0 <= i < |order| && order[i] == parent[x].node;
        assert o[i] == order[i];
      } else {
        assert o[|order|] == node;
      }
    }
  }

  /** An entry of a node finalized earlier that achieves a distance now
      achieved it before: the distance did not drop and its parent stayed. */
  lemma AchieverKept(g: Graph, start: NodeId, goal: NodeId, order: seq<NodeId>, visited: set<NodeId>,
                     dist: Distances, parent: ParentMap, depth: map<NodeId, nat>,
                     node: NodeId, dist': Distances, parent': ParentMap, depth': map<NodeId, nat>, j: nat, k: nat)
    requires FirstAchievers(g, start, goal, order, dist, parent)
    requires (forall x :: x in visited <==> x in order) && Relaxed(g, visited, dist)
    requires parent.Keys == depth.Keys && node in depth && dist'.Keys == dist.Keys
    requires Relinked(node, dist, parent, depth, dist', parent', depth')
    requires KeptOn(visited + {node}, dist, dist')
    requires forall x :: x in dist ==> dist'[x].AtMost(dist[x])
    requires j < |order| && order[j] != goal && order[j] in g && order[j] in dist' && dist'[order[j]].Fin?
    requires k < |g[order[j]]| && g[order[j]][k].to != start && g[order[j]][k].to in dist'
    requires dist'[g[order[j]][k].to] == dist'[order[j]].Plus(g[order[j]][k].cost)
    ensures var x := g[order[j]][k].to;
            x in parent' && parent'[x].From? && AmongFirst(order, parent'[x].node, j)
  {
    var u, x := order[j], g[order[j]][k].to;
    assert u in visited;
    assert dist'[x] == dist[x];
  }

  /** The step of uniformCost that expands `node` keeps the first achievers. */
  lemma AchieversStep(g: Graph, start: NodeId, goal: NodeId, order: seq<NodeId>, visited: set<NodeId>,
                      dist: Distances, parent: ParentMap, depth: map<NodeId, nat>, pq: seq<Entry>, node: NodeId,
                      dist': Distances, parent': ParentMap, pq': seq<Entry>, depth': map<NodeId, nat>)
    requires Expanding(g, start, goal, order, visited, dist, parent, depth, pq, node, dist', parent', pq', depth')
    requires FirstAchievers(g, start, goal, order, dist, parent)
    ensures FirstAchievers(g, start, goal, order + [node], dist', parent')
  {
    assert g[node][..|g[node]|] == g[node];
    assert Lowered(g, node, |g[node]|, dist, dist') && Relinked(node, dist, parent, depth, dist', parent', depth');
    RelaxedAll(g, node, dist, dist');
    assert (order + [node])[|order|] == node;
    assert Settled(g, start, order + [node], visited + {node}, dist);
    KeptClose(visited + {node}, node, dist, dist');
    AchieversGrow(g, start, goal, order, visited, dist, parent, depth, node, dist', parent', depth');
  }

  /** Finalizing the goal keeps the first achievers: the goal's own entries are never offered. */
  lemma AchieversThenGoal(g: Graph, start: NodeId, goal: NodeId, order: seq<NodeId>, dist: Distances, parent: ParentMap)
    requires FirstAchievers(g, start, goal, order, dist, parent)
    ensures FirstAchievers(g, start, goal, order + [goal], dist, parent)
  {
    var o := order + [goal];
    forall j, k |
      && 0 <= j < |o| && o[j] != goal && o[j] in g && o[j] in dist && dist[o[j]].Fin?
      && 0 <= k < |g[o[j]]| && g[o[j]][k].to != start && g[o[j]][k].to in dist
      && dist[g[o[j]][k].to] == dist[o[j]].Plus(g[o[j]][k].cost)
      ensures && g[o[j]][k].to in parent && parent[g[o[j]][k].to].From?
              && AmongFirst(o, parent[g[o[j]][k].to].node, j)
    {
      var x := g[o[j]][k].to;
      assert o[j] == order[j] && g[order[j]][k].to == x;
      var i :| 0 <= i <= j && i < |order| && order[i] == parent[x].node;
      assert o[i] == order[i];
    }
  }

  /** The state in which uniformCost has popped `node` (not finalized, not
      the goal) and relaxed its entries, from `dist`, `parent`, `depth`
      and `pq` to `dist'`, `parent'`, `depth'` and `pq'`. */
  ghost predicate Expanding(g: Graph, start: NodeId, goal: NodeId, order: seq<NodeId>, visited: set<NodeId>,
                            dist: Distances, parent: ParentMap, depth: map<NodeId, nat>, pq: seq<Entry>, node: NodeId,
                            dist': Distances, parent': ParentMap, pq': seq<Entry>, depth': map<NodeId, nat>)
  {
    && WellFormed(g)
    && Books(g, start, order, visited, dist, parent, depth)
    && Relaxed(g, visited, dist) && Queue(order, visited, dist, pq) && goal !in order
    && pq != [] && node == pq[FirstMin(pq)].node && node !in visited && node != goal
    && node in g && dist[node] == Fin(pq[FirstMin(pq)].cost) && (order == [] ==> node == start)
    && Optimal(g, start, visited + {node}, dist) && Settled(g, start, order + [node], visited + {node}, dist)
    && RelaxedUpTo(g, node, |g[node]|, dist, parent, Without(pq, FirstMin(pq)), depth, dist', parent', pq', depth')
  }

  /** Finalizing `node` and relaxing its entries re-establishes the loop state. */
  lemma ExpandStep(g: Graph, start: NodeId, goal: NodeId, order: seq<NodeId>, visited: set<NodeId>,
                   dist: Distances, parent: ParentMap, depth: map<NodeId, nat>, pq: seq<Entry>, node: NodeId,
                   dist': Distances, parent': ParentMap, pq': seq<Entry>, depth': map<NodeId, nat>)
    requires Expanding(g, start, goal, order, visited, dist, parent, depth, pq, node, dist', parent', pq', depth')
    ensures Explored(g, start, goal, order + [node], visited + {node}, dist', parent', depth', pq')
  {
    ExpandFinal(g, start, goal, order, visited, dist, parent, depth, pq, node, dist', parent', pq', depth');
    ExpandFrontier(g, start, goal, order, visited, dist, parent, depth, pq, node, dist', parent', pq', depth');
  }

  /** The finalized part: links, distances, order and optimality. */
  lemma ExpandFinal(g: Graph, start: NodeId, goal: NodeId, order: seq<NodeId>, visited: set<NodeId>,
                    dist: Distances, parent: ParentMap, depth: map<NodeId, nat>, pq: seq<Entry>, node: NodeId,
                    dist': Distances, parent': ParentMap, pq': seq<Entry>, depth': map<NodeId, nat>)
    requires Expanding(g, start, goal, order, visited, dist, parent, depth, pq, node, dist', parent', pq', depth')
    ensures Books(g, start, order + [node], visited + {node}, dist', parent', depth')
    ensures Settled(g, start, order + [node], visited + {node}, dist')
    ensures Optimal(g, start, visited + {node}, dist')
  {
    var o, v := order + [node], visited + {node};
    assert g[node][..|g[node]|] == g[node];
    RelaxedAll(g, node, dist, dist');
    KeptClose(v, node, dist, dist');
    assert start in v by {
      if order != [] {
        assert order[0] in visited;
      }
    }
    ExpandBooks(g, start, order, visited, dist, parent, depth, node, dist', parent', depth');
    ExpandSettled(g, start, o, v, dist, dist');
    ExpandOptimal(g, start, v, dist, dist');
  }

  /** The frontier part: the queue and the relaxed entries. */
  lemma ExpandFrontier(g: Graph, start: NodeId, goal: NodeId, order: seq<NodeId>, visited: set<NodeId>,
                       dist: Distances, parent: ParentMap, depth: map<NodeId, nat>, pq: seq<Entry>, node: NodeId,
                       dist': Distances, parent': ParentMap, pq': seq<Entry>, depth': map<NodeId, nat>)
    requires Expanding(g, start, goal, order, visited, dist, parent, depth, pq, node, dist', parent', pq', depth')
    ensures Queue(order + [node], visited + {node}, dist', pq')
    ensures Relaxed(g, visited + {node}, dist')
    ensures goal !in order + [node]
  {
    var v := visited + {node};
    assert g[node][..|g[node]|] == g[node];
    RelaxedAll(g, node, dist, dist');
    KeptClose(v, node, dist, dist');
    ExpandQueue(g, order, visited, dist, pq, node, Without(pq, FirstMin(pq)), dist', pq');
    ExpandRelaxed(g, visited, dist, node, dist');
  }

  /** The parent links and distances stay consistent after relaxing the entries of `node`. */
  lemma ExpandBooks(g: Graph, start: NodeId, order: seq<NodeId>, visited: set<NodeId>,
                    dist: Distances, parent: ParentMap, depth: map<NodeId, nat>, node: NodeId,
                    dist': Distances, parent': ParentMap, depth': map<NodeId, nat>)
    requires WellFormed(g)
    requires Books(g, start, order, visited, dist, parent, depth)
    requires node in g && node !in visited && dist[node].Fin? && start in visited + {node}
    requires dist'.Keys == dist.Keys && Relinked(node, dist, parent, depth, dist', parent', depth')
    requires forall x :: x in dist ==> dist'[x].AtMost(dist[x])
    requires KeptOn(visited + {node}, dist, dist')
    requires forall x :: x in dist && dist'[x] != dist[x] ==>
               exists k :: 0 <= k < |g[node]| && g[node][k].to == x && dist'[x] == dist[node].Plus(g[node][k].cost)
    ensures Books(g, start, order + [node], visited + {node}, dist', parent', depth')
  {
    ExpandKeys(g, start, order, visited, dist, parent, depth, node, dist', parent', depth');
    ExpandTree(g, start, order, visited, dist, parent, depth, node, dist', parent', depth');
    ExpandCosts(g, start, order, visited, dist, parent, depth, node, dist', parent', depth');
  }

  /** Distances that stay keep their optimality. */
  lemma ExpandOptimal(g: Graph, start: NodeId, v: set<NodeId>, dist: Distances, dist': Distances)
    requires Optimal(g, start, v, dist) && KeptOn(v, dist, dist')
    ensures Optimal(g, start, v, dist')
  {
    forall w, ks {:trigger IsRoute(g, w, ks)} |
      IsRoute(g, w, ks) && w[0] == start && w[|w| - 1] in v && w[|w| - 1] in dist'
      ensures dist'[w[|w| - 1]].AtMost(Fin(RouteCost(g, w, ks)))
    {
      assert dist[w[|w| - 1]].AtMost(Fin(RouteCost(g, w, ks)));
    }
  }

  /** The parent-tree part of the state after relaxing the entries of `node`. */
  lemma ExpandKeys(g: Graph, start: NodeId, order: seq<NodeId>, visited: set<NodeId>,
                   dist: Distances, parent: ParentMap, depth: map<NodeId, nat>, node: NodeId,
                   dist': Distances, parent': ParentMap, depth': map<NodeId, nat>)
    requires Books(g, start, order, visited, dist, parent, depth)
    requires node in g && node !in visited && dist[node].Fin?
    requires dist'.Keys == dist.Keys && Relinked(node, dist, parent, depth, dist', parent', depth')
    requires forall x :: x in dist ==> dist'[x].AtMost(dist[x])
    ensures && Distinct(order + [node]) && (forall x :: x in visited + {node} <==> x in order + [node])
            && visited + {node} <= g.Keys
            && (forall v :: v in g ==> (v in parent' <==> dist'[v].Fin?))
            && parent'.Keys <= g.Keys && parent'.Keys == depth'.Keys
  {
    DistinctAppend(order, node);
  }

  /** The discovery tree after relaxing the entries of `node`: a relinked
      node hangs below `node`, every other link stays. */
  lemma ExpandTree(g: Graph, start: NodeId, order: seq<NodeId>, visited: set<NodeId>,
                   dist: Distances, parent: ParentMap, depth: map<NodeId, nat>, node: NodeId,
                   dist': Distances, parent': ParentMap, depth': map<NodeId, nat>)
    requires WellFormed(g)
    requires Books(g, start, order, visited, dist, parent, depth)
    requires node in g && node !in visited && dist[node].Fin?
    requires start in visited + {node}
    requires dist'.Keys == dist.Keys && Relinked(node, dist, parent, depth, dist', parent', depth')
    requires KeptOn(visited + {node}, dist, dist')
    requires forall x :: x in dist && dist'[x] != dist[x] ==>
               exists k :: 0 <= k < |g[node]| && g[node][k].to == x && dist'[x] == dist[node].Plus(g[node][k].cost)
    ensures DiscoveryTree(g, start, order + [node], parent', depth')
  {
    var o := order + [node];
    assert node in parent;
    forall x | x in parent' && x != start
      ensures && parent'[x].From? && parent'[x].node in o && parent'[x].node in parent'
              && depth'[x] == depth'[parent'[x].node] + 1 && HasEdge(g, parent'[x].node, x)
    {
      if x in parent && dist'[x] == dist[x] {
        var p := parent[x].node;
        assert p in visited;
      } else {
        var k :| 0 <= k < |g[node]| && g[node][k].to == x && dist'[x] == dist[node].Plus(g[node][k].cost);
        EntryGivesEdge(g, node, k);
      }
    }
  }

  /** The cost-tree part of the state after relaxing the entries of `node`. */
  lemma ExpandCosts(g: Graph, start: NodeId, order: seq<NodeId>, visited: set<NodeId>,
                    dist: Distances, parent: ParentMap, depth: map<NodeId, nat>, node: NodeId,
                    dist': Distances, parent': ParentMap, depth': map<NodeId, nat>)
    requires Books(g, start, order, visited, dist, parent, depth)
    requires node in g && dist[node].Fin?
    requires dist'.Keys == dist.Keys && Relinked(node, dist, parent, depth, dist', parent', depth')
    requires KeptOn(visited + {node}, dist, dist')
    requires forall x :: x in dist && dist'[x] != dist[x] ==>
               exists k :: 0 <= k < |g[node]| && g[node][k].to == x && dist'[x] == dist[node].Plus(g[node][k].cost)
    ensures CostTree(g, start, parent', dist')
  {
    forall x | x in parent' && x != start
      ensures && parent'[x].From? && parent'[x].node in g && parent'[x].node in dist' && x in dist'
              && exists k :: 0 <= k < |g[parent'[x].node]| && g[parent'[x].node][k].to == x &&
                            dist'[x] == dist'[parent'[x].node].Plus(g[parent'[x].node][k].cost)
    {
      if x in parent && dist'[x] == dist[x] {
        var p := parent[x].node;
        assert p in visited;
        var k :| 0 <= k < |g[p]| && g[p][k].to == x && dist[x] == dist[p].Plus(g[p][k].cost);
      } else {
        var k :| 0 <= k < |g[node]| && g[node][k].to == x && dist'[x] == dist[node].Plus(g[node][k].cost);
      }
    }
  }

  /** The relaxed entries after finalizing `node`. */
  lemma ExpandRelaxed(g: Graph, visited: set<NodeId>, dist: Distances, node: NodeId, dist': Distances)
    requires Relaxed(g, visited, dist) && node in g && node in dist && dist.Keys == g.Keys && dist'.Keys == dist.Keys
    requires WellFormed(g)
    requires forall x :: x in dist ==> dist'[x].AtMost(dist[x])
    requires KeptOn(visited + {node}, dist, dist')
    requires forall k :: 0 <= k < |g[node]| ==>
               g[node][k].to in dist ==> dist'[g[node][k].to].AtMost(dist[node].Plus(g[node][k].cost))
    ensures Relaxed(g, visited + {node}, dist')
  {
    forall u, k | u in visited + {node} && u in g && 0 <= k < |g[u]|
      ensures g[u][k].to in dist' && u in dist' && dist'[g[u][k].to].AtMost(dist'[u].Plus(g[u][k].cost))
    {
      assert g[u][k].to in g;
      if u != node {
        assert dist[g[u][k].to].AtMost(dist[u].Plus(g[u][k].cost));
      }
    }
  }

  /** The finalized part of the state after relaxing the entries of `node`. */
  lemma ExpandSettled(g: Graph, start: NodeId, o: seq<NodeId>, v: set<NodeId>, dist: Distances, dist': Distances)
    requires Settled(g, start, o, v, dist) && o != [] && (forall x :: x in v <==> x in o)
    requires KeptOn(v, dist, dist')
    ensures Settled(g, start, o, v, dist')
  {
    assert o[|o| - 1] in v;
    forall i | 0 <= i < |o| ensures o[i] in dist && o[i] in dist' && dist'[o[i]] == dist[o[i]] {
      assert o[i] in v;
    }
    AscendingKept(o, dist, dist');
  }

  /** The frontier part of the state after relaxing the entries of `node`. */
  lemma ExpandQueue(g: Graph, order: seq<NodeId>, visited: set<NodeId>, dist: Distances, pq: seq<Entry>,
                    node: NodeId, rest: seq<Entry>, dist': Distances, pq': seq<Entry>)
    requires Queue(order, visited, dist, pq) && pq != [] && rest == Without(pq, FirstMin(pq))
    requires node == pq[FirstMin(pq)].node && node !in visited && node in dist && dist[node] == Fin(pq[FirstMin(pq)].cost)
    requires dist'.Keys == dist.Keys
    requires forall x :: x in dist ==> dist'[x].AtMost(dist[x])
    requires dist'[node] == dist[node]
    requires |rest| <= |pq'| && pq'[..|rest|] == rest
    requires forall i :: |rest| <= i < |pq'| ==>
               pq'[i].node in dist && dist'[pq'[i].node].AtMost(Fin(pq'[i].cost)) && dist[node].n <= pq'[i].cost
    requires forall x :: x in dist && dist'[x] != dist[x] ==> dist'[x].Fin? && Entry(x, dist'[x].n) in pq'
    ensures Queue(order + [node], visited + {node}, dist', pq')
  {
    var o := order + [node];
    forall i | 0 <= i < |pq'|
      ensures pq'[i].node in dist' && dist'[pq'[i].node].AtMost(Fin(pq'[i].cost)) &&
              o[|o| - 1] in dist' && dist'[o[|o| - 1]].AtMost(Fin(pq'[i].cost))
    {
      if i < |rest| {
        assert pq'[i] == rest[i];
        assert rest[i] in pq by { assert rest[i] in rest; }
      }
    }
    forall x | x in dist' && x !in visited + {node} && dist'[x].Fin? ensures Entry(x, dist'[x].n) in pq' {
      if dist'[x] == dist[x] {
        assert Entry(x, dist[x].n) in pq;
        assert Entry(x, dist[x].n) in rest;
        var j :| 0 <= j < |rest| && rest[j] == Entry(x, dist[x].n);
        assert pq'[j] == rest[j];
      }
    }
  }

  // ----- the outcome -----

  /** What uniformCost's loop leaves behind. */
  ghost predicate UcsOutcome(g: Graph, start: NodeId, goal: NodeId, order: seq<NodeId>,
                             dist: Distances, parent: ParentMap)
  {
    && |order| > 0 && order[0] == start && Distinct(order)
    && (goal in order ==> order[|order| - 1] == goal)
    && start in g && dist.Keys == g.Keys && dist[start] == Fin(0)
    && (forall v :: v in g ==> (v in parent <==> dist[v].Fin?))
    && CostTree(g, start, parent, dist)
    && (goal in order <==> goal in parent)
    && (goal !in order ==> !Reachable(g, start, goal))
    && (goal !in order ==> forall x :: Reachable(g, start, x) ==> x in order)
    && LeastOnOrder(g, start, order, dist)
    && SortedByDistance(order, dist)
    && (goal in order ==> goal in dist && dist[goal].Fin? && FinalizedBelow(g, start, order, dist[goal].n))
  }

  /** Every finalized node's distance is finite and no route to it is cheaper. */
  ghost predicate LeastOnOrder(g: Graph, start: NodeId, order: seq<NodeId>, dist: Distances) {
    && (forall i :: 0 <= i < |order| ==> order[i] in dist && dist[order[i]].Fin?)
    && forall w, ks {:trigger IsRoute(g, w, ks)} ::
         IsRoute(g, w, ks) && w[0] == start && w[|w| - 1] in order && w[|w| - 1] in dist ==>
           dist[w[|w| - 1]].AtMost(Fin(RouteCost(g, w, ks)))
  }

  /** Nodes are finalized in non-decreasing order of distance. */
  ghost predicate SortedByDistance(order: seq<NodeId>, dist: Distances) {
    forall i, j :: 0 <= i < j < |order| ==> order[i] in dist && order[j] in dist && dist[order[i]].AtMost(dist[order[j]])
  }

  /** Each finalized node is at least as far as the one before it. */
  ghost predicate Ascending(order: seq<NodeId>, dist: Distances)
    decreases |order|
  {
    |order| <= 1 ||
    (&& order[|order| - 2] in dist && order[|order| - 1] in dist
     && dist[order[|order| - 2]].AtMost(dist[order[|order| - 1]])
     && Ascending(order[..|order| - 1], dist))
  }

  lemma {:induction false} AscendingKept(order: seq<NodeId>, dist: Distances, dist': Distances)
    requires Ascending(order, dist)
    requires forall i :: 0 <= i < |order| ==> order[i] in dist && order[i] in dist' && dist'[order[i]] == dist[order[i]]
    ensures Ascending(order, dist')
    decreases |order|
  {
    if |order| > 1 {
      var init := order[..|order| - 1];
      forall i | 0 <= i < |init| ensures init[i] in dist && init[i] in dist' && dist'[init[i]] == dist[init[i]] {
        assert init[i] == order[i];
      }
      AscendingKept(init, dist, dist');
    }
  }

  /** Consecutive order gives order between any two finalized nodes. */
  lemma {:induction false} AscendingSorted(order: seq<NodeId>, dist: Distances)
    requires Ascending(order, dist)
    ensures SortedByDistance(order, dist)
    decreases |order|
  {
    if |order| > 1 {
      var init := order[..|order| - 1];
      AscendingSorted(init, dist);
      forall i, j | 0 <= i < j < |order|
        ensures order[i] in dist && order[j] in dist && dist[order[i]].AtMost(dist[order[j]])
      {
        assert order[i] == init[i];
        if j < |init| {
          assert order[j] == init[j];
        } else if i < j - 1 {
          assert order[j - 1] == init[j - 1];
        }
      }
    }
  }

  lemma OptimalOnOrder(g: Graph, start: NodeId, order: seq<NodeId>, visited: set<NodeId>, dist: Distances)
    requires Optimal(g, start, visited, dist) && (forall x :: x in visited <==> x in order)
    requires forall u :: u in visited ==> u in dist && dist[u].Fin?
    ensures LeastOnOrder(g, start, order, dist)
  {
    forall i | 0 <= i < |order| ensures order[i] in dist && dist[order[i]].Fin? {
      assert order[i] in visited;
    }
  }

  /** Along a rooted chain of the cost tree, the chain is a route whose
      cost is the distance of its last node. */
  lemma {:induction false} ChainRoute(g: Graph, start: NodeId, parent: ParentMap, dist: Distances,
                                      depth: map<NodeId, nat>, c: seq<NodeId>) returns (ks: seq<nat>)
    requires ParentTree(parent, start, depth) && CostTree(g, start, parent, dist) && dist.Keys == g.Keys
    requires start in g && dist[start] == Fin(0)
    requires IsRootedChain(parent, c) && c[0] == start && c[|c| - 1] in parent
    ensures IsRoute(g, c, ks) && dist[c[|c| - 1]] == Fin(RouteCost(g, c, ks))
    decreases |c|
  {
    if |c| == 1 {
      ks := [];
    } else {
      var init := c[..|c| - 1];
      var v := c[|c| - 1];
      var p := init[|init| - 1];
      assert parent[v] == From(p);
      assert v != start by {
        ChainInTree(parent, start, depth, c);
      }
      ChainPrefix(parent, c);
      var ks0 := ChainRoute(g, start, parent, dist, depth, init);
      var k := CostLink(g, start, parent, dist, v);
      RouteSnoc(g, init, ks0, k);
      assert init + [v] == c;
      ks := ks0 + [k];
    }
  }

  /** Dropping the last node of a rooted chain leaves a rooted chain. */
  lemma ChainPrefix(parent: ParentMap, c: seq<NodeId>)
    requires IsRootedChain(parent, c) && |c| > 1
    ensures IsRootedChain(parent, c[..|c| - 1])
  {
    var init := c[..|c| - 1];
    forall i | 0 < i < |init| ensures init[i] in parent && parent[init[i]] == From(init[i - 1]) {
      assert init[i] == c[i] && init[i - 1] == c[i - 1];
    }
  }

  /** The entry that the cost tree records for the link into `v`. */
  lemma CostLink(g: Graph, start: NodeId, parent: ParentMap, dist: Distances, v: NodeId) returns (k: nat)
    requires CostTree(g, start, parent, dist) && v in parent && v != start
    ensures parent[v].From? && parent[v].node in g && parent[v].node in dist && v in dist
    ensures k < |g[parent[v].node]| && g[parent[v].node][k].to == v
    ensures dist[v] == dist[parent[v].node].Plus(g[parent[v].node][k].cost)
  {
    var p := parent[v].node;
    k :| 0 <= k < |g[p]| && g[p][k].to == v && dist[v] == dist[p].Plus(g[p][k].cost);
  }

  // ----- the search -----

  /** The search loop of uniformCost. It returns the finalization order,
      the parent map and the distance map; `depth` is a proof device (each
      node's depth in the parent tree). */
  method UcsExplore(g: Graph, start: NodeId, goal: NodeId)
    returns (order: seq<NodeId>, parent: ParentMap, dist: Distances, ghost depth: map<NodeId, nat>)
    requires WellFormed(g) && start in g
    ensures UcsOutcome(g, start, goal, order, dist, parent)
    ensures DiscoveryTree(g, start, order, parent, depth)
    ensures FirstAchievers(g, start, goal, order, dist, parent)
  {
    dist := map k | k in g :: Inf;
    dist := dist[start := Fin(0)];
    parent := map[start := Root];
    var visited: set<NodeId> := {};
    order := [];
    var pq := [Entry(start, 0)];
    depth := map[start := 0];
    ExploredStart(g, start, goal, dist);
    var reached := false;
    while pq != [] && !reached
      invariant !reached ==> Explored(g, start, goal, order, visited, dist, parent, depth, pq)
      invariant reached ==> UcsOutcome(g, start, goal, order, dist, parent) && goal in order
      invariant reached ==> DiscoveryTree(g, start, order, parent, depth)
      invariant visited <= g.Keys
      invariant FirstAchievers(g, start, goal, order, dist, parent)
      decreases |g.Keys - visited|, |pq|
    {
      var i := FirstMin(pq);
      var e := pq[i];
      var rest := Without(pq, i);
      if e.node in visited {
        PopStale(g, start, goal, order, visited, dist, parent, depth, pq, i);
        pq := rest;
      } else {
        var node := e.node;
        PopSettles(g, start, order, visited, dist, pq);
        if node == goal {
          GoalStep(g, start, goal, order, visited, dist, parent, depth, pq);
          AchieversThenGoal(g, start, goal, order, dist, parent);
          reached := true;
        } else {
          PopOptimal(g, start, goal, order, visited, dist, parent, depth, pq);
          var dist2, parent2, pq2;
          ghost var depth2;
          dist2, parent2, pq2, depth2 := RelaxEdges(g, node, dist, parent, rest, depth);
          ExpandStep(g, start, goal, order, visited, dist, parent, depth, pq, node, dist2, parent2, pq2, depth2);
          AchieversStep(g, start, goal, order, visited, dist, parent, depth, pq, node, dist2, parent2, pq2, depth2);
          dist, parent, pq, depth := dist2, parent2, pq2, depth2;
        }
        ShrinkingRest(g.Keys, visited, visited + {node});
        visited := visited + {node};
        order := order + [node];
      }
    }
    if !reached {
      Drained(g, start, goal, order, visited, dist, parent, depth);
    }
  }

  /** The loop's outcome, stated as uniformCost uses it. */
  lemma OutcomeFacts(g: Graph, start: NodeId, goal: NodeId, order: seq<NodeId>,
                     dist: Distances, parent: ParentMap, depth: map<NodeId, nat>)
    requires UcsOutcome(g, start, goal, order, dist, parent)
    requires DiscoveryTree(g, start, order, parent, depth)
    ensures |order| > 0 && order[0] == start && NoDuplicates(order)
    ensures forall i :: 0 <= i < |order| ==> order[i] in g
    ensures goal in order ==> order[|order| - 1] == goal
    ensures dist.Keys == g.Keys && dist[start] == Fin(0)
    ensures forall v :: v in g ==> (v in parent <==> dist[v].Fin?)
    ensures ParentTree(parent, start, depth) && LinksAreEdges(g, parent) && CostTree(g, start, parent, dist)
    ensures goal in order <==> goal in parent
    ensures goal !in order ==> !Reachable(g, start, goal)
    ensures goal !in order ==> forall x :: Reachable(g, start, x) ==> x in order
    ensures LeastOnOrder(g, start, order, dist)
    ensures SortedByDistance(order, dist)
    ensures goal in order ==> goal in dist && dist[goal].Fin? && FinalizedBelow(g, start, order, dist[goal].n)
  {
    DiscoveryTreeIsTree(g, start, order, parent, depth);
    DistinctIffNoDuplicates(order);
  }

  /** Some route from `start` to `x` costs at most `c`. */
  ghost predicate WithinCost(g: Graph, start: NodeId, x: NodeId, c: nat) {
    exists w, ks :: IsRoute(g, w, ks) && w[0] == start && w[|w| - 1] == x && RouteCost(g, w, ks) <= c
  }

  /** Cheapest first: a node finalized earlier is never dearer to reach
      from the start than a node finalized later. */
  ghost predicate CheapestFirst(g: Graph, start: NodeId, order: seq<NodeId>) {
    forall i, j, c: nat :: 0 <= i <= j < |order| && WithinCost(g, start, order[j], c) ==> WithinCost(g, start, order[i], c)
  }

  /** Finalized distances are least route costs, achieved along the cost
      tree, and grow along the order; so the order is cheapest first. */
  lemma CheapestOrder(g: Graph, start: NodeId, order: seq<NodeId>, dist: Distances, parent: ParentMap,
                      depth: map<NodeId, nat>)
    requires start in g && dist.Keys == g.Keys && dist[start] == Fin(0)
    requires ParentTree(parent, start, depth) && CostTree(g, start, parent, dist)
    requires forall v :: v in g ==> (v in parent <==> dist[v].Fin?)
    requires LeastOnOrder(g, start, order, dist) && SortedByDistance(order, dist)
    ensures forall i :: 0 <= i < |order| ==> order[i] in parent
    ensures CheapestFirst(g, start, order)
  {
    forall i | 0 <= i < |order| ensures order[i] in parent {
      assert order[i] in dist && dist[order[i]].Fin?;
    }
    forall i, j, c: nat | 0 <= i <= j < |order| && WithinCost(g, start, order[j], c)
      ensures WithinCost(g, start, order[i], c)
    {
      var w, ks :| IsRoute(g, w, ks) && w[0] == start && w[|w| - 1] == order[j] && RouteCost(g, w, ks) <= c;
      assert dist[order[j]].AtMost(Fin(RouteCost(g, w, ks)));
      assert dist[order[i]].AtMost(dist[order[j]]);
      var ch := ChainToRoot(parent, start, depth, order[i]);
      var ks' := ChainRoute(g, start, parent, dist, depth, ch);
      assert RouteCost(g, ch, ks') <= c;
    }
  }

  /** Every node strictly cheaper to reach than the goal is finalized. */
  ghost predicate CheaperVisited(g: Graph, start: NodeId, goal: NodeId, order: seq<NodeId>) {
    forall x, c: nat :: WithinCost(g, start, x, c) && !WithinCost(g, start, goal, c) ==> x in order
  }

  /** A route to the goal costing `d` means every cheaper node lies below `d`. */
  lemma CheaperBand(g: Graph, start: NodeId, goal: NodeId, order: seq<NodeId>, path: seq<NodeId>, pks: seq<nat>, d: nat)
    requires FinalizedBelow(g, start, order, d)
    requires IsRoute(g, path, pks) && path[0] == start && path[|path| - 1] == goal && RouteCost(g, path, pks) == d
    ensures CheaperVisited(g, start, goal, order)
  {
    forall x, c: nat | WithinCost(g, start, x, c) && !WithinCost(g, start, goal, c) ensures x in order {
      var w, ks :| IsRoute(g, w, ks) && w[0] == start && w[|w| - 1] == x && RouteCost(g, w, ks) <= c;
      assert !(d <= c);
    }
  }

  /** Entry `k` of `u` leads to `x` and, taken after a cheapest route to
      `u`, reaches `x` at the least cost of any route to `x`. */
  ghost predicate CheapestVia(g: Graph, start: NodeId, u: NodeId, k: nat, x: NodeId) {
    && u in g && k < |g[u]| && g[u][k].to == x
    && exists c: nat :: WithinCost(g, start, u, c) && forall d: nat :: WithinCost(g, start, x, d) ==> c + g[u][k].cost <= d
  }

  /** A finalized distance is no more than any route cost to its node. */
  lemma LeastWithin(g: Graph, start: NodeId, order: seq<NodeId>, dist: Distances, v: NodeId, c: nat)
    requires LeastOnOrder(g, start, order, dist) && v in order && v in dist && WithinCost(g, start, v, c)
    ensures dist[v].Fin? && dist[v].n <= c
  {
    var w, ks :| IsRoute(g, w, ks) && w[0] == start && w[|w| - 1] == v && RouteCost(g, w, ks) <= c;
    assert dist[v].AtMost(Fin(RouteCost(g, w, ks)));
  }

  /** The tree route to a node of the cost tree costs the node's distance. */
  lemma TreeRoute(g: Graph, start: NodeId, parent: ParentMap, dist: Distances, depth: map<NodeId, nat>, v: NodeId)
    returns (w: seq<NodeId>, ks: seq<nat>)
    requires start in g && dist.Keys == g.Keys && dist[start] == Fin(0)
    requires ParentTree(parent, start, depth) && CostTree(g, start, parent, dist) && v in parent
    ensures IsRoute(g, w, ks) && w[0] == start && w[|w| - 1] == v && v in dist && dist[v] == Fin(RouteCost(g, w, ks))
  {
    w := ChainToRoot(parent, start, depth, v);
    ks := ChainRoute(g, start, parent, dist, depth, w);
  }

  /** An entry that reaches `x` at its least cost, taken from a finalized
      node, offers exactly `x`'s finalized distance. */
  lemma CheapestEntry(g: Graph, start: NodeId, order: seq<NodeId>, dist: Distances,
                      parent: ParentMap, depth: map<NodeId, nat>, u: NodeId, k: nat, x: NodeId)
    requires start in g && dist.Keys == g.Keys && dist[start] == Fin(0)
    requires ParentTree(parent, start, depth) && CostTree(g, start, parent, dist) && LeastOnOrder(g, start, order, dist)
    requires u in order && u in parent && x in order && x in parent && CheapestVia(g, start, u, k, x)
    ensures u in dist && x in dist && dist[x] == dist[u].Plus(g[u][k].cost)
  {
    var e := g[u][k].cost;
    var c: nat :| WithinCost(g, start, u, c) && forall d: nat :: WithinCost(g, start, x, d) ==> c + e <= d;
    LeastWithin(g, start, order, dist, u, c);
    var wx, kx := TreeRoute(g, start, parent, dist, depth, x);
    assert WithinCost(g, start, x, dist[x].n);
    TreeRouteVia(g, start, parent, dist, depth, u, k);
    LeastWithin(g, start, order, dist, x, dist[u].n + e);
  }

  /** Extending the tree route to `u` by one of `u`'s entries reaches the
      entry's city within `u`'s distance plus the entry's cost. */
  lemma TreeRouteVia(g: Graph, start: NodeId, parent: ParentMap, dist: Distances, depth: map<NodeId, nat>, u: NodeId, k: nat)
    requires start in g && dist.Keys == g.Keys && dist[start] == Fin(0)
    requires ParentTree(parent, start, depth) && CostTree(g, start, parent, dist) && u in parent
    requires u in g && k < |g[u]|
    ensures u in dist && dist[u].Fin? && WithinCost(g, start, g[u][k].to, dist[u].n + g[u][k].cost)
  {
    var wu, ku := TreeRoute(g, start, parent, dist, depth, u);
    RouteSnoc(g, wu, ku, k);
    var w, ks := wu + [g[u][k].to], ku + [k];
    assert IsRoute(g, w, ks) && w[0] == start && w[|w| - 1] == g[u][k].to;
  }

  /** Along the traced path, each node's predecessor is the first
      finalized node with an entry that reaches it at its least cost. */
  lemma AchieversOnPath(g: Graph, start: NodeId, goal: NodeId, order: seq<NodeId>, dist: Distances,
                        parent: ParentMap, depth: map<NodeId, nat>, path: seq<NodeId>)
    requires start in g && dist.Keys == g.Keys && dist[start] == Fin(0)
    requires ParentTree(parent, start, depth) && CostTree(g, start, parent, dist)
    requires DiscoveryTree(g, start, order, parent, depth) && (goal in order <==> goal in parent)
    requires forall v :: v in g ==> (v in parent <==> dist[v].Fin?)
    requires LeastOnOrder(g, start, order, dist) && FirstAchievers(g, start, goal, order, dist, parent)
    requires path != [] ==> IsRootedChain(parent, path) && path[0] == start && path[|path| - 1] == goal
    ensures forall i, j, k: nat {:trigger CheapestVia(g, start, order[j], k, path[i])} ::
              (0 < i < |path| && 0 <= j < |order| && order[j] != goal && CheapestVia(g, start, order[j], k, path[i])) ==>
                AmongFirst(order, path[i - 1], j)
  {
    forall i, j, k: nat | 0 < i < |path| && 0 <= j < |order| && order[j] != goal && CheapestVia(g, start, order[j], k, path[i])
      ensures AmongFirst(order, path[i - 1], j)
    {
      var u, x := order[j], path[i];
      assert x in parent && parent[x] == From(path[i - 1]) && x != start;
      assert x in order by {
        if i < |path| - 1 {
          assert parent[path[i + 1]] == From(x) && path[i + 1] != start;
        }
      }
      assert u in dist && dist[u].Fin? && u in g;
      CheapestEntry(g, start, order, dist, parent, depth, u, k, x);
      assert g[order[j]][k].to == x;
    }
  }

  /** uniformCost: a non-empty path is a walk from start to goal that no
      route undercuts; the reported cost is the goal's distance, which is
      the cost of a route along the path, and Infinity when the goal is
      not reachable. */
  method UniformCost(g: Graph, start: NodeId, goal: NodeId) returns (res: SearchResult)
    requires WellFormed(g) && start in g
    ensures res.algorithm == UCS && VisitLog(res, start, goal) && PathFound(g, res, start, goal)
    ensures res.path == [] ==> res.cost == Inf
    ensures res.path != [] ==> res.cost.Fin? && exists ks :: IsRoute(g, res.path, ks) && res.cost.n == RouteCost(g, res.path, ks)
    ensures forall w, ks {:trigger IsRoute(g, w, ks)} ::
              IsRoute(g, w, ks) && w[0] == start && w[|w| - 1] == goal ==> res.cost.AtMost(Fin(RouteCost(g, w, ks)))
    ensures forall w :: IsPathBetween(g, w, start, goal) ==> res.cost.AtMost(PathCost(g, w))
    ensures res.path != [] && NoParallelEdges(g) ==> res.cost == PathCost(g, res.path)
    ensures CheapestFirst(g, start, res.visitedOrder)
    ensures forall i :: 0 <= i < |res.visitedOrder| ==> Reachable(g, start, res.visitedOrder[i])
    ensures goal !in res.visitedOrder ==> forall x :: Reachable(g, start, x) ==> x in res.visitedOrder
    ensures goal in res.visitedOrder ==> CheaperVisited(g, start, goal, res.visitedOrder)
    ensures forall i, j, k: nat {:trigger CheapestVia(g, start, res.visitedOrder[j], k, res.path[i])} ::
              (0 < i < |res.path| && 0 <= j < |res.visitedOrder| && res.visitedOrder[j] != goal &&
               CheapestVia(g, start, res.visitedOrder[j], k, res.path[i])) ==> AmongFirst(res.visitedOrder, res.path[i - 1], j)
  {
    var order, parent, dist, depth := UcsExplore(g, start, goal);
    OutcomeFacts(g, start, goal, order, dist, parent, depth);
    CheapestOrder(g, start, order, dist, parent, depth);
    TreeReaches(g, parent, start, depth, order);
    TreeIsRanked(parent, start, depth);
    var path := TracePath(parent, start, goal, depth);
    TracedInTree(g, parent, start, depth, goal, path);
    var cost := if |path| > 0 then dist[goal] else Inf;
    CostAnswer(g, start, goal, order, parent, dist, depth, path, cost);
    if goal in order {
      var pks :| IsRoute(g, path, pks) && cost.n == RouteCost(g, path, pks);
      CheaperBand(g, start, goal, order, path, pks, dist[goal].n);
    }
    AchieversOnPath(g, start, goal, order, dist, parent, depth, path);
    res := SearchResult(UCS, order, path, |order|, cost);
  }

  /** The cost uniformCost reports for the traced path. */
  lemma CostAnswer(g: Graph, start: NodeId, goal: NodeId, order: seq<NodeId>, parent: ParentMap,
                   dist: Distances, depth: map<NodeId, nat>, path: seq<NodeId>, cost: Cost)
    requires start in g && dist.Keys == g.Keys && dist[start] == Fin(0)
    requires ParentTree(parent, start, depth) && CostTree(g, start, parent, dist)
    requires goal in order <==> goal in parent
    requires goal !in order ==> !Reachable(g, start, goal)
    requires LeastOnOrder(g, start, order, dist)
    requires path != [] <==> goal in parent
    requires path != [] ==> IsRootedChain(parent, path) && path[0] == start && path[|path| - 1] == goal
    requires cost == if path != [] then dist[goal] else Inf
    ensures path != [] ==> cost.Fin? && exists ks :: IsRoute(g, path, ks) && cost.n == RouteCost(g, path, ks)
    ensures forall w, ks {:trigger IsRoute(g, w, ks)} ::
              IsRoute(g, w, ks) && w[0] == start && w[|w| - 1] == goal ==> cost.AtMost(Fin(RouteCost(g, w, ks)))
    ensures forall w :: IsPathBetween(g, w, start, goal) ==> cost.AtMost(PathCost(g, w))
    ensures path != [] && NoParallelEdges(g) ==> cost == PathCost(g, path)
  {
    if path != [] {
      var ks := ChainRoute(g, start, parent, dist, depth, path);
      if NoParallelEdges(g) {
        RouteCostUnique(g, path, ks);
      }
    }
    forall w, ks {:trigger IsRoute(g, w, ks)} | IsRoute(g, w, ks) && w[0] == start && w[|w| - 1] == goal
      ensures cost.AtMost(Fin(RouteCost(g, w, ks)))
    {
      RouteIsWalk(g, w, ks);
      assert IsPathBetween(g, w, start, goal);
    }
    forall w | IsPathBetween(g, w, start, goal) ensures cost.AtMost(PathCost(g, w)) {
      var ks := WalkHasRoute(g, w);
      assert IsRoute(g, w, ks);
    }
  }
}
