// breadthFirst: FIFO search that marks nodes visited when they are
// enqueued. The loop lives in BfsExplore (its inner loop over one
// adjacency list in EnqueueNeighbours); BreadthFirst assembles the
// result record from it with TracePath and CalculateCost.
module Bfs {
  import opened Graphs
  import opened Paths

  /** Depths never decrease from the front of `d` to its back. */
  ghost predicate DepthSorted(d: seq<NodeId>, depth: map<NodeId, nat>) {
    forall i, j :: 0 <= i < j < |d| ==> d[i] in depth && d[j] in depth && depth[d[i]] <= depth[d[j]]
  }

  /** No queued node is deeper than `bound`. */
  ghost predicate QueueBound(queue: seq<NodeId>, depth: map<NodeId, nat>, bound: nat) {
    forall x :: x in queue ==> x in depth && depth[x] <= bound
  }

  /** Every neighbour of an expanded node is marked, at most one level deeper. */
  ghost predicate Expanded(g: Graph, done: seq<NodeId>, visited: set<NodeId>, depth: map<NodeId, nat>) {
    forall u, v :: u in done && HasEdge(g, u, v) ==> v in visited && v in depth && u in depth && depth[v] <= depth[u] + 1
  }

  /** The bookkeeping breadthFirst keeps: `order + queue` lists each
      marked node once, in order of discovery and so of depth. */
  ghost predicate Marked(g: Graph, start: NodeId, order: seq<NodeId>, queue: seq<NodeId>,
                         visited: set<NodeId>, parent: ParentMap, depth: map<NodeId, nat>) {
    && NoDuplicates(order + queue)
    && (forall x :: x in visited <==> x in order || x in queue)
    && visited <= g.Keys
    && parent.Keys == visited && depth.Keys == visited
    && DiscoveryTree(g, start, order, parent, depth)
    && DepthSorted(order + queue, depth)
  }

  /** Moving the queue's head to the end of `order` keeps the bookkeeping. */
  lemma Dequeue(g: Graph, start: NodeId, order: seq<NodeId>, queue: seq<NodeId>,
                visited: set<NodeId>, parent: ParentMap, depth: map<NodeId, nat>)
    requires Marked(g, start, order, queue, visited, parent, depth) && queue != []
    ensures Marked(g, start, order + [queue[0]], queue[1..], visited, parent, depth)
  {
    assert order + queue == (order + [queue[0]]) + queue[1..];
  }

  /** Appending a node no shallower than any listed one keeps the list sorted by depth. */
  lemma AppendDeeper(d: seq<NodeId>, depth: map<NodeId, nat>, n: NodeId, dn: nat)
    requires DepthSorted(d, depth) && n !in d
    requires forall x :: x in d ==> x in depth && depth[x] <= dn
    ensures DepthSorted(d + [n], depth[n := dn])
  {
    var e := d + [n];
    forall i, j | 0 <= i < j < |e| ensures e[i] in depth[n := dn] && e[j] in depth[n := dn] && depth[n := dn][e[i]] <= depth[n := dn][e[j]] {
      assert e[i] == d[i];
      if j < |d| { assert e[j] == d[j]; }
    }
  }

  /** While `node` is being expanded, no marked node is more than one
      level deeper than it. */
  lemma MarkedShallow(g: Graph, start: NodeId, node: NodeId, order: seq<NodeId>, queue: seq<NodeId>,
                      visited: set<NodeId>, parent: ParentMap, depth: map<NodeId, nat>, x: NodeId)
    requires Marked(g, start, order, queue, visited, parent, depth)
    requires order != [] && order[|order| - 1] == node
    requires QueueBound(queue, depth, depth[node] + 1)
    requires x in visited
    ensures depth[x] <= depth[node] + 1
  {
    if x in order {
      var p :| 0 <= p < |order| && order[p] == x;
      assert (order + queue)[p] == x && (order + queue)[|order| - 1] == node;
    }
  }

  /** Marking an unmarked neighbour `n` of the node just dequeued keeps
      the bookkeeping. */
  lemma MarkOne(g: Graph, start: NodeId, node: NodeId, order: seq<NodeId>, queue: seq<NodeId>,
                visited: set<NodeId>, parent: ParentMap, depth: map<NodeId, nat>, n: NodeId)
    requires Marked(g, start, order, queue, visited, parent, depth)
    requires order != [] && order[|order| - 1] == node
    requires n !in visited && n in g && HasEdge(g, node, n)
    requires QueueBound(queue, depth, depth[node] + 1)
    ensures Marked(g, start, order, queue + [n], visited + {n}, parent[n := From(node)], depth[n := depth[node] + 1])
  {
    assert order + (queue + [n]) == (order + queue) + [n];
    assert n !in order + queue;
    AppendFresh(order + queue, n);
    forall x | x in order + queue ensures x in depth && depth[x] <= depth[node] + 1 {
      MarkedShallow(g, start, node, order, queue, visited, parent, depth, x);
    }
    AppendDeeper(order + queue, depth, n, depth[node] + 1);
    assert node in order;
    TreeGrows(g, start, order, parent, depth, node, n);
    assert forall x :: x in visited + {n} <==> x in order || x in queue + [n];
  }

  /** Along a walk from `start`, every node up to the head's depth was
      marked at a depth no greater than its position on the walk. */
  lemma {:induction false} WalkDepth(g: Graph, start: NodeId, order: seq<NodeId>, queue: seq<NodeId>,
                                     visited: set<NodeId>, depth: map<NodeId, nat>, w: seq<NodeId>, i: nat)
    requires queue != [] && queue[0] in depth
    requires DepthSorted(queue, depth)
    requires forall x :: x in visited <==> x in order || x in queue
    requires Expanded(g, order, visited, depth)
    requires start in visited && start in depth && depth[start] == 0
    requires |w| > 0 && w[0] == start && IsWalk(g, w)
    requires i < |w| && i <= depth[queue[0]]
    ensures w[i] in visited && w[i] in depth && depth[w[i]] <= i
  {
    if i > 0 {
      WalkDepth(g, start, order, queue, visited, depth, w, i - 1);
      var u := w[i - 1];
      assert HasEdge(g, u, w[i]);
      assert forall x :: x in queue ==> depth[queue[0]] <= depth[x] by {
        forall x | x in queue ensures depth[queue[0]] <= depth[x] {
          var q :| 0 <= q < |queue| && queue[q] == x;
          if q > 0 { assert depth[queue[0]] <= depth[queue[q]]; }
        }
      }
    }
  }

  /** When the goal is at the head of the queue, no walk to it has fewer
      hops than its depth. */
  lemma HopBound(g: Graph, start: NodeId, order: seq<NodeId>, queue: seq<NodeId>,
                 visited: set<NodeId>, parent: ParentMap, depth: map<NodeId, nat>)
    requires Marked(g, start, order, queue, visited, parent, depth) && queue != []
    requires Expanded(g, order, visited, depth)
    ensures forall w :: IsPathBetween(g, w, start, queue[0]) ==> depth[queue[0]] <= |w| - 1
  {
    assert DepthSorted(queue, depth) by {
      forall i, j | 0 <= i < j < |queue|
        ensures queue[i] in depth && queue[j] in depth && depth[queue[i]] <= depth[queue[j]]
      {
        assert queue[i] == (order + queue)[|order| + i] && queue[j] == (order + queue)[|order| + j];
      }
    }
    forall w | IsPathBetween(g, w, start, queue[0]) ensures depth[queue[0]] <= |w| - 1 {
      if |w| - 1 < depth[queue[0]] {
        WalkDepth(g, start, order, queue, visited, depth, w, |w| - 1);
      }
    }
  }

  /** Every city that some walk from `start` reaches in fewer than `d` hops has been visited. */
  ghost predicate VisitedBelow(g: Graph, start: NodeId, order: seq<NodeId>, d: nat) {
    forall x, w {:trigger IsPathBetween(g, w, start, x)} :: IsPathBetween(g, w, start, x) && |w| <= d ==> x in order
  }

  /** When a node is at the head of the queue, every node fewer hops from
      the start than its depth has already been dequeued. */
  lemma NearerDequeued(g: Graph, start: NodeId, order: seq<NodeId>, queue: seq<NodeId>,
                       visited: set<NodeId>, parent: ParentMap, depth: map<NodeId, nat>)
    requires Marked(g, start, order, queue, visited, parent, depth) && queue != []
    requires Expanded(g, order, visited, depth)
    ensures VisitedBelow(g, start, order + [queue[0]], depth[queue[0]])
  {
    var d := depth[queue[0]];
    assert DepthSorted(queue, depth) by {
      forall i, j | 0 <= i < j < |queue|
        ensures queue[i] in depth && queue[j] in depth && depth[queue[i]] <= depth[queue[j]]
      {
        assert queue[i] == (order + queue)[|order| + i] && queue[j] == (order + queue)[|order| + j];
      }
    }
    assert forall x :: x in queue ==> d <= depth[x] by {
      forall x | x in queue ensures d <= depth[x] {
        var q :| 0 <= q < |queue| && queue[q] == x;
        if q > 0 { assert depth[queue[0]] <= depth[queue[q]]; }
      }
    }
    forall x, w | IsPathBetween(g, w, start, x) && |w| <= d ensures x in order + [queue[0]] {
      WalkDepth(g, start, order, queue, visited, depth, w, |w| - 1);
    }
  }

  /** After the neighbours of `node` are enqueued, no queued node is more
      than one level deeper than the new head of the queue. */
  lemma QueueSpread(g: Graph, start: NodeId, node: NodeId, order: seq<NodeId>, queue: seq<NodeId>,
                    visited: set<NodeId>, parent: ParentMap, depth: map<NodeId, nat>)
    requires Marked(g, start, order, queue, visited, parent, depth)
    requires order != [] && order[|order| - 1] == node && queue != []
    requires QueueBound(queue, depth, depth[node] + 1)
    ensures QueueBound(queue, depth, depth[queue[0]] + 1)
  {
    var d := order + queue;
    assert d[|order| - 1] == node && d[|order|] == queue[0];
  }

  /** The state of the inner loop of breadthFirst after the first `k`
      entries of the adjacency list of `node` have been scanned, starting
      from `queue`, `visited` and `depth`. */
  ghost predicate Scanned(g: Graph, start: NodeId, node: NodeId, order: seq<NodeId>,
                          queue: seq<NodeId>, visited: set<NodeId>, depth: map<NodeId, nat>, k: nat,
                          queue': seq<NodeId>, visited': set<NodeId>, parent': ParentMap, depth': map<NodeId, nat>)
  {
    && node in g && k <= |g[node]|
    && order != [] && order[|order| - 1] == node && node in depth
    && Marked(g, start, order, queue', visited', parent', depth')
    && QueueBound(queue', depth', depth[node] + 1)
    && Expanded(g, order[..|order| - 1], visited', depth')
    && (forall j :: 0 <= j < k ==> g[node][j].to in visited' && depth'[g[node][j].to] <= depth[node] + 1)
    && node in depth' && depth'[node] == depth[node]
    && visited <= visited' && (visited' == visited ==> queue' == queue)
  }

  /** The state in which breadthFirst expands `node`: it has just been
      dequeued and appended to `order`, no queued node is more than one
      level deeper, and every node dequeued before it is expanded. */
  ghost predicate Ready(g: Graph, start: NodeId, node: NodeId, order: seq<NodeId>,
                        queue: seq<NodeId>, visited: set<NodeId>, parent: ParentMap, depth: map<NodeId, nat>)
  {
    && node in g && order != [] && order[|order| - 1] == node
    && Marked(g, start, order, queue, visited, parent, depth)
    && QueueBound(queue, depth, depth[node] + 1)
    && Expanded(g, order[..|order| - 1], visited, depth)
  }

  lemma ScanStart(g: Graph, start: NodeId, node: NodeId, order: seq<NodeId>,
                  queue: seq<NodeId>, visited: set<NodeId>, parent: ParentMap, depth: map<NodeId, nat>)
    requires Ready(g, start, node, order, queue, visited, parent, depth)
    ensures Scanned(g, start, node, order, queue, visited, depth, 0, queue, visited, parent, depth)
  {
    assert (order + queue)[|order| - 1] == node;
  }

  /** Scanning an entry whose node is already marked changes nothing. */
  lemma ScanKeep(g: Graph, start: NodeId, node: NodeId, order: seq<NodeId>,
                 queue: seq<NodeId>, visited: set<NodeId>, depth: map<NodeId, nat>, k: nat,
                 queue': seq<NodeId>, visited': set<NodeId>, parent': ParentMap, depth': map<NodeId, nat>)
    requires Scanned(g, start, node, order, queue, visited, depth, k, queue', visited', parent', depth')
    requires k < |g[node]| && g[node][k].to in visited'
    ensures Scanned(g, start, node, order, queue, visited, depth, k + 1, queue', visited', parent', depth')
  {
    MarkedShallow(g, start, node, order, queue', visited', parent', depth', g[node][k].to);
  }

  /** Scanning an entry whose node is unmarked marks it, records `node`
      as its parent and enqueues it. */
  lemma ScanMark(g: Graph, start: NodeId, node: NodeId, order: seq<NodeId>,
                 queue: seq<NodeId>, visited: set<NodeId>, depth: map<NodeId, nat>, k: nat,
                 queue': seq<NodeId>, visited': set<NodeId>, parent': ParentMap, depth': map<NodeId, nat>, n: NodeId)
    requires WellFormed(g)
    requires Scanned(g, start, node, order, queue, visited, depth, k, queue', visited', parent', depth')
    requires k < |g[node]| && n == g[node][k].to && n !in visited'
    ensures Scanned(g, start, node, order, queue, visited, depth, k + 1, queue' + [n], visited' + {n},
                    parent'[n := From(node)], depth'[n := depth[node] + 1])
  {
    var dn := depth[node] + 1;
    EntryGivesEdge(g, node, k);
    MarkOne(g, start, node, order, queue', visited', parent', depth', n);
    ExpandedGrows(g, order[..|order| - 1], visited', depth', n, dn);
    ScannedPrefixGrows(g[node], k, visited', depth', dn);
    QueueBoundGrows(queue', depth', n, dn);
    assert n !in visited && node != n;
    assert n in visited' + {n} && visited' + {n} != visited;
    assert depth'[n := dn][node] == depth[node];
  }

  lemma QueueBoundGrows(queue: seq<NodeId>, depth: map<NodeId, nat>, n: NodeId, dn: nat)
    requires QueueBound(queue, depth, dn) && n !in depth
    ensures QueueBound(queue + [n], depth[n := dn], dn)
  {
  }

  /** Marking the target of entry `k` extends the scanned prefix by one. */
  lemma ScannedPrefixGrows(es: seq<Edge>, k: nat, visited: set<NodeId>, depth: map<NodeId, nat>, dn: nat)
    requires k < |es| && es[k].to !in visited && depth.Keys == visited
    requires forall j :: 0 <= j < k ==> es[j].to in visited && depth[es[j].to] <= dn
    ensures forall j :: 0 <= j < k + 1 ==> es[j].to in visited + {es[k].to} && depth[es[k].to := dn][es[j].to] <= dn
  {
  }

  /** Marking a fresh node does not disturb what is known of expanded nodes. */
  lemma ExpandedGrows(g: Graph, done: seq<NodeId>, visited: set<NodeId>, depth: map<NodeId, nat>, n: NodeId, dn: nat)
    requires Expanded(g, done, visited, depth) && n !in visited && depth.Keys == visited
    requires forall u :: u in done ==> u in visited
    ensures Expanded(g, done, visited + {n}, depth[n := dn])
  {
  }

  /** Once the whole list is scanned, `node` counts as expanded. */
  lemma ScanDone(g: Graph, start: NodeId, node: NodeId, order: seq<NodeId>,
                 queue: seq<NodeId>, visited: set<NodeId>, depth: map<NodeId, nat>,
                 queue': seq<NodeId>, visited': set<NodeId>, parent': ParentMap, depth': map<NodeId, nat>)
    requires node in g && Scanned(g, start, node, order, queue, visited, depth, |g[node]|, queue', visited', parent', depth')
    ensures Expanded(g, order, visited', depth')
  {
    var before := order[..|order| - 1];
    forall u, v | u in order && HasEdge(g, u, v)
      ensures v in visited' && v in depth' && u in depth' && depth'[v] <= depth'[u] + 1
    {
      if u == node {
        var k := EdgeGivesEntry(g, node, v);
        assert g[node][k].to in visited' && depth'[g[node][k].to] <= depth[node] + 1;
      } else {
        var p :| 0 <= p < |order| && order[p] == u;
        assert p < |order| - 1 && before[p] == u;
        assert u in before;
      }
    }
  }

  /** The neighbours the inner loop of breadthFirst enqueues, in order:
      each entry's target that is neither marked beforehand (`seen`) nor
      enqueued by an earlier entry. */
  function Enqueued(es: seq<Edge>, seen: set<NodeId>): seq<NodeId>
    decreases |es|
  {
    if es == [] then []
    else
      var p := Enqueued(es[..|es| - 1], seen);
      var n := es[|es| - 1].to;
      if n in seen || n in p then p else p + [n]
  }

  /** A node is enqueued exactly when some entry leads to it and it was
      not marked beforehand; no node is enqueued twice. */
  lemma {:induction false} EnqueuedMembers(es: seq<Edge>, seen: set<NodeId>, x: NodeId)
    ensures x in Enqueued(es, seen) <==> x !in seen && exists k :: 0 <= k < |es| && es[k].to == x
    ensures NoDuplicates(Enqueued(es, seen))
    decreases |es|
  {
    if es != [] {
      var init := es[..|es| - 1];
      EnqueuedMembers(init, seen, x);
      var p := Enqueued(init, seen);
      var n := es[|es| - 1].to;
      if !(n in seen || n in p) {
        AppendFresh(p, n);
      }
      if x !in seen && x in Enqueued(es, seen) && x != n {
        var k :| 0 <= k < |init| && init[k].to == x;
        assert es[k].to == x;
      }
      if x !in seen && (exists k :: 0 <= k < |es| && es[k].to == x) {
        var k :| 0 <= k < |es| && es[k].to == x;
        if k < |init| {
          assert init[k].to == x;
        }
      }
    }
  }

  /** The inner loop's effect on the queue, the marks and the parent map
      after its first `k` entries. */
  ghost predicate Enqueuing(node: NodeId, es: seq<Edge>, k: nat, queue: seq<NodeId>, visited: set<NodeId>, parent: ParentMap,
                      queue': seq<NodeId>, visited': set<NodeId>, parent': ParentMap)
    requires k <= |es|
  {
    var p := Enqueued(es[..k], visited);
    && queue' == queue + p
    && (forall x :: x in visited' <==> x in visited || x in p)
    && (forall x :: x in parent' <==> x in parent || x in p)
    && (forall x :: x in p ==> parent'[x] == From(node))
    && (forall x :: x in parent && x !in p ==> parent'[x] == parent[x])
  }

  lemma EnqueueSkip(node: NodeId, es: seq<Edge>, k: nat, queue: seq<NodeId>, visited: set<NodeId>, parent: ParentMap,
                    queue': seq<NodeId>, visited': set<NodeId>, parent': ParentMap)
    requires k < |es| && Enqueuing(node, es, k, queue, visited, parent, queue', visited', parent')
    requires es[k].to in visited'
    ensures Enqueuing(node, es, k + 1, queue, visited, parent, queue', visited', parent')
  {
    assert es[..k + 1][..k] == es[..k];
  }

  lemma EnqueueAdd(node: NodeId, es: seq<Edge>, k: nat, queue: seq<NodeId>, visited: set<NodeId>, parent: ParentMap,
                   queue': seq<NodeId>, visited': set<NodeId>, parent': ParentMap)
    requires k < |es| && Enqueuing(node, es, k, queue, visited, parent, queue', visited', parent')
    requires es[k].to !in visited'
    ensures Enqueuing(node, es, k + 1, queue, visited, parent,
                      queue' + [es[k].to], visited' + {es[k].to}, parent'[es[k].to := From(node)])
  {
    assert es[..k + 1][..k] == es[..k];
  }

  /** Expanding `node` keeps each parent the first expanded node with an
      edge to its child: the nodes it enqueues had no parent before, and
      every other neighbour of `node` already had an expanded parent. */
  lemma DiscoverersGrow(g: Graph, start: NodeId, order: seq<NodeId>, node: NodeId, depth: map<NodeId, nat>,
                        queue: seq<NodeId>, visited: set<NodeId>, parent: ParentMap,
                        queue': seq<NodeId>, visited': set<NodeId>, parent': ParentMap)
    requires FirstDiscoverers(g, start, order, parent)
    requires node in g && parent.Keys == visited && DiscoveryTree(g, start, order + [node], parent, depth)
    requires Enqueuing(node, g[node], |g[node]|, queue, visited, parent, queue', visited', parent')
    requires forall n :: HasEdge(g, node, n) ==> n in visited'
    ensures FirstDiscoverers(g, start, order + [node], parent')
  {
    var o := order + [node];
    assert g[node][..|g[node]|] == g[node];
    var p := Enqueued(g[node], visited);
    forall j, n | 0 <= j < |o| && HasEdge(g, o[j], n) && n != start
      ensures n in parent' && parent'[n].From? && AmongFirst(o, parent'[n].node, j)
    {
      EnqueuedMembers(g[node], visited, n);
      if j < |order| {
        assert o[j] == order[j];
        var i :| 0 <= i <= j && i < |order| && order[i] == parent[n].node;
        assert o[i] == order[i];
      } else if n in p {
        assert o[|order|] == node;
      } else {
        var i :| 0 <= i < |o| && o[i] == parent[n].node;
      }
    }
  }

  // ----- the order of the queue -----

  /** The index of the first entry of `es` that leads to `x`; |es| when none does. */
  function FirstEntry(es: seq<Edge>, x: NodeId): (r: nat)
    ensures r <= |es| && (r < |es| ==> es[r].to == x)
    ensures forall k :: 0 <= k < r ==> es[k].to != x
    decreases |es|
  {
    if es == [] then 0
    else if es[0].to == x then 0
    else
      var r := 1 + FirstEntry(es[1..], x);
      assert forall k :: 0 < k < r ==> es[k] == es[1..][k - 1];
      r
  }

  /** The index of the first node of `done` with an edge to `x`; |done| when none has one. */
  function Discoverer(g: Graph, done: seq<NodeId>, x: NodeId): (r: nat)
    ensures r <= |done| && (r < |done| ==> HasEdge(g, done[r], x))
    ensures forall i :: 0 <= i < r ==> !HasEdge(g, done[i], x)
    decreases |done|
  {
    if done == [] then 0
    else if HasEdge(g, done[0], x) then 0
    else
      var r := 1 + Discoverer(g, done[1..], x);
      assert forall i :: 0 < i < r ==> done[i] == done[1..][i - 1];
      r
  }

  /** `x` leaves breadthFirst's queue before `y`: an earlier node of
      `done` has an edge to it, or the same node has, through an earlier
      entry of its adjacency list. */
  predicate Precedes(g: Graph, done: seq<NodeId>, x: NodeId, y: NodeId) {
    var i, j := Discoverer(g, done, x), Discoverer(g, done, y);
    i < j || (i == j && i < |done| && done[i] in g && FirstEntry(g[done[i]], x) < FirstEntry(g[done[i]], y))
  }

  /** First in, first out: after the start, each node of `order` leaves
      the queue before every node behind it. */
  predicate FifoOrder(g: Graph, order: seq<NodeId>) {
    forall a, b :: 0 < a < b < |order| ==> Precedes(g, order, order[a], order[b])
  }

  /** `order + queue` after the start is in first-in, first-out order,
      and every node in it was discovered by an expanded node. */
  ghost predicate FifoQueue(g: Graph, order: seq<NodeId>, queue: seq<NodeId>) {
    && (forall a :: 0 < a < |order + queue| ==> Discoverer(g, order, (order + queue)[a]) < |order|)
    && (forall a, b :: 0 < a < b < |order + queue| ==> Precedes(g, order, (order + queue)[a], (order + queue)[b]))
  }

  /** A node discovered within `done` keeps its discoverer when `done` grows. */
  lemma DiscovererKept(g: Graph, done: seq<NodeId>, t: seq<NodeId>, x: NodeId)
    requires Discoverer(g, done, x) < |done|
    ensures Discoverer(g, done + t, x) == Discoverer(g, done, x)
  {
    var r := Discoverer(g, done, x);
    assert forall i :: 0 <= i < |done| ==> (done + t)[i] == done[i];
  }

  /** A node no node of `done` has an edge to is discovered by the node appended next. */
  lemma DiscovererNew(g: Graph, done: seq<NodeId>, node: NodeId, x: NodeId)
    requires forall i :: 0 <= i < |done| ==> !HasEdge(g, done[i], x)
    requires HasEdge(g, node, x)
    ensures Discoverer(g, done + [node], x) == |done|
  {
    assert forall i :: 0 <= i < |done| ==> (done + [node])[i] == done[i];
    assert (done + [node])[|done|] == node;
  }

  /** An entry before the end of `es` stays the first one when an entry is appended. */
  lemma FirstEntryKept(es: seq<Edge>, e: Edge, x: NodeId)
    requires FirstEntry(es, x) < |es|
    ensures FirstEntry(es + [e], x) == FirstEntry(es, x)
  {
    assert forall k :: 0 <= k < |es| ==> (es + [e])[k] == es[k];
  }

  /** The inner loop enqueues neighbours in the order of their first entries. */
  lemma {:induction false} EnqueuedSorted(es: seq<Edge>, seen: set<NodeId>)
    ensures forall m :: 0 <= m < |Enqueued(es, seen)| ==> FirstEntry(es, Enqueued(es, seen)[m]) < |es|
    ensures forall m1, m2 :: 0 <= m1 < m2 < |Enqueued(es, seen)| ==>
              FirstEntry(es, Enqueued(es, seen)[m1]) < FirstEntry(es, Enqueued(es, seen)[m2])
    decreases |es|
  {
    if es != [] {
      var init, e := es[..|es| - 1], es[|es| - 1];
      assert es == init + [e];
      EnqueuedSorted(init, seen);
      var p, q := Enqueued(init, seen), Enqueued(es, seen);
      forall m | 0 <= m < |p| ensures FirstEntry(es, p[m]) == FirstEntry(init, p[m]) {
        FirstEntryKept(init, e, p[m]);
      }
      if q != p {
        assert q == p + [e.to];
        EnqueuedMembers(init, seen, e.to);
        assert FirstEntry(init, e.to) == |init|;
        assert forall k :: 0 <= k < |init| ==> es[k] == init[k];
        forall m1, m2 | 0 <= m1 < m2 < |q| ensures FirstEntry(es, q[m1]) < FirstEntry(es, q[m2]) {
          assert q[m1] == p[m1];
          if m2 < |p| {
            assert q[m2] == p[m2];
          }
        }
      }
    }
  }

  /** Appending a node to `done` keeps every discoverer and every precedence
      among nodes already discovered within `done`. */
  lemma FifoShift(g: Graph, done: seq<NodeId>, s: seq<NodeId>, node: NodeId)
    requires forall a :: 0 < a < |s| ==> Discoverer(g, done, s[a]) < |done|
    requires forall a, b :: 0 < a < b < |s| ==> Precedes(g, done, s[a], s[b])
    ensures forall a :: 0 < a < |s| ==> Discoverer(g, done + [node], s[a]) == Discoverer(g, done, s[a])
    ensures forall a, b :: 0 < a < b < |s| ==> Precedes(g, done + [node], s[a], s[b])
  {
    var o := done + [node];
    forall a | 0 < a < |s| ensures Discoverer(g, o, s[a]) == Discoverer(g, done, s[a]) {
      DiscovererKept(g, done, [node], s[a]);
    }
    forall a, b | 0 < a < b < |s| ensures Precedes(g, o, s[a], s[b]) {
      var i := Discoverer(g, done, s[a]);
      assert o[i] == done[i];
    }
  }

  /** Nodes discovered by the last node of `o`, listed in the order of
      their first entries, go to the back of the queue. */
  lemma FifoAppend(g: Graph, o: seq<NodeId>, s: seq<NodeId>, p: seq<NodeId>)
    requires o != [] && o[|o| - 1] in g
    requires forall a :: 0 < a < |s| ==> Discoverer(g, o, s[a]) < |o| - 1
    requires forall a, b :: 0 < a < b < |s| ==> Precedes(g, o, s[a], s[b])
    requires forall m :: 0 <= m < |p| ==> Discoverer(g, o, p[m]) == |o| - 1
    requires forall m1, m2 :: 0 <= m1 < m2 < |p| ==> FirstEntry(g[o[|o| - 1]], p[m1]) < FirstEntry(g[o[|o| - 1]], p[m2])
    ensures forall a :: 0 < a < |s + p| ==> Discoverer(g, o, (s + p)[a]) < |o|
    ensures forall a, b :: 0 < a < b < |s + p| ==> Precedes(g, o, (s + p)[a], (s + p)[b])
  {
    var t := s + p;
    forall a | 0 < a < |t| ensures Discoverer(g, o, t[a]) < |o| {
      if a >= |s| {
        assert t[a] == p[a - |s|];
      }
    }
    forall a, b | 0 < a < b < |t| ensures Precedes(g, o, t[a], t[b]) {
      if b < |s| {
        assert t[a] == s[a] && t[b] == s[b];
      } else if a >= |s| {
        assert t[a] == p[a - |s|] && t[b] == p[b - |s|];
      } else {
        assert t[a] == s[a] && t[b] == p[b - |s|];
      }
    }
  }

  /** The neighbours `node` enqueues are discovered by it, in the order of their first entries. */
  lemma FreshDiscovered(g: Graph, order: seq<NodeId>, node: NodeId, visited: set<NodeId>, p: seq<NodeId>)
    requires node in g && p == Enqueued(g[node], visited)
    requires forall u, v :: u in order && HasEdge(g, u, v) ==> v in visited
    ensures forall m :: 0 <= m < |p| ==> Discoverer(g, order + [node], p[m]) == |order|
    ensures forall m1, m2 :: 0 <= m1 < m2 < |p| ==> FirstEntry(g[node], p[m1]) < FirstEntry(g[node], p[m2])
  {
    EnqueuedSorted(g[node], visited);
    forall m | 0 <= m < |p| ensures Discoverer(g, order + [node], p[m]) == |order| {
      EnqueuedMembers(g[node], visited, p[m]);
      forall i | 0 <= i < |order| ensures !HasEdge(g, order[i], p[m]) {
        assert order[i] in order;
      }
      DiscovererNew(g, order, node, p[m]);
    }
  }

  /** Dequeuing `node` and enqueuing its fresh neighbours keeps the FIFO order. */
  lemma FifoGrows(g: Graph, order: seq<NodeId>, queue: seq<NodeId>, node: NodeId, visited: set<NodeId>,
                  depth: map<NodeId, nat>, queue': seq<NodeId>)
    requires FifoQueue(g, order, queue) && queue != [] && node == queue[0] && node in g
    requires Expanded(g, order, visited, depth)
    requires queue' == queue[1..] + Enqueued(g[node][..|g[node]|], visited)
    ensures FifoQueue(g, order + [node], queue')
  {
    var s, o := order + queue, order + [node];
    assert g[node][..|g[node]|] == g[node];
    var p := Enqueued(g[node], visited);
    assert o + queue' == s + p;
    FifoShift(g, order, s, node);
    FreshDiscovered(g, order, node, visited, p);
    assert o[|o| - 1] == node;
    FifoAppend(g, o, s, p);
  }

  /** The dequeue order so far is in FIFO order. */
  lemma FifoDone(g: Graph, order: seq<NodeId>, queue: seq<NodeId>)
    requires FifoQueue(g, order, queue)
    ensures FifoOrder(g, order)
  {
    forall a, b | 0 < a < b < |order| ensures Precedes(g, order, order[a], order[b]) {
      assert order[a] == (order + queue)[a] && order[b] == (order + queue)[b];
    }
  }

  /** Dequeuing the goal keeps the dequeue order in FIFO order. */
  lemma FifoGoal(g: Graph, order: seq<NodeId>, queue: seq<NodeId>)
    requires FifoQueue(g, order, queue) && queue != []
    ensures FifoOrder(g, order + [queue[0]])
  {
    var s, o := order + queue, order + [queue[0]];
    FifoShift(g, order, s, queue[0]);
    forall a, b | 0 < a < b < |o| ensures Precedes(g, o, o[a], o[b]) {
      assert o[a] == s[a] && o[b] == s[b];
    }
  }

  /** Precedence is strict: no two nodes precede each other. */
  lemma PrecedesAsym(g: Graph, done: seq<NodeId>, x: NodeId, y: NodeId)
    requires Precedes(g, done, x, y)
    ensures !Precedes(g, done, y, x)
  {
  }

  /** Precedence among nodes discovered within `done` survives growing `done`. */
  lemma PrecedesKept(g: Graph, done: seq<NodeId>, t: seq<NodeId>, x: NodeId, y: NodeId)
    requires Discoverer(g, done, x) < |done| && Discoverer(g, done, y) < |done|
    requires Precedes(g, done, x, y)
    ensures Precedes(g, done + t, x, y)
  {
    DiscovererKept(g, done, t, x);
    DiscovererKept(g, done, t, y);
    var i := Discoverer(g, done, x);
    assert (done + t)[i] == done[i];
  }

  /** A node behind the head of the queue comes after it in FIFO order,
      also once the head is dequeued. */
  lemma BehindGoal(g: Graph, order: seq<NodeId>, queue: seq<NodeId>, q: nat)
    requires FifoQueue(g, order, queue) && order != [] && 0 < q < |queue|
    ensures Precedes(g, order + [queue[0]], queue[0], queue[q])
  {
    var s := order + queue;
    assert s[|order|] == queue[0] && s[|order| + q] == queue[q];
    PrecedesKept(g, order, [queue[0]], queue[0], queue[q]);
  }

  /** Every node the queue hands out before the goal was dequeued: the
      search stops only once the goal reaches the head of the queue. */
  ghost predicate AheadVisited(g: Graph, start: NodeId, goal: NodeId, order: seq<NodeId>) {
    goal != start ==> forall x :: x != start && Precedes(g, order, x, goal) ==> x in order
  }

  /** When the goal heads the queue, each node preceding it was either
      dequeued already or sits behind it, which FIFO order rules out. */
  lemma AheadOfGoal(g: Graph, start: NodeId, goal: NodeId, order: seq<NodeId>, queue: seq<NodeId>,
                    visited: set<NodeId>, parent: ParentMap, depth: map<NodeId, nat>)
    requires Frontier(g, start, goal, order, queue, visited, parent, depth) && FifoQueue(g, order, queue)
    requires queue != [] && queue[0] == goal
    ensures AheadVisited(g, start, goal, order + [goal])
  {
    if goal != start {
      var o := order + [goal];
      assert order != [];
      assert (order + queue)[|order|] == goal;
      DiscovererKept(g, order, [goal], goal);
      forall x | x != start && Precedes(g, o, x, goal) ensures x in o {
        var ix := Discoverer(g, o, x);
        assert ix < |order| && o[ix] == order[ix] && order[ix] in order;
        assert x in visited;
        PrecedesAsym(g, o, x, goal);
        forall q | 0 < q < |queue| ensures queue[q] != x {
          BehindGoal(g, order, queue, q);
        }
      }
    }
  }

  /** The inner loop of breadthFirst over the adjacency list of `node`,
      which has just been dequeued and appended to `order`: each neighbour
      not yet marked is marked, gets `node` as parent and is enqueued. */
  method EnqueueNeighbours(g: Graph, ghost start: NodeId, node: NodeId, order: seq<NodeId>,
                           queue: seq<NodeId>, visited: set<NodeId>, parent: ParentMap, ghost depth: map<NodeId, nat>)
    returns (queue': seq<NodeId>, visited': set<NodeId>, parent': ParentMap, ghost depth': map<NodeId, nat>)
    requires WellFormed(g) && Ready(g, start, node, order, queue, visited, parent, depth)
    ensures Scanned(g, start, node, order, queue, visited, depth, |g[node]|, queue', visited', parent', depth')
    ensures Expanded(g, order, visited', depth')
    ensures Enqueuing(node, g[node], |g[node]|, queue, visited, parent, queue', visited', parent')
    ensures forall x :: x in depth ==> x in depth' && depth'[x] == depth[x]
  {
    ScanStart(g, start, node, order, queue, visited, parent, depth);
    queue', visited', parent', depth' := queue, visited, parent, depth;
    var edges := g[node];
    for k := 0 to |edges|
      invariant Scanned(g, start, node, order, queue, visited, depth, k, queue', visited', parent', depth')
      invariant Enqueuing(node, edges, k, queue, visited, parent, queue', visited', parent')
      invariant forall x :: x in depth ==> x in depth' && depth'[x] == depth[x]
    {
      var n := edges[k].to;
      if n in visited' {
        ScanKeep(g, start, node, order, queue, visited, depth, k, queue', visited', parent', depth');
        EnqueueSkip(node, edges, k, queue, visited, parent, queue', visited', parent');
      } else {
        ScanMark(g, start, node, order, queue, visited, depth, k, queue', visited', parent', depth', n);
        EnqueueAdd(node, edges, k, queue, visited, parent, queue', visited', parent');
        visited' := visited' + {n};
        parent' := parent'[n := From(node)];
        depth' := depth'[n := depth[node] + 1];
        queue' := queue' + [n];
      }
    }
    ScanDone(g, start, node, order, queue, visited, depth, queue', visited', parent', depth');
  }

  /** What the bookkeeping says about the result of the search: the
      dequeue order lists distinct graph nodes, and the parent links form
      a tree of graph edges rooted at `start`. */
  lemma MarkedResult(g: Graph, start: NodeId, order: seq<NodeId>, queue: seq<NodeId>,
                     visited: set<NodeId>, parent: ParentMap, depth: map<NodeId, nat>)
    requires Marked(g, start, order, queue, visited, parent, depth)
    ensures NoDuplicates(order)
    ensures forall i :: 0 <= i < |order| ==> order[i] in g
    ensures ParentTree(parent, start, depth) && LinksAreEdges(g, parent)
    ensures DepthSorted(order, depth)
    ensures forall i :: 0 <= i < |order| ==> order[i] in parent
  {
    forall i, j | 0 <= i < j < |order|
      ensures order[i] in depth && order[j] in depth && depth[order[i]] <= depth[order[j]]
    {
      assert order[i] == (order + queue)[i] && order[j] == (order + queue)[j];
    }
    forall i, j | 0 <= i < j < |order| ensures order[i] != order[j] {
      assert order[i] == (order + queue)[i] && order[j] == (order + queue)[j];
    }
    forall i | 0 <= i < |order| ensures order[i] in g {
      assert order[i] in visited;
    }
  }

  /** The state between two iterations of the outer loop of
      breadthFirst: the bookkeeping holds, the queue spans at most two
      consecutive depths, every dequeued node is expanded, and the goal
      has not been dequeued. */
  ghost predicate Frontier(g: Graph, start: NodeId, goal: NodeId, order: seq<NodeId>,
                           queue: seq<NodeId>, visited: set<NodeId>, parent: ParentMap, depth: map<NodeId, nat>)
  {
    && Marked(g, start, order, queue, visited, parent, depth)
    && (order == [] ==> queue == [start])
    && (order != [] ==> order[0] == start)
    && (queue != [] ==> QueueBound(queue, depth, depth[queue[0]] + 1))
    && Expanded(g, order, visited, depth)
    && goal !in order
  }

  lemma FrontierStart(g: Graph, start: NodeId, goal: NodeId)
    requires start in g
    ensures Frontier(g, start, goal, [], [start], {start}, map[start := Root], map[start := 0])
  {
    assert [] + [start] == [start];
  }

  /** Dequeuing the head of the queue readies it for expansion. */
  lemma DequeueReady(g: Graph, start: NodeId, goal: NodeId, order: seq<NodeId>,
                     queue: seq<NodeId>, visited: set<NodeId>, parent: ParentMap, depth: map<NodeId, nat>)
    requires Frontier(g, start, goal, order, queue, visited, parent, depth) && queue != []
    ensures Ready(g, start, queue[0], order + [queue[0]], queue[1..], visited, parent, depth)
    ensures (order + [queue[0]])[0] == start
  {
    Dequeue(g, start, order, queue, visited, parent, depth);
    assert (order + [queue[0]])[..|order|] == order;
    assert queue[0] in visited;
  }

  /** Expanding a node that is not the goal leads to the next frontier. */
  lemma FrontierNext(g: Graph, start: NodeId, goal: NodeId, node: NodeId, order: seq<NodeId>,
                     queue: seq<NodeId>, visited: set<NodeId>, depth: map<NodeId, nat>,
                     queue': seq<NodeId>, visited': set<NodeId>, parent': ParentMap, depth': map<NodeId, nat>)
    requires node in g && Scanned(g, start, node, order, queue, visited, depth, |g[node]|, queue', visited', parent', depth')
    requires Expanded(g, order, visited', depth')
    requires order[0] == start && goal !in order
    ensures Frontier(g, start, goal, order, queue', visited', parent', depth')
  {
    if queue' != [] {
      QueueSpread(g, start, node, order, queue', visited', parent', depth');
    }
  }

  /** Every dequeued node's depth is the fewest hops of any walk to it. */
  ghost predicate HopMinimal(g: Graph, start: NodeId, order: seq<NodeId>, depth: map<NodeId, nat>) {
    forall i, w {:trigger IsPathBetween(g, w, start, order[i])} ::
      0 <= i < |order| && IsPathBetween(g, w, start, order[i]) ==> order[i] in depth && depth[order[i]] <= |w| - 1
  }

  /** Dequeuing a node whose depth no walk undercuts keeps HopMinimal. */
  lemma HopMinimalGrows(g: Graph, start: NodeId, order: seq<NodeId>, depth: map<NodeId, nat>, node: NodeId)
    requires HopMinimal(g, start, order, depth) && node in depth
    requires forall w :: IsPathBetween(g, w, start, node) ==> depth[node] <= |w| - 1
    ensures HopMinimal(g, start, order + [node], depth)
  {
    var o := order + [node];
    forall i, w | 0 <= i < |o| && IsPathBetween(g, w, start, o[i]) ensures o[i] in depth && depth[o[i]] <= |w| - 1 {
      if i < |order| { assert o[i] == order[i]; }
    }
  }

  /** Marking new nodes leaves the depths of dequeued nodes alone. */
  lemma HopMinimalKept(g: Graph, start: NodeId, order: seq<NodeId>, depth: map<NodeId, nat>, depth': map<NodeId, nat>)
    requires HopMinimal(g, start, order, depth)
    requires forall x :: x in depth ==> x in depth' && depth'[x] == depth[x]
    ensures HopMinimal(g, start, order, depth')
  {
    forall i, w | 0 <= i < |order| && IsPathBetween(g, w, start, order[i])
      ensures order[i] in depth' && depth'[order[i]] <= |w| - 1
    {
      assert order[i] in depth;
    }
  }

  /** `x` can be reached from `start` in at most `n` hops. */
  ghost predicate WithinHops(g: Graph, start: NodeId, x: NodeId, n: nat) {
    exists v :: IsPathBetween(g, v, start, x) && |v| <= n + 1
  }

  /** Level by level: a node visited earlier is never farther (in hops)
      from the start than a node visited later. */
  ghost predicate LevelByLevel(g: Graph, start: NodeId, order: seq<NodeId>) {
    forall i, j, n: nat :: 0 <= i <= j < |order| && WithinHops(g, start, order[j], n) ==> WithinHops(g, start, order[i], n)
  }

  /** The tree depths of the visited nodes are their hop distances, and
      they grow along the visit order, so the order is level by level. */
  lemma LevelOrder(g: Graph, start: NodeId, order: seq<NodeId>, parent: ParentMap, depth: map<NodeId, nat>)
    requires ParentTree(parent, start, depth) && LinksAreEdges(g, parent)
    requires DepthSorted(order, depth) && HopMinimal(g, start, order, depth)
    requires forall i :: 0 <= i < |order| ==> order[i] in parent
    ensures LevelByLevel(g, start, order)
  {
    forall i, j, n: nat | 0 <= i <= j < |order| && WithinHops(g, start, order[j], n)
      ensures WithinHops(g, start, order[i], n)
    {
      var v :| IsPathBetween(g, v, start, order[j]) && |v| <= n + 1;
      assert depth[order[j]] <= |v| - 1;
      assert depth[order[i]] <= depth[order[j]];
      var c := ChainToRoot(parent, start, depth, order[i]);
      ChainIsWalk(g, parent, c);
      assert IsPathBetween(g, c, start, order[i]);
    }
  }

  /** Every city fewer hops from the start than the goal is visited. */
  ghost predicate NearerVisited(g: Graph, start: NodeId, goal: NodeId, order: seq<NodeId>) {
    forall x, n: nat :: WithinHops(g, start, x, n) && !WithinHops(g, start, goal, n) ==> x in order
  }

  /** A path to the goal of depth + 1 nodes means no walk to the goal is
      shorter, so every nearer city lies below the goal's depth. */
  lemma NearerLevels(g: Graph, start: NodeId, goal: NodeId, order: seq<NodeId>, path: seq<NodeId>, d: nat)
    requires VisitedBelow(g, start, order, d)
    requires IsPathBetween(g, path, start, goal) && |path| == d + 1
    ensures NearerVisited(g, start, goal, order)
  {
    forall x, n: nat | WithinHops(g, start, x, n) && !WithinHops(g, start, goal, n) ensures x in order {
      var v :| IsPathBetween(g, v, start, x) && |v| <= n + 1;
      assert !(|path| <= n + 1);
    }
  }

  /** The state between two iterations of the outer loop of breadthFirst:
      the frontier, the least hop counts of the dequeued nodes, their first
      discoverers as parents and the FIFO order of the queue. */
  ghost predicate Searching(g: Graph, start: NodeId, goal: NodeId, order: seq<NodeId>,
                            queue: seq<NodeId>, visited: set<NodeId>, parent: ParentMap, depth: map<NodeId, nat>)
  {
    && Frontier(g, start, goal, order, queue, visited, parent, depth)
    && HopMinimal(g, start, order, depth)
    && FirstDiscoverers(g, start, order, parent)
    && FifoQueue(g, order, queue)
  }

  lemma SearchStart(g: Graph, start: NodeId, goal: NodeId)
    requires start in g
    ensures Searching(g, start, goal, [], [start], {start}, map[start := Root], map[start := 0])
  {
    FrontierStart(g, start, goal);
    assert [] + [start] == [start];
  }

  /** Expanding the head of the queue, which is not the goal, leads to the next state. */
  lemma ExpandKeeps(g: Graph, start: NodeId, goal: NodeId, order: seq<NodeId>, queue: seq<NodeId>,
                    visited: set<NodeId>, parent: ParentMap, depth: map<NodeId, nat>,
                    queue': seq<NodeId>, visited': set<NodeId>, parent': ParentMap, depth': map<NodeId, nat>)
    requires Searching(g, start, goal, order, queue, visited, parent, depth) && queue != [] && queue[0] != goal
    requires queue[0] in g
    requires Scanned(g, start, queue[0], order + [queue[0]], queue[1..], visited, depth, |g[queue[0]]|, queue', visited', parent', depth')
    requires Expanded(g, order + [queue[0]], visited', depth')
    requires Enqueuing(queue[0], g[queue[0]], |g[queue[0]]|, queue[1..], visited, parent, queue', visited', parent')
    requires forall x :: x in depth ==> x in depth' && depth'[x] == depth[x]
    ensures Searching(g, start, goal, order + [queue[0]], queue', visited', parent', depth')
    ensures visited <= visited' <= g.Keys && (visited' == visited ==> |queue'| < |queue|)
  {
    var node := queue[0];
    HopBound(g, start, order, queue, visited, parent, depth);
    HopMinimalGrows(g, start, order, depth, node);
    DequeueReady(g, start, goal, order, queue, visited, parent, depth);
    DiscoverersGrow(g, start, order, node, depth, queue[1..], visited, parent, queue', visited', parent');
    FifoGrows(g, order, queue, node, visited, depth, queue');
    FrontierNext(g, start, goal, node, order + [node], queue[1..], visited, depth, queue', visited', parent', depth');
    HopMinimalKept(g, start, order + [node], depth, depth');
    assert g[node][..|g[node]|] == g[node];
    var p := Enqueued(g[node], visited);
    if p != [] {
      EnqueuedMembers(g[node], visited, p[0]);
    }
  }

  /** What the search loop of breadthFirst leaves behind. */
  ghost predicate BfsOutcome(g: Graph, start: NodeId, goal: NodeId, order: seq<NodeId>,
                             parent: ParentMap, depth: map<NodeId, nat>)
  {
    && (|order| > 0 && order[0] == start && NoDuplicates(order))
    && (forall i :: 0 <= i < |order| ==> order[i] in g)
    && (goal in order ==> order[|order| - 1] == goal)
    && (ParentTree(parent, start, depth) && LinksAreEdges(g, parent))
    && (forall n :: n in parent && n != start ==> parent[n].node in order)
    && (goal in order <==> goal in parent)
    && (goal !in order ==> !Reachable(g, start, goal))
    && (goal in order ==> forall w :: IsPathBetween(g, w, start, goal) ==> depth[goal] <= |w| - 1)
    && (DepthSorted(order, depth) && HopMinimal(g, start, order, depth))
    && (forall i :: 0 <= i < |order| ==> order[i] in parent)
    && (goal !in order ==> forall x :: Reachable(g, start, x) ==> x in order)
    && (goal in order ==> goal in depth && VisitedBelow(g, start, order, depth[goal]))
    && (forall j, n {:trigger HasEdge(g, order[j], n)} :: 0 <= j < |order| && order[j] != goal && HasEdge(g, order[j], n) && n != start ==>
                n in parent && parent[n].From? && AmongFirst(order, parent[n].node, j))
    && FifoOrder(g, order)
    && (goal in order ==> AheadVisited(g, start, goal, order))
  }

  /** Dequeuing the goal ends the search. */
  lemma GoalReached(g: Graph, start: NodeId, goal: NodeId, order: seq<NodeId>, queue: seq<NodeId>,
                    visited: set<NodeId>, parent: ParentMap, depth: map<NodeId, nat>)
    requires Searching(g, start, goal, order, queue, visited, parent, depth) && queue != [] && queue[0] == goal
    ensures BfsOutcome(g, start, goal, order + [goal], parent, depth)
  {
    HopBound(g, start, order, queue, visited, parent, depth);
    HopMinimalGrows(g, start, order, depth, goal);
    NearerDequeued(g, start, order, queue, visited, parent, depth);
    DequeueReady(g, start, goal, order, queue, visited, parent, depth);
    MarkedResult(g, start, order + [goal], queue[1..], visited, parent, depth);
    DiscoverersThenGoal(g, start, goal, order, order + [goal], parent);
    FifoGoal(g, order, queue);
    AheadOfGoal(g, start, goal, order, queue, visited, parent, depth);
  }

  /** A queue that runs dry leaves every node reachable from the start
      dequeued, and the goal among none of them. */
  lemma Drained(g: Graph, start: NodeId, goal: NodeId, order: seq<NodeId>,
                visited: set<NodeId>, parent: ParentMap, depth: map<NodeId, nat>)
    requires Searching(g, start, goal, order, [], visited, parent, depth)
    ensures BfsOutcome(g, start, goal, order, parent, depth)
  {
    FifoDone(g, order, []);
    MarkedResult(g, start, order, [], visited, parent, depth);
    ClosedSetBlocksReach(g, visited, start, goal);
    ClosedSetHoldsReach(g, visited, start);
  }

  /** The search loop of breadthFirst. It returns the dequeue order, the
      parent map and (as a proof device) each marked node's BFS depth.
      When the goal is dequeued, its depth is the fewest hops of any walk
      to it; when the queue runs dry first, the goal is unreachable. */
  method BfsExplore(g: Graph, start: NodeId, goal: NodeId)
    returns (order: seq<NodeId>, parent: ParentMap, ghost depth: map<NodeId, nat>)
    requires WellFormed(g) && start in g
    ensures |order| > 0 && order[0] == start && NoDuplicates(order)
    ensures forall i :: 0 <= i < |order| ==> order[i] in g
    ensures goal in order ==> order[|order| - 1] == goal
    ensures ParentTree(parent, start, depth) && LinksAreEdges(g, parent)
    ensures forall n :: n in parent && n != start ==> parent[n].node in order
    ensures goal in order <==> goal in parent
    ensures goal !in order ==> !Reachable(g, start, goal)
    ensures goal in order ==> forall w :: IsPathBetween(g, w, start, goal) ==> depth[goal] <= |w| - 1
    ensures DepthSorted(order, depth) && HopMinimal(g, start, order, depth)
    ensures forall i :: 0 <= i < |order| ==> order[i] in parent
    ensures goal !in order ==> forall x :: Reachable(g, start, x) ==> x in order
    ensures goal in order ==> goal in depth && VisitedBelow(g, start, order, depth[goal])
    ensures forall j, n {:trigger HasEdge(g, order[j], n)} :: 0 <= j < |order| && order[j] != goal && HasEdge(g, order[j], n) && n != start ==>
              n in parent && parent[n].From? && AmongFirst(order, parent[n].node, j)
    ensures FifoOrder(g, order)
    ensures goal in order ==> AheadVisited(g, start, goal, order)
    ensures BfsOutcome(g, start, goal, order, parent, depth)
  {
    var queue := [start];
    var visited := {start};
    parent := map[start := Root];
    order := [];
    depth := map[start := 0];
    SearchStart(g, start, goal);
    while queue != []
      invariant Searching(g, start, goal, order, queue, visited, parent, depth)
      decreases |g.Keys - visited|, |queue|
    {
      var node := queue[0];
      ghost var prevOrder, prevQueue, prevVisited, prevParent, prevDepth := order, queue, visited, parent, depth;
      queue := queue[1..];
      order := order + [node];
      if node == goal {
        GoalReached(g, start, goal, prevOrder, prevQueue, visited, parent, depth);
        break;
      }
      DequeueReady(g, start, goal, prevOrder, prevQueue, visited, parent, depth);
      queue, visited, parent, depth := EnqueueNeighbours(g, start, node, order, queue, visited, parent, depth);
      ExpandKeeps(g, start, goal, prevOrder, prevQueue, prevVisited, prevParent, prevDepth, queue, visited, parent, depth);
      if visited != prevVisited {
        ShrinkingRest(g.Keys, prevVisited, visited);
      }
    }
    if goal !in order {
      Drained(g, start, goal, order, visited, parent, depth);
    }
  }

  /** The path traced back from the goal through the parents the search
      loop left: it joins start to goal exactly when the goal was visited,
      has the fewest hops, and runs through first discoverers. */
  lemma BfsPath(g: Graph, start: NodeId, goal: NodeId, order: seq<NodeId>, parent: ParentMap,
                depth: map<NodeId, nat>, path: seq<NodeId>)
    requires BfsOutcome(g, start, goal, order, parent, depth)
    requires path != [] ==> IsRootedChain(parent, path) && path[0] == start && path[|path| - 1] == goal
    requires forall c :: IsRootedChain(parent, c) && c[0] == start && c[|c| - 1] == goal ==> path == c
    requires goal !in parent && goal != start ==> path == []
    ensures path != [] <==> goal in order
    ensures path != [] ==> IsPathBetween(g, path, start, goal) && forall w :: IsPathBetween(g, w, start, goal) ==> |path| <= |w|
    ensures NoDuplicates(path) && NoLookupFault(g, path)
    ensures goal in order ==> NearerVisited(g, start, goal, order)
    ensures forall i, j {:trigger HasEdge(g, order[j], path[i])} ::
              (0 < i < |path| && 0 <= j < |order| && order[j] != goal && HasEdge(g, order[j], path[i])) ==>
                AmongFirst(order, path[i - 1], j)
  {
    TracedInTree(g, parent, start, depth, goal, path);
    if goal in order {
      NearerLevels(g, start, goal, order, path, depth[goal]);
    }
    PredecessorsFirst(g, start, goal, order, parent, depth, path);
  }

  /** The visits of the result breadthFirst assembles from the search
      loop's outcome. */
  lemma BfsVisits(g: Graph, start: NodeId, goal: NodeId, order: seq<NodeId>, parent: ParentMap,
                  depth: map<NodeId, nat>, res: SearchResult)
    requires BfsOutcome(g, start, goal, order, parent, depth)
    requires res.visitedOrder == order && res.steps == |order|
    ensures VisitLog(res, start, goal)
    ensures LevelByLevel(g, start, res.visitedOrder)
    ensures forall i :: 0 <= i < |res.visitedOrder| ==> Reachable(g, start, res.visitedOrder[i])
    ensures goal !in res.visitedOrder ==> forall x :: Reachable(g, start, x) ==> x in res.visitedOrder
    ensures FifoOrder(g, res.visitedOrder)
    ensures goal in res.visitedOrder ==> AheadVisited(g, start, goal, res.visitedOrder)
  {
    LevelOrder(g, start, order, parent, depth);
    TreeReaches(g, parent, start, depth, order);
  }

  /** The path of the result breadthFirst assembles: traced back from the
      goal through the parents the search loop left. */
  lemma BfsAnswer(g: Graph, start: NodeId, goal: NodeId, order: seq<NodeId>, parent: ParentMap,
                  depth: map<NodeId, nat>, res: SearchResult)
    requires BfsOutcome(g, start, goal, order, parent, depth)
    requires res.visitedOrder == order
    requires res.path != [] ==> IsRootedChain(parent, res.path) && res.path[0] == start && res.path[|res.path| - 1] == goal
    requires forall c :: IsRootedChain(parent, c) && c[0] == start && c[|c| - 1] == goal ==> res.path == c
    requires goal !in parent && goal != start ==> res.path == []
    ensures PathFound(g, res, start, goal)
    ensures res.path != [] ==> forall w :: IsPathBetween(g, w, start, goal) ==> |res.path| <= |w|
    ensures goal in res.visitedOrder ==> NearerVisited(g, start, goal, res.visitedOrder)
    ensures forall i, j {:trigger HasEdge(g, res.visitedOrder[j], res.path[i])} ::
              (0 < i < |res.path| && 0 <= j < |res.visitedOrder| && res.visitedOrder[j] != goal &&
               HasEdge(g, res.visitedOrder[j], res.path[i])) ==> AmongFirst(res.visitedOrder, res.path[i - 1], j)
  {
    BfsPath(g, start, goal, order, parent, depth, res.path);
    if res.path != [] {
      assert IsPathBetween(g, res.path, start, goal);
    }
  }

  /** breadthFirst: BFS from `start`, stopping when `goal` is dequeued.
      A non-empty path is a walk from start to goal with the fewest hops
      of any such walk; the path is empty exactly when the goal cannot be
      reached, and its cost is then calculateCost of [], that is 0. */
  method BreadthFirst(g: Graph, start: NodeId, goal: NodeId) returns (res: SearchResult)
    requires WellFormed(g) && start in g
    ensures res.algorithm == BFS && VisitLog(res, start, goal) && PathFound(g, res, start, goal)
    ensures res.path != [] ==> forall w :: IsPathBetween(g, w, start, goal) ==> |res.path| <= |w|
    ensures res.cost == PathCost(g, res.path)
    ensures res.path == [] ==> res.cost == Fin(0)
    ensures LevelByLevel(g, start, res.visitedOrder)
    ensures forall i :: 0 <= i < |res.visitedOrder| ==> Reachable(g, start, res.visitedOrder[i])
    ensures goal !in res.visitedOrder ==> forall x :: Reachable(g, start, x) ==> x in res.visitedOrder
    ensures goal in res.visitedOrder ==> NearerVisited(g, start, goal, res.visitedOrder)
    ensures forall i, j {:trigger HasEdge(g, res.visitedOrder[j], res.path[i])} ::
              (0 < i < |res.path| && 0 <= j < |res.visitedOrder| && res.visitedOrder[j] != goal &&
               HasEdge(g, res.visitedOrder[j], res.path[i])) ==> AmongFirst(res.visitedOrder, res.path[i - 1], j)
    ensures FifoOrder(g, res.visitedOrder)
    ensures goal in res.visitedOrder ==> AheadVisited(g, start, goal, res.visitedOrder)
  {
    var order, parent, depth := BfsExplore(g, start, goal);
    TreeIsRanked(parent, start, depth);
    var path := TracePath(parent, start, goal, depth);
    BfsPath(g, start, goal, order, parent, depth, path);
    var cost := CalculateCost(g, path);
    res := SearchResult(BFS, order, path, |order|, cost);
    BfsVisits(g, start, goal, order, parent, depth, res);
    BfsAnswer(g, start, goal, order, parent, depth, res);
  }
}
