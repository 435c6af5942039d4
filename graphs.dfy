// The graph model shared by the path utilities and the three searches:
// node identifiers, adjacency lists, costs with an explicit infinity,
// parent maps, and the specification functions (walks, path costs,
// parent chains) that the searches are proved against.
module Graphs {

  datatype Option<T> = None | Some(value: T)

  /** A city identifier. */
  type NodeId = string

  /** One adjacency entry: the neighbour and the cost of the road to it. */
  datatype Edge = Edge(to: NodeId, cost: nat)

  /** Each node's ordered list of adjacency entries. */
  type Graph = map<NodeId, seq<Edge>>

  /** A path cost; Inf stands for JavaScript's Infinity. */
  datatype Cost = Fin(n: nat) | Inf {
    function Plus(w: nat): (r: Cost)
      ensures r.Fin? <==> Fin?
      ensures r.Fin? ==> r.n == n + w
    {
      if Fin? then Fin(n + w) else Inf
    }

    /** `this <= other`, with Inf above every finite cost. */
    predicate AtMost(other: Cost) {
      other.Inf? || (Fin? && n <= other.n)
    }
  }

  /** A parent-map entry: Root is the explicit null stored for the start
      node; a key that is absent is JavaScript's undefined. */
  datatype Parent = Root | From(node: NodeId)

  type ParentMap = map<NodeId, Parent>

  /** The result record every search returns. */
  datatype Algorithm = BFS | DFS | UCS

  datatype SearchResult = SearchResult(
    algorithm: Algorithm,
    visitedOrder: seq<NodeId>,
    path: seq<NodeId>,
    steps: nat,
    cost: Cost)

  /** The visit log of a search result: one step per visited node, the
      start visited first, no node visited twice, and the goal, once
      visited, visited last. */
  predicate VisitLog(res: SearchResult, start: NodeId, goal: NodeId) {
    && res.steps == |res.visitedOrder|
    && |res.visitedOrder| > 0 && res.visitedOrder[0] == start && NoDuplicates(res.visitedOrder)
    && (goal in res.visitedOrder ==> res.visitedOrder[|res.visitedOrder| - 1] == goal)
  }

  /** The path of a search result: empty exactly when the goal was not
      visited, which is exactly when no walk reaches it; otherwise a walk
      from start to goal that repeats no node. */
  ghost predicate PathFound(g: Graph, res: SearchResult, start: NodeId, goal: NodeId) {
    && (res.path != [] <==> goal in res.visitedOrder)
    && (res.path != [] <==> Reachable(g, start, goal))
    && (res.path != [] ==> IsPathBetween(g, res.path, start, goal))
    && NoDuplicates(res.path)
  }

  /** Every adjacency entry points at a key of the graph, so that
      `graph[n.to]` is defined wherever the searches look it up. */
  predicate WellFormed(g: Graph) {
    forall u, k :: u in g && 0 <= k < |g[u]| ==> g[u][k].to in g
  }

  /** The first entry of `es` that leads to `to` (Array.prototype.find). */
  function FindEdge(es: seq<Edge>, to: NodeId): (r: Option<Edge>)
    ensures r.None? <==> forall k :: 0 <= k < |es| ==> es[k].to != to
    ensures r.Some? ==> exists k :: 0 <= k < |es| && es[k] == r.value && r.value.to == to &&
                                   forall j :: 0 <= j < k ==> es[j].to != to
  {
    if es == [] then None
    else if es[0].to == to then Some(es[0])
    else
      var r := FindEdge(es[1..], to);
      assert r.Some? ==> exists k :: 0 <= k < |es| && es[k] == r.value && r.value.to == to &&
                                     forall j :: 0 <= j < k ==> es[j].to != to by {
        if r.Some? {
          var k :| 0 <= k < |es[1..]| && es[1..][k] == r.value && r.value.to == to &&
                   forall j :: 0 <= j < k ==> es[1..][j].to != to;
          assert es[k + 1] == r.value;
          assert forall j :: 0 <= j < k + 1 ==> es[j].to != to by {
            forall j | 0 <= j < k + 1 ensures es[j].to != to {
              if j > 0 { assert es[j] == es[1..][j - 1]; }
            }
          }
        }
      }
      r
  }

  /** `b` is a neighbour of `a`: some entry of `a`'s list leads to it. */
  predicate HasEdge(g: Graph, a: NodeId, b: NodeId) {
    a in g && exists k :: 0 <= k < |g[a]| && g[a][k].to == b
  }

  /** The lookup calculateCost performs succeeds exactly on neighbours. */
  lemma FindEdgeIffHasEdge(g: Graph, a: NodeId, b: NodeId)
    requires a in g
    ensures FindEdge(g[a], b).Some? <==> HasEdge(g, a, b)
  {
  }

  lemma EntryGivesEdge(g: Graph, a: NodeId, k: nat)
    requires a in g && k < |g[a]|
    ensures HasEdge(g, a, g[a][k].to)
  {
  }

  lemma EdgeGivesEntry(g: Graph, a: NodeId, b: NodeId) returns (k: nat)
    requires HasEdge(g, a, b)
    ensures k < |g[a]| && g[a][k].to == b
  {
    k :| 0 <= k < |g[a]| && g[a][k].to == b;
  }

  /** Consecutive nodes of `p` are neighbours. */
  predicate IsWalk(g: Graph, p: seq<NodeId>) {
    forall i :: 0 <= i < |p| - 1 ==> HasEdge(g, p[i], p[i + 1])
  }

  /** `p` is a walk from `s` to `t` along graph edges. */
  predicate IsPathBetween(g: Graph, p: seq<NodeId>, s: NodeId, t: NodeId) {
    |p| > 0 && p[0] == s && p[|p| - 1] == t && IsWalk(g, p)
  }

  /** Some walk leads from `s` to `t`. */
  ghost predicate Reachable(g: Graph, s: NodeId, t: NodeId) {
    exists p :: IsPathBetween(g, p, s, t)
  }

  /** The cost calculateCost computes: the sum, over consecutive pairs,
      of the cost of the first matching adjacency entry, or Inf as soon
      as some pair has none. */
  function PathCost(g: Graph, p: seq<NodeId>): Cost
    decreases |p|
  {
    if |p| < 2 then Fin(0)
    else
      var rest := PathCost(g, p[..|p| - 1]);
      var a, b := p[|p| - 2], p[|p| - 1];
      if a !in g then Inf
      else match FindEdge(g[a], b)
        case None => Inf
        case Some(e) => rest.Plus(e.cost)
  }

  lemma {:induction false} PathCostFiniteIffWalk(g: Graph, p: seq<NodeId>)
    ensures PathCost(g, p).Fin? <==> IsWalk(g, p)
    decreases |p|
  {
    if |p| >= 2 {
      var q := p[..|p| - 1];
      PathCostFiniteIffWalk(g, q);
      if IsWalk(g, p) {
        assert IsWalk(g, q);
        assert HasEdge(g, p[|p| - 2], p[|p| - 1]);
      } else if IsWalk(g, q) {
        assert !HasEdge(g, p[|p| - 2], p[|p| - 1]);
      }
    }
  }

  /** Extending a walk by one edge adds that edge's (first-entry) cost. */
  lemma PathCostSnoc(g: Graph, p: seq<NodeId>, x: NodeId)
    requires |p| > 0 && HasEdge(g, p[|p| - 1], x)
    ensures PathCost(g, p + [x]) == PathCost(g, p).Plus(FindEdge(g[p[|p| - 1]], x).value.cost)
  {
    assert (p + [x])[..|p + [x]| - 1] == p;
  }

  /** A prefix of a path costs no more than the path (costs are nat). */
  lemma {:induction false} PathCostPrefix(g: Graph, p: seq<NodeId>, i: nat)
    requires 0 < i <= |p|
    ensures PathCost(g, p[..i]).AtMost(PathCost(g, p))
    decreases |p| - i
  {
    if i < |p| {
      PathCostPrefix(g, p, i + 1);
      assert p[..i + 1][..i] == p[..i];
    } else {
      assert p[..i] == p;
    }
  }

  /** No edge leaves the set `s`. */
  ghost predicate ClosedUnderEdges(g: Graph, s: set<NodeId>) {
    forall u, v :: u in s && HasEdge(g, u, v) ==> v in s
  }

  /** A walk that starts inside a set closed under edges stays inside it. */
  lemma {:induction false} WalkStaysInside(g: Graph, s: set<NodeId>, w: seq<NodeId>)
    requires ClosedUnderEdges(g, s) && |w| > 0 && w[0] in s && IsWalk(g, w)
    ensures w[|w| - 1] in s
    decreases |w|
  {
    if |w| > 1 {
      var w' := w[..|w| - 1];
      assert IsWalk(g, w') by {
        forall i | 0 <= i < |w'| - 1 ensures HasEdge(g, w'[i], w'[i + 1]) {
          assert w'[i] == w[i] && w'[i + 1] == w[i + 1];
        }
      }
      WalkStaysInside(g, s, w');
      assert HasEdge(g, w[|w| - 2], w[|w| - 1]);
    }
  }

  /** Nothing outside a closed set is reachable from inside it. */
  lemma ClosedSetBlocksReach(g: Graph, s: set<NodeId>, a: NodeId, b: NodeId)
    requires ClosedUnderEdges(g, s) && a in s && b !in s
    ensures !Reachable(g, a, b)
  {
    forall w | IsPathBetween(g, w, a, b) ensures false {
      WalkStaysInside(g, s, w);
    }
  }

  /** Everything reachable from inside a set closed under edges is in it. */
  lemma ClosedSetHoldsReach(g: Graph, s: set<NodeId>, a: NodeId)
    requires ClosedUnderEdges(g, s) && a in s
    ensures forall x :: Reachable(g, a, x) ==> x in s
  {
    forall x | Reachable(g, a, x) ensures x in s {
      var w :| IsPathBetween(g, w, a, x);
      WalkStaysInside(g, s, w);
    }
  }

  // ----- parent maps -----

  predicate HasParent(parents: ParentMap, n: NodeId) {
    n in parents && parents[n].From?
  }

  /** `c` is a chain of parent links that starts at a node without a
      parent: each element after the first has its predecessor as parent. */
  predicate IsRootedChain(parents: ParentMap, c: seq<NodeId>) {
    && |c| > 0
    && !HasParent(parents, c[0])
    && forall i :: 0 < i < |c| ==> c[i] in parents && parents[c[i]] == From(c[i - 1])
  }

  /** `rank` strictly decreases along parent links: the parent map has no cycle. */
  predicate RankedBy(parents: ParentMap, rank: map<NodeId, nat>) {
    && parents.Keys <= rank.Keys
    && forall n {:trigger parents[n]} :: n in parents && parents[n].From? && parents[n].node in parents ==>
         rank[parents[n].node] < rank[n]
  }

  /** The parent map is a tree rooted at `root`: `root` holds the Root
      entry, every other key links to a key, and `depth` grows by exactly
      one along each link. */
  predicate ParentTree(parents: ParentMap, root: NodeId, depth: map<NodeId, nat>) {
    && root in parents && parents[root] == Root
    && parents.Keys <= depth.Keys && depth[root] == 0
    && forall n {:trigger parents[n]} :: n in parents && n != root ==>
         parents[n].From? && parents[n].node in parents && depth[n] == depth[parents[n].node] + 1
  }

  /** Every parent link of the tree is also an edge of the graph. */
  predicate LinksAreEdges(g: Graph, parents: ParentMap) {
    forall n :: n in parents && parents[n].From? ==> HasEdge(g, parents[n].node, n)
  }

  /** The parent links a search records while it runs: `root` holds the
      Root entry, and every other key has as parent a node of `done` (the
      nodes expanded so far) that is adjacent to it and one level
      shallower. */
  ghost predicate DiscoveryTree(g: Graph, root: NodeId, done: seq<NodeId>, parents: ParentMap, depth: map<NodeId, nat>) {
    && root in parents && parents[root] == Root && root in depth && depth[root] == 0
    && parents.Keys <= depth.Keys
    && forall n {:trigger parents[n]} :: n in parents && n != root ==>
         && parents[n].From? && parents[n].node in done && parents[n].node in parents
         && depth[n] == depth[parents[n].node] + 1
         && HasEdge(g, parents[n].node, n)
  }

  /** Recording an expanded `node` as the parent of a fresh neighbour `n`,
      one level deeper, keeps the discovery tree. */
  lemma TreeGrows(g: Graph, root: NodeId, done: seq<NodeId>, parents: ParentMap, depth: map<NodeId, nat>,
                  node: NodeId, n: NodeId)
    requires DiscoveryTree(g, root, done, parents, depth) && n !in parents && n !in depth
    requires node in done && node in parents && HasEdge(g, node, n)
    ensures DiscoveryTree(g, root, done, parents[n := From(node)], depth[n := depth[node] + 1])
  {
    var p, d := parents[n := From(node)], depth[n := depth[node] + 1];
    forall m | m in p && m != root
      ensures && p[m].From? && p[m].node in done && p[m].node in p
              && d[m] == d[p[m].node] + 1 && HasEdge(g, p[m].node, m)
    {
      if m != n {
        assert p[m] == parents[m] && parents[m].node in parents;
      }
    }
  }

  /** A discovery tree is a parent tree whose links are graph edges. */
  lemma DiscoveryTreeIsTree(g: Graph, root: NodeId, done: seq<NodeId>, parents: ParentMap, depth: map<NodeId, nat>)
    requires DiscoveryTree(g, root, done, parents, depth)
    ensures ParentTree(parents, root, depth) && LinksAreEdges(g, parents)
  {
  }

  lemma TreeIsRanked(parents: ParentMap, root: NodeId, depth: map<NodeId, nat>)
    requires ParentTree(parents, root, depth)
    ensures RankedBy(parents, depth)
  {
  }

  /** Two rooted chains that end at the same node are the same chain. */
  lemma {:induction false} RootedChainUnique(parents: ParentMap, c: seq<NodeId>, d: seq<NodeId>)
    requires IsRootedChain(parents, c) && IsRootedChain(parents, d)
    requires c[|c| - 1] == d[|d| - 1]
    ensures c == d
    decreases |c|
  {
    assert HasParent(parents, c[|c| - 1]) <==> |c| > 1 by {
      if |c| > 1 { assert parents[c[|c| - 1]] == From(c[|c| - 2]); }
    }
    assert HasParent(parents, d[|d| - 1]) <==> |d| > 1 by {
      if |d| > 1 { assert parents[d[|d| - 1]] == From(d[|d| - 2]); }
    }
    if |c| == 1 {
    } else {
      var c', d' := c[..|c| - 1], d[..|d| - 1];
      assert IsRootedChain(parents, c') by {
        forall i | 0 < i < |c'| ensures c'[i] in parents && parents[c'[i]] == From(c'[i - 1]) {
          assert c'[i] == c[i] && c'[i - 1] == c[i - 1];
        }
      }
      assert IsRootedChain(parents, d') by {
        forall i | 0 < i < |d'| ensures d'[i] in parents && parents[d'[i]] == From(d'[i - 1]) {
          assert d'[i] == d[i] && d'[i - 1] == d[i - 1];
        }
      }
      assert parents[c[|c| - 1]] == From(c[|c| - 2]);
      RootedChainUnique(parents, c', d');
      assert c == c' + [c[|c| - 1]] && d == d' + [d[|d| - 1]];
    }
  }

  /** In a parent tree, every key is reached by a rooted chain from the root. */
  lemma {:induction false} ChainToRoot(parents: ParentMap, root: NodeId, depth: map<NodeId, nat>, n: NodeId)
    returns (c: seq<NodeId>)
    requires ParentTree(parents, root, depth) && n in parents
    ensures IsRootedChain(parents, c) && c[0] == root && c[|c| - 1] == n
    ensures |c| == depth[n] + 1
    decreases depth[n]
  {
    if n == root {
      c := [n];
    } else {
      var p := parents[n].node;
      var c' := ChainToRoot(parents, root, depth, p);
      c := c' + [n];
      forall i | 0 < i < |c| ensures c[i] in parents && parents[c[i]] == From(c[i - 1]) {
        if i < |c'| { assert c[i] == c'[i] && c[i - 1] == c'[i - 1]; }
      }
    }
  }

  /** Along a rooted chain of a parent tree, depth grows by one per node,
      so no node occurs twice. */
  lemma {:induction false} ChainDepths(parents: ParentMap, root: NodeId, depth: map<NodeId, nat>, c: seq<NodeId>, i: nat)
    requires ParentTree(parents, root, depth) && IsRootedChain(parents, c) && c[0] == root && i < |c|
    ensures c[i] in depth && depth[c[i]] == i
  {
    if i > 0 {
      ChainDepths(parents, root, depth, c, i - 1);
      assert parents[c[i]] == From(c[i - 1]);
    }
  }

  lemma ChainDistinct(parents: ParentMap, root: NodeId, depth: map<NodeId, nat>, c: seq<NodeId>)
    requires ParentTree(parents, root, depth) && IsRootedChain(parents, c) && c[0] == root
    ensures NoDuplicates(c)
  {
    forall i, j | 0 <= i < j < |c| ensures c[i] != c[j] {
      ChainDepths(parents, root, depth, c, i);
      ChainDepths(parents, root, depth, c, j);
    }
  }

  /** A rooted chain whose links are graph edges is a walk. */
  lemma ChainIsWalk(g: Graph, parents: ParentMap, c: seq<NodeId>)
    requires IsRootedChain(parents, c) && LinksAreEdges(g, parents)
    ensures IsWalk(g, c)
  {
    forall i | 0 <= i < |c| - 1 ensures HasEdge(g, c[i], c[i + 1]) {
      assert parents[c[i + 1]] == From(c[i]);
    }
  }

  /** In a parent tree, the rooted chain to a key starts at the root and
      has one element more than the key's depth. */
  lemma ChainInTree(parents: ParentMap, root: NodeId, depth: map<NodeId, nat>, c: seq<NodeId>)
    requires ParentTree(parents, root, depth) && IsRootedChain(parents, c) && c[|c| - 1] in parents
    ensures c[0] == root && |c| == depth[c[|c| - 1]] + 1
  {
    var d := ChainToRoot(parents, root, depth, c[|c| - 1]);
    RootedChainUnique(parents, c, d);
  }

  /** Every key of a parent tree whose links are edges is reachable from the root. */
  lemma TreeReaches(g: Graph, parents: ParentMap, root: NodeId, depth: map<NodeId, nat>, order: seq<NodeId>)
    requires ParentTree(parents, root, depth) && LinksAreEdges(g, parents)
    requires forall i :: 0 <= i < |order| ==> order[i] in parents
    ensures forall i :: 0 <= i < |order| ==> Reachable(g, root, order[i])
  {
    forall i | 0 <= i < |order| ensures Reachable(g, root, order[i]) {
      var c := ChainToRoot(parents, root, depth, order[i]);
      ChainIsWalk(g, parents, c);
      assert IsPathBetween(g, c, root, order[i]);
    }
  }

  // ----- first discoverers -----

  /** Every node adjacent to an expanded node has a parent entry, and its
      parent was visited no later than that node: a node's parent is the
      first visited node with an edge to it. */
  ghost predicate FirstDiscoverers(g: Graph, start: NodeId, done: seq<NodeId>, parent: ParentMap) {
    forall j, n {:trigger HasEdge(g, done[j], n)} :: 0 <= j < |done| && HasEdge(g, done[j], n) && n != start ==>
      n in parent && parent[n].From? && AmongFirst(done, parent[n].node, j)
  }

  /** `x` occurs in `s` at position `j` or earlier. */
  predicate AmongFirst(s: seq<NodeId>, x: NodeId, j: int) {
    exists i :: 0 <= i <= j && i < |s| && s[i] == x
  }

  /** Along a chain of the tree of first discoverers, each node's
      predecessor was visited no later than any visited node next to it. */
  lemma PredecessorsFirst(g: Graph, start: NodeId, goal: NodeId, order: seq<NodeId>, parent: ParentMap,
                          depth: map<NodeId, nat>, path: seq<NodeId>)
    requires ParentTree(parent, start, depth)
    requires path != [] ==> IsRootedChain(parent, path) && path[0] == start
    requires forall j, n {:trigger HasEdge(g, order[j], n)} ::
               0 <= j < |order| && order[j] != goal && HasEdge(g, order[j], n) && n != start ==>
                 n in parent && parent[n].From? && AmongFirst(order, parent[n].node, j)
    ensures forall i, j {:trigger HasEdge(g, order[j], path[i])} ::
              (0 < i < |path| && 0 <= j < |order| && order[j] != goal && HasEdge(g, order[j], path[i])) ==>
                AmongFirst(order, path[i - 1], j)
  {
    forall i, j {:trigger HasEdge(g, order[j], path[i])} |
      0 < i < |path| && 0 <= j < |order| && order[j] != goal && HasEdge(g, order[j], path[i])
      ensures AmongFirst(order, path[i - 1], j)
    {
      assert parent[path[i]] == From(path[i - 1]);
      assert path[i] != start by {
        ChainInTree(parent, start, depth, path[..i + 1]);
      }
    }
  }

  /** Appending the goal, which is not expanded, keeps every expanded
      node's neighbours with their first discoverers. */
  lemma DiscoverersThenGoal(g: Graph, start: NodeId, goal: NodeId, done: seq<NodeId>, order: seq<NodeId>, parent: ParentMap)
    requires FirstDiscoverers(g, start, done, parent) && goal !in done && order == done + [goal]
    ensures forall j, n {:trigger HasEdge(g, order[j], n)} ::
              0 <= j < |order| && order[j] != goal && HasEdge(g, order[j], n) && n != start ==>
                n in parent && parent[n].From? && AmongFirst(order, parent[n].node, j)
  {
    forall j, n | 0 <= j < |order| && order[j] != goal && HasEdge(g, order[j], n) && n != start
      ensures n in parent && parent[n].From? && AmongFirst(order, parent[n].node, j)
    {
      assert order[j] == done[j];
      var i :| 0 <= i <= j && i < |done| && done[i] == parent[n].node;
      assert order[i] == done[i];
    }
  }

  // ----- small set and sequence helpers -----

  lemma {:induction false} SubsetCard<T>(s: set<T>, t: set<T>)
    requires s <= t
    ensures |s| <= |t|
    decreases |t|
  {
    if s != {} {
      var x :| x in s;
      SubsetCard(s - {x}, t - {x});
    }
  }

  /** Marking more nodes of a finite set leaves fewer unmarked (the
      termination measure of the three searches). */
  lemma ShrinkingRest<T>(k: set<T>, a: set<T>, b: set<T>)
    requires a <= b <= k && a != b
    ensures |k - b| < |k - a|
  {
    var x :| x in b && x !in a;
    SubsetCard(k - b, (k - a) - {x});
  }

  predicate NoDuplicates<T(==)>(s: seq<T>) {
    forall i, j :: 0 <= i < j < |s| ==> s[i] != s[j]
  }

  /** Appending a new element keeps a list free of duplicates. */
  lemma AppendFresh<T>(s: seq<T>, x: T)
    requires NoDuplicates(s) && x !in s
    ensures NoDuplicates(s + [x])
  {
    var t := s + [x];
    forall i, j | 0 <= i < j < |t| ensures t[i] != t[j] {
      assert t[i] == s[i];
      if j < |s| { assert t[j] == s[j]; }
    }
  }

  /** Duplicate-freedom stated from the back, one element at a time:
      the last element does not occur before it, and the rest is again
      duplicate-free. Being recursive, it is unfolded only on demand,
      which keeps long loop invariants cheap to check. */
  predicate Distinct<T(==)>(s: seq<T>)
    decreases |s|
  {
    s == [] || (s[|s| - 1] !in s[..|s| - 1] && Distinct(s[..|s| - 1]))
  }

  lemma DistinctAppend<T>(s: seq<T>, x: T)
    requires Distinct(s) && x !in s
    ensures Distinct(s + [x])
  {
    assert (s + [x])[..|s|] == s;
  }

  /** The recursive formulation agrees with the pairwise one. */
  lemma {:induction false} DistinctIffNoDuplicates<T>(s: seq<T>)
    ensures Distinct(s) <==> NoDuplicates(s)
    decreases |s|
  {
    if s != [] {
      var init := s[..|s| - 1];
      DistinctIffNoDuplicates(init);
      if NoDuplicates(s) {
        forall i, j | 0 <= i < j < |init| ensures init[i] != init[j] {
          assert init[i] == s[i] && init[j] == s[j];
        }
        forall i | 0 <= i < |init| ensures init[i] != s[|s| - 1] {
          assert init[i] == s[i];
        }
      }
      if Distinct(s) {
        forall i, j | 0 <= i < j < |s| ensures s[i] != s[j] {
          assert s[i] == init[i];
          if j < |init| { assert s[j] == init[j]; }
        }
      }
    }
  }

  function Reverse<T>(s: seq<T>): (r: seq<T>)
    ensures |r| == |s|
    ensures forall i :: 0 <= i < |s| ==> r[i] == s[|s| - 1 - i]
  {
    if s == [] then [] else Reverse(s[1..]) + [s[0]]
  }
}
