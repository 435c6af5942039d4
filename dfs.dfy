// depthFirst: LIFO search that marks a node visited when it is popped.
// Each expanded node pushes its not yet visited neighbours in reverse
// adjacency order, so the first of them is popped next; a node keeps the
// parent that first discovered it. The outer loop is DfsExplore, its
// inner loop PushNeighbours; DepthFirst assembles the result record.
module Dfs {
  import opened Graphs
  import opened Paths

  // ----- what the inner loop pushes -----

  /** The targets of `es`, in order. */
  function Targets(es: seq<Edge>): seq<NodeId> {
    seq(|es|, i requires 0 <= i < |es| => es[i].to)
  }

  /** The entries of `s`, in order, that are not in `seen`. Walking a
      list and pushing its unseen targets pushes `Unvisited(Targets(es), seen)`. */
  function Unvisited(s: seq<NodeId>, seen: set<NodeId>): seq<NodeId>
    decreases |s|
  {
    if s == [] then []
    else Unvisited(s[..|s| - 1], seen) + (if s[|s| - 1] in seen then [] else [s[|s| - 1]])
  }

  /** Exactly the unseen entries survive the filter. */
  lemma {:induction false} UnvisitedMembers(s: seq<NodeId>, seen: set<NodeId>, x: NodeId)
    ensures x in Unvisited(s, seen) <==> x in s && x !in seen
    decreases |s|
  {
    if s != [] {
      var init := s[..|s| - 1];
      UnvisitedMembers(init, seen, x);
      assert s == init + [s[|s| - 1]];
    }
  }

  /** Filtering distributes over concatenation. */
  lemma {:induction false} UnvisitedConcat(a: seq<NodeId>, b: seq<NodeId>, seen: set<NodeId>)
    ensures Unvisited(a + b, seen) == Unvisited(a, seen) + Unvisited(b, seen)
    decreases |b|
  {
    if b != [] {
      var init := b[..|b| - 1];
      var x := b[|b| - 1];
      var tail := if x in seen then [] else [x];
      assert (a + b)[..|a + b| - 1] == a + init;
      assert (a + b)[|a + b| - 1] == x;
      assert Unvisited(a + b, seen) == Unvisited(a + init, seen) + tail;
      assert Unvisited(b, seen) == Unvisited(init, seen) + tail;
      UnvisitedConcat(a, init, seen);
    } else {
      assert a + b == a;
    }
  }

  /** Filtering by a smaller set first changes nothing. */
  lemma {:induction false} UnvisitedTwice(s: seq<NodeId>, seen: set<NodeId>, more: set<NodeId>)
    requires seen <= more
    ensures Unvisited(Unvisited(s, seen), more) == Unvisited(s, more)
    decreases |s|
  {
    if s != [] {
      var init, x := s[..|s| - 1], s[|s| - 1];
      UnvisitedTwice(init, seen, more);
      UnvisitedConcat(Unvisited(init, seen), if x in seen then [] else [x], more);
    }
  }

  /** The first target of `es` that does not occur in `seen`, if any:
      the neighbour depthFirst visits right after expanding a node. */
  function FirstUnvisited(es: seq<Edge>, seen: seq<NodeId>): Option<NodeId>
    decreases |es|
  {
    if es == [] then None
    else if es[0].to !in seen then Some(es[0].to)
    else FirstUnvisited(es[1..], seen)
  }

  /** There is no unvisited target exactly when all targets are seen;
      otherwise the result is an unseen target and every entry before it
      is seen. */
  lemma {:induction false} FirstUnvisitedSpec(es: seq<Edge>, seen: seq<NodeId>)
    ensures var r := FirstUnvisited(es, seen);
              (r.None? <==> forall k :: 0 <= k < |es| ==> es[k].to in seen) &&
              (r.Some? ==> r.value !in seen) &&
              (r.Some? ==> exists k :: 0 <= k < |es| && es[k].to == r.value && forall j :: 0 <= j < k ==> es[j].to in seen)
    decreases |es|
  {
    if es != [] && es[0].to in seen {
      var r := FirstUnvisited(es[1..], seen);
      FirstUnvisitedSpec(es[1..], seen);
      if forall k :: 0 <= k < |es[1..]| ==> es[1..][k].to in seen {
        forall k | 0 <= k < |es| ensures es[k].to in seen {
          if k > 0 { assert es[k] == es[1..][k - 1]; }
        }
      }
      if exists k :: 0 <= k < |es| && es[k].to !in seen {
        var k :| 0 <= k < |es| && es[k].to !in seen;
        assert es[1..][k - 1] == es[k];
      }
      if r.Some? {
        var k :| 0 <= k < |es[1..]| && es[1..][k].to == r.value && forall j :: 0 <= j < k ==> es[1..][j].to in seen;
        assert es[k + 1] == es[1..][k];
        forall j | 0 <= j < k + 1 ensures es[j].to in seen {
          if j > 0 { assert es[j] == es[1..][j - 1]; }
        }
      }
    } else if es != [] {
      assert es[0].to == FirstUnvisited(es, seen).value;
    }
  }

  /** Walking the list in reverse and pushing the unseen targets leaves
      the first unseen target on top of the stack, and pushes nothing
      when every target is seen. */
  lemma {:induction false} TopOfPushed(es: seq<Edge>, seen: set<NodeId>, seenSeq: seq<NodeId>)
    requires forall x :: x in seenSeq <==> x in seen
    ensures var p := Unvisited(Targets(Reverse(es)), seen);
              (FirstUnvisited(es, seenSeq).None? <==> p == []) &&
              (p != [] ==> p[|p| - 1] == FirstUnvisited(es, seenSeq).value)
    decreases |es|
  {
    if es != [] {
      var rest := Reverse(es[1..]);
      assert Reverse(es) == rest + [es[0]];
      var ts := Targets(rest + [es[0]]);
      assert ts[..|ts| - 1] == Targets(rest);
      assert ts[|ts| - 1] == es[0].to;
      TopOfPushed(es[1..], seen, seenSeq);
    }
  }

  /** What walking the reversed adjacency list of `node` pushes is
      exactly its neighbours that are not in `seen`. */
  lemma PushedNeighbours(g: Graph, node: NodeId, seen: set<NodeId>, x: NodeId)
    requires node in g
    ensures x in Unvisited(Targets(Reverse(g[node])), seen) <==> x !in seen && HasEdge(g, node, x)
  {
    var es := g[node];
    var rev := Reverse(es);
    UnvisitedMembers(Targets(rev), seen, x);
    if x in Targets(rev) {
      var k :| 0 <= k < |rev| && Targets(rev)[k] == x;
      assert es[|es| - 1 - k] == rev[k];
    }
    if HasEdge(g, node, x) {
      var k :| 0 <= k < |es| && es[k].to == x;
      assert rev[|es| - 1 - k] == es[k];
      assert Targets(rev)[|es| - 1 - k] == x;
    }
  }

  // ----- the order of a depth-first search -----

  /** Everything pushed while expanding the nodes of `o` in turn, ignoring
      what was seen: each node contributes its targets, last one first. */
  function Layers(g: Graph, o: seq<NodeId>): seq<NodeId>
    decreases |o|
  {
    if o == [] then []
    else Layers(g, o[..|o| - 1]) + (if o[|o| - 1] in g then Targets(Reverse(g[o[|o| - 1]])) else [])
  }

  /** Backtracking: the first target not in `seen` of the latest node of
      `o` that still has one. */
  function Resume(g: Graph, o: seq<NodeId>, seen: seq<NodeId>): Option<NodeId>
    decreases |o|
  {
    if o == [] then None
    else
      var last := o[|o| - 1];
      if last in g && FirstUnvisited(g[last], seen).Some? then FirstUnvisited(g[last], seen)
      else Resume(g, o[..|o| - 1], seen)
  }

  /** Peeling off the layer of the latest node: it is where backtracking
      resumes when anything of it is unseen, and it is wholly seen
      otherwise. */
  lemma LastLayer(g: Graph, o: seq<NodeId>, seen: set<NodeId>, seenSeq: seq<NodeId>)
    requires o != [] && forall x :: x in seenSeq <==> x in seen
    ensures var init, last := o[..|o| - 1], o[|o| - 1];
            var p := Unvisited(if last in g then Targets(Reverse(g[last])) else [], seen);
              && Unvisited(Layers(g, o), seen) == Unvisited(Layers(g, init), seen) + p
              && (p != [] ==> Resume(g, o, seenSeq) == Some(p[|p| - 1]))
              && (p == [] ==> Resume(g, o, seenSeq) == Resume(g, init, seenSeq))
  {
    var init, last := o[..|o| - 1], o[|o| - 1];
    var top := if last in g then Targets(Reverse(g[last])) else [];
    assert Layers(g, o) == Layers(g, init) + top;
    UnvisitedConcat(Layers(g, init), top, seen);
    if last in g {
      TopOfPushed(g[last], seen, seenSeq);
      assert Resume(g, o, seenSeq) ==
        if FirstUnvisited(g[last], seenSeq).Some? then FirstUnvisited(g[last], seenSeq) else Resume(g, init, seenSeq);
    } else {
      assert Resume(g, o, seenSeq) == Resume(g, init, seenSeq);
    }
  }

  /** The latest unseen node among the layers is the one backtracking
      resumes with, and none is left exactly when backtracking fails. */
  lemma {:induction false} ResumeTop(g: Graph, o: seq<NodeId>, seen: set<NodeId>, seenSeq: seq<NodeId>)
    requires forall x :: x in seenSeq <==> x in seen
    ensures var u := Unvisited(Layers(g, o), seen);
              (Resume(g, o, seenSeq).None? <==> u == []) &&
              (u != [] ==> Resume(g, o, seenSeq) == Some(u[|u| - 1]))
    decreases |o|
  {
    if o != [] {
      ResumeTop(g, o[..|o| - 1], seen, seenSeq);
      LastLayer(g, o, seen, seenSeq);
    }
  }

  /** Expanding one more node adds its reversed targets as a new layer. */
  lemma LayersAppend(g: Graph, o: seq<NodeId>, node: NodeId)
    requires node in g
    ensures Layers(g, o + [node]) == Layers(g, o) + Targets(Reverse(g[node]))
  {
    assert (o + [node])[..|o|] == o;
  }

  // ----- the inner loop -----

  /** The inner loop of depthFirst: walks a reversed copy of the adjacency
      list of `node`; each target not yet visited gets `node` as parent
      unless it already has an entry, and is pushed. */
  method PushNeighbours(g: Graph, node: NodeId, visited: set<NodeId>, stack: seq<NodeId>,
                        parent: ParentMap, ghost depth: map<NodeId, nat>)
    returns (stack': seq<NodeId>, parent': ParentMap, ghost depth': map<NodeId, nat>)
    requires node in g && node in parent && parent.Keys == depth.Keys
    ensures stack' == stack + Unvisited(Targets(Reverse(g[node])), visited)
    ensures forall x :: x in stack' <==> x in stack || (x !in visited && HasEdge(g, node, x))
    ensures forall x :: x in parent' <==> x in parent || (x !in visited && HasEdge(g, node, x))
    ensures parent'.Keys == depth'.Keys
    ensures forall x :: x in parent ==> parent'[x] == parent[x] && depth'[x] == depth[x]
    ensures forall x :: x in parent' && x !in parent ==> parent'[x] == From(node) && depth'[x] == depth[node] + 1
  {
    var rev := Reverse(g[node]);
    ghost var ts := Targets(rev);
    stack', parent', depth' := stack, parent, depth;
    for k := 0 to |rev|
      invariant stack' == stack + Unvisited(ts[..k], visited)
      invariant forall x :: x in parent' <==> x in parent || x in Unvisited(ts[..k], visited)
      invariant parent'.Keys == depth'.Keys
      invariant forall x :: x in parent ==> parent'[x] == parent[x] && depth'[x] == depth[x]
      invariant forall x :: x in parent' && x !in parent ==> parent'[x] == From(node) && depth'[x] == depth[node] + 1
    {
      var n := rev[k].to;
      assert ts[..k + 1][..k] == ts[..k] && ts[..k + 1][k] == n;
      if n !in visited {
        if n !in parent' {
          parent' := parent'[n := From(node)];
          depth' := depth'[n := depth[node] + 1];
        }
        stack' := stack' + [n];
      }
    }
    assert ts[..|ts|] == ts;
    forall x ensures x in Unvisited(ts, visited) <==> x !in visited && HasEdge(g, node, x) {
      PushedNeighbours(g, node, visited, x);
    }
    assert forall x :: x in stack' <==> x in stack || x in Unvisited(ts, visited);
  }

  // ----- the state of the outer loop -----

  /** Depth-first order: each node after the first is where backtracking
      over the nodes visited before it resumes. */
  ghost predicate DfsOrdered(g: Graph, order: seq<NodeId>)
    decreases |order|
  {
    |order| <= 1 ||
    (var init := order[..|order| - 1];
     DfsOrdered(g, init) && Resume(g, init, init) == Some(order[|order| - 1]))
  }

  /** In a depth-first order, the node at position `i` is where
      backtracking over the first `i` nodes resumes. */
  lemma {:induction false} DfsOrderedAt(g: Graph, order: seq<NodeId>, i: nat)
    requires DfsOrdered(g, order) && 0 < i < |order|
    ensures Resume(g, order[..i], order[..i]) == Some(order[i])
    decreases |order|
  {
    var init := order[..|order| - 1];
    if i < |order| - 1 {
      DfsOrderedAt(g, init, i);
      assert init[..i] == order[..i] && init[i] == order[i];
    }
  }

  /** No visited node has a neighbour outside the order. */
  ghost predicate Exhausted(g: Graph, order: seq<NodeId>) {
    forall i, n {:trigger HasEdge(g, order[i], n)} :: 0 <= i < |order| && HasEdge(g, order[i], n) ==> n in order
  }

  /** Backtracking over `o` finds nothing exactly when every node of `o`
      has all its targets seen. */
  lemma {:induction false} ResumeNone(g: Graph, o: seq<NodeId>, seen: seq<NodeId>)
    ensures Resume(g, o, seen).None? <==> forall i :: 0 <= i < |o| && o[i] in g ==> FirstUnvisited(g[o[i]], seen).None?
    decreases |o|
  {
    if o != [] {
      var init := o[..|o| - 1];
      ResumeNone(g, init, seen);
      assert forall i :: 0 <= i < |init| ==> init[i] == o[i];
    }
  }

  /** A depth-first search stops when backtracking over its order finds
      nothing, which is exactly when the order is exhausted. */
  lemma ExhaustedIffNoResume(g: Graph, order: seq<NodeId>)
    requires forall i :: 0 <= i < |order| ==> order[i] in g
    ensures Exhausted(g, order) <==> Resume(g, order, order).None?
  {
    ResumeNone(g, order, order);
    forall i | 0 <= i < |order|
      ensures FirstUnvisited(g[order[i]], order).None? <==> forall n :: HasEdge(g, order[i], n) ==> n in order
    {
      FirstUnvisitedSpec(g[order[i]], order);
      if FirstUnvisited(g[order[i]], order).None? {
        forall n | HasEdge(g, order[i], n) ensures n in order {
          var k :| 0 <= k < |g[order[i]]| && g[order[i]][k].to == n;
        }
      } else {
        var n := FirstUnvisited(g[order[i]], order).value;
        var k :| 0 <= k < |g[order[i]]| && g[order[i]][k].to == n;
        assert HasEdge(g, order[i], n);
      }
    }
  }

  /** The bookkeeping of depthFirst between two iterations of its loop. */
  ghost predicate Stacked(g: Graph, start: NodeId, goal: NodeId, order: seq<NodeId>, stack: seq<NodeId>,
                          visited: set<NodeId>, parent: ParentMap, depth: map<NodeId, nat>)
  {
    && StackCovers(g, start, goal, order, stack, visited, parent, depth)
    && DiscoveryTree(g, start, order, parent, depth)
    && FirstDiscoverers(g, start, order, parent)
  }

  /** The visited set is the order, and the stack and the parent map
      cover each other. */
  ghost predicate StackCovers(g: Graph, start: NodeId, goal: NodeId, order: seq<NodeId>, stack: seq<NodeId>,
                              visited: set<NodeId>, parent: ParentMap, depth: map<NodeId, nat>)
  {
    && Distinct(order)
    && (forall x :: x in visited <==> x in order)
    && visited <= g.Keys
    && (forall x :: x in stack ==> x in g && x in parent)
    && (forall x :: x in parent ==> x in visited || x in stack)
    && visited <= parent.Keys && parent.Keys == depth.Keys
    && (order != [] ==> order[0] == start)
    && goal !in order
    && (order == [] ==> stack == [start])
  }

  /** The order so far is depth-first, and the unvisited part of the stack
      is the unvisited part of everything the visited nodes pushed. */
  ghost predicate StackedOrder(g: Graph, start: NodeId, order: seq<NodeId>, stack: seq<NodeId>, visited: set<NodeId>) {
    && DfsOrdered(g, order)
    && (order == [] ==> stack == [start])
    && (order != [] ==> Unvisited(stack, visited) == Unvisited(Layers(g, order), visited))
  }

  /** What depthFirst's loop establishes about its result. */
  ghost predicate DfsOutcome(g: Graph, start: NodeId, goal: NodeId, order: seq<NodeId>,
                             parent: ParentMap, depth: map<NodeId, nat>)
  {
    && |order| > 0 && order[0] == start && Distinct(order)
    && (forall i :: 0 <= i < |order| ==> order[i] in g)
    && (goal in order ==> order[|order| - 1] == goal)
    && DiscoveryTree(g, start, order, parent, depth)
    && (goal in order <==> goal in parent)
    && (goal !in order ==> !Reachable(g, start, goal))
    && (forall j, n {:trigger HasEdge(g, order[j], n)} :: 0 <= j < |order| && order[j] != goal && HasEdge(g, order[j], n) && n != start ==>
          n in parent && parent[n].From? && AmongFirst(order, parent[n].node, j))
    && (goal !in order ==> Exhausted(g, order))
  }

  lemma StackedStart(g: Graph, start: NodeId, goal: NodeId)
    requires start in g
    ensures Stacked(g, start, goal, [], [start], {}, map[start := Root], map[start := 0])
  {
  }

  // ----- one iteration of the outer loop -----

  lemma PopSplit(s: seq<NodeId>)
    requires s != []
    ensures s == s[..|s| - 1] + [s[|s| - 1]]
  {
  }

  /** Popping a node that is already visited changes nothing else. */
  lemma SkipStep(g: Graph, start: NodeId, goal: NodeId, order: seq<NodeId>, stack: seq<NodeId>,
                 visited: set<NodeId>, parent: ParentMap, depth: map<NodeId, nat>)
    requires Stacked(g, start, goal, order, stack, visited, parent, depth)
    requires stack != [] && stack[|stack| - 1] in visited
    ensures Stacked(g, start, goal, order, stack[..|stack| - 1], visited, parent, depth)
  {
    var rest := stack[..|stack| - 1];
    PopSplit(stack);
    assert order != [];
  }

  /** Popping a visited node leaves the unvisited part of the stack as it was. */
  lemma SkipOrder(g: Graph, start: NodeId, order: seq<NodeId>, stack: seq<NodeId>, visited: set<NodeId>)
    requires StackedOrder(g, start, order, stack, visited) && (forall x :: x in visited <==> x in order)
    requires stack != [] && stack[|stack| - 1] in visited
    ensures StackedOrder(g, start, order, stack[..|stack| - 1], visited)
  {
    assert Unvisited(stack[..|stack| - 1], visited) == Unvisited(stack, visited);
  }

  /** Visiting the goal from the top of the stack keeps the order depth-first. */
  lemma GoalOrder(g: Graph, start: NodeId, order: seq<NodeId>, stack: seq<NodeId>, visited: set<NodeId>, goal: NodeId)
    requires StackedOrder(g, start, order, stack, visited) && (forall x :: x in visited <==> x in order)
    requires stack != [] && stack[|stack| - 1] == goal && goal !in visited
    ensures DfsOrdered(g, order + [goal])
  {
    if order != [] {
      NextFromStack(g, order, stack, visited);
    }
    VisitOrder(g, order, goal);
  }

  /** An unvisited node on top of the stack is where backtracking over
      the visited nodes resumes. */
  lemma NextFromStack(g: Graph, order: seq<NodeId>, stack: seq<NodeId>, visited: set<NodeId>)
    requires order != [] && (forall x :: x in visited <==> x in order)
    requires Unvisited(stack, visited) == Unvisited(Layers(g, order), visited)
    requires stack != [] && stack[|stack| - 1] !in visited
    ensures Resume(g, order, order) == Some(stack[|stack| - 1])
  {
    ResumeTop(g, order, visited, order);
  }

  /** Visiting the node backtracking resumes with keeps the order a
      depth-first one. */
  lemma VisitOrder(g: Graph, order: seq<NodeId>, node: NodeId)
    requires DfsOrdered(g, order)
    requires order != [] ==> Resume(g, order, order) == Some(node)
    ensures DfsOrdered(g, order + [node])
  {
    assert (order + [node])[..|order|] == order;
  }

  /** Popping an unvisited node and marking it visited leaves the rest of
      the stack agreeing with the layers. */
  lemma PoppedRest(rest: seq<NodeId>, node: NodeId, layers: seq<NodeId>, visited: set<NodeId>)
    requires Unvisited(rest + [node], visited) == Unvisited(layers, visited)
    ensures Unvisited(rest, visited + {node}) == Unvisited(layers, visited + {node})
  {
    var v := visited + {node};
    UnvisitedTwice(layers, visited, v);
    UnvisitedTwice(rest + [node], visited, v);
    UnvisitedConcat(rest, [node], v);
    assert Unvisited([node], v) == Unvisited([], v) + [];
  }

  /** After the neighbours of `node` are pushed, the unvisited part of the
      stack is still the unvisited part of the layers. */
  lemma VisitLayers(g: Graph, order: seq<NodeId>, rest: seq<NodeId>, visited: set<NodeId>,
                    node: NodeId, stack': seq<NodeId>)
    requires node in g
    requires order == [] ==> rest == []
    requires order != [] ==> Unvisited(rest + [node], visited) == Unvisited(Layers(g, order), visited)
    requires stack' == rest + Unvisited(Targets(Reverse(g[node])), visited + {node})
    ensures Unvisited(stack', visited + {node}) == Unvisited(Layers(g, order + [node]), visited + {node})
  {
    var v, ts := visited + {node}, Targets(Reverse(g[node]));
    LayersAppend(g, order, node);
    UnvisitedConcat(Layers(g, order), ts, v);
    UnvisitedConcat(rest, Unvisited(ts, v), v);
    UnvisitedTwice(ts, v, v);
    if order != [] {
      PoppedRest(rest, node, Layers(g, order), visited);
    }
  }

  /** Visiting the node on top of the stack and pushing its neighbours
      keeps the order depth-first and the stack in step with the layers. */
  lemma OrderStep(g: Graph, start: NodeId, order: seq<NodeId>, stack: seq<NodeId>, visited: set<NodeId>, node: NodeId)
    requires StackedOrder(g, start, order, stack, visited) && (forall x :: x in visited <==> x in order)
    requires stack != [] && node == stack[|stack| - 1] && node !in visited && node in g
    ensures StackedOrder(g, start, order + [node],
                         stack[..|stack| - 1] + Unvisited(Targets(Reverse(g[node])), visited + {node}), visited + {node})
  {
    PopSplit(stack);
    if order != [] {
      NextFromStack(g, order, stack, visited);
    }
    VisitOrder(g, order, node);
    VisitLayers(g, order, stack[..|stack| - 1], visited, node,
                stack[..|stack| - 1] + Unvisited(Targets(Reverse(g[node])), visited + {node}));
  }

  /** Visiting a node keeps the discovery tree and the first-discoverer property. */
  lemma VisitTree(g: Graph, start: NodeId, order: seq<NodeId>, visited: set<NodeId>,
                  parent: ParentMap, depth: map<NodeId, nat>, node: NodeId,
                  parent': ParentMap, depth': map<NodeId, nat>)
    requires DiscoveryTree(g, start, order, parent, depth) && FirstDiscoverers(g, start, order, parent)
    requires visited <= parent.Keys && parent.Keys == depth.Keys && node in parent
    requires forall x :: x in visited <==> x in order || x == node
    requires forall x :: x in parent' <==> x in parent || (x !in visited && HasEdge(g, node, x))
    requires parent'.Keys == depth'.Keys
    requires forall x :: x in parent ==> parent'[x] == parent[x] && depth'[x] == depth[x]
    requires forall x :: x in parent' && x !in parent ==> parent'[x] == From(node) && depth'[x] == depth[node] + 1
    ensures DiscoveryTree(g, start, order + [node], parent', depth')
    ensures FirstDiscoverers(g, start, order + [node], parent')
  {
    var o := order + [node];
    forall n | n in parent' && n != start
      ensures && parent'[n].From? && parent'[n].node in o && parent'[n].node in parent'
              && depth'[n] == depth'[parent'[n].node] + 1 && HasEdge(g, parent'[n].node, n)
    {
      if n in parent {
        assert parent[n].node in parent;
      }
    }
    forall j, n {:trigger HasEdge(g, o[j], n)} | 0 <= j < |o| && HasEdge(g, o[j], n) && n != start
      ensures n in parent' && parent'[n].From? && AmongFirst(o, parent'[n].node, j)
    {
      if j < |order| {
        assert o[j] == order[j];
        var i :| 0 <= i <= j && i < |order| && order[i] == parent[n].node;
        assert o[i] == order[i];
      } else if n in parent {
        var i :| 0 <= i < |order| && order[i] == parent[n].node;
        assert o[i] == order[i];
      } else {
        assert o[j] == node;
      }
    }
  }

  /** After the push, the stack and the parent map still cover each other. */
  lemma VisitCovers(g: Graph, start: NodeId, goal: NodeId, order: seq<NodeId>, stack: seq<NodeId>,
                    visited: set<NodeId>, parent: ParentMap, depth: map<NodeId, nat>, rest: seq<NodeId>, node: NodeId,
                    stack': seq<NodeId>, parent': ParentMap, depth': map<NodeId, nat>)
    requires WellFormed(g)
    requires StackCovers(g, start, goal, order, stack, visited, parent, depth)
    requires stack == rest + [node] && node !in visited && node != goal
    requires forall x :: x in stack' <==> x in rest || (x !in visited + {node} && HasEdge(g, node, x))
    requires forall x :: x in parent' <==> x in parent || (x !in visited + {node} && HasEdge(g, node, x))
    requires parent'.Keys == depth'.Keys
    ensures StackCovers(g, start, goal, order + [node], stack', visited + {node}, parent', depth')
  {
    DistinctAppend(order, node);
    forall x | x in stack' ensures x in g && x in parent' {
      if x !in rest {
        var k := EdgeGivesEntry(g, node, x);
      }
    }
    assert order == [] ==> node == start;
  }

  /** Visiting a node that is not the goal and pushing its neighbours
      leads to the next loop state. */
  lemma VisitStep(g: Graph, start: NodeId, goal: NodeId, order: seq<NodeId>, stack: seq<NodeId>,
                  visited: set<NodeId>, parent: ParentMap, depth: map<NodeId, nat>, rest: seq<NodeId>, node: NodeId,
                  stack': seq<NodeId>, parent': ParentMap, depth': map<NodeId, nat>)
    requires WellFormed(g)
    requires Stacked(g, start, goal, order, stack, visited, parent, depth)
    requires stack == rest + [node] && node !in visited && node != goal
    requires forall x :: x in stack' <==> x in rest || (x !in visited + {node} && HasEdge(g, node, x))
    requires forall x :: x in parent' <==> x in parent || (x !in visited + {node} && HasEdge(g, node, x))
    requires parent'.Keys == depth'.Keys
    requires forall x :: x in parent ==> parent'[x] == parent[x] && depth'[x] == depth[x]
    requires forall x :: x in parent' && x !in parent ==> parent'[x] == From(node) && depth'[x] == depth[node] + 1
    ensures Stacked(g, start, goal, order + [node], stack', visited + {node}, parent', depth')
  {
    VisitTree(g, start, order, visited + {node}, parent, depth, node, parent', depth');
    VisitCovers(g, start, goal, order, stack, visited, parent, depth, rest, node, stack', parent', depth');
  }

  /** Popping the goal ends the search with the goal visited last. */
  lemma GoalStep(g: Graph, start: NodeId, goal: NodeId, order: seq<NodeId>, stack: seq<NodeId>,
                 visited: set<NodeId>, parent: ParentMap, depth: map<NodeId, nat>)
    requires Stacked(g, start, goal, order, stack, visited, parent, depth)
    requires stack != [] && stack[|stack| - 1] == goal && goal !in visited
    ensures DfsOutcome(g, start, goal, order + [goal], parent, depth)
  {
    var o := order + [goal];
    DistinctAppend(order, goal);
    GoalDiscoverers(g, start, goal, order, o, parent);
    TreeKept(g, start, order, o, parent, depth);
    assert order == [] ==> goal == start;
  }

  lemma GoalDiscoverers(g: Graph, start: NodeId, goal: NodeId, order: seq<NodeId>, o: seq<NodeId>, parent: ParentMap)
    requires FirstDiscoverers(g, start, order, parent) && o == order + [goal]
    ensures forall j, n {:trigger HasEdge(g, o[j], n)} :: 0 <= j < |o| && o[j] != goal && HasEdge(g, o[j], n) && n != start ==>
              n in parent && parent[n].From? && AmongFirst(o, parent[n].node, j)
  {
    forall j, n {:trigger HasEdge(g, o[j], n)} | 0 <= j < |o| && o[j] != goal && HasEdge(g, o[j], n) && n != start
      ensures n in parent && parent[n].From? && AmongFirst(o, parent[n].node, j)
    {
      assert o[j] == order[j];
      var i :| 0 <= i <= j && i < |order| && order[i] == parent[n].node;
      assert o[i] == order[i];
    }
  }

  lemma TreeKept(g: Graph, start: NodeId, order: seq<NodeId>, o: seq<NodeId>, parent: ParentMap, depth: map<NodeId, nat>)
    requires DiscoveryTree(g, start, order, parent, depth) && forall x :: x in order ==> x in o
    ensures DiscoveryTree(g, start, o, parent, depth)
  {
  }

  /** An empty stack ends the search: everything reachable was visited. */
  lemma DrainedStack(g: Graph, start: NodeId, goal: NodeId, order: seq<NodeId>,
                     visited: set<NodeId>, parent: ParentMap, depth: map<NodeId, nat>)
    requires Stacked(g, start, goal, order, [], visited, parent, depth)
    ensures DfsOutcome(g, start, goal, order, parent, depth)
  {
    assert order != [];
    assert ClosedUnderEdges(g, visited) by {
      forall u, v | u in visited && HasEdge(g, u, v) ensures v in visited {
        var j :| 0 <= j < |order| && order[j] == u;
        if v != start {
          assert v in parent;
        } else {
          assert order[0] == start;
        }
      }
    }
    ClosedSetBlocksReach(g, visited, start, goal);
  }

  /** The search loop of depthFirst. It returns the visit order, the
      parent map and (as a proof device) each discovered node's depth
      in the tree of first discoverers. */
  method DfsExplore(g: Graph, start: NodeId, goal: NodeId)
    returns (order: seq<NodeId>, parent: ParentMap, ghost depth: map<NodeId, nat>)
    requires WellFormed(g) && start in g
    ensures |order| > 0 && order[0] == start && NoDuplicates(order)
    ensures forall i :: 0 <= i < |order| ==> order[i] in g
    ensures goal in order ==> order[|order| - 1] == goal
    ensures ParentTree(parent, start, depth) && LinksAreEdges(g, parent)
    ensures goal in order <==> goal in parent
    ensures goal !in order ==> !Reachable(g, start, goal)
    ensures forall j, n {:trigger HasEdge(g, order[j], n)} :: 0 <= j < |order| && order[j] != goal && HasEdge(g, order[j], n) && n != start ==>
              n in parent && parent[n].From? && AmongFirst(order, parent[n].node, j)
    ensures DfsOrdered(g, order)
    ensures goal !in order ==> Exhausted(g, order)
  {
    var stack := [start];
    var visited: set<NodeId> := {};
    parent := map[start := Root];
    order := [];
    depth := map[start := 0];
    StackedStart(g, start, goal);
    while stack != []
      invariant Stacked(g, start, goal, order, stack, visited, parent, depth)
      invariant StackedOrder(g, start, order, stack, visited)
      decreases |g.Keys - visited|, |stack|
    {
      var node := stack[|stack| - 1];
      if node in visited {
        SkipStep(g, start, goal, order, stack, visited, parent, depth);
        SkipOrder(g, start, order, stack, visited);
        stack := stack[..|stack| - 1];
      } else if node == goal {
        GoalStep(g, start, goal, order, stack, visited, parent, depth);
        GoalOrder(g, start, order, stack, visited, goal);
        visited := visited + {node};
        order := order + [node];
        break;
      } else {
        OrderStep(g, start, order, stack, visited, node);
        ghost var oldState := (order, stack, visited, parent, depth);
        var rest := stack[..|stack| - 1];
        visited := visited + {node};
        order := order + [node];
        stack, parent, depth := PushNeighbours(g, node, visited, rest, parent, depth);
        PopSplit(oldState.1);
        VisitStep(g, start, goal, oldState.0, oldState.1, oldState.2, oldState.3, oldState.4,
                  rest, node, stack, parent, depth);
        ShrinkingRest(g.Keys, oldState.2, visited);
      }
    }
    if goal !in order {
      DrainedStack(g, start, goal, order, visited, parent, depth);
    }
    assert DfsOutcome(g, start, goal, order, parent, depth);
    DiscoveryTreeIsTree(g, start, order, parent, depth);
    DistinctIffNoDuplicates(order);
  }

  /** The tail of depthFirst (app.js:94-101): trace the path through the parent tree the search
      built and price it. */
  method DfsResult(g: Graph, start: NodeId, goal: NodeId, order: seq<NodeId>, parent: ParentMap,
                   ghost depth: map<NodeId, nat>) returns (res: SearchResult)
    requires WellFormed(g) && start in g
    requires |order| > 0 && order[0] == start && NoDuplicates(order)
    requires goal in order ==> order[|order| - 1] == goal
    requires ParentTree(parent, start, depth) && LinksAreEdges(g, parent)
    requires goal in order <==> goal in parent
    requires goal !in order ==> !Reachable(g, start, goal)
    requires forall j, n {:trigger HasEdge(g, order[j], n)} :: 0 <= j < |order| && order[j] != goal && HasEdge(g, order[j], n) && n != start ==>
               n in parent && parent[n].From? && AmongFirst(order, parent[n].node, j)
    ensures res.algorithm == DFS && res.visitedOrder == order
    ensures VisitLog(res, start, goal) && PathFound(g, res, start, goal)
    ensures forall i, j {:trigger HasEdge(g, res.visitedOrder[j], res.path[i])} ::
              (0 < i < |res.path| && 0 <= j < |res.visitedOrder| && res.visitedOrder[j] != goal &&
               HasEdge(g, res.visitedOrder[j], res.path[i])) ==> AmongFirst(res.visitedOrder, res.path[i - 1], j)
    ensures res.cost == PathCost(g, res.path)
    ensures res.path == [] ==> res.cost == Fin(0)
  {
    TreeIsRanked(parent, start, depth);
    var path := TracePath(parent, start, goal, depth);
    TracedInTree(g, parent, start, depth, goal, path);
    PredecessorsFirst(g, start, goal, order, parent, depth, path);
    var cost := CalculateCost(g, path);
    res := SearchResult(DFS, order, path, |order|, cost);
  }

  /** depthFirst: a non-empty path is a walk from start to goal in which
      each node's predecessor is the first visited node adjacent to it;
      the path is empty exactly when the goal cannot be reached. */
  method DepthFirst(g: Graph, start: NodeId, goal: NodeId) returns (res: SearchResult)
    requires WellFormed(g) && start in g
    ensures res.algorithm == DFS && VisitLog(res, start, goal) && PathFound(g, res, start, goal)
    ensures DfsOrdered(g, res.visitedOrder)
    ensures goal !in res.visitedOrder ==> Exhausted(g, res.visitedOrder)
    ensures forall i, j {:trigger HasEdge(g, res.visitedOrder[j], res.path[i])} ::
              (0 < i < |res.path| && 0 <= j < |res.visitedOrder| && res.visitedOrder[j] != goal &&
               HasEdge(g, res.visitedOrder[j], res.path[i])) ==> AmongFirst(res.visitedOrder, res.path[i - 1], j)
    ensures res.cost == PathCost(g, res.path)
    ensures res.path == [] ==> res.cost == Fin(0)
  {
    var order, parent, depth := DfsExplore(g, start, goal);
    res := DfsResult(g, start, goal, order, parent, depth);
  }
}
