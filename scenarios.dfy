// The three searches on a fixed triangle: A-B (5), B-C (5), A-C (20),
// each adjacency list sorted by neighbour as buildGraph leaves it. What
// each search returns from A to C follows from its contract alone; so
// does which of two tied paths breadthFirst and uniformCost return on a
// square, and what they return from a start with no roads.
module Scenarios {
  import opened Graphs
  import opened Routes
  import Bfs
  import Dfs
  import Ucs
  import GraphData

  function Triangle(): (g: Graph)
    ensures WellFormed(g) && NoParallelEdges(g) && "A" in g
  {
    map["A" := [Edge("B", 5), Edge("C", 20)],
        "B" := [Edge("A", 5), Edge("C", 5)],
        "C" := [Edge("A", 20), Edge("B", 5)]]
  }

  /** The roads of the triangle, in the order they are listed. */
  function TriangleRoads(): seq<GraphData.Road> {
    [("A", "B"), ("B", "C"), ("A", "C")]
  }

  /** The rounded length of each road of the triangle. */
  function TriangleKm(a: NodeId, b: NodeId): int {
    if (a == "A" && b == "C") || (a == "C" && b == "A") then 20 else 5
  }

  /** What the road pass pushes onto the list of `x`, road by road. */
  lemma TrianglePushed(x: NodeId)
    ensures GraphData.Pushed(TriangleRoads(), TriangleKm, x) ==
            GraphData.Contributed(("A", "B"), 5, x) + GraphData.Contributed(("B", "C"), 5, x) +
            GraphData.Contributed(("A", "C"), 20, x)
  {
    var roads, len := TriangleRoads(), TriangleKm;
    assert GraphData.CostOf(len, ("A", "B")) == 5 && GraphData.CostOf(len, ("B", "C")) == 5;
    assert GraphData.CostOf(len, ("A", "C")) == 20;
    var r1, r2 := roads[..1], roads[..2];
    assert r1 == [("A", "B")] && r2 == [("A", "B"), ("B", "C")];
    assert r1[..0] == [] && r2[..1] == r1 && roads[..2] == r2;
    assert GraphData.Pushed(r1, len, x) == GraphData.Contributed(("A", "B"), 5, x);
    assert GraphData.Pushed(r2, len, x) == GraphData.Pushed(r1, len, x) + GraphData.Contributed(("B", "C"), 5, x);
  }

  /** The three lists before sorting. */
  lemma TriangleLists()
    ensures GraphData.Pushed(TriangleRoads(), TriangleKm, "A") == [Edge("B", 5), Edge("C", 20)]
    ensures GraphData.Pushed(TriangleRoads(), TriangleKm, "B") == [Edge("A", 5), Edge("C", 5)]
    ensures GraphData.Pushed(TriangleRoads(), TriangleKm, "C") == [Edge("B", 5), Edge("A", 20)]
  {
    TrianglePushed("A");
    TrianglePushed("B");
    TrianglePushed("C");
  }

  /** Each list of the triangle is sorted by neighbour. */
  lemma TriangleSorted()
    ensures forall x :: x in Triangle() ==> GraphData.SortedByTo(Triangle()[x])
  {
    assert GraphData.StrLeq("B", "C") && GraphData.StrLeq("A", "C") && GraphData.StrLeq("A", "B");
  }

  /** The triangle is what buildGraph makes of cities A, B, C and its
      three roads: each list holds, sorted by neighbour, the entries the
      roads push onto it. */
  lemma TriangleBuilt()
    ensures GraphData.Built(Triangle(), ["A", "B", "C"], TriangleRoads(), TriangleKm)
  {
    TriangleSorted();
    TriangleMultisets();
  }

  /** Sorting leaves each list with the entries the roads pushed onto it. */
  lemma TriangleMultisets()
    ensures forall x :: x in Triangle() ==> multiset(Triangle()[x]) == multiset(GraphData.Pushed(TriangleRoads(), TriangleKm, x))
  {
    TriangleLists();
    var g: Graph := Triangle();
    forall x | x in g ensures multiset(g[x]) == multiset(GraphData.Pushed(TriangleRoads(), TriangleKm, x)) {
      if x == "C" {
        SwapPair(Edge("B", 5), Edge("A", 20));
      }
    }
  }

  lemma SwapPair(d: Edge, e: Edge)
    ensures multiset([d, e]) == multiset([e, d])
  {
  }

  lemma TriangleReach()
    ensures IsPathBetween(Triangle(), ["A", "C"], "A", "C") && Reachable(Triangle(), "A", "C")
  {
    var g: Graph := Triangle();
    assert g["A"][1].to == "C";
  }

  /** The neighbours of each node of the triangle. */
  lemma TriangleEdges(a: NodeId, b: NodeId)
    requires HasEdge(Triangle(), a, b)
    ensures (a == "A" && (b == "B" || b == "C")) || (a == "B" && (b == "A" || b == "C")) ||
            (a == "C" && (b == "A" || b == "B"))
  {
    var g: Graph := Triangle();
    var k :| 0 <= k < |g[a]| && g[a][k].to == b;
  }

  /** breadthFirst(A, C): A's list names B before C, so B leaves the
      queue first; the path is the direct road, by hops, at cost 20. */
  method TriangleBfs() returns (res: SearchResult)
    ensures res.visitedOrder == ["A", "B", "C"] && res.steps == 3
    ensures res.path == ["A", "C"] && res.cost == Fin(20)
  {
    var g: Graph := Triangle();
    res := Bfs.BreadthFirst(g, "A", "C");
    TriangleReach();
    TriangleCosts();
    assert |res.path| <= 2;
    assert res.path[0] == "A" && res.path[|res.path| - 1] == "C";
    assert res.path == ["A", "C"];
    TriangleBfsOrder(res.visitedOrder);
  }

  /** The visit order breadthFirst's contract leaves for (A, C): B
      precedes C in the queue, so it is dequeued before the search stops. */
  lemma TriangleBfsOrder(order: seq<NodeId>)
    requires |order| > 0 && order[0] == "A" && NoDuplicates(order) && order[|order| - 1] == "C"
    requires forall i :: 0 <= i < |order| ==> Reachable(Triangle(), "A", order[i])
    requires Bfs.AheadVisited(Triangle(), "A", "C", order)
    ensures order == ["A", "B", "C"]
  {
    var g: Graph := Triangle();
    assert HasEdge(g, order[0], "B") && HasEdge(g, order[0], "C") by {
      assert g["A"][0].to == "B" && g["A"][1].to == "C";
    }
    assert Bfs.Discoverer(g, order, "B") == 0 && Bfs.Discoverer(g, order, "C") == 0;
    assert Bfs.FirstEntry(g["A"], "B") == 0 && Bfs.FirstEntry(g["A"], "C") == 1;
    assert Bfs.Precedes(g, order, "B", "C");
    TriangleThree(order);
  }

  /** The first unvisited neighbours depthFirst follows from A and then from B. */
  lemma TriangleFirsts()
    ensures Dfs.FirstUnvisited(Triangle()["A"], ["A"]) == Some("B")
    ensures Dfs.FirstUnvisited(Triangle()["B"], ["A", "B"]) == Some("C")
  {
    var g: Graph := Triangle();
    assert g["B"][1..] == [Edge("C", 5)];
  }

  /** The only depth-first visit order from A that ends on reaching C. */
  lemma TriangleDfsOrder(order: seq<NodeId>)
    requires |order| > 0 && order[0] == "A" && NoDuplicates(order)
    requires "C" in order && order[|order| - 1] == "C"
    requires Dfs.DfsOrdered(Triangle(), order)
    ensures order == ["A", "B", "C"]
  {
    TriangleFirsts();
    assert order[1] == "B" by {
      assert order[..1] == ["A"];
      Dfs.DfsOrderedAt(Triangle(), order, 1);
    }
    assert order[2] == "C" by {
      assert |order| > 2;
      assert order[..2] == ["A", "B"];
      Dfs.DfsOrderedAt(Triangle(), order, 2);
    }
    assert order[2] == order[|order| - 1];
  }

  /** With A visited first, C's predecessor on the path is A. */
  lemma TriangleDfsPath(order: seq<NodeId>, path: seq<NodeId>)
    requires order == ["A", "B", "C"]
    requires IsPathBetween(Triangle(), path, "A", "C") && NoDuplicates(path)
    requires forall i, j {:trigger HasEdge(Triangle(), order[j], path[i])} ::
               (0 < i < |path| && 0 <= j < |order| && order[j] != "C" &&
                HasEdge(Triangle(), order[j], path[i])) ==> AmongFirst(order, path[i - 1], j)
    ensures path == ["A", "C"]
  {
    TriangleReach();
    var n := |path|;
    assert n >= 2;
    assert HasEdge(Triangle(), order[0], path[n - 1]);
    assert AmongFirst(order, path[n - 2], 0);
    assert path[n - 2] == "A";
    assert path[0] == path[n - 2];
  }

  /** depthFirst(A, C): B is visited before C, yet C's parent is A, which
      discovered it first, so the path is the direct road at cost 20. */
  method TriangleDfs() returns (res: SearchResult)
    ensures res.visitedOrder == ["A", "B", "C"] && res.steps == 3
    ensures res.path == ["A", "C"] && res.cost == Fin(20)
  {
    var g: Graph := Triangle();
    res := Dfs.DepthFirst(g, "A", "C");
    TriangleReach();
    TriangleCosts();
    TriangleDfsOrder(res.visitedOrder);
    TriangleDfsPath(res.visitedOrder, res.path);
  }

  /** A walk in the triangle from A to C repeating no node is one of the
      two roads round it. */
  lemma TriangleSimpleWalks(w: seq<NodeId>)
    requires IsPathBetween(Triangle(), w, "A", "C") && NoDuplicates(w)
    ensures w == ["A", "C"] || w == ["A", "B", "C"]
  {
    assert |w| >= 2;
    if |w| > 2 {
      TriangleEdges(w[0], w[1]);
      TriangleEdges(w[1], w[2]);
      assert w[1] == "B";
      assert w[2] == "C";
    }
  }

  /** The two roads from A to C and what they cost. */
  lemma TriangleRouteCost()
    ensures IsRoute(Triangle(), ["A", "B", "C"], [0, 1]) && RouteCost(Triangle(), ["A", "B", "C"], [0, 1]) == 10
  {
    var g: Graph := Triangle();
    var w: seq<NodeId>, ks: seq<nat> := ["A", "B", "C"], [0, 1];
    assert IsRoute(g, w, ks);
    assert w[..2] == ["A", "B"] && w[..2][..1] == ["A"] && ks[..1] == [0] && ks[..1][..0] == [];
    assert RouteCost(g, w[..2], ks[..1]) == 5;
  }

  lemma TrianglePathCosts()
    ensures PathCost(Triangle(), ["A", "C"]) == Fin(20) && PathCost(Triangle(), ["A", "B", "C"]) == Fin(10)
  {
    var g: Graph := Triangle();
    var w: seq<NodeId> := ["A", "B", "C"];
    assert w[..2] == ["A", "B"] && w[..2][..1] == ["A"];
    assert ["A", "C"][..1] == ["A"];
    assert PathCost(g, w[..2]) == Fin(5);
  }

  lemma TriangleCosts()
    ensures IsRoute(Triangle(), ["A", "B", "C"], [0, 1]) && RouteCost(Triangle(), ["A", "B", "C"], [0, 1]) == 10
    ensures PathCost(Triangle(), ["A", "C"]) == Fin(20) && PathCost(Triangle(), ["A", "B", "C"]) == Fin(10)
  {
    TriangleRouteCost();
    TrianglePathCosts();
  }

  /** Every city reachable in the triangle is one of its three. */
  lemma TriangleCities(x: NodeId)
    requires Reachable(Triangle(), "A", x)
    ensures x == "A" || x == "B" || x == "C"
  {
    var w :| IsPathBetween(Triangle(), w, "A", x);
    if |w| > 1 {
      TriangleEdges(w[|w| - 2], w[|w| - 1]);
    }
  }

  /** A visit order of reachable triangle cities from A to C that
      includes B, each once, is [A, B, C]. */
  lemma TriangleThree(order: seq<NodeId>)
    requires |order| > 0 && order[0] == "A" && NoDuplicates(order)
    requires order[|order| - 1] == "C" && "B" in order
    requires forall i :: 0 <= i < |order| ==> Reachable(Triangle(), "A", order[i])
    ensures order == ["A", "B", "C"]
  {
    var j :| 0 <= j < |order| && order[j] == "B";
    assert 0 < j < |order| - 1;
    forall i | 0 <= i < |order|
      ensures (order[i] == "A" && i == 0) || (order[i] == "B" && i == j) || (order[i] == "C" && i == |order| - 1)
    {
      TriangleCities(order[i]);
    }
    assert order[1] in order && order[2] in order;
  }

  /** The visit order uniformCost's contract leaves for (A, C), given that
      no route to C costs less than 10. */
  lemma TriangleUcsOrder(order: seq<NodeId>)
    requires |order| > 0 && order[0] == "A" && NoDuplicates(order) && order[|order| - 1] == "C"
    requires forall i :: 0 <= i < |order| ==> Reachable(Triangle(), "A", order[i])
    requires Ucs.CheaperVisited(Triangle(), "A", "C", order)
    requires forall w, ks {:trigger IsRoute(Triangle(), w, ks)} ::
               IsRoute(Triangle(), w, ks) && w[0] == "A" && w[|w| - 1] == "C" ==> Fin(10).AtMost(Fin(RouteCost(Triangle(), w, ks)))
    ensures order == ["A", "B", "C"]
  {
    var g: Graph := Triangle();
    assert IsRoute(g, ["A", "B"], [0]) && RouteCost(g, ["A", "B"], [0]) == 5 by {
      assert ["A", "B"][..1] == ["A"] && [0][..0] == [];
    }
    assert Ucs.WithinCost(g, "A", "B", 5);
    assert !Ucs.WithinCost(g, "A", "C", 5);
    TriangleThree(order);
  }

  /** uniformCost(A, C): B, at cost 5, is finalized before C, at cost
      10; the path is the road through B. */
  method TriangleUcs() returns (res: SearchResult)
    ensures res.visitedOrder == ["A", "B", "C"] && res.steps == 3
    ensures res.path == ["A", "B", "C"] && res.cost == Fin(10)
  {
    var g: Graph := Triangle();
    res := Ucs.UniformCost(g, "A", "C");
    TriangleReach();
    TriangleCosts();
    assert res.cost.AtMost(Fin(10));
    TriangleSimpleWalks(res.path);
    TriangleUcsOrder(res.visitedOrder);
  }

  // ----- ties: a square A-B, A-C, B-D, C-D, with two shortest ways to D -----

  /** The square with the four road costs given, each adjacency list
      sorted by neighbour. */
  function Square(ab: nat, ac: nat, bd: nat, cd: nat): (g: Graph)
    ensures WellFormed(g) && "A" in g
  {
    map["A" := [Edge("B", ab), Edge("C", ac)],
        "B" := [Edge("A", ab), Edge("D", bd)],
        "C" := [Edge("A", ac), Edge("D", cd)],
        "D" := [Edge("B", bd), Edge("C", cd)]]
  }

  /** Every road of the diamond counts one. */
  function Diamond(): Graph {
    Square(1, 1, 1, 1)
  }

  /** The kite: A-B 3, A-C 4, B-D 2, C-D 1; both ways to D cost 5. */
  function Kite(): Graph {
    Square(3, 4, 2, 1)
  }

  /** The neighbours of each node of a square. */
  lemma SquareEdges(ab: nat, ac: nat, bd: nat, cd: nat, a: NodeId, b: NodeId)
    requires HasEdge(Square(ab, ac, bd, cd), a, b)
    ensures (a == "A" && (b == "B" || b == "C")) || (a == "B" && (b == "A" || b == "D")) ||
            (a == "C" && (b == "A" || b == "D")) || (a == "D" && (b == "B" || b == "C"))
  {
    var g: Graph := Square(ab, ac, bd, cd);
    var k :| 0 <= k < |g[a]| && g[a][k].to == b;
  }

  /** D is reachable from A through B. */
  lemma SquareReach(ab: nat, ac: nat, bd: nat, cd: nat)
    ensures IsPathBetween(Square(ab, ac, bd, cd), ["A", "B", "D"], "A", "D")
    ensures Reachable(Square(ab, ac, bd, cd), "A", "D")
  {
    var g: Graph := Square(ab, ac, bd, cd);
    assert g["A"][0].to == "B" && g["B"][1].to == "D";
    assert IsPathBetween(g, ["A", "B", "D"], "A", "D");
  }

  /** The cities reachable from A are cities of the square. */
  lemma SquareCities(ab: nat, ac: nat, bd: nat, cd: nat, order: seq<NodeId>)
    requires forall i :: 0 <= i < |order| ==> Reachable(Square(ab, ac, bd, cd), "A", order[i])
    ensures forall i :: 0 <= i < |order| ==> order[i] in Square(ab, ac, bd, cd)
  {
    var g: Graph := Square(ab, ac, bd, cd);
    forall i | 0 <= i < |order| ensures order[i] in g {
      var w :| IsPathBetween(g, w, "A", order[i]);
      if |w| > 1 {
        SquareEdges(ab, ac, bd, cd, w[|w| - 2], w[|w| - 1]);
      }
    }
  }

  /** A visit order of square cities from A to D that includes B and C,
      each once, puts B and C in the middle, in one order or the other. */
  lemma SquareFour(ab: nat, ac: nat, bd: nat, cd: nat, order: seq<NodeId>)
    requires |order| > 0 && order[0] == "A" && NoDuplicates(order)
    requires order[|order| - 1] == "D" && "B" in order && "C" in order
    requires forall i :: 0 <= i < |order| ==> order[i] in Square(ab, ac, bd, cd)
    ensures order == ["A", "B", "C", "D"] || order == ["A", "C", "B", "D"]
  {
    var jb :| 0 <= jb < |order| && order[jb] == "B";
    var jc :| 0 <= jc < |order| && order[jc] == "C";
    forall i | 0 <= i < |order|
      ensures || (order[i] == "A" && i == 0) || (order[i] == "B" && i == jb)
              || (order[i] == "C" && i == jc) || (order[i] == "D" && i == |order| - 1)
    {
      var g: Graph := Square(ab, ac, bd, cd);
      assert order[i] in g;
      assert order[i] == "A" || order[i] == "B" || order[i] == "C" || order[i] == "D";
    }
    assert |order| >= 4;
    assert order[1] in order && order[2] in order && order[3] in order;
  }

  /** The walks of the square from A to D that repeat no node and take
      two roads go through B or through C. */
  lemma SquareShortest(ab: nat, ac: nat, bd: nat, cd: nat, path: seq<NodeId>)
    requires IsPathBetween(Square(ab, ac, bd, cd), path, "A", "D")
    ensures |path| >= 3 && (path[|path| - 2] == "B" || path[|path| - 2] == "C")
  {
    var n := |path|;
    assert n >= 2;
    SquareEdges(ab, ac, bd, cd, path[n - 2], path[n - 1]);
  }

  /** The visit order breadthFirst's contract leaves for the diamond from
      A to D: B and C, one hop away, come before D; the queue takes B
      first because A's list names it first. */
  lemma DiamondBfsOrder(order: seq<NodeId>)
    requires |order| > 0 && order[0] == "A" && NoDuplicates(order) && order[|order| - 1] == "D"
    requires forall i :: 0 <= i < |order| ==> order[i] in Diamond()
    requires Bfs.NearerVisited(Diamond(), "A", "D", order) && Bfs.FifoOrder(Diamond(), order)
    ensures order == ["A", "B", "C", "D"]
  {
    DiamondOneHop();
    assert "B" in order && "C" in order;
    SquareFour(1, 1, 1, 1, order);
    DiamondQueue();
    assert Bfs.Precedes(Diamond(), order, order[1], order[2]);
  }

  /** B and C are one hop from A; D is not. */
  lemma DiamondOneHop()
    ensures Bfs.WithinHops(Diamond(), "A", "B", 1) && Bfs.WithinHops(Diamond(), "A", "C", 1)
    ensures !Bfs.WithinHops(Diamond(), "A", "D", 1)
  {
    var g: Graph := Diamond();
    assert g["A"][0].to == "B" && g["A"][1].to == "C";
    assert IsPathBetween(g, ["A", "B"], "A", "B") && IsPathBetween(g, ["A", "C"], "A", "C");
    forall v | IsPathBetween(g, v, "A", "D") ensures |v| > 2 {
      SquareShortest(1, 1, 1, 1, v);
    }
  }

  /** A's list names B before C, so a FIFO queue cannot hand out C first. */
  lemma DiamondQueue()
    ensures !Bfs.Precedes(Diamond(), ["A", "C", "B", "D"], "C", "B")
  {
    var g: Graph := Diamond();
    assert g["A"][0].to == "B" && g["A"][1].to == "C";
  }

  /** With B dequeued before C, D's predecessor on the path is B. */
  lemma DiamondBfsPath(order: seq<NodeId>, path: seq<NodeId>)
    requires order == ["A", "B", "C", "D"]
    requires IsPathBetween(Diamond(), path, "A", "D") && |path| <= 3
    requires forall i, j {:trigger HasEdge(Diamond(), order[j], path[i])} ::
               (0 < i < |path| && 0 <= j < |order| && order[j] != "D" &&
                HasEdge(Diamond(), order[j], path[i])) ==> AmongFirst(order, path[i - 1], j)
    ensures path == ["A", "B", "D"]
  {
    var g: Graph := Diamond();
    SquareShortest(1, 1, 1, 1, path);
    assert g["B"][1].to == "D";
    assert HasEdge(g, order[1], path[2]);
    assert AmongFirst(order, path[1], 1);
  }

  lemma DiamondCost()
    ensures PathCost(Diamond(), ["A", "B", "D"]) == Fin(2)
  {
    var g: Graph := Diamond();
    var w: seq<NodeId> := ["A", "B", "D"];
    assert w[..2] == ["A", "B"] && w[..2][..1] == ["A"];
    assert FindEdge(g["A"], "B") == Some(Edge("B", 1));
    assert PathCost(g, ["A", "B"]) == Fin(1);
    assert FindEdge(g["B"], "D") == Some(Edge("D", 1));
  }

  /** breadthFirst(A, D) on the diamond: two paths of two hops; B is
      dequeued first and discovers D, so the path goes through B. */
  method DiamondBfs() returns (res: SearchResult)
    ensures res.visitedOrder == ["A", "B", "C", "D"] && res.steps == 4
    ensures res.path == ["A", "B", "D"] && res.cost == Fin(2)
  {
    var g: Graph := Diamond();
    res := Bfs.BreadthFirst(g, "A", "D");
    DiamondBfsResult(res);
  }

  /** What breadthFirst's contract says of its result on the diamond from A to D. */
  lemma DiamondBfsResult(res: SearchResult)
    requires VisitLog(res, "A", "D") && PathFound(Diamond(), res, "A", "D")
    requires res.path != [] ==> forall w :: IsPathBetween(Diamond(), w, "A", "D") ==> |res.path| <= |w|
    requires res.cost == PathCost(Diamond(), res.path)
    requires forall i :: 0 <= i < |res.visitedOrder| ==> Reachable(Diamond(), "A", res.visitedOrder[i])
    requires "D" in res.visitedOrder ==> Bfs.NearerVisited(Diamond(), "A", "D", res.visitedOrder)
    requires forall i, j {:trigger HasEdge(Diamond(), res.visitedOrder[j], res.path[i])} ::
               (0 < i < |res.path| && 0 <= j < |res.visitedOrder| && res.visitedOrder[j] != "D" &&
                HasEdge(Diamond(), res.visitedOrder[j], res.path[i])) ==> AmongFirst(res.visitedOrder, res.path[i - 1], j)
    requires Bfs.FifoOrder(Diamond(), res.visitedOrder)
    ensures res.visitedOrder == ["A", "B", "C", "D"] && res.steps == 4
    ensures res.path == ["A", "B", "D"] && res.cost == Fin(2)
  {
    var g: Graph := Diamond();
    SquareReach(1, 1, 1, 1);
    SquareCities(1, 1, 1, 1, res.visitedOrder);
    DiamondBfsOrder(res.visitedOrder);
    DiamondBfsPath(res.visitedOrder, res.path);
    DiamondCost();
  }

  /** The least cost of reaching each city of the kite from A. */
  function KiteLeast(x: NodeId): nat {
    if x == "A" then 0 else if x == "B" then 3 else if x == "C" then 4 else 5
  }

  /** No route of the kite from A costs less than the least cost of its end. */
  lemma {:induction false} KiteRoutes(w: seq<NodeId>, ks: seq<nat>)
    requires IsRoute(Kite(), w, ks) && w[0] == "A"
    ensures KiteLeast(w[|w| - 1]) <= RouteCost(Kite(), w, ks)
    decreases |ks|
  {
    if ks != [] {
      var g: Graph := Kite();
      RoutePrefix(g, w, ks);
      KiteRoutes(w[..|w| - 1], ks[..|ks| - 1]);
      var u, k := w[|w| - 2], ks[|ks| - 1];
      assert w[..|w| - 1][|w| - 2] == u;
      assert u in g && k < |g[u]| && g[u][k].to == w[|w| - 1];
      assert KiteLeast(g[u][k].to) <= KiteLeast(u) + g[u][k].cost;
    }
  }

  /** Some route of the kite from A reaches `x` within `c`; none is cheaper than the least. */
  lemma KiteWithin(x: NodeId, c: nat)
    ensures Ucs.WithinCost(Kite(), "A", x, c) ==> KiteLeast(x) <= c
  {
    if Ucs.WithinCost(Kite(), "A", x, c) {
      var w, ks :| IsRoute(Kite(), w, ks) && w[0] == "A" && w[|w| - 1] == x && RouteCost(Kite(), w, ks) <= c;
      KiteRoutes(w, ks);
    }
  }

  /** The routes A-B, A-C and A-B-D and what they cost. */
  lemma KiteRoutesUsed()
    ensures IsRoute(Kite(), ["A", "B"], [0]) && RouteCost(Kite(), ["A", "B"], [0]) == 3
    ensures IsRoute(Kite(), ["A", "C"], [1]) && RouteCost(Kite(), ["A", "C"], [1]) == 4
    ensures IsRoute(Kite(), ["A", "B", "D"], [0, 1]) && RouteCost(Kite(), ["A", "B", "D"], [0, 1]) == 5
  {
    var g: Graph := Kite();
    assert ["A", "B"][..1] == ["A"] && ["A", "C"][..1] == ["A"] && [0][..0] == [] && [1][..0] == [];
    var w: seq<NodeId>, ks: seq<nat> := ["A", "B", "D"], [0, 1];
    assert w[..2] == ["A", "B"] && ks[..1] == [0];
  }

  /** B is reached within 3 and C within 4. */
  lemma KiteReached()
    ensures Ucs.WithinCost(Kite(), "A", "B", 3) && Ucs.WithinCost(Kite(), "A", "C", 4)
  {
    KiteRoutesUsed();
    var wb: seq<NodeId>, kb: seq<nat> := ["A", "B"], [0];
    var wc: seq<NodeId>, kc: seq<nat> := ["A", "C"], [1];
    assert wb[0] == "A" && wb[|wb| - 1] == "B" && wc[0] == "A" && wc[|wc| - 1] == "C";
  }

  /** D is not reached within 4, nor C within 3. */
  lemma KiteUnreached()
    ensures !Ucs.WithinCost(Kite(), "A", "D", 4) && !Ucs.WithinCost(Kite(), "A", "C", 3)
  {
    KiteWithin("D", 4);
    KiteWithin("C", 3);
  }

  /** B is reached within 3 and C within 4; D is not reached within 4, nor C within 3. */
  lemma KiteBands()
    ensures Ucs.WithinCost(Kite(), "A", "B", 3) && Ucs.WithinCost(Kite(), "A", "C", 4)
    ensures !Ucs.WithinCost(Kite(), "A", "D", 4) && !Ucs.WithinCost(Kite(), "A", "C", 3)
  {
    KiteReached();
    KiteUnreached();
  }

  /** The visit order uniformCost's contract leaves for the kite from A
      to D: B (3) and C (4) are cheaper than D (5), and B is cheaper than C. */
  lemma KiteUcsOrder(order: seq<NodeId>)
    requires |order| > 0 && order[0] == "A" && NoDuplicates(order) && order[|order| - 1] == "D"
    requires forall i :: 0 <= i < |order| ==> order[i] in Kite()
    requires Ucs.CheaperVisited(Kite(), "A", "D", order) && Ucs.CheapestFirst(Kite(), "A", order)
    ensures order == ["A", "B", "C", "D"]
  {
    KiteBands();
    assert "B" in order && "C" in order;
    SquareFour(3, 4, 2, 1, order);
  }

  /** The entry A-B reaches B at its least cost. */
  lemma KiteCheapestB()
    ensures Ucs.CheapestVia(Kite(), "A", "A", 0, "B")
  {
    var g: Graph := Kite();
    assert IsRoute(g, ["A"], []) && RouteCost(g, ["A"], []) == 0;
    assert Ucs.WithinCost(g, "A", "A", 0);
    forall d: nat | Ucs.WithinCost(g, "A", "B", d) ensures 0 + g["A"][0].cost <= d {
      KiteWithin("B", d);
    }
  }

  /** The entry B-D reaches D at its least cost. */
  lemma KiteCheapestD()
    ensures Ucs.CheapestVia(Kite(), "A", "B", 1, "D")
  {
    var g: Graph := Kite();
    KiteBands();
    forall d: nat | Ucs.WithinCost(g, "A", "D", d) ensures 3 + g["B"][1].cost <= d {
      KiteWithin("D", d);
    }
  }

  /** With B finalized before C, D's predecessor on the path is B, and
      B's is A: it is enough that A-B and B-D reach B and D at their least
      costs and that D's predecessor is B or C. */
  lemma ThroughB(g: Graph, order: seq<NodeId>, path: seq<NodeId>)
    requires order == ["A", "B", "C", "D"]
    requires IsPathBetween(g, path, "A", "D") && NoDuplicates(path)
    requires |path| >= 3 && (path[|path| - 2] == "B" || path[|path| - 2] == "C")
    requires Ucs.CheapestVia(g, "A", "A", 0, "B") && Ucs.CheapestVia(g, "A", "B", 1, "D")
    requires forall i, j, k: nat {:trigger Ucs.CheapestVia(g, "A", order[j], k, path[i])} ::
               (0 < i < |path| && 0 <= j < |order| && order[j] != "D" &&
                Ucs.CheapestVia(g, "A", order[j], k, path[i])) ==> AmongFirst(order, path[i - 1], j)
    ensures path == ["A", "B", "D"]
  {
    var n := |path|;
    assert Ucs.CheapestVia(g, "A", order[1], 1, path[n - 1]);
    assert path[n - 2] == "B";
    assert Ucs.CheapestVia(g, "A", order[0], 0, path[n - 2]);
    assert AmongFirst(order, path[n - 3], 0);
    assert path[n - 3] == path[0];
  }

  /** On the kite, the entries A-B and B-D reach B and D at their least costs. */
  lemma KiteUcsPath(order: seq<NodeId>, path: seq<NodeId>)
    requires order == ["A", "B", "C", "D"]
    requires IsPathBetween(Kite(), path, "A", "D") && NoDuplicates(path)
    requires forall i, j, k: nat {:trigger Ucs.CheapestVia(Kite(), "A", order[j], k, path[i])} ::
               (0 < i < |path| && 0 <= j < |order| && order[j] != "D" &&
                Ucs.CheapestVia(Kite(), "A", order[j], k, path[i])) ==> AmongFirst(order, path[i - 1], j)
    ensures path == ["A", "B", "D"]
  {
    SquareShortest(3, 4, 2, 1, path);
    KiteCheapestB();
    KiteCheapestD();
    ThroughB(Kite(), order, path);
  }

  /** What uniformCost's contract says of its result on the kite from A to D. */
  lemma KiteUcsResult(res: SearchResult)
    requires VisitLog(res, "A", "D") && PathFound(Kite(), res, "A", "D")
    requires res.path != [] ==> res.cost.Fin? && exists ks :: IsRoute(Kite(), res.path, ks) && res.cost.n == RouteCost(Kite(), res.path, ks)
    requires res.cost.AtMost(Fin(5))
    requires forall i :: 0 <= i < |res.visitedOrder| ==> Reachable(Kite(), "A", res.visitedOrder[i])
    requires "D" in res.visitedOrder ==> Ucs.CheaperVisited(Kite(), "A", "D", res.visitedOrder)
    requires Ucs.CheapestFirst(Kite(), "A", res.visitedOrder)
    requires forall i, j, k: nat {:trigger Ucs.CheapestVia(Kite(), "A", res.visitedOrder[j], k, res.path[i])} ::
               (0 < i < |res.path| && 0 <= j < |res.visitedOrder| && res.visitedOrder[j] != "D" &&
                Ucs.CheapestVia(Kite(), "A", res.visitedOrder[j], k, res.path[i])) ==> AmongFirst(res.visitedOrder, res.path[i - 1], j)
    ensures res.visitedOrder == ["A", "B", "C", "D"] && res.steps == 4
    ensures res.path == ["A", "B", "D"] && res.cost == Fin(5)
  {
    var g: Graph := Kite();
    SquareReach(3, 4, 2, 1);
    SquareCities(3, 4, 2, 1, res.visitedOrder);
    KiteUcsOrder(res.visitedOrder);
    KiteUcsPath(res.visitedOrder, res.path);
    var ks :| IsRoute(g, res.path, ks) && res.cost.n == RouteCost(g, res.path, ks);
    KiteRoutes(res.path, ks);
  }

  /** uniformCost(A, D) on the kite: both ways cost 5; B (3) is finalized
      before C (4) and offers 5 first, and C's equal offer does not
      replace it, so the path goes through B. */
  method KiteUcs() returns (res: SearchResult)
    ensures res.visitedOrder == ["A", "B", "C", "D"] && res.steps == 4
    ensures res.path == ["A", "B", "D"] && res.cost == Fin(5)
  {
    var g: Graph := Kite();
    res := Ucs.UniformCost(g, "A", "D");
    KiteRoutesUsed();
    assert res.cost.AtMost(Fin(RouteCost(g, ["A", "B", "D"], [0, 1])));
    KiteUcsResult(res);
  }

  // ----- an isolated start: A has no roads, X is another city -----

  function Isolated(): (g: Graph)
    ensures WellFormed(g) && "A" in g
  {
    map["A" := [], "X" := []]
  }

  /** Only A itself is reachable from A. */
  lemma IsolatedReach(x: NodeId)
    ensures Reachable(Isolated(), "A", x) <==> x == "A"
  {
    if Reachable(Isolated(), "A", x) {
      var w :| IsPathBetween(Isolated(), w, "A", x);
      assert |w| == 1 || HasEdge(Isolated(), w[0], w[1]);
    } else {
      assert IsPathBetween(Isolated(), ["A"], "A", "A");
    }
  }

  /** A visit order from A that lists only reachable cities, each once, is just [A]. */
  lemma IsolatedVisits(order: seq<NodeId>)
    requires |order| > 0 && order[0] == "A" && NoDuplicates(order)
    requires forall i :: 0 <= i < |order| ==> Reachable(Isolated(), "A", order[i])
    ensures order == ["A"]
  {
    if |order| > 1 {
      IsolatedReach(order[1]);
    }
  }

  /** breadthFirst from an isolated start: one step, no path, cost 0. */
  method IsolatedBfs() returns (res: SearchResult)
    ensures res.visitedOrder == ["A"] && res.steps == 1 && res.path == [] && res.cost == Fin(0)
  {
    res := Bfs.BreadthFirst(Isolated(), "A", "X");
    IsolatedVisits(res.visitedOrder);
    IsolatedReach("X");
  }

  /** uniformCost from an isolated start: one step, no path, cost Infinity. */
  method IsolatedUcs() returns (res: SearchResult)
    ensures res.visitedOrder == ["A"] && res.steps == 1 && res.path == [] && res.cost == Inf
  {
    res := Ucs.UniformCost(Isolated(), "A", "X");
    IsolatedVisits(res.visitedOrder);
    IsolatedReach("X");
  }
}
