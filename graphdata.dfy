// buildGraph of data/graphData.js: one empty adjacency list per city,
// then two entries per road (one in each direction, with the same cost),
// then every list sorted by neighbour. The road length is an input
// function giving each road's rounded length in kilometres; the cost is
// that length raised to at least 1, as Math.max(1, ...) does.
module GraphData {
  import opened Graphs

  /** An undirected road between two cities, as listed in `roads`. */
  type Road = (NodeId, NodeId)

  /** The rounded length of the road between two cities. */
  type RoadLength = (NodeId, NodeId) -> int

  /** Math.max(1, length): the cost stored for a road. */
  function RoadCost(km: int): nat {
    if km < 1 then 1 else km
  }

  function CostOf(len: RoadLength, r: Road): nat {
    RoadCost(len(r.0, r.1))
  }

  // ----- the order of neighbours -----

  /** Lexicographic order of character codes, standing in for localeCompare. */
  predicate StrLeq(a: string, b: string)
    decreases |a|
  {
    a == [] || (b != [] && (a[0] < b[0] || (a[0] == b[0] && StrLeq(a[1..], b[1..]))))
  }

  lemma {:induction false} StrLeqTotal(a: string, b: string)
    ensures StrLeq(a, b) || StrLeq(b, a)
    decreases |a|
  {
    if a != [] && b != [] && a[0] == b[0] {
      StrLeqTotal(a[1..], b[1..]);
    }
  }

  lemma {:induction false} StrLeqTrans(a: string, b: string, c: string)
    requires StrLeq(a, b) && StrLeq(b, c)
    ensures StrLeq(a, c)
    decreases |a|
  {
    if a != [] && a[0] == b[0] && b[0] == c[0] {
      StrLeqTrans(a[1..], b[1..], c[1..]);
    }
  }

  /** The list is in ascending order of neighbour. */
  predicate SortedByTo(es: seq<Edge>) {
    forall i, j :: 0 <= i < j < |es| ==> StrLeq(es[i].to, es[j].to)
  }

  /** Inserts `e` after every entry whose neighbour is not greater. */
  function Insert(e: Edge, s: seq<Edge>): (r: seq<Edge>)
    requires SortedByTo(s)
    ensures SortedByTo(r) && multiset(r) == multiset(s) + multiset{e}
    decreases |s|
  {
    if s == [] then [e]
    else if !StrLeq(s[0].to, e.to) then
      StrLeqTotal(s[0].to, e.to);
      forall k | 0 <= k < |s| ensures StrLeq(e.to, s[k].to) {
        if k > 0 { StrLeqTrans(e.to, s[0].to, s[k].to); }
      }
      [e] + s
    else
      var t := Insert(e, s[1..]);
      assert s == [s[0]] + s[1..];
      forall k | 0 <= k < |t| ensures StrLeq(s[0].to, t[k].to) {
        assert t[k] in multiset(t);
        if t[k] != e {
          assert t[k] in multiset(s[1..]);
          var m :| 0 <= m < |s[1..]| && s[1..][m] == t[k];
          assert s[m + 1] == t[k];
        }
      }
      [s[0]] + t
  }

  /** What sorting a list by neighbour yields: the same entries in
      ascending order of neighbour (an insertion sort, which keeps
      entries with the same neighbour in their original order, as the
      stable Array.prototype.sort does). */
  function SortByTo(es: seq<Edge>): (r: seq<Edge>)
    ensures SortedByTo(r) && multiset(r) == multiset(es)
    decreases |es|
  {
    if es == [] then []
    else
      assert es == es[..|es| - 1] + [es[|es| - 1]];
      Insert(es[|es| - 1], SortByTo(es[..|es| - 1]))
  }

  // ----- what the road pass pushes -----

  /** The entries road `r` adds to the list of `x`: first the one pushed
      onto the list of its first city, then the one pushed onto the list
      of its second city. */
  function Contributed(r: Road, c: nat, x: NodeId): seq<Edge> {
    (if r.0 == x then [Edge(r.1, c)] else []) + (if r.1 == x then [Edge(r.0, c)] else [])
  }

  /** The list of `x` after the road pass, before sorting. */
  function Pushed(roads: seq<Road>, len: RoadLength, x: NodeId): seq<Edge>
    decreases |roads|
  {
    if roads == [] then []
    else
      var r := roads[|roads| - 1];
      Pushed(roads[..|roads| - 1], len, x) + Contributed(r, CostOf(len, r), x)
  }

  /** `e` is an entry of `x` that road `r` justifies: `x` is one end of
      `r`, `e` leads to the other end, and `e` carries the road's cost. */
  predicate FromRoad(r: Road, len: RoadLength, x: NodeId, e: Edge) {
    e.cost == CostOf(len, r) && ((r.0 == x && e.to == r.1) || (r.1 == x && e.to == r.0))
  }

  /** Some road justifies entry `e` of `x`. */
  predicate Justified(roads: seq<Road>, len: RoadLength, x: NodeId, e: Edge) {
    exists i :: 0 <= i < |roads| && FromRoad(roads[i], len, x, e)
  }

  /** The entries pushed onto the list of `x` are exactly those some road
      justifies. */
  lemma {:induction false} PushedIffRoad(roads: seq<Road>, len: RoadLength, x: NodeId, e: Edge)
    ensures e in Pushed(roads, len, x) <==> Justified(roads, len, x, e)
    decreases |roads|
  {
    if roads != [] {
      var init, r := roads[..|roads| - 1], roads[|roads| - 1];
      PushedIffRoad(init, len, x, e);
      assert e in Contributed(r, CostOf(len, r), x) <==> FromRoad(r, len, x, e);
      assert Justified(roads, len, x, e) <==> Justified(init, len, x, e) || FromRoad(r, len, x, e) by {
        if Justified(roads, len, x, e) {
          var i :| 0 <= i < |roads| && FromRoad(roads[i], len, x, e);
          if i < |init| {
            assert init[i] == roads[i];
          }
        }
        if Justified(init, len, x, e) {
          var i :| 0 <= i < |init| && FromRoad(init[i], len, x, e);
          assert roads[i] == init[i];
        }
        if FromRoad(r, len, x, e) {
          assert FromRoad(roads[|roads| - 1], len, x, e);
        }
      }
    }
  }

  /** How many ends of the roads are `x` (a road from `x` to itself counts twice). */
  function Ends(roads: seq<Road>, x: NodeId): nat
    decreases |roads|
  {
    if roads == [] then 0
    else
      var r := roads[|roads| - 1];
      Ends(roads[..|roads| - 1], x) + (if r.0 == x then 1 else 0) + (if r.1 == x then 1 else 0)
  }

  /** The list of `x` gets one entry per road end at `x`. */
  lemma {:induction false} PushedLength(roads: seq<Road>, len: RoadLength, x: NodeId)
    ensures |Pushed(roads, len, x)| == Ends(roads, x)
    decreases |roads|
  {
    if roads != [] {
      PushedLength(roads[..|roads| - 1], len, x);
    }
  }

  /** The total number of entries over the lists of the distinct cities `ks`. */
  function TotalEntries(roads: seq<Road>, len: RoadLength, ks: seq<NodeId>): nat
    decreases |ks|
  {
    if ks == [] then 0 else TotalEntries(roads, len, ks[..|ks| - 1]) + |Pushed(roads, len, ks[|ks| - 1])|
  }

  function EndsIn(roads: seq<Road>, ks: seq<NodeId>): nat
    decreases |ks|
  {
    if ks == [] then 0 else EndsIn(roads, ks[..|ks| - 1]) + Ends(roads, ks[|ks| - 1])
  }

  /** Summing over distinct keys, the count of one key is 1 if it is listed. */
  function Count(ks: seq<NodeId>, x: NodeId): nat
    decreases |ks|
  {
    if ks == [] then 0 else Count(ks[..|ks| - 1], x) + (if ks[|ks| - 1] == x then 1 else 0)
  }

  lemma {:induction false} CountDistinct(ks: seq<NodeId>, x: NodeId)
    requires Distinct(ks)
    ensures Count(ks, x) == if x in ks then 1 else 0
    decreases |ks|
  {
    if ks != [] {
      var init := ks[..|ks| - 1];
      CountDistinct(init, x);
      assert ks == init + [ks[|ks| - 1]];
      assert x in ks <==> x in init || x == ks[|ks| - 1];
    }
  }

  /** Adding one road adds, over all keys, one count per end. */
  lemma {:induction false} EndsInSnoc(roads: seq<Road>, ks: seq<NodeId>)
    requires roads != []
    ensures EndsIn(roads, ks) == EndsIn(roads[..|roads| - 1], ks) + Count(ks, roads[|roads| - 1].0) + Count(ks, roads[|roads| - 1].1)
    decreases |ks|
  {
    if ks != [] {
      EndsInSnoc(roads, ks[..|ks| - 1]);
    }
  }

  /** Over a list of distinct cities that holds both ends of every road,
      the road ends number twice the roads. */
  lemma {:induction false} EndsInTotal(roads: seq<Road>, ks: seq<NodeId>)
    requires Distinct(ks)
    requires forall i :: 0 <= i < |roads| ==> roads[i].0 in ks && roads[i].1 in ks
    ensures EndsIn(roads, ks) == 2 * |roads|
    decreases |roads|
  {
    if roads == [] {
      EndsInEmpty(ks);
    } else {
      var init, r := roads[..|roads| - 1], roads[|roads| - 1];
      forall i | 0 <= i < |init| ensures init[i].0 in ks && init[i].1 in ks {
        assert init[i] == roads[i];
      }
      EndsInTotal(init, ks);
      EndsInSnoc(roads, ks);
      CountDistinct(ks, r.0);
      CountDistinct(ks, r.1);
    }
  }

  lemma {:induction false} EndsInEmpty(ks: seq<NodeId>)
    ensures EndsIn([], ks) == 0
    decreases |ks|
  {
    if ks != [] {
      EndsInEmpty(ks[..|ks| - 1]);
    }
  }

  lemma {:induction false} TotalIsEnds(roads: seq<Road>, len: RoadLength, ks: seq<NodeId>)
    ensures TotalEntries(roads, len, ks) == EndsIn(roads, ks)
    decreases |ks|
  {
    if ks != [] {
      TotalIsEnds(roads, len, ks[..|ks| - 1]);
      PushedLength(roads, len, ks[|ks| - 1]);
    }
  }

  /** Over the distinct cities, the road pass pushes two entries per road. */
  lemma TotalEntriesTwicePerRoad(roads: seq<Road>, len: RoadLength, ks: seq<NodeId>)
    requires Distinct(ks)
    requires forall i :: 0 <= i < |roads| ==> roads[i].0 in ks && roads[i].1 in ks
    ensures TotalEntries(roads, len, ks) == 2 * |roads|
  {
    TotalIsEnds(roads, len, ks);
    EndsInTotal(roads, ks);
  }

  // ----- the three passes -----

  /** Pushing the two entries of road `i` extends every list by what the road contributes. */
  lemma PushStep(g: Graph, roads: seq<Road>, len: RoadLength, i: nat)
    requires i < |roads| && roads[i].0 in g && roads[i].1 in g
    requires forall x :: x in g ==> g[x] == Pushed(roads[..i], len, x)
    ensures var (a, b) := roads[i];
            var c := RoadCost(len(a, b));
            var g1 := g[a := g[a] + [Edge(b, c)]];
            var g2 := g1[b := g1[b] + [Edge(a, c)]];
            g2.Keys == g.Keys && forall x :: x in g2 ==> g2[x] == Pushed(roads[..i + 1], len, x)
  {
    var (a, b) := roads[i];
    var c := RoadCost(len(a, b));
    var g1 := g[a := g[a] + [Edge(b, c)]];
    var g2 := g1[b := g1[b] + [Edge(a, c)]];
    assert roads[..i + 1][..i] == roads[..i];
    forall x | x in g2 ensures g2[x] == Pushed(roads[..i + 1], len, x) {
      assert Pushed(roads[..i + 1], len, x) == Pushed(roads[..i], len, x) + Contributed(roads[i], c, x);
    }
  }

  /** Sorting the list of `c` keeps each list's entries and sorts that one. */
  lemma SortStep(g: Graph, unsorted: Graph, cities: seq<NodeId>, i: nat)
    requires i < |cities| && (forall j :: 0 <= j < |cities| ==> cities[j] in g) && g.Keys == unsorted.Keys
    requires forall x :: x in g ==> multiset(g[x]) == multiset(unsorted[x])
    requires forall j :: 0 <= j < i ==> SortedByTo(g[cities[j]])
    ensures var g' := g[cities[i] := SortByTo(g[cities[i]])];
            && g'.Keys == unsorted.Keys
            && (forall x :: x in g' ==> multiset(g'[x]) == multiset(unsorted[x]))
            && (forall j :: 0 <= j < i + 1 ==> SortedByTo(g'[cities[j]]))
  {
    var g' := g[cities[i] := SortByTo(g[cities[i]])];
    forall j | 0 <= j < i + 1 ensures SortedByTo(g'[cities[j]]) {
      if cities[j] != cities[i] {
        assert g'[cities[j]] == g[cities[j]];
      }
    }
  }

  /** What the three passes of buildGraph leave: one key per city and,
      for each, the entries pushed onto its list, sorted by neighbour. */
  ghost predicate Built(g: Graph, cities: seq<NodeId>, roads: seq<Road>, len: RoadLength) {
    && (forall x :: x in g <==> x in cities)
    && forall x :: x in g ==> SortedByTo(g[x]) && multiset(g[x]) == multiset(Pushed(roads, len, x))
  }

  /** Each list holds one entry per road end, each entry being justified by a road. */
  lemma BuiltLists(g: Graph, cities: seq<NodeId>, roads: seq<Road>, len: RoadLength)
    requires Built(g, cities, roads, len)
    ensures forall x :: x in g ==> |g[x]| == Ends(roads, x)
    ensures forall x, e :: x in g ==> (e in g[x] <==> Justified(roads, len, x, e))
  {
    forall x | x in g ensures |g[x]| == Ends(roads, x) {
      assert |multiset(g[x])| == |multiset(Pushed(roads, len, x))|;
      PushedLength(roads, len, x);
    }
    forall x, e | x in g ensures e in g[x] <==> Justified(roads, len, x, e) {
      assert e in g[x] <==> e in multiset(Pushed(roads, len, x));
      PushedIffRoad(roads, len, x, e);
    }
  }

  /** Each road gives an entry in both directions; every entry costs at
      least 1, leads to a key, and has its reverse in the neighbour's list. */
  lemma BuiltSymmetric(g: Graph, cities: seq<NodeId>, roads: seq<Road>, len: RoadLength)
    requires forall i :: 0 <= i < |roads| ==> roads[i].0 in cities && roads[i].1 in cities
    requires forall x :: x in g <==> x in cities
    requires forall x, e :: x in g ==> (e in g[x] <==> Justified(roads, len, x, e))
    ensures forall i :: 0 <= i < |roads| ==>
              Edge(roads[i].1, CostOf(len, roads[i])) in g[roads[i].0] &&
              Edge(roads[i].0, CostOf(len, roads[i])) in g[roads[i].1]
    ensures forall x, k :: x in g && 0 <= k < |g[x]| ==> g[x][k].cost >= 1
    ensures WellFormed(g)
    ensures forall x, k :: x in g && 0 <= k < |g[x]| ==> g[x][k].to in g && Edge(x, g[x][k].cost) in g[g[x][k].to]
  {
    forall i | 0 <= i < |roads|
      ensures Edge(roads[i].1, CostOf(len, roads[i])) in g[roads[i].0] &&
              Edge(roads[i].0, CostOf(len, roads[i])) in g[roads[i].1]
    {
      assert FromRoad(roads[i], len, roads[i].0, Edge(roads[i].1, CostOf(len, roads[i])));
      assert FromRoad(roads[i], len, roads[i].1, Edge(roads[i].0, CostOf(len, roads[i])));
    }
    forall x, k | x in g && 0 <= k < |g[x]|
      ensures g[x][k].cost >= 1 && g[x][k].to in g && Edge(x, g[x][k].cost) in g[g[x][k].to]
    {
      EntryReversed(g, cities, roads, len, x, g[x][k]);
    }
  }

  lemma EntryReversed(g: Graph, cities: seq<NodeId>, roads: seq<Road>, len: RoadLength, x: NodeId, e: Edge)
    requires forall i :: 0 <= i < |roads| ==> roads[i].0 in cities && roads[i].1 in cities
    requires forall x :: x in g <==> x in cities
    requires forall x, e :: x in g ==> (e in g[x] <==> Justified(roads, len, x, e))
    requires x in g && e in g[x]
    ensures e.cost >= 1 && e.to in g && Edge(x, e.cost) in g[e.to]
  {
    var i :| 0 <= i < |roads| && FromRoad(roads[i], len, x, e);
    assert FromRoad(roads[i], len, e.to, Edge(x, e.cost));
  }

  /** buildGraph: every city is a key (and nothing else is); the list of
      each city holds, sorted by neighbour, exactly the entries its roads
      justify, one per road end; each road gives an entry in both
      directions with the same cost of at least 1; and every entry leads
      to a key, its reverse entry being in the neighbour's list. */
  method BuildGraph(cities: seq<NodeId>, roads: seq<Road>, len: RoadLength) returns (g: Graph)
    requires forall i :: 0 <= i < |roads| ==> roads[i].0 in cities && roads[i].1 in cities
    ensures Built(g, cities, roads, len)
    ensures forall x :: x in g ==> |g[x]| == Ends(roads, x)
    ensures forall x, e :: x in g ==> (e in g[x] <==> Justified(roads, len, x, e))
    ensures forall i :: 0 <= i < |roads| ==>
              Edge(roads[i].1, CostOf(len, roads[i])) in g[roads[i].0] &&
              Edge(roads[i].0, CostOf(len, roads[i])) in g[roads[i].1]
    ensures forall x, k :: x in g && 0 <= k < |g[x]| ==> g[x][k].cost >= 1
    ensures WellFormed(g)
    ensures forall x, k :: x in g && 0 <= k < |g[x]| ==> g[x][k].to in g && Edge(x, g[x][k].cost) in g[g[x][k].to]
  {
    g := map[];
    for i := 0 to |cities|
      invariant forall x :: x in g <==> exists j :: 0 <= j < i && cities[j] == x
      invariant forall x :: x in g ==> g[x] == []
    {
      g := g[cities[i] := []];
    }
    assert forall x :: x in g ==> g[x] == Pushed(roads[..0], len, x);
    for i := 0 to |roads|
      invariant forall x :: x in g <==> x in cities
      invariant forall x :: x in g ==> g[x] == Pushed(roads[..i], len, x)
    {
      var (a, b) := roads[i];
      var cost := RoadCost(len(a, b));
      PushStep(g, roads, len, i);
      g := g[a := g[a] + [Edge(b, cost)]];
      g := g[b := g[b] + [Edge(a, cost)]];
    }
    assert roads[..|roads|] == roads;
    ghost var unsorted := g;
    for i := 0 to |cities|
      invariant g.Keys == unsorted.Keys && forall j :: 0 <= j < |cities| ==> cities[j] in g
      invariant forall x :: x in g ==> multiset(g[x]) == multiset(unsorted[x])
      invariant forall j :: 0 <= j < i ==> SortedByTo(g[cities[j]])
    {
      SortStep(g, unsorted, cities, i);
      g := g[cities[i] := SortByTo(g[cities[i]])];
    }
    forall x | x in g ensures SortedByTo(g[x]) {
      var j :| 0 <= j < |cities| && cities[j] == x;
    }
    BuiltLists(g, cities, roads, len);
    BuiltSymmetric(g, cities, roads, len);
  }
}
