# AI search visualizer: the search core in Dafny

The system draws a road map of cities and animates three graph searches
on it from a chosen start city to a goal city: breadth-first search,
depth-first search and uniform-cost search (Dijkstra's algorithm over a
sorted list). Each search returns a result record with:

- the algorithm's name;
- the order in which it finalized (visited) cities;
- the path it found, read back from a parent map;
- the number of steps (cities visited);
- the path's cost.

This project models that core: the three searches and their helpers in
`app.js`, and the adjacency-list construction `buildGraph` in
`data/graphData.js`.

The graph is a map from city ids to adjacency lists of `Edge(to, cost)`.
JavaScript's `Infinity` cost is the `Inf` case of
`Cost = Fin(n) | Inf`. A parent map sends a city to `Root` (JavaScript
`null`) or to `From(city)`; a city with no key has the JavaScript value
`undefined`.

Each search is an imperative method. Its loop carries invariants and is
proved against specification predicates in `Graphs`:

- `WellFormed`: every edge ends at a city of the graph.
- `HasEdge`, `IsWalk` and `IsPathBetween`: edges, walks and paths of the graph.
- `Reachable`: some path joins two cities.
- `PathCost`: the specification of `calculateCost`.
- `IsRoute` / `RouteCost` in `Routes`: a walk together with the adjacency
  entry it uses at each step, and the sum of those entries' costs. This is
  what Dijkstra's algorithm minimizes.

Ghost depth maps certify that every parent map a search builds is a tree
rooted at the start. That is what makes `tracePath` terminate on the
searches' output.

Modules:

- `Graphs`: types, specification functions, parent-tree lemmas.
- `Paths`: `tracePath`, `calculateCost`, `pathEdges`.
- `Routes`
- `Bfs`, `Dfs`, `Ucs`
- `GraphData`: `buildGraph`.
- `Scenarios`: the three searches on a three-city triangle; breadth-first search on a square with two shortest paths of equal hops (the diamond); uniform-cost search on a square with two cheapest paths of equal cost (the kite); and breadth-first and uniform-cost search from a city with no roads.

On the triangle A-B (5), B-C (5), A-C (20), depth-first search from A to C
does not return A → B → C at cost 10, as one might expect:

- `depthFirst` visits A, B, C in that order.
- It assigns a parent only the first time a city is seen. C is first seen
  from A, so its parent stays A.
- The path is therefore A → C at cost 20.

The model follows the code, and `Scenarios.TriangleDfs` proves that outcome.

The unreachable-goal case also differs between the searches:

- `breadthFirst` and `depthFirst` report cost 0, since `calculateCost` of
  the empty path is 0.
- `uniformCost` reports `Infinity`.

The model keeps that difference.

## Model

| member | source | states |
|---|---|---|
| Paths.TracePath | app.js:7-18 | on an acyclic parent map (a rank that strictly decreases towards the root), a non-empty result is the chain of parent links from `source` down to `target`, and it is the only such chain; a target with no parent entry that is not the source itself gives the empty path |
| Paths.TracedInTree | app.js:7-18 | on a search's parent tree whose links are graph edges, the traced path is non-empty exactly when the target was reached; it is then a path of the graph from the root to the target with one more city than the target's depth, and it repeats no city |
| Paths.WalkHasNoLookupFault | app.js:23 | on a walk, or a path of at most one city, `graph[path[i]]` is defined at every index `calculateCost` reads |
| Paths.CalculateCost | app.js:20-28 | the loop's total is `PathCost`: 0 for a path of at most one city, `Infinity` exactly when some consecutive pair has no adjacency entry, and otherwise the sum of the first matching entry's cost at each step |
| Graphs.FindEdge | app.js:23 | `Array.find` on an adjacency list: no result exactly when no entry goes to the city, otherwise the first entry that does |
| Graphs.FindEdgeIffHasEdge | app.js:23-24 | `find` fails exactly when the graph has no edge between the two cities |
| Graphs.TreeReaches | app.js:7-18 | every city in a parent tree whose links are edges is reachable from the root along the chain `tracePath` follows |
| Graphs.ClosedSetHoldsReach | app.js:47-60 | every city reachable from inside a set that no edge leaves is in that set: the visited set of a search whose frontier ran dry holds the whole reachable part |
| Graphs.PathCostFiniteIffWalk | app.js:20-28 | a path's cost is finite if and only if it is a walk of the graph |
| Graphs.PathCostPrefix | app.js:20-28 | a prefix of a walk costs no more than the whole walk |
| Paths.PathEdges | app.js:30-37 | the set holds both orientations of every consecutive pair of the path and nothing else; it is symmetric, empty for a path of at most one city, and has at most two elements per step |
| Bfs.EnqueueNeighbours | app.js:53-59 | the inner loop: the queue grows by exactly `Enqueued(graph[node], visited)`, those nodes and no others are newly marked visited and get the expanded city as parent, other parents are unchanged; each enqueued node is one level deeper than the expanded city |
| Bfs.EnqueuedMembers | app.js:53-59 | a node is enqueued exactly when an adjacency entry leads to it and it was not marked before the loop; no node is enqueued twice, even when two entries lead to it |
| Bfs.HopBound | app.js:47-60 | the city at the head of the queue has depth at most the hop count of any path to it from the start |
| Bfs.BfsExplore | app.js:41-60 | the visit order starts at the start city, repeats no city and ends at the goal if the goal was visited; the parent map is a tree of graph edges; the goal was visited exactly when it has a parent entry; an unvisited goal is unreachable, and then every reachable city was visited; the visit order is sorted by tree depth, and every visited city's depth is the least hop count of any path to it; once the goal is visited, every city some path reaches in fewer hops than the goal's depth was visited before it; each city's parent is the earliest visited city with an edge to it (`FirstDiscoverers`); the visit order is first-in first-out (`FifoOrder`); once the goal is visited, every city that precedes it in that order was visited too (`AheadVisited`), because the loop stops only when the goal reaches the head of the queue |
| Bfs.SearchStart | app.js:42-45 | the initial queue `[start]`, visited set and parent map satisfy the loop's state: the frontier, least hop counts, first-discoverer parents and FIFO queue |
| Bfs.ExpandKeeps | app.js:47-60 | dequeuing a city that is not the goal and enqueuing its unvisited neighbours keeps that state, and either marks a new city or shortens the queue |
| Bfs.GoalReached | app.js:48-51 | dequeuing the goal ends the search with every outcome `BfsExplore` promises for a visited goal |
| Bfs.Drained | app.js:47-60 | a queue that runs dry leaves every outcome `BfsExplore` promises for an unvisited goal: all reachable cities visited, the goal unreachable |
| Bfs.DiscoverersGrow | app.js:53-57 | after expanding a city, each city it has an edge to has as parent the earliest expanded city with an edge to it, because a neighbour already visited keeps its parent (`!visited.has`) |
| Bfs.FirstEntry | app.js:53 | the index of the first adjacency entry leading to a city, or the list's length: that entry leads to it and no earlier one does |
| Bfs.Discoverer | app.js:53-57 | the index of the first expanded city with an edge to a given city, or the order's length: that city has the edge and no earlier one does |
| Bfs.EnqueuedSorted | app.js:53-58 | the inner loop enqueues neighbours in the order of their first adjacency entries, each once |
| Bfs.FreshDiscovered | app.js:53-58 | the neighbours a city enqueues were discovered by that city, since every neighbour of an earlier expanded city is already visited |
| Bfs.FifoShift | app.js:47-49 | appending a city to the dequeue order keeps the discoverer of every city already discovered and every precedence among them |
| Bfs.FifoAppend | app.js:57 | cities discovered by the last expanded city, in the order of their entries, go to the back of a queue in FIFO order and keep it in FIFO order |
| Bfs.FifoGrows | app.js:47-60 | `shift` followed by the pushes of the inner loop keeps the queue in FIFO order: by discoverer, then by the discoverer's adjacency order |
| Bfs.FifoDone | app.js:47-49 | the dequeue order is in FIFO order |
| Bfs.FifoGoal | app.js:48-51 | dequeuing the goal keeps the dequeue order in FIFO order |
| Bfs.PrecedesKept | app.js:47-49 | precedence between two cities discovered by dequeued cities survives further dequeues |
| Bfs.BehindGoal | app.js:48 | a city behind the head of the queue comes after it in FIFO order, also once the head is dequeued |
| Bfs.AheadOfGoal | app.js:47-51 | when the goal heads the queue, every city that precedes it in FIFO order has been dequeued: it was discovered, so it is visited, and it cannot sit behind the goal |
| Bfs.BfsPath | app.js:62 | the path traced from the search loop's parents is non-empty exactly when the goal was visited, joins start to goal with the fewest hops, repeats no city, has every lookup of `calculateCost` defined, and runs through first discoverers; every city nearer than the goal was visited |
| Bfs.BfsVisits | app.js:63-69 | the result's visit order and steps satisfy `VisitLog`, level-by-level order, reachability of visited cities, coverage of the reachable part without the goal, FIFO order and `AheadVisited` |
| Bfs.BfsAnswer | app.js:62-69 | the result's path satisfies `PathFound`, is a shortest path, and its predecessors are first discoverers |
| Bfs.NearerDequeued | app.js:47-60 | when a city reaches the head of the queue, every city some path reaches in fewer hops than its depth has already been dequeued |
| Bfs.NearerLevels | app.js:47-60 | given a path to the goal of depth + 1 cities, every city strictly nearer in hops than the goal was visited |
| Bfs.LevelOrder | app.js:47-60 | with depths sorted along the order and equal to least hop counts, cities are visited level by level: a city visited earlier is within every hop bound of a city visited later |
| Bfs.BreadthFirst | app.js:41-70 | `visitedOrder` starts at the start, repeats no city, and its length is `steps`; the path is non-empty exactly when the goal was visited, and exactly when it is reachable; the path joins start to goal and has no more hops than any other path; cities are visited level by level (a city visited earlier is never more hops from the start than one visited later); every visited city is reachable, and when the goal is not visited every reachable city is, so `steps` is the size of the start's reachable part; when the goal is visited, so is every city strictly fewer hops from the start than the goal (`NearerVisited`: each level below the goal's was explored in full); each path city's predecessor is the earliest visited city with an edge to it, so among tied shortest paths the one through the earlier-dequeued city is returned; the visit order is first-in first-out (`FifoOrder`: by the position of each city's first discoverer, then by that discoverer's adjacency order), and when the goal is visited, so is every city that precedes it in that order (`AheadVisited`: the cities the queue hands out before the goal, on the goal's own level too); the cost is `PathCost` of the path (0 when there is no path) |
| Dfs.FirstUnvisitedSpec | app.js:86-91 | the first adjacency entry not yet visited: none exactly when every entry's city was visited; otherwise an unvisited city reached by some entry, every entry before it leading to a visited city |
| Dfs.PushedNeighbours | app.js:86-91 | a city is pushed after expanding `node` exactly when it is an unvisited neighbour of `node` |
| Dfs.TopOfPushed | app.js:86-89 | pushing the reversed adjacency list leaves the first unvisited neighbour on top of the stack, and pushes nothing exactly when every neighbour was visited |
| Dfs.UnvisitedConcat | app.js:86-91 | filtering out visited cities distributes over concatenating pushes |
| Dfs.UnvisitedTwice | app.js:79-86 | filtering by a smaller visited set first and then by a larger one is filtering by the larger one: cities marked since a push are skipped when popped |
| Dfs.ResumeTop | app.js:76-91 | the last unvisited city among everything the visited cities pushed, in push order, is where backtracking resumes (the first unvisited neighbour of the latest visited city that still has one), and there is none exactly when backtracking finds nothing |
| Dfs.ResumeNone | app.js:76-91 | backtracking finds nothing exactly when no visited city has an unvisited first neighbour |
| Dfs.ExhaustedIffNoResume | app.js:76-91 | backtracking finds nothing exactly when no visited city has an unvisited neighbour |
| Dfs.DfsOrderedAt | app.js:76-83 | in a depth-first order each city after the first is where backtracking over the cities before it resumes |
| Dfs.PushNeighbours | app.js:86-91 | the stack grows by exactly the unvisited neighbours, in reversed adjacency order; a parent is set only for a city with no parent yet (`parent[n.to] === undefined`), and it is the expanded city; existing parents are unchanged |
| Dfs.DfsExplore | app.js:72-92 | the visit order starts at the start, repeats no city and ends at the goal if visited; each city after the first is where backtracking over the cities visited before it resumes, that is, the first unvisited neighbour of the latest visited city that still has one; if the goal is not visited, the search stopped because no visited city has an unvisited neighbour; the parent tree links each city to the earliest visited city it is adjacent to; an unvisited goal is unreachable |
| Graphs.PredecessorsFirst | app.js:53-57 | on the traced path, each city's predecessor was visited no later than any other visited neighbour of that city ("first discoverer" parents); `depthFirst` (app.js:86-88) and `breadthFirst` both build such parents |
| Graphs.DiscoverersThenGoal | app.js:51 | appending the goal to the visited cities keeps every parent a first discoverer, since the goal's own entries are never expanded |
| Dfs.DfsResult | app.js:94-101 | from the search's outcome, the result keeps its visit order; the traced path is non-empty exactly when the goal was visited, joins start to goal, gives each city its first visited neighbour as predecessor, and is priced by `PathCost` (0 when empty) |
| Dfs.DepthFirst | app.js:72-102 | `visitedOrder` starts at the start, repeats no city, ends at the goal if the goal was visited, and its length is `steps` (`VisitLog`); the path is non-empty exactly when the goal was visited, and exactly when it is reachable, and then joins start to goal without repeating a city (`PathFound`); the visit order is depth-first (`DfsOrdered`: each city after the first is where backtracking over the cities before it resumes); when the goal is not visited, every neighbour of every visited city was visited (`Exhausted`); each path city's predecessor is its first visited neighbour; the cost is `PathCost` of the path (0 when there is no path) |
| Ucs.FirstMin | app.js:117-118 | the entry that a stable sort by cost followed by `shift` removes: an entry of least cost, with every earlier entry strictly dearer |
| Ucs.Without | app.js:118 | removing that entry keeps all the others in their order, and the entries lose exactly that one |
| Ucs.MinViaBelow | app.js:125-132 | relaxing an adjacency list leaves each neighbour's distance at most the expanded city's distance plus the entry's cost |
| Ucs.MinViaAchieved | app.js:125-132 | a finite relaxed distance is achieved by one of the entries |
| Ucs.RelaxEdges | app.js:125-132 | the inner loop: each city's distance becomes the minimum of its old distance and every `distance[node] + cost` the entries offer it; a city's parent is rewritten to the expanded city (one level deeper) exactly when its distance drops, other parents are unchanged; the frontier gains exactly `Improvements(graph[node], …)`: in list order, one entry at `distance[node] + cost` for each adjacency entry whose offer beats the neighbour's distance and every earlier offer; so it gains only entries no cheaper than `distance[node]` and holds an entry at each lowered distance |
| Ucs.FrontierBound | app.js:116-133 | every route from the start to a not-yet-finalized city costs at least the cheapest frontier entry |
| Ucs.PopSettles | app.js:117-122 | a popped entry whose city is not yet finalized carries that city's current distance (the first pop is the start), and finalizing the city keeps the visit order non-decreasing in distance |
| Ucs.PopOptimal | app.js:117-122 | when that city is finalized, no route from the start to it is cheaper than its distance |
| Ucs.UcsExplore | app.js:104-133 | the visit order starts at the start, repeats no city and ends at the goal if reached; finalized cities appear in non-decreasing distance; each finalized city's distance is no more than the cost of any route to it; the parent tree links follow edges whose cost accounts for the distance; an unvisited goal is unreachable, and then every reachable city was finalized; a finalized goal's distance is finite and every city some route reaches for less was finalized; each city's parent is the earliest finalized city one of whose entries offers exactly its distance (`FirstAchievers`), because an equal offer does not replace it (`alt < distance[n.to]`) |
| Ucs.AchieverKept | app.js:125-129 | an entry of a city finalized before the expanded one that offers a distance offered it before: the distance did not drop and the parent stayed |
| Ucs.AchieversGrow | app.js:125-129 | after relaxing a city's entries, every city whose distance an entry of a finalized city achieves has as parent the earliest such finalized city |
| Ucs.AchieversStep | app.js:117-132 | the expansion step of the loop keeps `FirstAchievers` |
| Ucs.AchieversThenGoal | app.js:123 | finalizing the goal keeps `FirstAchievers`, since the goal's own entries are never offered |
| Ucs.LeastWithin | app.js:116-122 | a finalized city's distance is at most the cost of every route to it |
| Ucs.TreeRoute | app.js:126-129 | the chain of parents to a city is a route costing the city's distance |
| Ucs.TreeRouteVia | app.js:126 | extending that chain by one entry reaches the entry's city within the distance plus the entry's cost |
| Ucs.CheapestEntry | app.js:126-129 | an entry of a finalized city that reaches a finalized city at its least route cost offers exactly that city's distance |
| Ucs.AchieversOnPath | app.js:7-18 | along the traced path, each city's predecessor is the earliest finalized city whose entry reaches it at its least route cost |
| Ucs.CheaperFinalized | app.js:116-122 | when the cheapest frontier entry is popped, every city some route reaches for less than its cost is already finalized |
| Ucs.CheaperBand | app.js:116-122 | given a route to the goal costing its distance, every city strictly cheaper to reach than the goal was finalized |
| Ucs.CostAnswer | app.js:135-141 | on a found path, `distance[goal]` is the cost of that path along the entries Dijkstra's algorithm used, it is at most every route's cost and every walk's `PathCost`, and it equals the path's `PathCost` when no city lists two entries to the same neighbour; without a path the cost is `Infinity` |
| Ucs.CheapestOrder | app.js:116-122 | with finalized distances least route costs, achieved along the cost tree and non-decreasing along the order, cities are finalized cheapest first: a city finalized earlier is within every route-cost bound of a city finalized later |
| Ucs.Drained | app.js:116-133 | when the frontier runs dry, the finalized cities are closed under edges, so every reachable city was finalized and the goal, unvisited, is unreachable |
| Ucs.UniformCost | app.js:104-143 | `visitedOrder` starts at the start, repeats no city, and its length is `steps`; the path is non-empty exactly when the goal was visited, and exactly when it is reachable; cities are finalized cheapest first (`CheapestFirst`: the lowest-cost city is expanded first); every visited city is reachable, and when the goal is not visited every reachable city is; when the goal is visited, so is every city strictly cheaper to reach than the goal (`CheaperVisited`: each cost band below the goal's was explored in full); the cost is `Infinity` without a path; with one, it is that route's cost and no route from start to goal is cheaper (least-cost optimality); it equals `PathCost` of the path when no city lists two entries to the same neighbour; each path city's predecessor is the earliest finalized city with an entry that reaches it at its least route cost (`CheapestVia`), so among tied cheapest paths the one through the earlier-finalized city is returned |
| Routes.WalkHasRoute | app.js:20-28 | every walk has a route whose cost is its `PathCost` (the first matching entry at each step) |
| Routes.RouteCostUnique | app.js:23 | when no city lists two entries to the same neighbour, every route along a walk costs its `PathCost` |
| GraphData.StrLeqTotal | data/graphData.js:154-156 | the comparison used to sort adjacency lists is total |
| GraphData.StrLeqTrans | data/graphData.js:154-156 | that comparison is transitive |
| GraphData.Insert | data/graphData.js:153-157 | inserting an entry into a sorted list keeps it sorted by neighbour and adds exactly that entry |
| GraphData.SortByTo | data/graphData.js:153-157 | the sorted list is ordered by neighbour id and is a permutation of the unsorted list |
| GraphData.PushedIffRoad | data/graphData.js:140-150 | an entry lands in a city's list exactly when some road has that city at one end and the entry's target at the other, with the road's clamped cost |
| GraphData.PushedLength | data/graphData.js:140-150 | a city's list has one entry per road end at that city |
| GraphData.TotalEntriesTwicePerRoad | data/graphData.js:138-150 | over the distinct cities, the lists together hold exactly two entries per road |
| GraphData.BuiltLists | data/graphData.js:137-157 | a built graph's list lengths and contents are as the roads determine, after sorting |
| GraphData.BuiltSymmetric | data/graphData.js:140-150 | both entries of each road are present; every cost is at least 1; every edge ends at a city; each entry's reverse entry, with the same cost, is in the neighbour's list |
| GraphData.BuildGraph | data/graphData.js:132-160 | one key per city; each list is sorted by neighbour and is a permutation of the entries the roads push, with one entry per road end; both directions of every road are present with cost max(1, length) ≥ 1; the graph is well formed and symmetric |
| Scenarios.Triangle | data/graphData.js:132-160 | the triangle graph used below is well formed, with no parallel entries |
| Scenarios.TriangleSorted | data/graphData.js:153-157 | each list of the triangle is sorted by neighbour |
| Scenarios.TriangleBuilt | data/graphData.js:132-160 | the triangle is what `buildGraph` makes of cities A, B, C and roads A-B, B-C, A-C of lengths 5, 5 and 20: one key per city, each list sorted and holding the entries the roads push onto it |
| Scenarios.TriangleBfs | app.js:41-70 | breadth-first search from A to C visits A, B, C in 3 steps (B leaves the queue before C, since A's list names it first) and takes the direct road A → C, cost 20 |
| Scenarios.TriangleBfsOrder | app.js:47-58 | a visit order that the contract of `breadthFirst` allows from A to C is A, B, C: B precedes C in the queue, so it is dequeued before the search stops |
| Scenarios.TriangleDfs | app.js:72-102 | depth-first search from A to C visits A, B, C (3 steps), and returns A → C at cost 20 because C's parent is its first discoverer A |
| Scenarios.IsolatedBfs | app.js:41-70 | breadth-first search from a city with no roads visits only that city: 1 step, empty path, cost 0 |
| Scenarios.IsolatedUcs | app.js:104-143 | uniform-cost search from a city with no roads visits only that city: 1 step, empty path, cost `Infinity` |
| Scenarios.TriangleUcsOrder | app.js:116-132 | a visit order that the contract of `uniformCost` allows from A to C, where no route to C costs under 10 and B costs 5, is A, B, C |
| Scenarios.TriangleUcs | app.js:104-143 | uniform-cost search from A to C visits A, B, C in 3 steps and returns A → B → C at cost 10 |
| Scenarios.DiamondBfsOrder | app.js:47-59 | on the square A-B, A-C, B-D, C-D, a visit order from A to D allowed by `breadthFirst`'s contract is A, B, C, D: B and C are nearer than D, and A's list names B first |
| Scenarios.DiamondBfsPath | app.js:53-57 | with B dequeued before C, D's predecessor is B: the path is A → B → D |
| Scenarios.DiamondBfsResult | app.js:41-70 | `breadthFirst`'s contract on the diamond from A to D fixes the result: A, B, C, D in 4 steps, path A → B → D at cost 2 |
| Scenarios.DiamondBfs | app.js:41-70 | breadth-first search from A to D on the diamond visits A, B, C, D and returns A → B → D at cost 2 |
| Scenarios.KiteUcsOrder | app.js:116-123 | on the square with A-B 3, A-C 4, B-D 2, C-D 1, a visit order from A to D allowed by `uniformCost`'s contract is A, B, C, D |
| Scenarios.ThroughB | app.js:125-129 | when the entries A-B and B-D reach B and D at their least costs and B is finalized before C, the path is A → B → D |
| Scenarios.KiteUcsPath | app.js:125-129 | on the kite, C's equal offer to D does not replace B's: the path is A → B → D |
| Scenarios.KiteUcsResult | app.js:104-143 | `uniformCost`'s contract on the kite from A to D fixes the result: A, B, C, D in 4 steps, path A → B → D at cost 5 |
| Scenarios.KiteUcs | app.js:104-143 | uniform-cost search from A to D on the kite visits A, B, C, D and returns A → B → D at cost 5, although A → C → D costs 5 too |

## Left out

- The haversine distance, its rounding and the SVG projection use floating point. The road length is an input function from a road to its rounded kilometres. `GraphData.RoadCost` models only the `Math.max(1, ·)` clamp.
- The concrete `cities` and `roads` lists are not modelled; `buildGraph` takes them as parameters. `cityById` only feeds the distance and is left out with it.
- `localeCompare` is modelled as code-point lexicographic order on ids. Locale collation differs from that on some strings. The sort is stable by construction (`Insert` places an entry after equal ones), but no contract states stability.
- The DOM, SVG drawing, animation, timers (`pause`), event handlers and the explanation strings are I/O and are not modelled.
- Edge costs are natural numbers. `buildGraph` only produces integers ≥ 1, and `Infinity` is a separate `Cost` case.
- `GraphData.BuildGraph` requires every road end to be a city. Without that, `cityById[a]` is `undefined`, and the distance computation throws first: `haversineDistanceKm` reads `.lat` of it (data/graphData.js:37, called at 141-144), before the push at data/graphData.js:148 is reached.
- Bfs.BreadthFirst, Dfs.DepthFirst, Ucs.UniformCost: these require a well-formed graph (every entry leads to a key) containing the start city. What the source does outside that is not modelled:
  - a start that is not a key throws at `graph[node]`, unless it is also the goal, which returns `[start]`;
  - `breadthFirst` and `depthFirst` queue a neighbour that is not a key, and throw when they expand it unless it is the goal (app.js:51-53, 84-86);
  - `uniformCost` never queues such a neighbour: `alt < distance[n.to]` compares with `undefined`, which is false (app.js:127).
- Paths.CalculateCost: the source throws when some `graph[path[i]]` is undefined. The model requires `NoLookupFault` instead, which every search result satisfies (`Paths.TracedInTree`).
- Paths.TracePath: requires an acyclic parent map, given by a ghost rank. On a cyclic map the source loops forever; every search result is a tree.
- Paths.PathEdges: returns a set of ordered city pairs instead of the strings `a__b`. The two coincide when no id contains `_`. Otherwise two different pairs can share a string: `x_` with `y` and `x` with `_y` both give `x___y` (app.js:33).
- Ucs.UniformCost: equals the returned path's `calculateCost` only when no city lists two entries to the same neighbour. With parallel entries, Dijkstra's algorithm uses the cheapest one and `calculateCost` the first. `buildGraph` creates parallel entries for a road listed twice, and for a road from a city to itself, whose two pushes both land in that city's list (data/graphData.js:148-149).
- Dfs.DepthFirst, GraphData.BuildGraph, and the other searches with them: graphs, parent maps and distance maps are modelled as maps defined for every string id. JavaScript's plain objects differ for ids that name `Object.prototype` properties, so such ids (`constructor`, `toString`, `__proto__`, …) are assumed not to occur. For example, a goal city named `constructor` already reads as having a parent at app.js:88, so depthFirst never sets one and returns the empty path. Likewise `graph["__proto__"] = []` at data/graphData.js:138 creates no key.
- Ucs.UniformCost: among cities at equal distance the contract does not fix the order of finalization, nor which cities at the goal's own distance come before it. The source breaks such ties by the order in which the entries were pushed (stable sort, app.js:117). The returned path is pinned regardless, through each city's earliest cheapest achiever.
- Ucs.FirstMin: the in-place `pq.sort` on every pop (app.js:117) is not modelled; the frontier stays in insertion order and the pop takes its first entry of least cost. The pop still removes the same entry. `Array.prototype.sort` is stable, so by induction over the pops the source's array is always the stable sort by cost of the model's insertion-ordered list: appending entries and sorting stably again gives the same array as sorting the whole insertion-ordered list, because equal-cost entries keep their insertion order either way. The head of that array, which `shift` removes, is the model's first least-cost entry.
- The numeric labels the UI shows (steps, "∞") are not modelled.
