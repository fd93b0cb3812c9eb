# Shortest paths in a hand-built weighted graph

The page lets a user build an undirected, weighted graph one edge at a time and ask for the
shortest path between two named nodes. This project models its two pieces of real logic, both
in `script.js`:

- **The graph store** (`graph_store.dfy`, module `GraphStore`). This is the "add edge" handler without its form reads. A `Graph` object holds the insertion-ordered `nodes` and `links` lists, and `AddEdge` updates them in place:
  - it ignores an empty id or a NaN weight;
  - it pushes each endpoint only if no node has that id yet;
  - it always appends the link, so parallel links and self-loops are kept.
- **The shortest-path engine** (`dijkstra.dfy`, module `ShortestPath`). This is `dijkstra(graph, start, end)`:
  - the frontier is a sequence in node insertion order;
  - the `reduce` selects the minimum, and ties go to the earliest node;
  - `Set.delete` removes it from the frontier;
  - every link touching the selected node is relaxed in both directions, updating only on a strict decrease;
  - when `end` is selected, the path is rebuilt by `unshift`-ing along the `previous` links.

  The distance and predecessor tables are maps. JavaScript's `Infinity` becomes `Inf` in
  `Dist = Fin(int) | Inf`, with JavaScript's `<` and `+`. A missing `previous` key reads as
  undefined (no predecessor).
- **The reference notions** (`walks.dfy`, module `Walks`) are what the engine's answer is measured against:
  - a walk is any non-empty sequence of ids;
  - a walk's cost adds, step by step, the weight of the lightest link joining the two nodes (Infinity if none does);
  - `ShortestLength` is the least cost over all walks.

`Dijkstra` is proved against these notions, assuming non-negative weights:
- it answers NotFound exactly when `end` is not a node;
- otherwise the path ends at `end` and repeats no node;
- the reported length is the least cost of any walk from `start` to `end`;
- when that length is finite, the path is such a walk, starting at `start`;
- when it is Infinity, the path is `[end]` alone;
- for `start == end` the answer is `[end]` at 0.

A ghost trace of the main loop's iterations shows the following:
- one node leaves the frontier per iteration;
- there are at most as many iterations as nodes;
- the selected distances never decrease.

Two behaviours of the code are easy to miss, and the model keeps both:
- An unreachable `end`, or a `start` that is not a node, gets the path `[end]` with length Infinity. Only an `end` that is not a node reaches the not-found return (`script.js:120`). See Findings.
- The edge handler itself drops empty ids and NaN weights (`script.js:23`). The store has no entry point without this validation.

## Model

| member | source | states |
|---|---|---|
| GraphStore.Graph.constructor | script.js:1-4 | The store starts with no nodes and no links, which is well formed. |
| GraphStore.Graph.AddEdge | script.js:19-31 | An empty id or NaN weight leaves both lists unchanged. Otherwise each endpoint is pushed only if absent, and exactly one link `{node1, node2, weight}` is appended after the unchanged earlier links. Ids stay unique and non-empty, and every link joins stored nodes. |
| GraphStore.WithNode | script.js:25-30 | Pushing-if-absent yields a list that contains the id and keeps the old list as a prefix. It grows by one exactly when the id was absent, and holds exactly the old ids plus the new one. |
| GraphStore.WithNodeUnique | script.js:25-30 | Pushing-if-absent never creates a duplicate id. |
| GraphStore.AddedNodes | script.js:25-30 | An insertion adds `node1` if new, then `node2` if new and different from `node1`: 0, 1 or 2 nodes, in that order, and at most one for a self-loop. |
| GraphStore.InsertKeepsWellFormed | script.js:23-31 | A valid insertion keeps ids unique and non-empty and every link's endpoints stored. |
| Walks.Less | script.js:92 | JavaScript's `<` on numbers where Infinity may occur: Infinity is less than nothing, and every number is less than Infinity. |
| Walks.Plus | script.js:111 | JavaScript's `+` on numbers where Infinity may occur: Infinity as soon as either operand is Infinity. |
| Walks.LightestIsLightest | script.js:107-116 | With parallel links, the step weight used is that of a link actually joining the two nodes, and no joining link is lighter. |
| Walks.LightestSymmetric | script.js:108-110 | Links are undirected: the lightest link from `u` to `v` is the lightest from `v` to `u`. |
| Walks.LightestOfStranger | script.js:108 | A node no link touches reaches nothing in one step. |
| Walks.FiniteCostJoined | script.js:107-110 | A walk of finite cost crosses an existing link at the given step. |
| Walks.FiniteCostWalkJoined | script.js:107-110 | A walk of finite cost crosses an existing link at every step, so a reported finite path follows links. |
| Walks.CostNonNegative | script.js:111 | With non-negative weights, every walk costs at least 0. |
| Walks.CostReverse | script.js:108-110 | A walk and its reversal cost the same. |
| Walks.ShortestLengthSymmetric | script.js:107-116 | The least cost from `a` to `b` equals the least cost from `b` to `a`. |
| ShortestPath.Unsettled | script.js:80 | The node `Set` after deleting the selected nodes: the remaining ids in insertion order. |
| ShortestPath.UnsettledContents | script.js:80-95 | The frontier after deleting a set of nodes holds exactly the nodes not deleted, each once. |
| ShortestPath.UnsettledNone | script.js:80 | The initial frontier is the node list in insertion order. |
| ShortestPath.Delete | script.js:95 | `Set.delete` removes exactly `x`. It is a no-op when `x` is absent and shortens a duplicate-free frontier by one. |
| ShortestPath.DeleteUnsettled | script.js:95 | Deleting the selected node leaves the frontier equal to the nodes not yet selected, in insertion order. |
| ShortestPath.MinIndex | script.js:91-93 | The `reduce` selects a frontier node whose distance is at most every other frontier node's. Every earlier node has a strictly greater distance, so ties go to the earliest. |
| ShortestPath.Incident | script.js:108 | The filter keeps exactly the links with the selected node at either end, and keeps them non-negative. |
| ShortestPath.LightestIncident | script.js:107-108 | Filtering to the links at `c` loses no link between `c` and any node. |
| ShortestPath.Neighbor | script.js:110 | The neighbour is the other end of the link, or `c` itself for a self-loop. |
| ShortestPath.RelaxOne | script.js:110-116 | One `forEach` step leaves `c`'s own distance unchanged and extends the relaxed-so-far relation by one link. |
| ShortestPath.RelaxedAtAll | script.js:107-117 | Relaxing the filtered links is relaxing all links, and no distance grows. |
| ShortestPath.Relax | script.js:107-117 | After the loop, each node's distance is the smaller of its old one and the distance through `c` over the lightest link. Its predecessor becomes `c` exactly on a strict improvement. No distance increases. |
| ShortestPath.Settle | script.js:107-117 | An iteration that does not select `end` relaxes the links at the selected node and keeps the loop invariant, with that node now visited. |
| ShortestPath.Lookup | script.js:102 | `previous[temp]`: a missing key reads as undefined, that is, no predecessor. |
| ShortestPath.Reconstruct | script.js:97-103 | The `while (temp)` loop stops. It returns a chain of predecessor links from a node without predecessor to `end`, with no node repeated. |
| ShortestPath.InitialMaps | script.js:84-88 | Every node starts at Infinity with no predecessor, then `start` gets distance 0, with a key of its own when it is not a node. |
| ShortestPath.InitialInvariant | script.js:84-88 | The initial state satisfies the loop invariant. |
| ShortestPath.FrontierBound | script.js:90-95 | The selected node's distance is at most the cost of any walk from `start` to a frontier node. |
| ShortestPath.SettleStep | script.js:90-117 | One iteration that does not select `end` preserves the invariant: frontier shape, Dijkstra's distance bounds, the trace, and the predecessor links. |
| ShortestPath.Selected | script.js:91-93 | The node the `reduce` picks is in the frontier and no farther than any frontier node. |
| ShortestPath.TraceGrows | script.js:90-95 | Appending the selected node keeps the trace free of repeats, within the node count, and with non-decreasing distances. |
| ShortestPath.TraceFacts | script.js:90-95 | Selecting the `reduce`'s node appends a fresh node to the trace, keeps the trace within the node count and its distances non-decreasing, and shortens the frontier by one. |
| ShortestPath.ChainCost | script.js:97-115 | Along a chain of predecessor links, distances add up link by link. |
| ShortestPath.ChainTotal | script.js:97-115 | Along the whole rebuilt chain, `end`'s distance is the first node's distance plus the chain's cost. |
| ShortestPath.ChainWithoutPredecessor | script.js:97-103 | The rebuilt path is `[end]` alone when `end` has no predecessor. |
| ShortestPath.ChainFacts | script.js:97-104 | When `end`'s distance is finite, the rebuilt path starts at `start` and costs exactly that distance. |
| ShortestPath.FoundIsShortest | script.js:97-104 | When `end` is selected, the rebuilt path and `distances[end]` form the answer: a cheapest walk, or `[end]` at Infinity. |
| ShortestPath.Answer | script.js:97-104 | The success branch returns that answer with `distances[end]` as its length. |
| ShortestPath.Exhausted | script.js:90-120 | When the frontier empties, every node was selected, so `end` is not a node. |
| ShortestPath.StrangerUnreachable | script.js:88 | Every walk from a `start` that is not a node to a node costs Infinity. |
| ShortestPath.UnknownStart | script.js:84-104 | When `start` is not a node and `end` is, the answer is `[end]` at Infinity. |
| ShortestPath.Dijkstra | script.js:79-121 | NotFound exactly when `end` is not a node. Otherwise the answer is a duplicate-free path ending at `end`, whose length is the least walk cost from `start`, and which is a walk of that cost when the length is finite. The trace has one node per iteration, at most as many iterations as nodes, and non-decreasing distances. |
| ShortestPath.DisconnectedPairFound | script.js:84-105 | `dijkstra` on nodes A and B with no links, from A to B, answers `[B]` at Infinity. |
| ShortestPath.ShortestPathOrNotFound | script.js:79-121 | NotFound exactly when `end` is not a node or every walk to it costs Infinity. Otherwise the answer is a cheapest walk of finite length. |

## Left out

- Drawing with D3 (the SVG, the force simulation, the tick handler and `updateGraph`) is foreign library code and floating-point layout.
- The DOM is out of scope: reading and trimming the form fields, the click wiring, and the find-path handler that writes the result into the page. `AddEdge` takes already trimmed ids and the weight after the unary `+`, as a number or NaN.
- D3 replaces each link's endpoint strings with node objects (hence `link.source.id`). Links here hold plain ids.
- Weights are unbounded integers, not JavaScript doubles: no fractions, no `Infinity` typed as a weight, no rounding. The store accepts any integer.
- ShortestPath.Dijkstra: requires non-negative weights, because with a negative weight the code can re-relax selected nodes and its reconstruction loop can cycle.
- ShortestPath.Dijkstra: also requires a well-formed graph: unique non-empty ids, and links only between stored nodes. The store keeps this true (GraphStore.Graph.AddEdge), and the page only ever passes the store's own graph.
- The result messages (the Russian text and `join(" -> ")`) are represented by the `PathResult` datatype rather than strings.
- JavaScript objects used as maps treat the id `__proto__` specially: assigning `Infinity` or `null` to it does not store the value. The model uses true maps, so such an id behaves like any other.
- The loop trace (`visits`) and the settle order (`rank`) exist only for the proofs. The code has no such state.

## Findings

| source | as written | input that shows it | evidently intended | confidence | as-written member | corrected member |
|---|---|---|---|---|---|---|
| script.js:84-105,120 | A node that cannot be reached is still selected, with distance Infinity. The success branch then reports the path `[end]` with length Infinity. | Nodes A and B with no link, from A to B: the answer is `[B]` with length Infinity. | The not-found message at line 120 for every target without a finite-cost path. | not executed; medium | ShortestPath.DisconnectedPairFound | ShortestPath.ShortestPathOrNotFound |
