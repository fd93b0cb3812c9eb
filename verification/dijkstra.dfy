/** The shortest-path engine: `dijkstra(graph, start, end)` with a linear
    scan over a frontier kept in node insertion order, relaxation of every
    incident link in both directions, and reconstruction of the path by
    following predecessor links back from `end`. */
module ShortestPath {
  import opened GraphStore
  import opened Walks

  datatype Option<T> = None | Some(value: T)

  /** The two messages the engine can produce, without their formatting. */
  datatype PathResult = Found(path: seq<NodeId>, length: Dist) | NotFound

  /** One iteration of the main loop: the node taken from the frontier and
      its distance at that moment. */
  datatype Visit = Visit(node: NodeId, dist: Dist)

  // ---------------------------------------------------------------------
  // Pure helpers: the frontier, the min-selection `reduce`, the link filter
  // ---------------------------------------------------------------------

  /** The frontier after the nodes in `settled` were deleted from the Set
      built from `nodes`: the remaining ids, still in insertion order. */
  function Unsettled(nodes: seq<NodeId>, settled: set<NodeId>): seq<NodeId>
  {
    if nodes == [] then []
    else (if nodes[0] in settled then [] else [nodes[0]]) + Unsettled(nodes[1..], settled)
  }

  /** The frontier holds exactly the nodes not yet taken, each once. */
  lemma {:induction false} UnsettledContents(nodes: seq<NodeId>, settled: set<NodeId>)
    ensures forall v :: v in Unsettled(nodes, settled) <==> v in nodes && v !in settled
    ensures Unique(nodes) ==> Unique(Unsettled(nodes, settled))
  {
    if nodes != [] {
      UnsettledContents(nodes[1..], settled);
      var head := if nodes[0] in settled then [] else [nodes[0]];
      var rest := Unsettled(nodes[1..], settled);
      assert Unsettled(nodes, settled) == head + rest;
      assert nodes == [nodes[0]] + nodes[1..];
      if Unique(nodes) && head != [] {
        assert nodes[0] !in nodes[1..];
        assert nodes[0] !in rest;
      }
    }
  }

  /** `Set.delete`: the sequence without `x`, order otherwise kept. */
  function Delete(s: seq<NodeId>, x: NodeId): (r: seq<NodeId>)
    ensures forall v :: v in r <==> v in s && v != x
    ensures x !in s ==> r == s
    ensures x in s && Unique(s) ==> |r| == |s| - 1
  {
    if s == [] then []
    else (if s[0] == x then [] else [s[0]]) + Delete(s[1..], x)
  }

  lemma {:induction false} DeleteUnsettled(nodes: seq<NodeId>, settled: set<NodeId>, x: NodeId)
    ensures Delete(Unsettled(nodes, settled), x) == Unsettled(nodes, settled + {x})
  {
    if nodes != [] {
      var rest := Unsettled(nodes[1..], settled);
      DeleteUnsettled(nodes[1..], settled, x);
      if nodes[0] in settled {
        assert Unsettled(nodes, settled) == rest;
      } else {
        var s := [nodes[0]] + rest;
        assert Unsettled(nodes, settled) == s;
        assert s[0] == nodes[0] && s[1..] == rest;
        assert Delete(s, x) == (if nodes[0] == x then [] else [nodes[0]]) + Delete(rest, x);
      }
    }
  }

  lemma {:induction false} UnsettledNone(nodes: seq<NodeId>)
    ensures Unsettled(nodes, {}) == nodes
  {
    if nodes != [] {
      UnsettledNone(nodes[1..]);
      assert nodes == [nodes[0]] + nodes[1..];
    }
  }

  /** The index of the node the `reduce` picks: it starts from the first
      frontier node and replaces the candidate only on a strictly smaller
      distance, so it has the least distance and every earlier node has a
      strictly greater one (ties go to the earliest). */
  function MinIndex(frontier: seq<NodeId>, dist: map<NodeId, Dist>): (k: nat)
    requires |frontier| > 0
    requires forall i :: 0 <= i < |frontier| ==> frontier[i] in dist
    ensures k < |frontier|
    ensures forall i :: 0 <= i < |frontier| ==> AtMost(dist[frontier[k]], dist[frontier[i]])
    ensures forall i :: 0 <= i < k ==> Less(dist[frontier[k]], dist[frontier[i]])
  {
    if |frontier| == 1 then 0
    else
      var k := MinIndex(frontier[..|frontier| - 1], dist);
      var last := |frontier| - 1;
      if Less(dist[frontier[last]], dist[frontier[k]]) then last else k
  }

  /** The links with `c` at either end: the `filter` over all links. */
  function Incident(links: seq<Link>, c: NodeId): (r: seq<Link>)
    ensures forall l :: l in r <==> l in links && (l.source == c || l.target == c)
    ensures NonNegative(links) ==> NonNegative(r)
  {
    if links == [] then []
    else
      var last := links[|links| - 1];
      Incident(links[..|links| - 1], c) + (if last.source == c || last.target == c then [last] else [])
  }

  /** Filtering the links at `c` loses no link between `c` and another node. */
  lemma {:induction false} LightestIncident(links: seq<Link>, c: NodeId, v: NodeId)
    ensures Lightest(Incident(links, c), c, v) == Lightest(links, c, v)
  {
    if links != [] {
      var front := links[..|links| - 1];
      var last := links[|links| - 1];
      LightestIncident(front, c, v);
      assert Lightest(links, c, v) == Min(Lightest(front, c, v), if Joins(last, c, v) then Fin(last.weight) else Inf);
      if last.source == c || last.target == c {
        var inc := Incident(front, c) + [last];
        assert Incident(links, c) == inc;
        assert inc[..|inc| - 1] == Incident(front, c);
      } else {
        assert Incident(links, c) == Incident(front, c);
        assert !Joins(last, c, v);
      }
    }
  }

  // ---------------------------------------------------------------------
  // Relaxation of the links at the node just taken from the frontier
  // ---------------------------------------------------------------------

  /** What relaxing every link at `c` does, stated without the loop: each
      node's distance becomes the smaller of its old one and the distance
      through `c` over the lightest link, and its predecessor becomes `c`
      exactly when that is a strict improvement. */
  ghost predicate RelaxedAt(links: seq<Link>, c: NodeId, dist: map<NodeId, Dist>, prev: map<NodeId, Option<NodeId>>,
                            dist': map<NodeId, Dist>, prev': map<NodeId, Option<NodeId>>)
    requires c in dist
  {
    && dist'.Keys == dist.Keys
    && prev'.Keys == prev.Keys
    && (forall v :: v in dist ==> dist'[v] == Min(dist[v], Plus(dist[c], Lightest(links, c, v))))
    && (forall v :: v in prev && v in dist ==>
          prev'[v] == if Less(Plus(dist[c], Lightest(links, c, v)), dist[v]) then Some(c) else prev[v])
  }

  /** The other end of a link at `c` (`c` itself for a self-loop). */
  function Neighbor(l: Link, c: NodeId): (n: NodeId)
    requires l.source == c || l.target == c
    ensures Joins(l, c, n) && forall v :: Joins(l, c, v) ==> v == n
  {
    if l.source == c then l.target else l.source
  }

  /** Adding one link to the links considered: the lightest link from `c`
      to `v` is the old one or the new one. */
  lemma LightestStep(seen: seq<Link>, link: Link, c: NodeId, v: NodeId)
    ensures Lightest(seen + [link], c, v) == Min(Lightest(seen, c, v), if Joins(link, c, v) then Fin(link.weight) else Inf)
  {
    assert (seen + [link])[..|seen|] == seen;
  }

  /** One node's distance and predecessor after relaxing through a lightest
      link `l` and then a further link `w`: the same as relaxing once
      through the lighter of the two. */
  lemma RelaxPoint(dv: Dist, dc: Dist, l: Dist, w: Dist, pOld: Option<NodeId>, c: NodeId)
    ensures var cur := Min(dv, Plus(dc, l));
            var curP := if Less(Plus(dc, l), dv) then Some(c) else pOld;
            var upd := Less(Plus(dc, w), cur);
            && (if upd then Plus(dc, w) else cur) == Min(dv, Plus(dc, Min(l, w)))
            && (if upd then Some(c) else curP) == (if Less(Plus(dc, Min(l, w)), dv) then Some(c) else pOld)
  {
  }

  /** One pass of the `forEach` body keeps `RelaxedAt` for the links seen so far. */
  lemma RelaxOne(seen: seq<Link>, link: Link, c: NodeId, dist: map<NodeId, Dist>, prev: map<NodeId, Option<NodeId>>,
                 d: map<NodeId, Dist>, p: map<NodeId, Option<NodeId>>)
    requires NonNegative(seen) && link.weight >= 0 && (link.source == c || link.target == c)
    requires c in dist && prev.Keys <= dist.Keys && Neighbor(link, c) in prev
    requires RelaxedAt(seen, c, dist, prev, d, p)
    ensures d[c] == dist[c]
    ensures var n := Neighbor(link, c);
            var newDist := Plus(d[c], Fin(link.weight));
            if Less(newDist, d[n]) then RelaxedAt(seen + [link], c, dist, prev, d[n := newDist], p[n := Some(c)])
            else RelaxedAt(seen + [link], c, dist, prev, d, p)
  {
    var n := Neighbor(link, c);
    var seen' := seen + [link];
    LightestNonNegative(seen, c, c);
    assert d[c] == dist[c];
    var newDist := Plus(d[c], Fin(link.weight));
    var upd := Less(newDist, d[n]);
    var d', p' := if upd then d[n := newDist] else d, if upd then p[n := Some(c)] else p;
    forall v | v in dist
      ensures d'[v] == Min(dist[v], Plus(dist[c], Lightest(seen', c, v)))
      ensures v in prev ==>
                p'[v] == if Less(Plus(dist[c], Lightest(seen', c, v)), dist[v]) then Some(c) else prev[v]
    {
      LightestStep(seen, link, c, v);
      var w := if Joins(link, c, v) then Fin(link.weight) else Inf;
      assert Joins(link, c, v) <==> v == n;
      RelaxPoint(dist[v], dist[c], Lightest(seen, c, v), w, if v in prev then prev[v] else None, c);
    }
    assert RelaxedAt(seen', c, dist, prev, d', p');
  }

  /** Relaxing over the links at `c` is relaxing over all links: the others
      join `c` to nothing. A distance never grows. */
  lemma RelaxedAtAll(links: seq<Link>, c: NodeId, dist: map<NodeId, Dist>, prev: map<NodeId, Option<NodeId>>,
                     dist': map<NodeId, Dist>, prev': map<NodeId, Option<NodeId>>)
    requires c in dist && RelaxedAt(Incident(links, c), c, dist, prev, dist', prev')
    ensures RelaxedAt(links, c, dist, prev, dist', prev')
    ensures forall v :: v in dist ==> AtMost(dist'[v], dist[v])
  {
    forall v | v in dist ensures Lightest(Incident(links, c), c, v) == Lightest(links, c, v) {
      LightestIncident(links, c, v);
    }
  }

  /** The `filter(...).forEach(...)` over the links at `current`. */
  method Relax(links: seq<Link>, c: NodeId, dist: map<NodeId, Dist>, prev: map<NodeId, Option<NodeId>>)
    returns (dist': map<NodeId, Dist>, prev': map<NodeId, Option<NodeId>>)
    requires NonNegative(links)
    requires c in dist && prev.Keys <= dist.Keys
    requires forall i :: 0 <= i < |links| ==> links[i].source in prev && links[i].target in prev
    ensures RelaxedAt(links, c, dist, prev, dist', prev')
    ensures forall v :: v in dist ==> AtMost(dist'[v], dist[v])
  {
    var incident := Incident(links, c);
    dist', prev' := dist, prev;
    for i := 0 to |incident|
      invariant RelaxedAt(incident[..i], c, dist, prev, dist', prev')
    {
      var link := incident[i];
      assert link in links && NonNegative(incident[..i]) && incident[..i + 1] == incident[..i] + [link] by {
        assert link in incident;
      }
      RelaxOne(incident[..i], link, c, dist, prev, dist', prev');
      var neighbor := Neighbor(link, c);
      var newDist := Plus(dist'[c], Fin(link.weight));
      if Less(newDist, dist'[neighbor]) {
        dist' := dist'[neighbor := newDist];
        prev' := prev'[neighbor := Some(c)];
      }
    }
    assert incident[..|incident|] == incident;
    RelaxedAtAll(links, c, dist, prev, dist', prev');
  }

  // ---------------------------------------------------------------------
  // Path reconstruction
  // ---------------------------------------------------------------------

  /** `previous[temp]`: a missing key reads as undefined, i.e. no predecessor. */
  function Lookup(prev: map<NodeId, Option<NodeId>>, v: NodeId): Option<NodeId>
  {
    if v in prev then prev[v] else None
  }

  /** The `while (temp)` loop: start from `end`, put each id in front of the
      path and move to its predecessor until there is none. The ghost `rank`
      (the order in which nodes left the frontier) strictly decreases along
      predecessor links, which is why the loop stops; the result is a chain
      of predecessor links from a node without predecessor to `end`, with no
      node repeated. */
  method Reconstruct(prev: map<NodeId, Option<NodeId>>, end: NodeId, ghost rank: map<NodeId, nat>)
    returns (path: seq<NodeId>)
    requires end != "" && end in rank
    requires forall v :: v in prev ==> prev[v] != Some("")
    requires forall v :: v in rank && Lookup(prev, v).Some? ==>
               Lookup(prev, v).value in rank && rank[Lookup(prev, v).value] < rank[v]
    ensures |path| >= 1 && path[|path| - 1] == end
    ensures Lookup(prev, path[0]) == None
    ensures forall i :: 0 <= i < |path| - 1 ==> Lookup(prev, path[i + 1]) == Some(path[i])
    ensures forall i :: 0 <= i < |path| ==> path[i] in rank
    ensures forall i, j :: 0 <= i < j < |path| ==> path[i] != path[j]
  {
    path := [];
    var temp: Option<NodeId> := Some(end);
    while temp.Some? && temp.value != ""
      invariant temp.Some? ==> temp.value in rank && temp.value != ""
      invariant path == [] ==> temp == Some(end)
      invariant path != [] ==> path[|path| - 1] == end && temp == Lookup(prev, path[0])
      invariant forall i :: 0 <= i < |path| - 1 ==> Lookup(prev, path[i + 1]) == Some(path[i])
      invariant forall i :: 0 <= i < |path| ==> path[i] in rank
      invariant forall i, j :: 0 <= i < j < |path| ==> rank[path[i]] < rank[path[j]]
      invariant temp.Some? && path != [] ==> rank[temp.value] < rank[path[0]]
      decreases if temp.Some? then rank[temp.value] + 1 else 0
    {
      path := [temp.value] + path;
      temp := Lookup(prev, temp.value);
    }
  }

  // ---------------------------------------------------------------------
  // The main loop's invariant
  // ---------------------------------------------------------------------

  /** Keys of the two maps, the frontier, and the ghost bookkeeping: `rank`
      numbers the nodes taken from the frontier so far, in order, and
      `visits` lists them. */
  ghost predicate Shape(g: GraphData, start: NodeId, end: NodeId, frontier: seq<NodeId>,
                        dist: map<NodeId, Dist>, prev: map<NodeId, Option<NodeId>>,
                        rank: map<NodeId, nat>, visits: seq<Visit>)
  {
    && (forall v :: v in dist <==> v in g.nodes || v == start)
    && (forall v :: v in prev <==> v in g.nodes)
    && (forall v :: v in rank ==> v in g.nodes)
    && frontier == Unsettled(g.nodes, rank.Keys)
    && |visits| + |frontier| == |g.nodes|
    && (forall i :: 0 <= i < |visits| ==> visits[i].node in rank && rank[visits[i].node] == i)
    && (forall v :: v in rank ==> rank[v] < |visits|)
    && end !in rank
  }

  /** Dijkstra's invariant: every node taken from the frontier is no farther
      than any frontier node, has had its links relaxed, and has a distance
      no larger than the cost of any walk to it from `start`. */
  ghost predicate Distances(g: GraphData, start: NodeId, frontier: seq<NodeId>,
                            dist: map<NodeId, Dist>, rank: map<NodeId, nat>)
  {
    && (forall v :: v in g.nodes ==> v in dist)
    && (forall v :: v in rank ==> v in g.nodes)
    && (forall v :: v in frontier <==> v in g.nodes && v !in rank)
    && start in dist && dist[start] == Fin(0)
    && (forall v :: v in g.nodes ==> AtMost(Fin(0), dist[v]))
    && (forall u, f :: u in rank && f in frontier ==> AtMost(dist[u], dist[f]))
    && (forall u, v :: u in rank && v in g.nodes ==> AtMost(dist[v], Plus(dist[u], Lightest(g.links, u, v))))
    && (forall u, q :: u in rank && Walk(q, start, u) ==> AtMost(dist[u], Cost(g.links, q)))
  }

  /** The trace records each visited node's distance, which no longer moves,
      and those distances never decrease from one iteration to the next. */
  ghost predicate Trace(dist: map<NodeId, Dist>, visits: seq<Visit>)
  {
    && (forall i :: 0 <= i < |visits| ==> visits[i].node in dist && visits[i].dist == dist[visits[i].node])
    && (forall i, j :: 0 <= i < j < |visits| ==> AtMost(visits[i].dist, visits[j].dist))
  }

  /** A predecessor is a visited node through whose lightest link the
      distance was reached; it was visited earlier than its successor; only
      `start` has a finite distance without a predecessor, and it never
      gets one. */
  ghost predicate Predecessors(g: GraphData, start: NodeId, dist: map<NodeId, Dist>,
                               prev: map<NodeId, Option<NodeId>>, rank: map<NodeId, nat>)
  {
    && (forall v :: v in prev ==> v in dist)
    && (forall v :: v in rank ==> v in dist)
    && (start in prev ==> prev[start] == None)
    && (forall v :: v in prev && prev[v] == None && dist[v].Fin? ==> v == start)
    && (forall v :: v in prev && prev[v].Some? ==>
          && prev[v].value in rank
          && dist[v].Fin?
          && dist[v] == Plus(dist[prev[v].value], Lightest(g.links, prev[v].value, v))
          && (v in rank ==> rank[prev[v].value] < rank[v]))
  }

  ghost predicate Invariant(g: GraphData, start: NodeId, end: NodeId, frontier: seq<NodeId>,
                            dist: map<NodeId, Dist>, prev: map<NodeId, Option<NodeId>>,
                            rank: map<NodeId, nat>, visits: seq<Visit>)
  {
    && Shape(g, start, end, frontier, dist, prev, rank, visits)
    && Distances(g, start, frontier, dist, rank)
    && Trace(dist, visits)
    && Predecessors(g, start, dist, prev, rank)
  }

  /** The node taken from the frontier is no farther than the cost of any walk
      from `start` that ends in the frontier: such a walk leaves the visited
      nodes over some link, and the far end of that link already has a
      distance no larger than the walk's cost so far. */
  lemma {:induction false} FrontierBound(g: GraphData, start: NodeId, frontier: seq<NodeId>,
                                         dist: map<NodeId, Dist>, rank: map<NodeId, nat>, c: NodeId, q: seq<NodeId>)
    requires WellFormed(g) && NonNegative(g.links)
    requires Distances(g, start, frontier, dist, rank)
    requires c in frontier && forall f :: f in frontier ==> AtMost(dist[c], dist[f])
    requires |q| >= 1 && q[0] == start && q[|q| - 1] in frontier
    ensures AtMost(dist[c], Cost(g.links, q))
    decreases |q|
  {
    if |q| > 1 {
      var front := q[..|q| - 1];
      var x, y := q[|q| - 2], q[|q| - 1];
      assert front[|front| - 1] == x;
      LightestNonNegative(g.links, x, y);
      if x in frontier {
        FrontierBound(g, start, frontier, dist, rank, c, front);
      } else if x in rank {
        assert Walk(front, start, x);
      } else {
        LightestOfStranger(g.links, x, y);
      }
    }
  }

  /** Relaxing the links of the node `c` taken from the frontier changes
      no visited distance, nor `c`'s own, and leaves every frontier node at
      least as far as `c`. */
  lemma SettledUnchanged(g: GraphData, start: NodeId, frontier: seq<NodeId>,
                         dist: map<NodeId, Dist>, prev: map<NodeId, Option<NodeId>>, rank: map<NodeId, nat>,
                         c: NodeId, dist': map<NodeId, Dist>, prev': map<NodeId, Option<NodeId>>)
    requires NonNegative(g.links)
    requires Distances(g, start, frontier, dist, rank)
    requires c in frontier && forall f :: f in frontier ==> AtMost(dist[c], dist[f])
    requires c in dist && RelaxedAt(g.links, c, dist, prev, dist', prev')
    ensures forall u :: u in rank || u == c ==> dist'[u] == dist[u]
    ensures forall f :: f in frontier ==> AtMost(dist[c], dist'[f])
    ensures forall v :: v in g.nodes ==> AtMost(Fin(0), dist'[v])
  {
    forall u | u in rank || u == c ensures dist'[u] == dist[u] {
      LightestNonNegative(g.links, c, u);
    }
    forall f | f in frontier ensures AtMost(dist[c], dist'[f]) {
      LightestNonNegative(g.links, c, f);
    }
    forall v | v in g.nodes ensures AtMost(Fin(0), dist'[v]) {
      LightestNonNegative(g.links, c, v);
    }
  }

  /** Deleting the node just taken keeps the frontier equal to the nodes not
      yet taken, one shorter. */
  lemma FrontierStep(nodes: seq<NodeId>, frontier: seq<NodeId>, rank: map<NodeId, nat>, c: NodeId, n: nat)
    requires Unique(nodes) && frontier == Unsettled(nodes, rank.Keys) && c in frontier
    ensures Delete(frontier, c) == Unsettled(nodes, rank[c := n].Keys)
    ensures |Delete(frontier, c)| == |frontier| - 1
  {
    UnsettledContents(nodes, rank.Keys);
    DeleteUnsettled(nodes, rank.Keys, c);
    assert rank[c := n].Keys == rank.Keys + {c};
  }

  /** Appending the node just taken to the trace keeps `rank` its index. */
  lemma RankStep(visits: seq<Visit>, rank: map<NodeId, nat>, c: NodeId, d: Dist)
    requires forall i :: 0 <= i < |visits| ==> visits[i].node in rank && rank[visits[i].node] == i
    requires forall v :: v in rank ==> rank[v] < |visits|
    requires c !in rank
    ensures var visits', rank' := visits + [Visit(c, d)], rank[c := |visits|];
            && (forall i :: 0 <= i < |visits'| ==> visits'[i].node in rank' && rank'[visits'[i].node] == i)
            && (forall v :: v in rank' ==> rank'[v] < |visits'|)
  {
    var visits', rank' := visits + [Visit(c, d)], rank[c := |visits|];
    forall i | 0 <= i < |visits'| ensures visits'[i].node in rank' && rank'[visits'[i].node] == i {
      if i < |visits| {
        assert visits'[i] == visits[i];
      }
    }
  }

  /** `Shape` from its conjuncts. This states nothing new: it lets the step
      lemmas prove each conjunct separately and then assemble the predicate,
      which the verifier does far more cheaply than proving it as one goal. */
  lemma ShapeIntro(g: GraphData, start: NodeId, end: NodeId, frontier: seq<NodeId>,
                   dist: map<NodeId, Dist>, prev: map<NodeId, Option<NodeId>>,
                   rank: map<NodeId, nat>, visits: seq<Visit>)
    requires forall v :: v in dist <==> v in g.nodes || v == start
    requires forall v :: v in prev <==> v in g.nodes
    requires forall v :: v in rank ==> v in g.nodes
    requires frontier == Unsettled(g.nodes, rank.Keys)
    requires |visits| + |frontier| == |g.nodes|
    requires forall i :: 0 <= i < |visits| ==> visits[i].node in rank && rank[visits[i].node] == i
    requires forall v :: v in rank ==> rank[v] < |visits|
    requires end !in rank
    ensures Shape(g, start, end, frontier, dist, prev, rank, visits)
  {
  }

  lemma ShapeStep(g: GraphData, start: NodeId, end: NodeId, frontier: seq<NodeId>,
                  dist: map<NodeId, Dist>, prev: map<NodeId, Option<NodeId>>,
                  rank: map<NodeId, nat>, visits: seq<Visit>, c: NodeId,
                  dist': map<NodeId, Dist>, prev': map<NodeId, Option<NodeId>>)
    requires Unique(g.nodes)
    requires Shape(g, start, end, frontier, dist, prev, rank, visits)
    requires c in frontier && c != end && c in dist && dist'.Keys == dist.Keys && prev'.Keys == prev.Keys
    ensures Shape(g, start, end, Delete(frontier, c), dist', prev', rank[c := |visits|], visits + [Visit(c, dist[c])])
  {
    var rank' := rank[c := |visits|];
    var visits' := visits + [Visit(c, dist[c])];
    var frontier' := Delete(frontier, c);
    assert c in g.nodes && c !in rank by {
      UnsettledContents(g.nodes, rank.Keys);
    }
    assert frontier' == Unsettled(g.nodes, rank'.Keys) && |visits'| + |frontier'| == |g.nodes| by {
      FrontierStep(g.nodes, frontier, rank, c, |visits|);
    }
    assert && (forall i :: 0 <= i < |visits'| ==> visits'[i].node in rank' && rank'[visits'[i].node] == i)
           && (forall v :: v in rank' ==> rank'[v] < |visits'|) by {
      RankStep(visits, rank, c, dist[c]);
    }
    assert forall v :: v in dist' <==> v in g.nodes || v == start;
    assert forall v :: v in prev' <==> v in g.nodes;
    assert forall v :: v in rank' ==> v in g.nodes;
    ShapeIntro(g, start, end, frontier', dist', prev', rank', visits');
  }


  /** `Distances` from its conjuncts. This states nothing new: it lets the step
      lemmas prove each conjunct separately and then assemble the predicate,
      which the verifier does far more cheaply than proving it as one goal. */
  lemma DistancesIntro(g: GraphData, start: NodeId, frontier: seq<NodeId>,
                       dist: map<NodeId, Dist>, rank: map<NodeId, nat>)
    requires forall v :: v in g.nodes ==> v in dist
    requires forall v :: v in rank ==> v in g.nodes
    requires forall v :: v in frontier <==> v in g.nodes && v !in rank
    requires start in dist && dist[start] == Fin(0)
    requires forall v :: v in g.nodes ==> AtMost(Fin(0), dist[v])
    requires forall u, f :: u in rank && f in frontier ==> AtMost(dist[u], dist[f])
    requires forall u, v :: u in rank && v in g.nodes ==> AtMost(dist[v], Plus(dist[u], Lightest(g.links, u, v)))
    requires forall u, q :: u in rank && Walk(q, start, u) ==> AtMost(dist[u], Cost(g.links, q))
    ensures Distances(g, start, frontier, dist, rank)
  {
  }

  lemma DistancesStep(g: GraphData, start: NodeId, frontier: seq<NodeId>,
                      dist: map<NodeId, Dist>, prev: map<NodeId, Option<NodeId>>, rank: map<NodeId, nat>,
                      c: NodeId, n: nat, dist': map<NodeId, Dist>, prev': map<NodeId, Option<NodeId>>)
    requires WellFormed(g) && NonNegative(g.links)
    requires Distances(g, start, frontier, dist, rank)
    requires c in frontier && forall f :: f in frontier ==> AtMost(dist[c], dist[f])
    requires c in dist && RelaxedAt(g.links, c, dist, prev, dist', prev')
    ensures Distances(g, start, Delete(frontier, c), dist', rank[c := n])
  {
    var rank', frontier' := rank[c := n], Delete(frontier, c);
    assert forall v :: v in g.nodes ==> v in dist';
    assert forall v :: v in rank' ==> v in g.nodes;
    assert start in dist' && dist'[start] == Fin(0) by {
      LightestNonNegative(g.links, c, start);
    }
    assert forall v :: v in g.nodes ==> AtMost(Fin(0), dist'[v]) by {
      SettledUnchanged(g, start, frontier, dist, prev, rank, c, dist', prev');
    }
    assert forall v :: v in frontier' <==> v in g.nodes && v !in rank';
    WalksStep(g, start, frontier, dist, prev, rank, c, n, dist', prev');
    OrderStep(g, start, frontier, dist, prev, rank, c, n, dist', prev');
    DistancesIntro(g, start, frontier', dist', rank');
  }


  /** Visited nodes stay no farther than frontier nodes, and stay relaxed. */
  lemma OrderStep(g: GraphData, start: NodeId, frontier: seq<NodeId>,
                  dist: map<NodeId, Dist>, prev: map<NodeId, Option<NodeId>>, rank: map<NodeId, nat>,
                  c: NodeId, n: nat, dist': map<NodeId, Dist>, prev': map<NodeId, Option<NodeId>>)
    requires NonNegative(g.links)
    requires Distances(g, start, frontier, dist, rank)
    requires c in frontier && forall f :: f in frontier ==> AtMost(dist[c], dist[f])
    requires c in dist && RelaxedAt(g.links, c, dist, prev, dist', prev')
    ensures forall u, f :: u in rank[c := n] && f in Delete(frontier, c) ==> AtMost(dist'[u], dist'[f])
    ensures forall u, v :: u in rank[c := n] && v in g.nodes ==> AtMost(dist'[v], Plus(dist'[u], Lightest(g.links, u, v)))
  {
    SettledUnchanged(g, start, frontier, dist, prev, rank, c, dist', prev');
    forall u, f | u in rank[c := n] && f in Delete(frontier, c) ensures AtMost(dist'[u], dist'[f]) {
      assert AtMost(dist[u], dist[c]);
      assert AtMost(dist[c], dist'[f]);
    }
    forall u, v | u in rank[c := n] && v in g.nodes ensures AtMost(dist'[v], Plus(dist'[u], Lightest(g.links, u, v))) {
      assert AtMost(dist'[v], dist[v]);
    }
  }

  /** The node just taken has a distance no larger than any walk to it. */
  lemma WalksStep(g: GraphData, start: NodeId, frontier: seq<NodeId>,
                  dist: map<NodeId, Dist>, prev: map<NodeId, Option<NodeId>>, rank: map<NodeId, nat>,
                  c: NodeId, n: nat, dist': map<NodeId, Dist>, prev': map<NodeId, Option<NodeId>>)
    requires WellFormed(g) && NonNegative(g.links)
    requires Distances(g, start, frontier, dist, rank)
    requires c in frontier && forall f :: f in frontier ==> AtMost(dist[c], dist[f])
    requires c in dist && RelaxedAt(g.links, c, dist, prev, dist', prev')
    ensures forall u, q :: u in rank[c := n] && Walk(q, start, u) ==> AtMost(dist'[u], Cost(g.links, q))
  {
    SettledUnchanged(g, start, frontier, dist, prev, rank, c, dist', prev');
    forall u, q | u in rank[c := n] && Walk(q, start, u) ensures AtMost(dist'[u], Cost(g.links, q)) {
      if u == c {
        FrontierBound(g, start, frontier, dist, rank, c, q);
      }
    }
  }

  lemma TraceStep(g: GraphData, start: NodeId, frontier: seq<NodeId>,
                  dist: map<NodeId, Dist>, prev: map<NodeId, Option<NodeId>>, rank: map<NodeId, nat>,
                  visits: seq<Visit>, c: NodeId, dist': map<NodeId, Dist>, prev': map<NodeId, Option<NodeId>>)
    requires NonNegative(g.links)
    requires Distances(g, start, frontier, dist, rank) && Trace(dist, visits)
    requires forall i :: 0 <= i < |visits| ==> visits[i].node in rank
    requires c in frontier && forall f :: f in frontier ==> AtMost(dist[c], dist[f])
    requires c in dist && RelaxedAt(g.links, c, dist, prev, dist', prev')
    ensures Trace(dist', visits + [Visit(c, dist[c])])
  {
    SettledUnchanged(g, start, frontier, dist, prev, rank, c, dist', prev');
  }

  /** `Predecessors` from its conjuncts. This states nothing new: it lets the step
      lemmas prove each conjunct separately and then assemble the predicate,
      which the verifier does far more cheaply than proving it as one goal. */
  lemma PredecessorsIntro(g: GraphData, start: NodeId, dist: map<NodeId, Dist>,
                          prev: map<NodeId, Option<NodeId>>, rank: map<NodeId, nat>)
    requires forall v :: v in prev ==> v in dist
    requires forall v :: v in rank ==> v in dist
    requires start in prev ==> prev[start] == None
    requires forall v :: v in prev && prev[v] == None && dist[v].Fin? ==> v == start
    requires forall v :: v in prev && prev[v].Some? ==>
               && prev[v].value in rank
               && dist[v].Fin?
               && dist[v] == Plus(dist[prev[v].value], Lightest(g.links, prev[v].value, v))
               && (v in rank ==> rank[prev[v].value] < rank[v])
    ensures Predecessors(g, start, dist, prev, rank)
  {
  }

  lemma PredecessorsStep(g: GraphData, start: NodeId,
                         dist: map<NodeId, Dist>, prev: map<NodeId, Option<NodeId>>, rank: map<NodeId, nat>,
                         c: NodeId, n: nat, dist': map<NodeId, Dist>, prev': map<NodeId, Option<NodeId>>)
    requires NonNegative(g.links)
    requires Predecessors(g, start, dist, prev, rank)
    requires forall v :: v in rank ==> rank[v] < n
    requires c !in rank && c in dist && AtMost(Fin(0), dist[c])
    requires start in dist && dist[start] == Fin(0)
    requires RelaxedAt(g.links, c, dist, prev, dist', prev')
    requires forall u :: u in rank || u == c ==> dist'[u] == dist[u]
    ensures Predecessors(g, start, dist', prev', rank[c := n])
  {
    var rank' := rank[c := n];
    assert forall v :: v in prev' ==> v in dist';
    assert forall v :: v in rank' ==> v in dist';
    assert start in prev' ==> prev'[start] == None by {
      LightestNonNegative(g.links, c, start);
    }
    assert forall v :: v in prev' && prev'[v] == None && dist'[v].Fin? ==> v == start;
    assert forall v :: v in prev' && prev'[v].Some? ==>
             && prev'[v].value in rank'
             && dist'[v].Fin?
             && dist'[v] == Plus(dist'[prev'[v].value], Lightest(g.links, prev'[v].value, v))
             && (v in rank' ==> rank'[prev'[v].value] < rank'[v]) by {
      forall v | v in prev' && prev'[v].Some?
        ensures && prev'[v].value in rank'
                && dist'[v].Fin?
                && dist'[v] == Plus(dist'[prev'[v].value], Lightest(g.links, prev'[v].value, v))
                && (v in rank' ==> rank'[prev'[v].value] < rank'[v])
      {
        LightestNonNegative(g.links, c, v);
      }
    }
    PredecessorsIntro(g, start, dist', prev', rank');
  }


  /** The invariant survives one iteration that takes `c` from the frontier
      and relaxes its links. */
  lemma SettleStep(g: GraphData, start: NodeId, end: NodeId, frontier: seq<NodeId>,
                   dist: map<NodeId, Dist>, prev: map<NodeId, Option<NodeId>>,
                   rank: map<NodeId, nat>, visits: seq<Visit>, c: NodeId,
                   dist': map<NodeId, Dist>, prev': map<NodeId, Option<NodeId>>)
    requires WellFormed(g) && NonNegative(g.links)
    requires Invariant(g, start, end, frontier, dist, prev, rank, visits)
    requires c in frontier && c != end && forall f :: f in frontier ==> AtMost(dist[c], dist[f])
    requires c in dist && RelaxedAt(g.links, c, dist, prev, dist', prev')
    ensures Invariant(g, start, end, Delete(frontier, c), dist', prev',
                      rank[c := |visits|], visits + [Visit(c, dist[c])])
  {
    ShapeStep(g, start, end, frontier, dist, prev, rank, visits, c, dist', prev');
    DistancesStep(g, start, frontier, dist, prev, rank, c, |visits|, dist', prev');
    TraceStep(g, start, frontier, dist, prev, rank, visits, c, dist', prev');
    assert Predecessors(g, start, dist', prev', rank[c := |visits|]) by {
      assert c in g.nodes && c !in rank by {
        UnsettledContents(g.nodes, rank.Keys);
      }
      SettledUnchanged(g, start, frontier, dist, prev, rank, c, dist', prev');
      PredecessorsStep(g, start, dist, prev, rank, c, |visits|, dist', prev');
    }
  }

  // ---------------------------------------------------------------------
  // From the invariant to the answer
  // ---------------------------------------------------------------------

  /** The state right after the two initial assignments: every node at
      Infinity without predecessor, `start` at 0, nothing visited. */
  lemma InitialInvariant(g: GraphData, start: NodeId, end: NodeId,
                         dist: map<NodeId, Dist>, prev: map<NodeId, Option<NodeId>>)
    requires WellFormed(g)
    requires forall v :: v in dist <==> v in g.nodes || v == start
    requires forall v :: v in prev <==> v in g.nodes
    requires dist[start] == Fin(0) && forall v :: v in dist && v != start ==> dist[v] == Inf
    requires forall v :: v in prev ==> prev[v] == None
    ensures Invariant(g, start, end, g.nodes, dist, prev, map[], [])
  {
    var rank: map<NodeId, nat> := map[];
    assert Shape(g, start, end, g.nodes, dist, prev, rank, []) by {
      UnsettledNone(g.nodes);
      assert rank.Keys == {};
    }
    assert Distances(g, start, g.nodes, dist, rank) by {
      assert forall v :: v in g.nodes ==> AtMost(Fin(0), dist[v]);
    }
    assert Predecessors(g, start, dist, prev, rank);
  }

  /** Following predecessors from `end`, just taken from the frontier, is
      allowed: `end` is a non-empty id, every predecessor is a non-empty id,
      and ranks strictly decrease along predecessor links. */
  lemma ReadyToReconstruct(g: GraphData, start: NodeId, end: NodeId,
                           dist: map<NodeId, Dist>, prev: map<NodeId, Option<NodeId>>,
                           rank: map<NodeId, nat>, visits: seq<Visit>)
    requires WellFormed(g)
    requires Predecessors(g, start, dist, prev, rank)
    requires forall v :: v in rank ==> v in g.nodes && rank[v] < |visits|
    requires end in g.nodes && end !in rank
    ensures var rank' := rank[end := |visits|];
            && end != "" && end in rank'
            && (forall v :: v in prev ==> prev[v] != Some(""))
            && (forall v :: v in rank' && Lookup(prev, v).Some? ==>
                  Lookup(prev, v).value in rank' && rank'[Lookup(prev, v).value] < rank'[v])
  {
    forall v | v in prev && prev[v].Some? ensures prev[v].value != "" {
      assert prev[v].value in g.nodes;
    }
  }

  /** Along a chain of predecessor links, distances add up link by link. */
  lemma {:induction false} ChainCost(g: GraphData, start: NodeId, dist: map<NodeId, Dist>,
                                     prev: map<NodeId, Option<NodeId>>, rank: map<NodeId, nat>,
                                     path: seq<NodeId>, k: nat)
    requires Predecessors(g, start, dist, prev, rank)
    requires k < |path|
    requires forall i :: 0 <= i < |path| ==> path[i] in prev
    requires forall i :: 0 <= i < |path| - 1 ==> Lookup(prev, path[i + 1]) == Some(path[i])
    ensures dist[path[k]] == Plus(dist[path[0]], Cost(g.links, path[..k + 1]))
    decreases k
  {
    if k == 0 {
      assert path[..1] == [path[0]];
    } else {
      ChainCost(g, start, dist, prev, rank, path, k - 1);
      assert path[..k + 1][..k] == path[..k];
      assert Lookup(prev, path[k]) == Some(path[k - 1]);
    }
  }

  /** What the method promises when `end` is taken from the frontier. */
  ghost predicate FoundAnswer(g: GraphData, start: NodeId, end: NodeId, path: seq<NodeId>, length: Dist)
  {
    && |path| >= 1 && path[|path| - 1] == end
    && (forall i :: 0 <= i < |path| ==> path[i] in g.nodes)
    && (forall i, j :: 0 <= i < j < |path| ==> path[i] != path[j])
    && (length.Fin? ==> path[0] == start && Cost(g.links, path) == length)
    && ShortestLength(g.links, start, end, length)
    && (length == Inf ==> path == [end])
    && (start == end ==> path == [end] && length == Fin(0))
    && ((forall q :: Walk(q, start, end) ==> Cost(g.links, q) == Inf) ==> path == [end] && length == Inf)
  }


  /** No walk from a `start` that is not a node reaches a node at finite
      cost: no link touches `start`. */
  lemma {:induction false} StrangerUnreachable(g: GraphData, start: NodeId, end: NodeId, q: seq<NodeId>)
    requires WellFormed(g) && start !in g.nodes && end in g.nodes
    requires Walk(q, start, end)
    ensures Cost(g.links, q) == Inf
  {
    assert start != end;
    CostFirstStep(g.links, q);
    LightestOfStranger(g.links, start, q[1]);
  }

  /** So when `start` is not a node and `end` is, the answer is `[end]` at
      Infinity. */
  lemma UnknownStart(g: GraphData, start: NodeId, end: NodeId, path: seq<NodeId>, length: Dist)
    requires WellFormed(g) && start !in g.nodes && end in g.nodes
    requires FoundAnswer(g, start, end, path, length)
    ensures path == [end] && length == Inf
  {
    forall q | Walk(q, start, end) ensures Cost(g.links, q) == Inf {
      StrangerUnreachable(g, start, end, q);
    }
  }

  /** A chain with no predecessor at `end` is `[end]` alone. */
  lemma ChainWithoutPredecessor(prev: map<NodeId, Option<NodeId>>, end: NodeId, path: seq<NodeId>)
    requires |path| >= 1 && path[|path| - 1] == end
    requires forall i :: 0 <= i < |path| - 1 ==> Lookup(prev, path[i + 1]) == Some(path[i])
    ensures Lookup(prev, end) == None ==> path == [end]
  {
    if |path| > 1 {
      var i := |path| - 2;
      assert Lookup(prev, path[i + 1]) == Some(path[i]);
    }
  }

  /** The whole chain: `end`'s distance is the first node's plus the cost
      of the chain. */
  lemma ChainTotal(g: GraphData, start: NodeId, dist: map<NodeId, Dist>,
                   prev: map<NodeId, Option<NodeId>>, rank: map<NodeId, nat>, path: seq<NodeId>)
    requires Predecessors(g, start, dist, prev, rank)
    requires |path| >= 1
    requires forall i :: 0 <= i < |path| ==> path[i] in prev
    requires forall i :: 0 <= i < |path| - 1 ==> Lookup(prev, path[i + 1]) == Some(path[i])
    ensures dist[path[|path| - 1]] == Plus(dist[path[0]], Cost(g.links, path))
  {
    ChainCost(g, start, dist, prev, rank, path, |path| - 1);
    assert path[..|path|] == path;
  }

  /** A chain that reaches `end` at a finite distance starts at `start`, the
      only node with a finite distance and no predecessor, and costs exactly
      that distance. */
  lemma ChainFacts(g: GraphData, start: NodeId, end: NodeId,
                   dist: map<NodeId, Dist>, prev: map<NodeId, Option<NodeId>>,
                   rank: map<NodeId, nat>, path: seq<NodeId>)
    requires Predecessors(g, start, dist, prev, rank)
    requires start in dist && dist[start] == Fin(0)
    requires forall v :: v in prev <==> v in g.nodes
    requires |path| >= 1 && path[|path| - 1] == end
    requires Lookup(prev, path[0]) == None
    requires forall i :: 0 <= i < |path| - 1 ==> Lookup(prev, path[i + 1]) == Some(path[i])
    requires forall i :: 0 <= i < |path| ==> path[i] in g.nodes
    ensures end in dist && dist[end].Fin? ==> path[0] == start && Cost(g.links, path) == dist[end]
  {
    ChainTotal(g, start, dist, prev, rank, path);
    if end in dist && dist[end].Fin? {
      assert dist[path[0]].Fin?;
      assert path[0] in prev && prev[path[0]] == None;
    }
  }

  /** When `end` is taken from the frontier, the reconstructed chain is the
      answer: a cheapest walk from `start`, or `[end]` at Infinity. */
  lemma FoundIsShortest(g: GraphData, start: NodeId, end: NodeId, frontier: seq<NodeId>,
                        dist: map<NodeId, Dist>, prev: map<NodeId, Option<NodeId>>,
                        rank: map<NodeId, nat>, path: seq<NodeId>)
    requires WellFormed(g) && NonNegative(g.links)
    requires Distances(g, start, frontier, dist, rank) && Predecessors(g, start, dist, prev, rank)
    requires forall v :: v in prev <==> v in g.nodes
    requires end in frontier && forall f :: f in frontier ==> AtMost(dist[end], dist[f])
    requires |path| >= 1 && path[|path| - 1] == end
    requires Lookup(prev, path[0]) == None
    requires forall i :: 0 <= i < |path| - 1 ==> Lookup(prev, path[i + 1]) == Some(path[i])
    requires forall i :: 0 <= i < |path| ==> path[i] in g.nodes
    requires forall i, j :: 0 <= i < j < |path| ==> path[i] != path[j]
    ensures FoundAnswer(g, start, end, path, dist[end])
  {
    var d := dist[end];
    ChainWithoutPredecessor(prev, end, path);
    ChainFacts(g, start, end, dist, prev, rank, path);
    assert forall q :: Walk(q, start, end) ==> AtMost(d, Cost(g.links, q)) by {
      forall q | Walk(q, start, end) ensures AtMost(d, Cost(g.links, q)) {
        FrontierBound(g, start, frontier, dist, rank, end, q);
      }
    }
    assert ShortestLength(g.links, start, end, d) by {
      if d.Fin? {
        assert Walk(path, start, end);
      }
    }
    assert d == Inf ==> path == [end] by {
      if d == Inf {
        assert Lookup(prev, end) == None;
      }
    }
    assert start == end ==> path == [end] && d == Fin(0) by {
      if start == end {
        assert d == Fin(0);
        assert Lookup(prev, end) == None;
      }
    }
    assert (forall q :: Walk(q, start, end) ==> Cost(g.links, q) == Inf) ==> path == [end] && d == Inf by {
      if forall q :: Walk(q, start, end) ==> Cost(g.links, q) == Inf {
        if d.Fin? {
          assert Walk(path, start, end);
        }
      }
    }
  }


  /** What one iteration needs of the invariant: the frontier nodes have
      distances, and the relaxation may look up any link's endpoints. */
  lemma LoopFacts(g: GraphData, start: NodeId, end: NodeId, frontier: seq<NodeId>,
                  dist: map<NodeId, Dist>, prev: map<NodeId, Option<NodeId>>,
                  rank: map<NodeId, nat>, visits: seq<Visit>)
    requires WellFormed(g)
    requires Invariant(g, start, end, frontier, dist, prev, rank, visits)
    ensures forall i :: 0 <= i < |frontier| ==> frontier[i] in dist
    ensures prev.Keys <= dist.Keys
    ensures forall i :: 0 <= i < |g.links| ==> g.links[i].source in prev && g.links[i].target in prev
  {
    UnsettledContents(g.nodes, rank.Keys);
  }

  /** What the trace shows of the iterations so far: at most one per node,
      each taking a different node, with non-decreasing distances. */
  ghost predicate Iterations(g: GraphData, visits: seq<Visit>)
  {
    && |visits| <= |g.nodes|
    && (forall i :: 0 <= i < |visits| ==> visits[i].node in g.nodes)
    && (forall i, j :: 0 <= i < j < |visits| ==>
          visits[i].node != visits[j].node && AtMost(visits[i].dist, visits[j].dist))
  }

  /** The node the `reduce` picks is no farther than any frontier node. */
  lemma Selected(frontier: seq<NodeId>, dist: map<NodeId, Dist>, c: NodeId)
    requires |frontier| > 0 && forall i :: 0 <= i < |frontier| ==> frontier[i] in dist
    requires c == frontier[MinIndex(frontier, dist)]
    ensures c in frontier && forall f :: f in frontier ==> AtMost(dist[c], dist[f])
  {
    forall f | f in frontier ensures AtMost(dist[c], dist[f]) {
      var i :| 0 <= i < |frontier| && frontier[i] == f;
    }
  }

  /** Appending the node `c` taken from the frontier to the trace: `c` is
      fresh, and no nearer than any node visited before. */
  lemma TraceGrows(g: GraphData, frontier: seq<NodeId>, dist: map<NodeId, Dist>,
                   rank: map<NodeId, nat>, visits: seq<Visit>, c: NodeId)
    requires |visits| + |frontier| == |g.nodes|
    requires forall v :: v in rank ==> v in g.nodes
    requires forall v :: v in g.nodes ==> v in dist
    requires forall f :: f in frontier ==> f in g.nodes
    requires forall i :: 0 <= i < |visits| ==> visits[i].node in rank
    requires Trace(dist, visits)
    requires forall i, j :: 0 <= i < j < |visits| ==> visits[i].node != visits[j].node
    requires forall u, f :: u in rank && f in frontier ==> AtMost(dist[u], dist[f])
    requires c in frontier && c !in rank
    ensures Iterations(g, visits + [Visit(c, dist[c])])
  {
    var visits' := visits + [Visit(c, dist[c])];
    forall i | 0 <= i < |visits'| ensures visits'[i].node in g.nodes {
      if i < |visits| {
        assert visits'[i] == visits[i];
      }
    }
    forall i, j | 0 <= i < j < |visits'|
      ensures visits'[i].node != visits'[j].node && AtMost(visits'[i].dist, visits'[j].dist)
    {
      assert visits'[i] == visits[i];
      if j < |visits| {
        assert visits'[j] == visits[j];
      }
    }
  }

  /** Taking `c` from the frontier: the trace gains a fresh node, stays
      within the node count and keeps its distances non-decreasing; the
      frontier shrinks by one. */
  lemma TraceFacts(g: GraphData, start: NodeId, end: NodeId, frontier: seq<NodeId>,
                   dist: map<NodeId, Dist>, prev: map<NodeId, Option<NodeId>>,
                   rank: map<NodeId, nat>, visits: seq<Visit>, c: NodeId)
    requires WellFormed(g)
    requires Invariant(g, start, end, frontier, dist, prev, rank, visits)
    requires c in frontier && forall f :: f in frontier ==> AtMost(dist[c], dist[f])
    ensures Iterations(g, visits + [Visit(c, dist[c])])
    ensures |Delete(frontier, c)| == |frontier| - 1
  {
    assert c !in rank && forall f :: f in frontier ==> f in g.nodes by {
      UnsettledContents(g.nodes, rank.Keys);
    }
    assert |Delete(frontier, c)| == |frontier| - 1 by {
      FrontierStep(g.nodes, frontier, rank, c, |visits|);
    }
    assert forall i, j :: 0 <= i < j < |visits| ==> visits[i].node != visits[j].node by {
      forall i, j | 0 <= i < j < |visits| ensures visits[i].node != visits[j].node {
        assert rank[visits[i].node] == i && rank[visits[j].node] == j;
      }
    }
    TraceGrows(g, frontier, dist, rank, visits, c);
  }

  // ---------------------------------------------------------------------
  // The engine
  // ---------------------------------------------------------------------

  /** Every node at Infinity without a predecessor, then `start` at 0 (a key
      of its own when it is not a node). */
  method InitialMaps(nodes: seq<NodeId>, start: NodeId)
    returns (dist: map<NodeId, Dist>, prev: map<NodeId, Option<NodeId>>)
    ensures forall v :: v in dist <==> v in nodes || v == start
    ensures forall v :: v in prev <==> v in nodes
    ensures dist[start] == Fin(0) && forall v :: v in dist && v != start ==> dist[v] == Inf
    ensures forall v :: v in prev ==> prev[v] == None
  {
    dist := map[];
    prev := map[];
    for i := 0 to |nodes|
      invariant forall v :: v in dist <==> v in nodes[..i]
      invariant forall v :: v in prev <==> v in nodes[..i]
      invariant forall v :: v in dist ==> dist[v] == Inf
      invariant forall v :: v in prev ==> prev[v] == None
    {
      assert nodes[..i + 1] == nodes[..i] + [nodes[i]];
      dist := dist[nodes[i] := Inf];
      prev := prev[nodes[i] := None];
    }
    assert nodes[..|nodes|] == nodes;
    dist := dist[start := Fin(0)];
  }

  /** The rest of an iteration whose node `c` is not `end`: relax the links
      at `c`. With `c` deleted from the frontier and visited, the invariant
      carries over. */
  method Settle(graph: GraphData, start: NodeId, end: NodeId, ghost frontier: seq<NodeId>,
                dist: map<NodeId, Dist>, prev: map<NodeId, Option<NodeId>>,
                ghost rank: map<NodeId, nat>, ghost visits: seq<Visit>, c: NodeId)
    returns (dist': map<NodeId, Dist>, prev': map<NodeId, Option<NodeId>>)
    requires WellFormed(graph) && NonNegative(graph.links)
    requires Invariant(graph, start, end, frontier, dist, prev, rank, visits)
    requires c in frontier && c != end && forall f :: f in frontier ==> AtMost(dist[c], dist[f])
    ensures c in dist && RelaxedAt(graph.links, c, dist, prev, dist', prev')
    ensures Invariant(graph, start, end, Delete(frontier, c), dist', prev',
                      rank[c := |visits|], visits + [Visit(c, dist[c])])
  {
    LoopFacts(graph, start, end, frontier, dist, prev, rank, visits);
    dist', prev' := Relax(graph.links, c, dist, prev);
    SettleStep(graph, start, end, frontier, dist, prev, rank, visits, c, dist', prev');
  }

  /** `end` has just been taken from the frontier: follow the predecessors
      back from it and report the path with `end`'s distance. */
  method Answer(graph: GraphData, start: NodeId, end: NodeId, ghost frontier: seq<NodeId>,
                dist: map<NodeId, Dist>, prev: map<NodeId, Option<NodeId>>,
                ghost rank: map<NodeId, nat>, ghost visits: seq<Visit>)
    returns (r: PathResult)
    requires WellFormed(graph) && NonNegative(graph.links)
    requires Invariant(graph, start, end, frontier, dist, prev, rank, visits)
    requires end in frontier && forall f :: f in frontier ==> AtMost(dist[end], dist[f])
    ensures r.Found? && FoundAnswer(graph, start, end, r.path, r.length) && r.length == dist[end]
  {
    assert end in graph.nodes;
    ReadyToReconstruct(graph, start, end, dist, prev, rank, visits);
    var path := Reconstruct(prev, end, rank[end := |visits|]);
    assert forall i :: 0 <= i < |path| ==> path[i] in graph.nodes by {
      UnsettledContents(graph.nodes, rank.Keys);
    }
    FoundIsShortest(graph, start, end, frontier, dist, prev, rank, path);
    r := Found(path, dist[end]);
  }

  /** The loop ends with the frontier empty: every node was visited, so
      `end`, never visited, is not a node. */
  lemma Exhausted(g: GraphData, start: NodeId, end: NodeId,
                  dist: map<NodeId, Dist>, prev: map<NodeId, Option<NodeId>>,
                  rank: map<NodeId, nat>, visits: seq<Visit>)
    requires Invariant(g, start, end, [], dist, prev, rank, visits)
    ensures end !in g.nodes
    ensures |visits| == |g.nodes|
    ensures Iterations(g, visits)
  {
    forall i, j | 0 <= i < j < |visits| ensures visits[i].node != visits[j].node {
      assert rank[visits[i].node] == i && rank[visits[j].node] == j;
    }
  }

  /** `dijkstra(graph, start, end)`. The answer is NotFound exactly when
      `end` is not a node. Otherwise it is a path ending at `end`, with no
      node repeated, whose length is the least cost of any walk from `start`
      to `end`; when that is finite the path is such a walk, and when it is
      Infinity (`end` unreachable, or `start` not a node) the path is `[end]`
      alone. The ghost `visits` records the iterations: one node taken from
      the frontier each, never more than the node count, with
      non-decreasing distances. */
  method Dijkstra(graph: GraphData, start: NodeId, end: NodeId) returns (r: PathResult, ghost visits: seq<Visit>)
    requires WellFormed(graph) && NonNegative(graph.links)
    ensures r.NotFound? <==> end !in graph.nodes
    ensures r.Found? ==> FoundAnswer(graph, start, end, r.path, r.length)
    ensures Iterations(graph, visits)
    ensures r.NotFound? ==> |visits| == |graph.nodes|
    ensures r.Found? ==> |visits| >= 1 && visits[|visits| - 1] == Visit(end, r.length)
  {
    var frontier := graph.nodes;
    var dist, prev := InitialMaps(graph.nodes, start);
    ghost var rank: map<NodeId, nat> := map[];
    visits := [];
    InitialInvariant(graph, start, end, dist, prev);
    while |frontier| > 0
      invariant Invariant(graph, start, end, frontier, dist, prev, rank, visits)
      decreases |frontier|
    {
      LoopFacts(graph, start, end, frontier, dist, prev, rank, visits);
      var current := frontier[MinIndex(frontier, dist)];
      Selected(frontier, dist, current);
      TraceFacts(graph, start, end, frontier, dist, prev, rank, visits, current);
      ghost var waiting, before := frontier, visits;
      frontier := Delete(frontier, current);
      visits := visits + [Visit(current, dist[current])];
      if current == end {
        r := Answer(graph, start, end, waiting, dist, prev, rank, before);
        return;
      }
      dist, prev := Settle(graph, start, end, waiting, dist, prev, rank, before, current);
      rank := rank[current := |before|];
    }
    Exhausted(graph, start, end, dist, prev, rank, visits);
    r := NotFound;
  }

  // ---------------------------------------------------------------------
  // Unreachable targets
  // ---------------------------------------------------------------------

  /** As written, two nodes with no link between them get a "path" anyway:
      `dijkstra` on nodes A and B without links, from A to B, reports the
      one-node path `[B]` with length Infinity instead of the not-found
      message. */
  method DisconnectedPairFound() returns (r: PathResult)
    ensures r == Found(["B"], Inf)
  {
    var graph := GraphData(["A", "B"], []);
    ghost var visits;
    r, visits := Dijkstra(graph, "A", "B");
    forall q | Walk(q, "A", "B") ensures Cost([], q) == Inf {
      assert |q| >= 2 by {
        assert q[0] == "A" && q[|q| - 1] == "B";
      }
    }
  }

  /** The engine with the not-found message for every target it cannot
      reach: NotFound exactly when `end` is not a node or no walk from
      `start` reaches it at finite cost; otherwise a cheapest walk. */
  method ShortestPathOrNotFound(graph: GraphData, start: NodeId, end: NodeId) returns (r: PathResult)
    requires WellFormed(graph) && NonNegative(graph.links)
    ensures r.NotFound? <==>
              end !in graph.nodes || forall q :: Walk(q, start, end) ==> Cost(graph.links, q) == Inf
    ensures r.Found? ==> r.length.Fin? && FoundAnswer(graph, start, end, r.path, r.length)
  {
    ghost var visits;
    r, visits := Dijkstra(graph, start, end);
    if r.Found? && r.length == Inf {
      r := NotFound;
    }
  }
}
