/** Distances and walks: the reference notions against which the engine's
    answer is stated. A distance is a number or Infinity, compared as
    JavaScript compares numbers; a walk is any non-empty sequence of node ids,
    and its cost adds, step by step, the weight of the lightest link joining
    the two nodes (Infinity when no link joins them). */
module Walks {
  import opened GraphStore

  datatype Dist = Fin(n: int) | Inf

  /** JavaScript's `<` on numbers where Infinity may occur. */
  predicate Less(a: Dist, b: Dist)
  {
    match a
    case Inf => false
    case Fin(x) => b.Inf? || x < b.n
  }

  predicate AtMost(a: Dist, b: Dist)
  {
    !Less(b, a)
  }

  /** JavaScript's `+` on numbers where Infinity may occur. */
  function Plus(a: Dist, b: Dist): Dist
  {
    if a.Fin? && b.Fin? then Fin(a.n + b.n) else Inf
  }

  function Min(a: Dist, b: Dist): Dist
  {
    if Less(b, a) then b else a
  }

  predicate NonNegative(links: seq<Link>)
  {
    forall i :: 0 <= i < |links| ==> links[i].weight >= 0
  }

  /** The link joins `u` and `v`, in either direction. */
  predicate Joins(l: Link, u: NodeId, v: NodeId)
  {
    (l.source == u && l.target == v) || (l.source == v && l.target == u)
  }

  /** The weight of the lightest link joining `u` and `v`; Infinity if none does. */
  function Lightest(links: seq<Link>, u: NodeId, v: NodeId): Dist
  {
    if links == [] then Inf
    else
      var last := links[|links| - 1];
      Min(Lightest(links[..|links| - 1], u, v), if Joins(last, u, v) then Fin(last.weight) else Inf)
  }

  /** `Lightest` is the weight of a joining link, and no joining link is lighter. */
  lemma {:induction false} LightestIsLightest(links: seq<Link>, u: NodeId, v: NodeId)
    ensures Lightest(links, u, v).Fin? ==>
              exists i :: 0 <= i < |links| && Joins(links[i], u, v) && links[i].weight == Lightest(links, u, v).n
    ensures forall i :: 0 <= i < |links| && Joins(links[i], u, v) ==> AtMost(Lightest(links, u, v), Fin(links[i].weight))
  {
    if links != [] {
      var front := links[..|links| - 1];
      LightestIsLightest(front, u, v);
      if Lightest(front, u, v).Fin? && Lightest(links, u, v) == Lightest(front, u, v) {
        var i :| 0 <= i < |front| && Joins(front[i], u, v) && front[i].weight == Lightest(front, u, v).n;
        assert links[i] == front[i];
      }
      forall i | 0 <= i < |links| && Joins(links[i], u, v)
        ensures AtMost(Lightest(links, u, v), Fin(links[i].weight))
      {
        if i < |front| {
          assert links[i] == front[i];
        }
      }
    }
  }

  /** A walk from `s` to `e`. */
  ghost predicate Walk(q: seq<NodeId>, s: NodeId, e: NodeId)
  {
    |q| >= 1 && q[0] == s && q[|q| - 1] == e
  }

  /** Total weight of a walk, using the lightest of any parallel links. */
  function Cost(links: seq<Link>, q: seq<NodeId>): Dist
    requires |q| >= 1
  {
    if |q| == 1 then Fin(0)
    else Plus(Cost(links, q[..|q| - 1]), Lightest(links, q[|q| - 2], q[|q| - 1]))
  }

  /** `d` is the least cost of a walk from `s` to `e`, and some walk has cost
      `d` unless `d` is Infinity (then no walk has a finite cost). */
  ghost predicate ShortestLength(links: seq<Link>, s: NodeId, e: NodeId, d: Dist)
  {
    && (forall q :: Walk(q, s, e) ==> AtMost(d, Cost(links, q)))
    && (d.Fin? ==> exists p :: Walk(p, s, e) && Cost(links, p) == d)
  }

  lemma LightestNonNegative(links: seq<Link>, u: NodeId, v: NodeId)
    requires NonNegative(links)
    ensures AtMost(Fin(0), Lightest(links, u, v))
  {
    LightestIsLightest(links, u, v);
  }

  /** With no link touching `u`, nothing is reachable in one step from `u`. */
  lemma LightestOfStranger(links: seq<Link>, u: NodeId, v: NodeId)
    requires forall i :: 0 <= i < |links| ==> links[i].source != u && links[i].target != u
    ensures Lightest(links, u, v) == Inf
  {
    LightestIsLightest(links, u, v);
  }

  lemma {:induction false} LightestSymmetric(links: seq<Link>, u: NodeId, v: NodeId)
    ensures Lightest(links, u, v) == Lightest(links, v, u)
  {
    if links != [] {
      LightestSymmetric(links[..|links| - 1], u, v);
    }
  }

  /** Some link joins `u` and `v`. */
  ghost predicate Linked(links: seq<Link>, u: NodeId, v: NodeId)
  {
    exists k :: 0 <= k < |links| && Joins(links[k], u, v)
  }

  /** A walk of finite cost crosses an existing link at every step. */
  lemma {:induction false} FiniteCostJoined(links: seq<Link>, q: seq<NodeId>, i: nat)
    requires |q| >= 1 && Cost(links, q).Fin? && i + 1 < |q|
    ensures Linked(links, q[i], q[i + 1])
  {
    var front := q[..|q| - 1];
    if i + 1 < |q| - 1 {
      FiniteCostJoined(links, front, i);
      assert front[i] == q[i] && front[i + 1] == q[i + 1];
    } else {
      LightestIsLightest(links, q[i], q[i + 1]);
    }
  }

  /** The same, for every step of the walk at once. */
  lemma FiniteCostWalkJoined(links: seq<Link>, q: seq<NodeId>)
    requires |q| >= 1 && Cost(links, q).Fin?
    ensures forall i :: 0 <= i < |q| - 1 ==> Linked(links, q[i], q[i + 1])
  {
    forall i | 0 <= i < |q| - 1 ensures Linked(links, q[i], q[i + 1]) {
      FiniteCostJoined(links, q, i);
    }
  }

  /** With non-negative weights, extending a walk never makes it cheaper. */
  lemma {:induction false} CostNonNegative(links: seq<Link>, q: seq<NodeId>)
    requires NonNegative(links) && |q| >= 1
    ensures AtMost(Fin(0), Cost(links, q))
  {
    if |q| > 1 {
      CostNonNegative(links, q[..|q| - 1]);
      LightestNonNegative(links, q[|q| - 2], q[|q| - 1]);
    }
  }

  function Reverse(q: seq<NodeId>): (r: seq<NodeId>)
    ensures |r| == |q|
    ensures forall i :: 0 <= i < |q| ==> r[i] == q[|q| - 1 - i]
  {
    if q == [] then [] else Reverse(q[1..]) + [q[0]]
  }

  /** Cost of a walk split at its first step. */
  lemma {:induction false} CostFirstStep(links: seq<Link>, q: seq<NodeId>)
    requires |q| >= 2
    ensures Cost(links, q) == Plus(Lightest(links, q[0], q[1]), Cost(links, q[1..]))
  {
    if |q| > 2 {
      var front := q[..|q| - 1];
      CostFirstStep(links, front);
      assert front[1..] == q[1..][..|q[1..]| - 1];
    }
  }

  /** Links are undirected: a walk and its reversal cost the same. */
  lemma {:induction false} CostReverse(links: seq<Link>, q: seq<NodeId>)
    requires |q| >= 1
    ensures Cost(links, Reverse(q)) == Cost(links, q)
  {
    if |q| > 1 {
      var r := Reverse(q);
      var rest := q[1..];
      CostReverse(links, rest);
      CostFirstStep(links, q);
      assert r[..|r| - 1] == Reverse(rest);
      LightestSymmetric(links, q[0], q[1]);
    }
  }

  /** The shortest distance from `a` to `b` equals that from `b` to `a`. */
  lemma ShortestLengthSymmetric(links: seq<Link>, a: NodeId, b: NodeId, d1: Dist, d2: Dist)
    requires ShortestLength(links, a, b, d1) && ShortestLength(links, b, a, d2)
    ensures d1 == d2
  {
    if d1.Fin? {
      var p :| Walk(p, a, b) && Cost(links, p) == d1;
      CostReverse(links, p);
      assert Walk(Reverse(p), b, a);
    }
    if d2.Fin? {
      var p :| Walk(p, b, a) && Cost(links, p) == d2;
      CostReverse(links, p);
      assert Walk(Reverse(p), a, b);
    }
  }
}
