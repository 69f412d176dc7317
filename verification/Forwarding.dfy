/** Hop-by-hop forwarding over the route tables of successive nodes. */
module Forwarding {
  import opened Wrappers
  import opened Overlay
  import opened Walks
  import opened Routes
  import opened RouteTables

  // ----- Walks without a first-hop restriction -----

  function Free(links: seq<Link>, u: NodeId): View {
    View(links, u, Endpoints(links))
  }

  ghost predicate AllUsable(links: seq<Link>, u: NodeId, usable: set<NodeId>) {
    forall v, c :: Joined(links, u, v, c) ==> v in usable
  }

  /** A node that can use all its links is not restricted at all. */
  lemma {:induction false} Unrestricted(links: seq<Link>, u: NodeId, usable: set<NodeId>, w: Walk)
    requires AllUsable(links, u, usable)
    ensures IsWalk(View(links, u, usable), w) <==> IsWalk(Free(links, u), w)
  {
    if w.Extend? {
      Unrestricted(links, u, usable, w.init);
      var from := End(Free(links, u), w.init);
      if Joined(links, from, w.to, w.step) {
        var l :| l in links && Connects(l, from, w.to) && l.cost == w.step;
        assert w.to in Endpoints(links);
      }
    }
  }

  /** The cheapest way from `u` to `d` costs `x`. */
  ghost predicate Dist(links: seq<Link>, u: NodeId, d: NodeId, x: real) {
    exists w :: Shortest(Free(links, u), w, d) && Cost(w) == x
  }

  lemma {:induction false} DistUnique(links: seq<Link>, u: NodeId, d: NodeId, x: real, y: real)
    requires Dist(links, u, d, x) && Dist(links, u, d, y)
    ensures x == y
  {
    var v :| Shortest(Free(links, u), v, d) && Cost(v) == x;
    var w :| Shortest(Free(links, u), w, d) && Cost(w) == y;
    assert WalkTo(Free(links, u), v, d) && WalkTo(Free(links, u), w, d);
  }

  lemma {:induction false} WalkCosts(links: seq<Link>, u: NodeId, w: Walk)
    requires Positive(links) && IsWalk(Free(links, u), w)
    ensures Cost(w) >= 0.0 && (w.Extend? ==> Cost(w) > 0.0)
  {
    if w.Extend? {
      WalkCosts(links, u, w.init);
    }
  }

  lemma {:induction false} DistSelf(links: seq<Link>, d: NodeId)
    requires Positive(links)
    ensures Dist(links, d, d, 0.0)
  {
    forall w | WalkTo(Free(links, d), w, d)
      ensures Cost(w) >= 0.0
    {
      WalkCosts(links, d, w);
    }
    assert Shortest(Free(links, d), Start, d);
  }

  lemma {:induction false} DistPositive(links: seq<Link>, u: NodeId, d: NodeId, x: real)
    requires Positive(links) && Dist(links, u, d, x) && u != d
    ensures x > 0.0
  {
    var w :| Shortest(Free(links, u), w, d) && Cost(w) == x;
    WalkCosts(links, u, w);
  }

  // ----- Splitting off the first step of a walk -----

  function FirstCost(w: Walk): real
    requires w.Extend?
  {
    if w.init.Start? then w.step else FirstCost(w.init)
  }

  function Rest(w: Walk): Walk
    requires w.Extend?
  {
    if w.init.Start? then Start else Extend(Rest(w.init), w.to, w.step)
  }

  function Prepend(h: NodeId, c: real, w: Walk): Walk {
    match w
    case Start => Extend(Start, h, c)
    case Extend(init, to, step) => Extend(Prepend(h, c, init), to, step)
  }

  lemma {:induction false} SplitWalk(links: seq<Link>, u: NodeId, w: Walk)
    requires w.Extend? && IsWalk(Free(links, u), w)
    ensures Joined(links, u, FirstHop(w), FirstCost(w))
    ensures WalkTo(Free(links, FirstHop(w)), Rest(w), w.to)
    ensures Cost(w) == FirstCost(w) + Cost(Rest(w))
  {
    if !w.init.Start? {
      SplitWalk(links, u, w.init);
      ArcIsFree(links, u, FirstHop(w), w.init.to, w.to, w.step);
    }
  }

  lemma {:induction false} PrependWalk(links: seq<Link>, u: NodeId, h: NodeId, c: real, w: Walk)
    requires Joined(links, u, h, c) && IsWalk(Free(links, h), w)
    ensures WalkTo(Free(links, u), Prepend(h, c, w), End(Free(links, h), w))
    ensures Cost(Prepend(h, c, w)) == c + Cost(w)
  {
    match w
    case Start =>
      JoinedIsArc(links, u, u, h, c);
    case Extend(init, to, step) =>
      PrependWalk(links, u, h, c, init);
      ArcIsFree(links, h, u, End(Free(links, h), init), to, step);
  }

  lemma {:induction false} JoinedIsArc(links: seq<Link>, u: NodeId, x: NodeId, v: NodeId, c: real)
    requires Joined(links, x, v, c)
    ensures Arc(Free(links, u), x, v, c)
  {
    var l :| l in links && Connects(l, x, v) && l.cost == c;
    assert v in Endpoints(links);
  }

  lemma {:induction false} ArcIsFree(links: seq<Link>, u: NodeId, u': NodeId, x: NodeId, v: NodeId, c: real)
    requires Arc(Free(links, u), x, v, c)
    ensures Arc(Free(links, u'), x, v, c)
  {
    JoinedIsArc(links, u', x, v, c);
  }

  // ----- One hop -----

  /** All nodes hold the same links, can use all of them, and route by `ComputeRoutes`. */
  datatype Mesh = Mesh(links: seq<Link>, nodes: set<NodeId>,
                       usable: map<NodeId, set<NodeId>>, tables: map<NodeId, map<NodeId, NodeId>>)

  ghost predicate Consistent(m: Mesh) {
    && Positive(m.links)
    && Endpoints(m.links) <= m.nodes
    && m.usable.Keys == m.nodes && m.tables.Keys == m.nodes
    && (forall u :: u in m.nodes ==> AllUsable(m.links, u, m.usable[u]))
    && (forall u, d :: u in m.nodes && d in m.nodes && u != d ==>
          GoodRoute(m.links, u, m.usable[u], m.tables[u], d))
  }

  function ToSet(ids: seq<NodeId>): set<NodeId> {
    set id | id in ids
  }

  /** Every node runs `ComputeRoutes` on the same links: the tables are consistent. */
  method ComputeMesh(links: seq<Link>, ids: seq<NodeId>, usable: map<NodeId, set<NodeId>>)
    returns (tables: map<NodeId, map<NodeId, NodeId>>)
    requires Positive(links) && Named(links) && Endpoints(links) <= ToSet(ids)
    requires NoRepeat(ids) && "" !in ids && usable.Keys == ToSet(ids)
    requires forall u :: u in ids ==> "" !in usable[u] && AllUsable(links, u, usable[u])
    ensures Consistent(Mesh(links, ToSet(ids), usable, tables))
  {
    hide GoodRoute, AllUsable;
    tables := map[];
    for i := 0 to |ids|
      invariant tables.Keys == ToSet(ids[..i])
      invariant forall u, d :: u in tables && d in ids && u != d ==> GoodRoute(links, u, usable[u], tables[u], d)
    {
      var u := ids[i];
      assert u in ids && ids[..i + 1] == ids[..i] + [u];
      var routes, fallbacks := ComputeRoutes(links, u, ids, usable[u]);
      tables := tables[u := routes];
    }
    assert ids[..|ids|] == ids;
  }

  /** The next hop towards `d`, when `u` has a route. */
  ghost predicate NextHop(m: Mesh, u: NodeId, d: NodeId, h: NodeId) {
    u in m.tables && d in m.tables[u] && m.tables[u][d] == h
  }

  /** The rest of a cheapest walk is a cheapest walk of the next hop. */
  lemma {:induction false} RestIsShortest(links: seq<Link>, u: NodeId, d: NodeId, w: Walk)
    requires Positive(links) && w.Extend? && Shortest(Free(links, u), w, d)
    ensures Dist(links, FirstHop(w), d, Cost(w) - FirstCost(w))
    ensures FirstCost(w) > 0.0 && FirstHop(w) in Endpoints(links)
  {
    var h, c := FirstHop(w), FirstCost(w);
    SplitWalk(links, u, w);
    JoinedIsArc(links, u, u, h, c);
    forall r | WalkTo(Free(links, h), r, d)
      ensures Cost(Rest(w)) <= Cost(r)
    {
      PrependWalk(links, u, h, c, r);
    }
    assert Shortest(Free(links, h), Rest(w), d);
  }

  /** Following one table entry either arrives or strictly decreases the distance. */
  lemma {:induction false} OneHop(m: Mesh, u: NodeId, d: NodeId) returns (h: NodeId, y: real)
    requires Consistent(m) && u in m.nodes && d in m.nodes && u != d
    requires d in m.usable[u] || Reachable(Free(m.links, u), d)
    ensures NextHop(m, u, d, h) && h in m.nodes && Dist(m.links, h, d, y)
    ensures forall x :: Dist(m.links, u, d, x) ==> y < x
    ensures h == d || exists x :: Dist(m.links, u, d, x)
  {
    assert GoodRoute(m.links, u, m.usable[u], m.tables[u], d);
    if d in m.usable[u] {
      h, y := d, 0.0;
      DistSelf(m.links, d);
      forall x | Dist(m.links, u, d, x)
        ensures y < x
      {
        DistPositive(m.links, u, d, x);
      }
    } else {
      h, y := RelayedHop(m.links, u, m.usable[u], m.tables[u], d);
    }
  }

  lemma {:induction false} RelayedHop(links: seq<Link>, u: NodeId, usable: set<NodeId>,
                                      routes: map<NodeId, NodeId>, d: NodeId)
    returns (h: NodeId, y: real)
    requires Positive(links) && AllUsable(links, u, usable) && GoodRoute(links, u, usable, routes, d)
    requires d !in usable && u != d && Reachable(Free(links, u), d)
    ensures d in routes && routes[d] == h && h in Endpoints(links)
    ensures Dist(links, h, d, y)
    ensures forall x :: Dist(links, u, d, x) ==> y < x
    ensures exists x :: Dist(links, u, d, x)
  {
    var g := View(links, u, usable);
    var walk :| WalkTo(Free(links, u), walk, d);
    Unrestricted(links, u, usable, walk);
    assert WalkTo(g, walk, d);
    var w :| Shortest(g, w, d) && w.Extend? && FirstHop(w) == routes[d];
    Unrestricted(links, u, usable, w);
    forall other | WalkTo(Free(links, u), other, d)
      ensures Cost(w) <= Cost(other)
    {
      Unrestricted(links, u, usable, other);
      assert WalkTo(g, other, d);
    }
    assert Shortest(Free(links, u), w, d);
    RestIsShortest(links, u, d, w);
    h, y := routes[d], Cost(w) - FirstCost(w);
    assert Dist(links, u, d, Cost(w));
    forall x | Dist(links, u, d, x)
      ensures y < x
    {
      DistUnique(links, u, d, x, Cost(w));
    }
  }

  // ----- Whole paths -----

  /** The path a packet takes from `trace[0]` to `d`. */
  ghost predicate IsTrace(m: Mesh, d: NodeId, trace: seq<NodeId>) {
    && trace != [] && trace[|trace| - 1] == d
    && (forall i :: 0 <= i < |trace| ==> trace[i] in m.nodes)
    && (forall i :: 0 <= i < |trace| - 1 ==> trace[i] != d && NextHop(m, trace[i], d, trace[i + 1]))
  }

  ghost predicate Near(links: seq<Link>, v: NodeId, d: NodeId, x: real) {
    exists y :: y <= x && Dist(links, v, d, y)
  }

  /** Every node of `trace` lies within distance `x` of `d`. */
  ghost predicate Within(links: seq<Link>, d: NodeId, trace: seq<NodeId>, x: real) {
    forall i :: 0 <= i < |trace| ==> Near(links, trace[i], d, x)
  }

  ghost predicate Decreasing(links: seq<Link>, d: NodeId, trace: seq<NodeId>) {
    forall i, j, x, y :: 0 <= i < j < |trace| && Dist(links, trace[i], d, x) && Dist(links, trace[j], d, y) ==> y < x
  }

  lemma {:induction false} DecreasingCons(links: seq<Link>, d: NodeId, u: NodeId, tail: seq<NodeId>, y: real)
    requires Decreasing(links, d, tail) && Within(links, d, tail, y)
    requires forall x :: Dist(links, u, d, x) ==> y < x
    ensures Decreasing(links, d, [u] + tail)
  {
    var trace := [u] + tail;
    forall i, j, x, z | 0 <= i < j < |trace| && Dist(links, trace[i], d, x) && Dist(links, trace[j], d, z)
      ensures z < x
    {
      assert trace[j] == tail[j - 1];
      if i == 0 {
        assert Near(links, tail[j - 1], d, y);
        var z' :| z' <= y && Dist(links, tail[j - 1], d, z');
        DistUnique(links, tail[j - 1], d, z, z');
      } else {
        assert trace[i] == tail[i - 1];
      }
    }
  }

  /** From a node with a known distance: only nodes of `left` are that close, and the path visits each once. */
  lemma {:induction false} Path(m: Mesh, u: NodeId, d: NodeId, x: real, left: set<NodeId>) returns (trace: seq<NodeId>)
    requires Consistent(m) && u in m.nodes && d in m.nodes
    requires Dist(m.links, u, d, x)
    requires forall v, y :: v in m.nodes && Dist(m.links, v, d, y) && y <= x ==> v in left
    ensures IsTrace(m, d, trace) && trace[0] == u
    ensures |trace| <= |left|
    ensures Decreasing(m.links, d, trace) && Within(m.links, d, trace, x)
    decreases |left|
  {
    assert u in left;
    if u == d {
      trace := [d];
    } else {
      var w :| Shortest(Free(m.links, u), w, d) && Cost(w) == x;
      assert WalkTo(Free(m.links, u), w, d);
      var h, y := OneHop(m, u, d);
      forall v, z | v in m.nodes && Dist(m.links, v, d, z) && z <= y
        ensures v in left - {u}
      {
        if v == u {
          DistUnique(m.links, u, d, x, z);
        }
      }
      var tail := Path(m, h, d, y, left - {u});
      trace := [u] + tail;
      DecreasingCons(m.links, d, u, tail, y);
      Extended(m, d, u, tail);
      WithinCons(m.links, d, u, tail, x, y);
    }
  }

  lemma {:induction false} Extended(m: Mesh, d: NodeId, u: NodeId, tail: seq<NodeId>)
    requires IsTrace(m, d, tail) && u in m.nodes && u != d && NextHop(m, u, d, tail[0])
    ensures IsTrace(m, d, [u] + tail)
  {
    var trace := [u] + tail;
    forall i | 0 <= i < |trace| - 1
      ensures trace[i] != d && NextHop(m, trace[i], d, trace[i + 1])
    {
      if i > 0 {
        assert trace[i] == tail[i - 1] && trace[i + 1] == tail[i];
        assert NextHop(m, tail[i - 1], d, tail[i - 1 + 1]);
      }
    }
  }

  lemma {:induction false} WithinCons(links: seq<Link>, d: NodeId, u: NodeId, tail: seq<NodeId>, x: real, y: real)
    requires Within(links, d, tail, y) && y <= x && Dist(links, u, d, x)
    ensures Within(links, d, [u] + tail, x)
  {
    var trace := [u] + tail;
    forall i | 0 <= i < |trace|
      ensures Near(links, trace[i], d, x)
    {
      if i > 0 {
        assert trace[i] == tail[i - 1];
        assert Near(links, tail[i - 1], d, y);
      }
    }
  }

  /**
   * Loop freedom: forwarding from any node to any reachable destination arrives,
   * never visits a node twice, and every hop strictly lowers the true distance.
   */
  lemma {:induction false} LoopFree(m: Mesh, u: NodeId, d: NodeId) returns (trace: seq<NodeId>)
    requires Consistent(m) && u in m.nodes && d in m.nodes
    requires u == d || d in m.usable[u] || Reachable(Free(m.links, u), d)
    ensures IsTrace(m, d, trace) && trace[0] == u
    ensures |trace| <= |m.nodes|
    ensures NoRepeat(trace)
    ensures Decreasing(m.links, d, trace)
  {
    hide Consistent, Dist;
    if u == d {
      trace := [d];
      assert m.nodes == {d} + (m.nodes - {d});
    } else {
      var h, y := OneHop(m, u, d);
      if h == d {
        trace := [u, d];
        DirectDecreases(m.links, u, d, y);
        assert m.nodes == {u, d} + (m.nodes - {u, d});
      } else {
        var x :| Dist(m.links, u, d, x);
        trace := Path(m, u, d, x, m.nodes);
        DecreasingNoRepeat(m.links, d, trace, x);
      }
    }
  }

  lemma {:induction false} DirectDecreases(links: seq<Link>, u: NodeId, d: NodeId, y: real)
    requires Dist(links, d, d, y) && forall x :: Dist(links, u, d, x) ==> y < x
    ensures Decreasing(links, d, [u, d])
  {
    assert Decreasing(links, d, [d]);
    assert Near(links, d, d, y);
    DecreasingCons(links, d, u, [d], y);
    assert [u] + [d] == [u, d];
  }

  lemma {:induction false} DecreasingNoRepeat(links: seq<Link>, d: NodeId, trace: seq<NodeId>, x: real)
    requires Decreasing(links, d, trace) && Within(links, d, trace, x)
    ensures NoRepeat(trace)
  {
    forall i, j | 0 <= i < j < |trace|
      ensures trace[i] != trace[j]
    {
      assert Near(links, trace[i], d, x);
    }
  }
}
