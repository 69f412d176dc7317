/** Route computation on a node: lazy-deletion Dijkstra and the two route tables. */
module Routes {
  import opened Overlay
  import opened Walks

  datatype QItem = QItem(id: NodeId, cost: real)

  type Adjacency = map<NodeId, seq<QItem>>

  function Neighbors(adjacency: Adjacency, u: NodeId): seq<QItem> {
    if u in adjacency then adjacency[u] else []
  }

  ghost predicate Adjacent(links: seq<Link>, adjacency: Adjacency) {
    forall u, v, c :: QItem(v, c) in Neighbors(adjacency, u) <==> Joined(links, u, v, c)
  }

  function Push(adjacency: Adjacency, u: NodeId, item: QItem): Adjacency {
    adjacency[u := Neighbors(adjacency, u) + [item]]
  }

  method BuildAdjacency(links: seq<Link>) returns (adjacency: Adjacency)
    ensures Adjacent(links, adjacency)
  {
    adjacency := map[];
    for i := 0 to |links|
      invariant Adjacent(links[..i], adjacency)
    {
      var edge := links[i];
      ghost var before := adjacency;
      adjacency := Push(adjacency, edge.a, QItem(edge.b, edge.cost));
      adjacency := Push(adjacency, edge.b, QItem(edge.a, edge.cost));
      assert links[..i + 1] == links[..i] + [edge];
      forall u, v, c
        ensures QItem(v, c) in Neighbors(adjacency, u) <==> Joined(links[..i + 1], u, v, c)
      {
        assert QItem(v, c) in Neighbors(adjacency, u) <==>
          QItem(v, c) in Neighbors(before, u) || (Connects(edge, u, v) && edge.cost == c);
        assert Joined(links[..i + 1], u, v, c) <==>
          Joined(links[..i], u, v, c) || (Connects(edge, u, v) && edge.cost == c) by {
          assert edge in links[..i + 1];
        }
      }
    }
    assert links[..|links|] == links;
  }

  // ----- The search tree -----

  /** The recorded predecessor of `v` carries the walk that the walk to `v` extends. */
  ghost predicate Hangs(previous: map<NodeId, NodeId>, tree: map<NodeId, Walk>, v: NodeId)
    requires v in previous && v in tree
  {
    previous[v] in tree && tree[v].Extend? && tree[v].init == tree[previous[v]]
  }

  /** `previous` encodes a tree of walks rooted at the searching node. */
  ghost predicate IsTree(g: View, previous: map<NodeId, NodeId>, tree: map<NodeId, Walk>) {
    && tree.Keys == previous.Keys + {g.self}
    && g.self !in previous
    && tree[g.self] == Start
    && "" !in tree
    && (forall v :: v in tree ==> WalkTo(g, tree[v], v))
    && (forall v {:trigger Hangs(previous, tree, v)} :: v in previous ==> Hangs(previous, tree, v))
  }

  /** The tree spans exactly the reachable nodes, each by a cheapest walk. */
  ghost predicate IsShortestTree(g: View, previous: map<NodeId, NodeId>, tree: map<NodeId, Walk>) {
    && IsTree(g, previous, tree)
    && (forall v :: v in tree ==> Shortest(g, tree[v], v))
    && (forall w :: IsWalk(g, w) ==> End(g, w) in tree)
  }

  // ----- Dijkstra -----

  /** The locals of the search. */
  datatype Search = Search(
    costs: map<NodeId, real>, previous: map<NodeId, NodeId>, queue: multiset<QItem>)

  /** Every known cost is the cost of a walk recorded by `previous`, through settled nodes only. */
  ghost predicate Witnessed(g: View, s: Search, settled: set<NodeId>, tree: map<NodeId, Walk>) {
    && s.costs.Keys == tree.Keys
    && IsTree(g, s.previous, tree)
    && (forall v :: v in s.costs ==> Cost(tree[v]) == s.costs[v])
    && (forall v {:trigger s.previous[v]} :: v in s.previous ==> s.previous[v] in settled)
  }

  /** A queue entry is the single current entry of an open node, or stale. */
  ghost predicate ValidItem(s: Search, settled: set<NodeId>, q: QItem) {
    && q.id in s.costs
    && s.costs[q.id] <= q.cost
    && (q.cost == s.costs[q.id] ==> q.id !in settled && s.queue[q] == 1)
  }

  /** The queue holds each open node once at its current cost, and stale entries above it. */
  ghost predicate Queued(s: Search, settled: set<NodeId>) {
    && (forall v :: v in s.costs && v !in settled ==> QItem(v, s.costs[v]) in s.queue)
    && (forall q :: q in s.queue ==> ValidItem(s, settled, q))
  }

  /** The cost settled last separates settled from open nodes. */
  ghost predicate Ordered(s: Search, settled: set<NodeId>, frontier: real) {
    && frontier >= 0.0
    && settled <= s.costs.Keys
    && (forall v :: v in s.costs ==> if v in settled then s.costs[v] <= frontier else frontier <= s.costs[v])
  }

  /** The arc from `u` to `v` cannot improve `v` any more. */
  ghost predicate Tight(s: Search, u: NodeId, v: NodeId, c: real) {
    u in s.costs && v in s.costs && s.costs[v] <= s.costs[u] + c
  }

  ghost predicate Closed(g: View, s: Search, settled: set<NodeId>) {
    forall u, v, c :: u in settled && Arc(g, u, v, c) ==> Tight(s, u, v, c)
  }

  ghost predicate SearchInvariant(g: View, s: Search, settled: set<NodeId>, frontier: real,
                                  tree: map<NodeId, Walk>) {
    Witnessed(g, s, settled, tree) && Queued(s, settled) && Ordered(s, settled, frontier)
  }

  function Update(s: Search, u: NodeId, v: NodeId, cost: real): Search {
    Search(s.costs[v := cost], s.previous[v := u], s.queue + multiset{QItem(v, cost)})
  }

  /** One improving relaxation out of the node settled last keeps the invariant. */
  lemma {:induction false} RelaxKeeps(g: View, s: Search, settled: set<NodeId>, frontier: real,
                                      tree: map<NodeId, Walk>, u: NodeId, v: NodeId, c: real)
    requires SearchInvariant(g, s, settled, frontier, tree)
    requires u in settled && s.costs[u] == frontier
    requires Arc(g, u, v, c) && c >= 0.0 && v != ""
    requires v in s.costs ==> frontier + c < s.costs[v]
    ensures v !in settled
    ensures SearchInvariant(g, Update(s, u, v, frontier + c), settled, frontier, tree[v := Extend(tree[u], v, c)])
  {
    hide Witnessed, Queued;
    assert v != g.self by { RootCost(g, s, settled, tree); }
    RelaxWitnessed(g, s, settled, tree, u, v, c);
    RelaxQueued(s, settled, u, v, frontier + c);
  }

  lemma RootCost(g: View, s: Search, settled: set<NodeId>, tree: map<NodeId, Walk>)
    requires Witnessed(g, s, settled, tree)
    ensures s.costs.Keys == tree.Keys && g.self in s.costs && s.costs[g.self] == 0.0
  {
  }

  /** Hanging an open node below a settled one keeps the tree. */
  lemma {:induction false} GrowTree(g: View, previous: map<NodeId, NodeId>, tree: map<NodeId, Walk>, u: NodeId, v: NodeId, c: real)
    requires IsTree(g, previous, tree) && u in tree && u != v && v != g.self && v != "" && Arc(g, u, v, c)
    requires forall x {:trigger previous[x]} :: x in previous ==> previous[x] != v
    ensures IsTree(g, previous[v := u], tree[v := Extend(tree[u], v, c)])
  {
    hide Arc;
    var previous', tree' := previous[v := u], tree[v := Extend(tree[u], v, c)];
    forall x | x in previous'
      ensures Hangs(previous', tree', x)
    {
      if x != v {
        assert Hangs(previous, tree, x) && previous[x] != v;
      }
    }
    assert WalkTo(g, tree[u], u);
    forall x | x in tree'
      ensures WalkTo(g, tree'[x], x)
    {
      if x != v {
        assert WalkTo(g, tree[x], x);
      }
    }
  }

  lemma {:induction false} RelaxWitnessed(g: View, s: Search, settled: set<NodeId>,
                                          tree: map<NodeId, Walk>, u: NodeId, v: NodeId, c: real)
    requires Witnessed(g, s, settled, tree) && settled <= s.costs.Keys
    requires u in settled && v !in settled && v != g.self && v != "" && Arc(g, u, v, c)
    ensures Witnessed(g, Update(s, u, v, s.costs[u] + c), settled, tree[v := Extend(tree[u], v, c)])
  {
    hide IsTree, Arc;
    GrowTree(g, s.previous, tree, u, v, c);
  }

  lemma {:induction false} RelaxQueued(s: Search, settled: set<NodeId>, u: NodeId, v: NodeId, cost: real)
    requires Queued(s, settled) && v !in settled
    requires v in s.costs ==> cost < s.costs[v]
    ensures Queued(Update(s, u, v, cost), settled)
  {
    var s' := Update(s, u, v, cost);
    assert QItem(v, cost) !in s.queue;
    forall q | q in s'.queue
      ensures ValidItem(s', settled, q)
    {
      if q != QItem(v, cost) {
        assert ValidItem(s, settled, q) && s'.queue[q] == s.queue[q];
      }
    }
  }

  /** Relaxing an open node leaves every finished arc finished. */
  lemma {:induction false} RelaxClosed(g: View, s: Search, settled: set<NodeId>, u: NodeId, v: NodeId, cost: real)
    requires Closed(g, s, settled) && v !in settled
    requires v in s.costs ==> cost < s.costs[v]
    ensures Closed(g, Update(s, u, v, cost), settled)
  {
    var s' := Update(s, u, v, cost);
    forall x, y, c | x in settled && Arc(g, x, y, c)
      ensures Tight(s', x, y, c)
    {
      assert Tight(s, x, y, c);
    }
  }

  /** Popping an outdated entry loses nothing. */
  lemma {:induction false} PopStale(s: Search, settled: set<NodeId>, q: QItem)
    requires Queued(s, settled) && q in s.queue && q.cost != s.costs[q.id]
    ensures Queued(s.(queue := s.queue - multiset{q}), settled)
  {
    var s' := s.(queue := s.queue - multiset{q});
    forall x | x in s'.queue
      ensures ValidItem(s', settled, x)
    {
      assert ValidItem(s, settled, x);
    }
  }

  /** Popping a current minimum settles its node at the new frontier. */
  lemma {:induction false} PopFresh(s: Search, settled: set<NodeId>, frontier: real, q: QItem)
    requires Queued(s, settled) && Ordered(s, settled, frontier)
    requires q in s.queue && q.id in s.costs && q.cost == s.costs[q.id]
    requires forall x :: x in s.queue ==> q.cost <= x.cost
    ensures q.id !in settled
    ensures Queued(s.(queue := s.queue - multiset{q}), settled + {q.id})
    ensures Ordered(s, settled + {q.id}, q.cost)
  {
    var s' := s.(queue := s.queue - multiset{q});
    assert ValidItem(s, settled, q);
    forall x | x in s'.queue
      ensures ValidItem(s', settled + {q.id}, x)
    {
      assert ValidItem(s, settled, x);
      assert x != q;
    }
    forall v | v in s.costs
      ensures if v in settled + {q.id} then s.costs[v] <= q.cost else q.cost <= s.costs[v]
    {
      if v !in settled {
        assert QItem(v, s.costs[v]) in s.queue;
      }
    }
  }

  /** When nothing is open, no walk beats the recorded costs. */
  lemma {:induction false} ClosedIsShortest(g: View, s: Search, w: Walk)
    requires g.self in s.costs && s.costs[g.self] == 0.0
    requires Closed(g, s, s.costs.Keys) && IsWalk(g, w)
    ensures End(g, w) in s.costs && s.costs[End(g, w)] <= Cost(w)
  {
    if w.Extend? {
      ClosedIsShortest(g, s, w.init);
      assert Tight(s, End(g, w.init), w.to, w.step);
    }
  }

  ghost predicate IsFirstHopTable(g: View, previous: map<NodeId, NodeId>) {
    exists tree :: IsShortestTree(g, previous, tree)
  }

  lemma {:induction false} SearchDone(g: View, s: Search, tree: map<NodeId, Walk>)
    requires Witnessed(g, s, s.costs.Keys, tree)
    requires Closed(g, s, s.costs.Keys)
    ensures IsFirstHopTable(g, s.previous)
  {
    forall w | IsWalk(g, w)
      ensures End(g, w) in tree && s.costs[End(g, w)] <= Cost(w)
    {
      ClosedIsShortest(g, s, w);
    }
    forall v | v in tree
      ensures Shortest(g, tree[v], v)
    {
      assert Cost(tree[v]) == s.costs[v];
    }
    assert IsShortestTree(g, s.previous, tree);
  }

  /** `container/heap` hands out some entry of least cost. */
  method PopMin(queue: multiset<QItem>) returns (item: QItem)
    requires queue != multiset{}
    ensures item in queue && forall x :: x in queue ==> item.cost <= x.cost
  {
    item :| item in queue;
    var rest := queue - multiset{item};
    while rest != multiset{}
      invariant item in queue && rest <= queue
      invariant forall x :: x in queue ==> x in rest || item.cost <= x.cost
      decreases |rest|
    {
      var x :| x in rest;
      if x.cost < item.cost {
        item := x;
      }
      rest := rest[x := 0];
    }
  }

  /** The arcs from `u` listed so far are finished, except those the search may not use. */
  ghost predicate Relaxed(g: View, s: Search, u: NodeId, items: seq<QItem>) {
    forall x :: x in items && (u == g.self ==> x.id in g.allowed) ==> Tight(s, u, x.id, x.cost)
  }

  lemma {:induction false} RelaxedIsClosed(g: View, s: Search, settled: set<NodeId>, u: NodeId, adjacency: Adjacency)
    requires Adjacent(g.links, adjacency)
    requires Closed(g, s, settled) && Relaxed(g, s, u, Neighbors(adjacency, u))
    ensures Closed(g, s, settled + {u})
  {
    forall x, v, c | x in settled + {u} && Arc(g, x, v, c)
      ensures Tight(s, x, v, c)
    {
      if x == u {
        assert QItem(v, c) in Neighbors(adjacency, u);
      }
    }
  }

  predicate Improves(g: View, s: Search, u: NodeId, x: QItem)
    requires u in s.costs
  {
    && (u == g.self ==> x.id in g.allowed)
    && (x.id in s.costs ==> s.costs[u] + x.cost < s.costs[x.id])
  }

  /** Midway through the neighbour loop of `u`, with the arcs in `items` finished. */
  ghost predicate Relaxing(g: View, s0: Search, s: Search, settled: set<NodeId>, tree: map<NodeId, Walk>,
                           u: NodeId, items: seq<QItem>)
    requires u in s0.costs
  {
    && u in s.costs && s.costs[u] == s0.costs[u]
    && SearchInvariant(g, s, settled + {u}, s0.costs[u], tree)
    && Closed(g, s, settled) && Relaxed(g, s, u, items)
    && s.costs.Keys <= s0.costs.Keys + Endpoints(g.links)
  }

  /** One turn of the neighbour loop keeps the invariant and finishes its arc. */
  lemma {:induction false} RelaxTurn(g: View, s0: Search, s: Search, settled: set<NodeId>, tree: map<NodeId, Walk>,
                                     u: NodeId, items: seq<QItem>, x: QItem)
    returns (tree': map<NodeId, Walk>)
    requires u in s0.costs && Relaxing(g, s0, s, settled, tree, u, items)
    requires Joined(g.links, u, x.id, x.cost) && x.cost >= 0.0 && x.id != "" && x.id in Endpoints(g.links)
    ensures Relaxing(g, s0, if Improves(g, s, u, x) then Update(s, u, x.id, s.costs[u] + x.cost) else s,
                     settled, tree', u, items + [x])
  {
    hide Witnessed, Queued, Closed, Endpoints;
    if Improves(g, s, u, x) {
      RelaxKeeps(g, s, settled + {u}, s.costs[u], tree, u, x.id, x.cost);
      RelaxClosed(g, s, settled, u, x.id, s.costs[u] + x.cost);
      RootCost(g, s, settled + {u}, tree);
      tree' := tree[x.id := Extend(tree[u], x.id, x.cost)];
    } else {
      tree' := tree;
    }
  }

  lemma {:induction false} NeighborFacts(links: seq<Link>, adjacency: Adjacency, u: NodeId, x: QItem)
    requires Adjacent(links, adjacency) && NonNegative(links) && Named(links) && x in Neighbors(adjacency, u)
    ensures Joined(links, u, x.id, x.cost) && x.cost >= 0.0 && x.id != "" && x.id in Endpoints(links)
  {
    assert QItem(x.id, x.cost) in Neighbors(adjacency, u);
    var l :| l in links && Connects(l, u, x.id) && l.cost == x.cost;
  }

  /**
   * The neighbour loop of one settled node `u`: improves what can be improved
   * and leaves every arc out of `u` finished.
   */
  method Relax(g: View, adjacency: Adjacency, s0: Search, ghost settled: set<NodeId>,
               ghost tree0: map<NodeId, Walk>, u: NodeId)
    returns (s: Search, ghost tree: map<NodeId, Walk>)
    requires Adjacent(g.links, adjacency) && NonNegative(g.links) && Named(g.links)
    requires u in s0.costs
    requires SearchInvariant(g, s0, settled + {u}, s0.costs[u], tree0)
    requires Closed(g, s0, settled)
    ensures u in s.costs && s.costs[u] == s0.costs[u]
    ensures SearchInvariant(g, s, settled + {u}, s.costs[u], tree)
    ensures Closed(g, s, settled + {u})
    ensures s.costs.Keys <= s0.costs.Keys + Endpoints(g.links)
  {
    hide SearchInvariant, Closed, Adjacent, NonNegative, Named, Joined, Endpoints, Improves;
    s, tree := s0, tree0;
    var items := Neighbors(adjacency, u);
    assert Relaxing(g, s0, s, settled, tree, u, items[..0]);
    hide Relaxed;
    for k := 0 to |items|
      invariant Relaxing(g, s0, s, settled, tree, u, items[..k])
    {
      var candidate := items[k];
      assert items[..k + 1] == items[..k] + [candidate];
      NeighborFacts(g.links, adjacency, u, candidate);
      tree := RelaxTurn(g, s0, s, settled, tree, u, items[..k], candidate);
      if Improves(g, s, u, candidate) {
        s := Update(s, u, candidate.id, s.costs[u] + candidate.cost);
      }
    }
    assert items[..|items|] == items;
    RelaxedIsClosed(g, s, settled, u, adjacency);
  }

  function Endpoints(links: seq<Link>): set<NodeId> {
    (set l | l in links :: l.a) + (set l | l in links :: l.b)
  }

  ghost predicate SearchState(g: View, s: Search, settled: set<NodeId>, frontier: real, tree: map<NodeId, Walk>) {
    && SearchInvariant(g, s, settled, frontier, tree)
    && Closed(g, s, settled)
    && s.costs.Keys <= Endpoints(g.links) + {g.self}
  }

  /** One turn of the main loop: drops a stale entry, or settles one more node. */
  method SearchTurn(g: View, adjacency: Adjacency, s0: Search, ghost settled0: set<NodeId>,
                    ghost frontier0: real, ghost tree0: map<NodeId, Walk>)
    returns (s: Search, ghost settled: set<NodeId>, ghost frontier: real, ghost tree: map<NodeId, Walk>)
    requires Adjacent(g.links, adjacency) && NonNegative(g.links) && Named(g.links)
    requires SearchState(g, s0, settled0, frontier0, tree0) && s0.queue != multiset{}
    ensures SearchState(g, s, settled, frontier, tree)
    ensures if settled == settled0 then |s.queue| < |s0.queue| else settled0 < settled
  {
    hide Witnessed, Closed;
    var current := PopMin(s0.queue);
    assert ValidItem(s0, settled0, current);
    s := s0.(queue := s0.queue - multiset{current});
    settled, frontier, tree := settled0, frontier0, tree0;
    if current.cost != s.costs[current.id] {
      PopStale(s0, settled, current);
      PopKeeps(g, s0, settled, tree, settled, s.queue);
      return;
    }
    PopFresh(s0, settled, frontier, current);
    PopKeeps(g, s0, settled, tree, settled + {current.id}, s.queue);
    hide Queued, Ordered;
    s, tree := Relax(g, adjacency, s, settled, tree, current.id);
    settled, frontier := settled + {current.id}, current.cost;
  }

  /**
   * Dijkstra from `self`, never leaving it through `exclude` or an unusable
   * neighbour. Terminates: every turn settles a node or drops a stale entry.
   */
  method FirstHopTable(adjacency: Adjacency, exclude: NodeId, self: NodeId, usable: set<NodeId>,
                       links: seq<Link>)
    returns (previous: map<NodeId, NodeId>)
    requires Adjacent(links, adjacency) && NonNegative(links) && Named(links) && self != ""
    ensures IsFirstHopTable(View(links, self, usable - {exclude}), previous)
  {
    var g := View(links, self, usable - {exclude});
    var s := Search(map[self := 0.0], map[], multiset{QItem(self, 0.0)});
    ghost var settled, frontier, tree := {}, 0.0, map[self := Start];
    ghost var nodes := Endpoints(links) + {self};
    FirstState(g);
    hide SearchState, Adjacent, NonNegative, Named, Endpoints;
    while s.queue != multiset{}
      invariant SearchState(g, s, settled, frontier, tree)
      decreases nodes - settled, |s.queue|
    {
      ghost var settled0 := settled;
      s, settled, frontier, tree := SearchTurn(g, adjacency, s, settled, frontier, tree);
      SettledAmong(g, s, settled, frontier, tree);
      assert settled != settled0 ==> nodes - settled < nodes - settled0;
    }
    LastState(g, s, settled, frontier, tree);
    previous := s.previous;
  }

  lemma {:induction false} FirstState(g: View)
    requires g.self != ""
    ensures SearchState(g, Search(map[g.self := 0.0], map[], multiset{QItem(g.self, 0.0)}), {}, 0.0, map[g.self := Start])
  {
  }

  lemma {:induction false} SettledAmong(g: View, s: Search, settled: set<NodeId>, frontier: real, tree: map<NodeId, Walk>)
    requires SearchState(g, s, settled, frontier, tree)
    ensures settled <= Endpoints(g.links) + {g.self}
  {
    hide Witnessed, Queued, Closed;
  }

  lemma {:induction false} LastState(g: View, s: Search, settled: set<NodeId>, frontier: real, tree: map<NodeId, Walk>)
    requires SearchState(g, s, settled, frontier, tree) && s.queue == multiset{}
    ensures IsFirstHopTable(g, s.previous)
  {
    hide Witnessed, Closed;
    AllSettled(s, settled);
    SearchDone(g, s, tree);
  }

  lemma AllSettled(s: Search, settled: set<NodeId>)
    requires Queued(s, settled) && s.queue == multiset{} && settled <= s.costs.Keys
    ensures settled == s.costs.Keys
  {
  }

  /** The queue plays no part in what `previous` records. */
  lemma PopKeeps(g: View, s: Search, settled: set<NodeId>, tree: map<NodeId, Walk>,
                 settled': set<NodeId>, queue: multiset<QItem>)
    requires Witnessed(g, s, settled, tree) && Closed(g, s, settled) && settled <= settled'
    ensures Witnessed(g, s.(queue := queue), settled', tree)
    ensures Closed(g, s.(queue := queue), settled)
  {
    forall u, v, c | u in settled && Arc(g, u, v, c)
      ensures Tight(s.(queue := queue), u, v, c)
    {
      assert Tight(s, u, v, c);
    }
  }
}
