/** The primary and fallback route tables built from the search tree. */
module RouteTables {
  import opened Wrappers
  import opened Overlay
  import opened Walks
  import opened Routes

  function Lookup(previous: map<NodeId, NodeId>, id: NodeId): NodeId {
    if id in previous then previous[id] else ""
  }

  function TreeHop(tree: map<NodeId, Walk>, id: NodeId): NodeId {
    if id in tree && tree[id].Extend? then FirstHop(tree[id]) else ""
  }

  function Depth(tree: map<NodeId, Walk>, id: NodeId): nat {
    if id in tree then Length(tree[id]) else 0
  }

  /** One step of following `previous` back keeps the first hop and gets closer to the root. */
  lemma {:induction false} StepBack(g: View, previous: map<NodeId, NodeId>, tree: map<NodeId, Walk>, id: NodeId)
    requires IsTree(g, previous, tree) && id in previous
    ensures previous[id] != ""
    ensures previous[id] == g.self ==> TreeHop(tree, id) == id
    ensures previous[id] != g.self ==>
      && previous[id] in previous
      && Depth(tree, previous[id]) < Depth(tree, id)
      && TreeHop(tree, id) == TreeHop(tree, previous[id])
  {
    assert Hangs(previous, tree, id);
    assert WalkTo(g, tree[id], id);
    if previous[id] != g.self {
      assert Hangs(previous, tree, previous[id]);
    }
  }

  /** What a shortest tree says about one node. */
  lemma {:induction false} TreeMeaning(g: View, previous: map<NodeId, NodeId>, tree: map<NodeId, Walk>, id: NodeId)
    requires IsShortestTree(g, previous, tree) && g.self != "" && "" !in g.allowed
    ensures g.self !in previous && IsTree(g, previous, tree)
    ensures id in previous ==>
      && Reachable(g, id)
      && TreeHop(tree, id) in g.allowed
      && BestFirstHop(g, id, TreeHop(tree, id))
    ensures id !in previous && id != g.self ==> !Reachable(g, id)
  {
    if id in previous {
      assert Hangs(previous, tree, id);
      FirstHopAllowed(g, tree[id]);
    }
  }

  /** Follows `previous` back from the destination to the neighbour it was reached through. */
  method FirstHopFrom(previous: map<NodeId, NodeId>, destination: NodeId, self: NodeId, ghost g: View)
    returns (hop: NodeId)
    requires IsFirstHopTable(g, previous) && g.self == self && self != "" && "" !in g.allowed
    ensures destination == self ==> hop == ""
    ensures destination != self ==> (hop != "" <==> Reachable(g, destination))
    ensures hop != "" ==> hop in g.allowed && BestFirstHop(g, destination, hop)
  {
    ghost var tree :| IsShortestTree(g, previous, tree);
    hide IsShortestTree, IsTree, TreeHop, Depth, Reachable, BestFirstHop, IsFirstHopTable;
    TreeMeaning(g, previous, tree, destination);
    hop := destination;
    while Lookup(previous, hop) != "" && Lookup(previous, hop) != self
      invariant destination !in previous ==> hop == destination
      invariant destination in previous ==> hop in previous && TreeHop(tree, hop) == TreeHop(tree, destination)
      decreases Depth(tree, hop)
    {
      StepBack(g, previous, tree, hop);
      hop := Lookup(previous, hop);
    }
    if hop in previous {
      StepBack(g, previous, tree, hop);
    }
    if Lookup(previous, hop) != self {
      hop := "";
    }
  }

  // ----- The tables -----

  /** The search view of a node that may not leave through `exclude`. */
  function Avoiding(links: seq<Link>, self: NodeId, usable: set<NodeId>, exclude: NodeId): View {
    View(links, self, usable - {exclude})
  }

  /**
   * A usable neighbour is its own route; any other destination has a route
   * exactly when some permitted walk reaches it, and then by a cheapest one.
   */
  ghost predicate GoodRoute(links: seq<Link>, self: NodeId, usable: set<NodeId>,
                            routes: map<NodeId, NodeId>, id: NodeId) {
    if id in usable then id in routes && routes[id] == id
    else
      && (id in routes <==> Reachable(View(links, self, usable), id))
      && (id in routes ==> routes[id] in usable && BestFirstHop(View(links, self, usable), id, routes[id]))
  }

  /**
   * A relayed destination has a fallback exactly when a walk that does not
   * start with its primary hop reaches it, and then by a cheapest such walk.
   */
  ghost predicate GoodFallback(links: seq<Link>, self: NodeId, usable: set<NodeId>,
                               hop: NodeId, fallbacks: map<NodeId, NodeId>, id: NodeId) {
    && (id in fallbacks <==> Reachable(Avoiding(links, self, usable, hop), id))
    && (id in fallbacks ==>
          && fallbacks[id] != hop
          && fallbacks[id] in usable
          && BestFirstHop(Avoiding(links, self, usable, hop), id, fallbacks[id]))
  }

  /** The relayed destinations grouped by their primary hop. */
  ghost predicate Grouped(usable: set<NodeId>, routes: map<NodeId, NodeId>, byPrimary: map<NodeId, seq<NodeId>>) {
    && (forall id :: id in routes && id !in usable ==> routes[id] in byPrimary && id in byPrimary[routes[id]])
    && (forall hop, id :: hop in byPrimary && id in byPrimary[hop] ==>
          id in routes && id !in usable && routes[id] == hop)
  }

  /** The primary table for the destinations `ids`. */
  ghost predicate RoutesFor(links: seq<Link>, self: NodeId, usable: set<NodeId>, ids: seq<NodeId>,
                            routes: map<NodeId, NodeId>, byPrimary: map<NodeId, seq<NodeId>>) {
    && (forall id :: id in routes ==> id in ids && id != self)
    && (forall id :: id in ids && id != self ==> GoodRoute(links, self, usable, routes, id))
    && Grouped(usable, routes, byPrimary)
  }

  lemma {:induction false} RouteNext(links: seq<Link>, self: NodeId, usable: set<NodeId>, ids: seq<NodeId>,
                                     routes: map<NodeId, NodeId>, byPrimary: map<NodeId, seq<NodeId>>, id: NodeId, hop: NodeId)
    requires RoutesFor(links, self, usable, ids, routes, byPrimary) && id !in ids && id != self && id !in usable
    requires hop == "" ==> !Reachable(View(links, self, usable), id)
    requires hop != "" ==> hop in usable && Reachable(View(links, self, usable), id) && BestFirstHop(View(links, self, usable), id, hop)
    ensures RoutesFor(links, self, usable, ids + [id], if hop == "" then routes else routes[id := hop],
                      if hop == "" then byPrimary
                      else byPrimary[hop := (if hop in byPrimary then byPrimary[hop] else []) + [id]])
  {
    hide Reachable, BestFirstHop;
  }

  lemma {:induction false} DirectNext(links: seq<Link>, self: NodeId, usable: set<NodeId>, ids: seq<NodeId>,
                                      routes: map<NodeId, NodeId>, byPrimary: map<NodeId, seq<NodeId>>, id: NodeId)
    requires RoutesFor(links, self, usable, ids, routes, byPrimary) && id !in ids && (id == self || id in usable)
    ensures RoutesFor(links, self, usable, ids + [id], if id == self then routes else routes[id := id], byPrimary)
  {
    hide Reachable, BestFirstHop;
  }

  method PrimaryRoutes(links: seq<Link>, self: NodeId, usable: set<NodeId>, dirIDs: seq<NodeId>,
                       previous: map<NodeId, NodeId>)
    returns (routes: map<NodeId, NodeId>, byPrimary: map<NodeId, seq<NodeId>>)
    requires IsFirstHopTable(View(links, self, usable), previous)
    requires self != "" && "" !in usable && NoRepeat(dirIDs)
    ensures forall id :: id in routes ==> id in dirIDs && id != self
    ensures forall id :: id in dirIDs && id != self ==> GoodRoute(links, self, usable, routes, id)
    ensures Grouped(usable, routes, byPrimary)
  {
    hide IsFirstHopTable, Reachable, BestFirstHop;
    ghost var g := View(links, self, usable);
    routes, byPrimary := map[], map[];
    assert RoutesFor(links, self, usable, dirIDs[..0], routes, byPrimary);
    for i := 0 to |dirIDs|
      invariant RoutesFor(links, self, usable, dirIDs[..i], routes, byPrimary)
    {
      hide RoutesFor;
      var id := dirIDs[i];
      assert dirIDs[..i + 1] == dirIDs[..i] + [id];
      assert id !in dirIDs[..i];
      if id == self {
        DirectNext(links, self, usable, dirIDs[..i], routes, byPrimary, id);
        continue;
      }
      if id in usable {
        DirectNext(links, self, usable, dirIDs[..i], routes, byPrimary, id);
        routes := routes[id := id];
        continue;
      }
      var hop := FirstHopFrom(previous, id, self, g);
      RouteNext(links, self, usable, dirIDs[..i], routes, byPrimary, id, hop);
      if hop != "" {
        routes := routes[id := hop];
        byPrimary := byPrimary[hop := (if hop in byPrimary then byPrimary[hop] else []) + [id]];
      }
    }
    assert dirIDs[..|dirIDs|] == dirIDs;
  }

  /** One extra search for one primary hop serves all destinations behind it. */
  method FallbacksFor(links: seq<Link>, adjacency: Adjacency, self: NodeId, usable: set<NodeId>,
                      hop: NodeId, dests: seq<NodeId>, fallbacks0: map<NodeId, NodeId>)
    returns (fallbacks: map<NodeId, NodeId>)
    requires Adjacent(links, adjacency) && NonNegative(links) && Named(links)
    requires self != "" && "" !in usable && self !in dests
    requires forall id :: id in dests ==> id !in fallbacks0
    ensures forall id :: id in dests ==> GoodFallback(links, self, usable, hop, fallbacks, id)
    ensures forall id :: id !in dests ==>
      (id in fallbacks <==> id in fallbacks0) && (id in fallbacks ==> fallbacks[id] == fallbacks0[id])
  {
    hide IsFirstHopTable, Reachable, BestFirstHop;
    var alt := FirstHopTable(adjacency, hop, self, usable, links);
    ghost var g := Avoiding(links, self, usable, hop);
    fallbacks := fallbacks0;
    for i := 0 to |dests|
      invariant forall id :: id in dests[..i] ==> GoodFallback(links, self, usable, hop, fallbacks, id)
      invariant forall id :: id !in dests[..i] ==>
        (id in fallbacks <==> id in fallbacks0) && (id in fallbacks ==> fallbacks[id] == fallbacks0[id])
    {
      var id := dests[i];
      assert dests[..i + 1] == dests[..i] + [id];
      var f := FirstHopFrom(alt, id, self, g);
      if f != "" && f != hop {
        fallbacks := fallbacks[id := f];
      }
    }
    assert dests[..|dests|] == dests;
  }

  /** The route tables of a node, from one snapshot of links, directory and usable neighbours. */
  method ComputeRoutes(links: seq<Link>, self: NodeId, dirIDs: seq<NodeId>, usable: set<NodeId>)
    returns (routes: map<NodeId, NodeId>, fallbacks: map<NodeId, NodeId>)
    requires NonNegative(links) && Named(links) && self != "" && "" !in usable && NoRepeat(dirIDs)
    ensures forall id :: id in routes ==> id in dirIDs && id != self
    ensures forall id :: id in dirIDs && id != self ==> GoodRoute(links, self, usable, routes, id)
    ensures forall id :: id in fallbacks ==> id in routes && id !in usable
    ensures forall id :: id in routes && id !in usable ==>
      GoodFallback(links, self, usable, routes[id], fallbacks, id)
  {
    hide IsFirstHopTable, GoodRoute, GoodFallback, Adjacent;
    var adjacency := BuildAdjacency(links);
    var previous := FirstHopTable(adjacency, "", self, usable, links);
    assert usable - {""} == usable;
    var byPrimary;
    routes, byPrimary := PrimaryRoutes(links, self, usable, dirIDs, previous);
    fallbacks := map[];
    var hops := byPrimary.Keys;
    while hops != {}
      invariant hops <= byPrimary.Keys
      invariant forall id :: id in fallbacks ==> id in routes && id !in usable && routes[id] !in hops
      invariant forall id :: id in routes && id !in usable && routes[id] !in hops ==>
        GoodFallback(links, self, usable, routes[id], fallbacks, id)
      decreases hops
    {
      var hop :| hop in hops;
      hops := hops - {hop};
      assert forall id :: id in byPrimary[hop] ==> id in routes;
      ghost var before := fallbacks;
      fallbacks := FallbacksFor(links, adjacency, self, usable, hop, byPrimary[hop], fallbacks);
      forall id | id in routes && id !in usable && routes[id] !in hops
        ensures GoodFallback(links, self, usable, routes[id], fallbacks, id)
      {
        if routes[id] != hop {
          SameFallback(links, self, usable, routes[id], before, fallbacks, id);
        }
      }
    }
  }

  lemma SameFallback(links: seq<Link>, self: NodeId, usable: set<NodeId>, hop: NodeId,
                     before: map<NodeId, NodeId>, after: map<NodeId, NodeId>, id: NodeId)
    requires GoodFallback(links, self, usable, hop, before, id)
    requires id in before <==> id in after
    requires id in before ==> before[id] == after[id]
    ensures GoodFallback(links, self, usable, hop, after, id)
  {
  }
}
