/** The whole link build on the coordinator: from directory and policy to the published graph. */
module LinkBuild {
  import opened Wrappers
  import opened Overlay
  import opened Graph
  import opened Components
  import opened Bridges
  import Backbone
  import opened ClientLinks
  import opened LinkCosts
  import opened Repaired

  // ----- Filters -----

  function KeepUnblocked(edges: seq<Link>, blocked: set<string>): seq<Link> {
    if edges == [] then [] else
      var e := edges[|edges| - 1];
      KeepUnblocked(edges[..|edges| - 1], blocked) + (if EdgeKey(e.a, e.b) in blocked then [] else [e])
  }

  lemma KeptAre(edges: seq<Link>, blocked: set<string>, e: Link)
    ensures e in KeepUnblocked(edges, blocked) <==> e in edges && EdgeKey(e.a, e.b) !in blocked
  {
    if edges != [] {
      assert edges == edges[..|edges| - 1] + [edges[|edges| - 1]];
      KeptAre(edges[..|edges| - 1], blocked, e);
    }
  }

  lemma {:induction false} NothingToRemove(edges: seq<Link>)
    ensures KeepUnblocked(edges, {}) == edges
  {
    if edges != [] {
      NothingToRemove(edges[..|edges| - 1]);
      assert edges == edges[..|edges| - 1] + [edges[|edges| - 1]];
    }
  }

  /** `removeBlockedEdges`: keeps the order of what it keeps. */
  method RemoveBlocked(edges: seq<Link>, blocked: set<string>) returns (out: seq<Link>)
    ensures out == KeepUnblocked(edges, blocked)
  {
    if blocked == {} {
      NothingToRemove(edges);
      return edges;
    }
    out := [];
    for i := 0 to |edges|
      invariant out == KeepUnblocked(edges[..i], blocked)
    {
      assert edges[..i + 1][..i] == edges[..i];
      if EdgeKey(edges[i].a, edges[i].b) !in blocked {
        out := out + [edges[i]];
      }
    }
    assert edges[..|edges|] == edges;
  }

  function KeepAmong(links: seq<Link>, ids: set<NodeId>): (out: seq<Link>)
    ensures forall e :: e in out <==> e in links && e.a in ids && e.b in ids
  {
    if links == [] then [] else
      var e := links[|links| - 1];
      KeepAmong(links[..|links| - 1], ids) + (if e.a in ids && e.b in ids then [e] else [])
  }

  /** The stored links whose two ends are both online. */
  method LinksAmong(links: seq<Link>, ids: set<NodeId>) returns (out: seq<Link>)
    ensures out == KeepAmong(links, ids)
  {
    out := [];
    for i := 0 to |links|
      invariant out == KeepAmong(links[..i], ids)
    {
      assert links[..i + 1][..i] == links[..i];
      if links[i].a in ids && links[i].b in ids {
        out := out + [links[i]];
      }
    }
    assert links[..|links|] == links;
  }

  function Superpeers(nodes: seq<Node>): (out: seq<Node>)
    ensures forall n :: n in out <==> n in nodes && n.role == "superpeer"
  {
    if nodes == [] then [] else
      var n := nodes[|nodes| - 1];
      Superpeers(nodes[..|nodes| - 1]) + (if n.role == "superpeer" then [n] else [])
  }

  method SuperpeerNodes(nodes: seq<Node>) returns (superpeers: seq<Node>)
    requires DistinctIds(nodes)
    ensures superpeers == Superpeers(nodes) && DistinctIds(superpeers)
  {
    superpeers := [];
    for i := 0 to |nodes|
      invariant superpeers == Superpeers(nodes[..i])
      invariant DistinctIds(superpeers)
    {
      assert nodes[..i + 1][..i] == nodes[..i];
      if nodes[i].role == "superpeer" {
        forall k | 0 <= k < |superpeers|
          ensures superpeers[k].id != nodes[i].id
        {
          assert superpeers[k] in nodes[..i];
        }
        superpeers := superpeers + [nodes[i]];
      }
    }
    assert nodes[..|nodes|] == nodes;
  }

  // ----- The pipeline -----

  ghost predicate Clear(out: seq<Link>, blocked: set<string>) {
    forall e :: e in out ==> EdgeKey(e.a, e.b) !in blocked
  }

  ghost predicate Among(out: seq<Link>, ids: set<NodeId>) {
    forall e :: e in out ==> e.a in ids && e.b in ids
  }

  /** `out` begins with the links of `kept` at their measured costs. */
  ghost predicate StartsWith(out: seq<Link>, kept: seq<Link>, metrics: Metrics, uptimes: map<NodeId, nat>, now: int) {
    && |kept| <= |out|
    && forall i :: 0 <= i < |kept| ==> out[i] == kept[i].(cost := MeasuredCost(kept[i], metrics, uptimes, now))
  }

  /** What follows joins different components, and is fewer links than there are components. */
  ghost predicate Mended(out: seq<Link>, nodes: seq<Node>, kept: seq<Link>, blocked: set<string>) {
    var root := QuickFind(Ids(nodes), kept);
    && (nodes != [] ==> |out| - |kept| <= |root.Values| - 1)
    && forall i :: |kept| <= i < |out| ==>
         && out[i].a in root && out[i].b in root && root[out[i].a] != root[out[i].b]
         && EdgeKey(out[i].a, out[i].b) !in blocked
  }

  /** Removing blocked pairs, repairing and costing: the tail of both branches. */
  method Finish(hash: string -> nat, edges: seq<Link>, nodes: seq<Node>, blocked: set<string>,
                metrics: Metrics, uptimes: map<NodeId, nat>, now: int)
    returns (out: seq<Link>)
    requires Among(edges, Ids(nodes))
    ensures Clear(out, blocked) && Among(out, Ids(nodes)) && Positive(out)
    ensures AllConnected(out, Ids(nodes)) <==> AdjacentBridgeable(nodes, KeepUnblocked(edges, blocked), blocked)
    ensures StartsWith(out, KeepUnblocked(edges, blocked), metrics, uptimes, now)
    ensures Mended(out, nodes, KeepUnblocked(edges, blocked), blocked)
  {
    var kept := RemoveBlocked(edges, blocked);
    hide QuickFind, Mended, RepairEdge, AllConnected, AdjacentBridgeable, MeasuredCost, BaseCost;
    forall e
      ensures e in kept <==> e in edges && EdgeKey(e.a, e.b) !in blocked
    {
      KeptAre(edges, blocked, e);
    }
    var whole := EnsureConnected(hash, kept, nodes, blocked);
    RepairedIsClear(kept, whole, nodes, blocked);
    out := DecorateLinks(whole, metrics, uptimes, now);
    SameEndsSameGraph(whole, out, Ids(nodes), blocked);
    DecoratedIsMended(kept, whole, out, nodes, blocked);
  }

  lemma {:induction false} DecoratedIsMended(kept: seq<Link>, whole: seq<Link>, out: seq<Link>, nodes: seq<Node>, blocked: set<string>)
    requires kept <= whole && |out| == |whole|
    requires forall i :: 0 <= i < |whole| ==> out[i].a == whole[i].a && out[i].b == whole[i].b
    requires nodes != [] ==> |whole| - |kept| <= |QuickFind(Ids(nodes), kept).Values| - 1
    requires forall e :: e in whole[|kept|..] ==> RepairEdge(Ids(nodes), QuickFind(Ids(nodes), kept), blocked, e)
    ensures Mended(out, nodes, kept, blocked)
  {
    hide QuickFind;
    forall i | |kept| <= i < |out|
      ensures RepairEdge(Ids(nodes), QuickFind(Ids(nodes), kept), blocked, whole[i])
    {
      assert whole[i] == whole[|kept|..][i - |kept|];
    }
  }

  lemma {:induction false} RepairedIsClear(kept: seq<Link>, whole: seq<Link>, nodes: seq<Node>, blocked: set<string>)
    requires Clear(kept, blocked) && Among(kept, Ids(nodes)) && kept <= whole
    requires forall e :: e in whole[|kept|..] ==> RepairEdge(Ids(nodes), QuickFind(Ids(nodes), kept), blocked, e)
    ensures Clear(whole, blocked) && Among(whole, Ids(nodes))
  {
    assert whole == kept + whole[|kept|..];
    forall e | e in whole
      ensures EdgeKey(e.a, e.b) !in blocked && e.a in Ids(nodes) && e.b in Ids(nodes)
    {
      assert e in kept || RepairEdge(Ids(nodes), QuickFind(Ids(nodes), kept), blocked, e);
    }
  }

  /** Costs do not matter to pairs and connectivity. */
  lemma {:induction false} SameEndsSameGraph(links: seq<Link>, out: seq<Link>, ids: set<NodeId>, blocked: set<string>)
    requires |out| == |links| && forall i :: 0 <= i < |links| ==> out[i].a == links[i].a && out[i].b == links[i].b
    ensures Clear(links, blocked) ==> Clear(out, blocked)
    ensures Among(links, ids) ==> Among(out, ids)
    ensures AllConnected(out, ids) <==> AllConnected(links, ids)
  {
    forall s
      ensures Sealed(out, ids, s) <==> Sealed(links, ids, s)
    {
      if Sealed(links, ids, s) {
        SealedByEnds(links, out, ids, s);
      }
      if Sealed(out, ids, s) {
        SealedByEnds(out, links, ids, s);
      }
    }
    forall u, v | u in ids && v in ids
      ensures Connected(out, ids, u, v) <==> Connected(links, ids, u, v)
    {
      PathsAreCuts(out, ids, u, v);
      PathsAreCuts(links, ids, u, v);
    }
  }

  lemma {:induction false} SealedByEnds(links: seq<Link>, out: seq<Link>, ids: set<NodeId>, s: set<NodeId>)
    requires |out| == |links| && forall i :: 0 <= i < |links| ==> out[i].a == links[i].a && out[i].b == links[i].b
    requires Sealed(links, ids, s)
    ensures Sealed(out, ids, s)
  {
    forall e | e in out && e.a in ids && e.b in ids
      ensures e.a in s <==> e.b in s
    {
      var i :| 0 <= i < |out| && out[i] == e;
      assert links[i] in links;
    }
  }

  lemma {:induction false} AttachedAmong(out0: seq<Link>, out: seq<Link>, nodes: seq<Node>, peers: seq<Node>,
                                         blocked: set<string>)
    requires Among(out0, Ids(nodes)) && out0 <= out && forall p :: p in peers ==> p in nodes
    requires forall e :: e in out[|out0|..] ==> AddedLink(nodes, peers, blocked, e)
    ensures Among(out, Ids(nodes))
  {
    assert out == out0 + out[|out0|..];
    forall e | e in out
      ensures e.a in Ids(nodes) && e.b in Ids(nodes)
    {
      assert e in out0 || AddedLink(nodes, peers, blocked, e);
    }
  }

  lemma {:induction false} BackboneAmong(out: seq<Link>, nodes: seq<Node>, superpeers: seq<Node>, degree: int)
    requires forall p :: p in superpeers ==> p in nodes
    requires Backbone.IsBackbone(superpeers, degree, out)
    ensures Among(out, Ids(nodes))
  {
    forall e | e in out
      ensures e.a in Ids(nodes) && e.b in Ids(nodes)
    {
      assert Backbone.FromChord(superpeers, Backbone.Clamp(|superpeers|, degree), e);
      var i: nat, k: nat :| i < |superpeers| && k < |superpeers| && Connects(e, superpeers[i].id, superpeers[k].id);
      assert superpeers[i] in superpeers && superpeers[k] in superpeers;
    }
  }

  /** The blocked pairs among the online nodes. */
  function BlockedKeys(blocks: seq<Link>, ids: set<NodeId>): set<string> {
    set e | e in blocks && e.a in ids && e.b in ids :: EdgeKey(e.a, e.b)
  }

  /** No blocked link touches a client. */
  ghost predicate ClientsClear(out: seq<Link>, nodes: seq<Node>, blocked: set<string>) {
    forall e, c :: e in out && c in nodes && c.role == "client" && (e.a == c.id || e.b == c.id) ==>
      EdgeKey(e.a, e.b) !in blocked
  }

  // ----- The graph before its repair, as a function of directory and policy -----

  /** The links before client attachment: the unblocked manual ones if any are stored, else the backbone. */
  function BaseOf(nodes: seq<Node>, stored: seq<Link>, blocked: set<string>, degree: int): seq<Link> {
    var manual := KeepAmong(stored, Ids(nodes));
    if manual != [] then KeepUnblocked(manual, blocked) else Backbone.BackboneOf(Superpeers(nodes), degree)
  }

  /** What clients attach to: the superpeers or, without manual links and superpeers, all nodes. */
  function PeersOf(nodes: seq<Node>, stored: seq<Link>): seq<Node> {
    if KeepAmong(stored, Ids(nodes)) == [] && Superpeers(nodes) == [] then nodes else Superpeers(nodes)
  }

  function AttachedOf(order: (Node, seq<Node>) -> seq<Node>, nodes: seq<Node>, stored: seq<Link>, blocked: set<string>,
                      degree: int, cl: int, sl: int): seq<Link> {
    var base, peers := BaseOf(nodes, stored, blocked, degree), PeersOf(nodes, stored);
    if peers == [] then base else AttachAll(base, nodes, peers, blocked, cl, sl, order, |nodes|)
  }

  /** The unblocked links that the repair starts from. */
  function BeforeRepair(order: (Node, seq<Node>) -> seq<Node>, nodes: seq<Node>, stored: seq<Link>, blocked: set<string>,
                        degree: int, cl: int, sl: int): seq<Link> {
    KeepUnblocked(AttachedOf(order, nodes, stored, blocked, degree, cl, sl), blocked)
  }

  // ----- The build -----

  method BaseLinks(nodes: seq<Node>, stored: seq<Link>, blocked: set<string>, backboneDegree: int)
    returns (base: seq<Link>, peers: seq<Node>)
    requires DistinctIds(nodes)
    ensures base == BaseOf(nodes, stored, blocked, backboneDegree) && peers == PeersOf(nodes, stored)
    ensures DistinctIds(peers) && forall p :: p in peers ==> p in nodes
    ensures Among(base, Ids(nodes)) && ClientsClear(base, nodes, blocked)
  {
    hide Backbone.IsBackbone, Backbone.BackboneOf;
    var manual := LinksAmong(stored, Ids(nodes));
    var superpeers := SuperpeerNodes(nodes);
    base, peers := [], superpeers;
    if |manual| > 0 {
      base := RemoveBlocked(manual, blocked);
      forall e | e in base
        ensures EdgeKey(e.a, e.b) !in blocked
      {
        KeptAre(manual, blocked, e);
      }
      ManualAmong(manual, nodes, blocked);
    } else {
      if |superpeers| > 1 {
        base := Backbone.BackboneLinks(superpeers, backboneDegree);
        BackboneAmong(base, nodes, superpeers, backboneDegree);
        BackboneSkipsClients(base, nodes, superpeers, backboneDegree, blocked);
      } else {
        NoBackbone(superpeers, backboneDegree);
      }
      if |peers| == 0 {
        peers := nodes;
      }
    }
  }

  lemma NoBackbone(superpeers: seq<Node>, degree: int)
    requires |superpeers| < 2
    ensures Backbone.BackboneOf(superpeers, degree) == []
  {
  }

  lemma {:induction false} BackboneSkipsClients(out: seq<Link>, nodes: seq<Node>, superpeers: seq<Node>, degree: int, blocked: set<string>)
    requires DistinctIds(nodes) && forall p :: p in superpeers ==> p in nodes && p.role == "superpeer"
    requires Backbone.IsBackbone(superpeers, degree, out)
    ensures ClientsClear(out, nodes, blocked)
  {
    forall e, c | e in out && c in nodes && c.role == "client"
      ensures e.a != c.id && e.b != c.id
    {
      assert Backbone.FromChord(superpeers, Backbone.Clamp(|superpeers|, degree), e);
      var i: nat, k: nat :| i < |superpeers| && k < |superpeers| && Connects(e, superpeers[i].id, superpeers[k].id);
      assert superpeers[i] in superpeers && superpeers[k] in superpeers;
      OtherNode(nodes, superpeers[i], c);
      OtherNode(nodes, superpeers[k], c);
    }
  }

  lemma {:induction false} OtherNode(nodes: seq<Node>, a: Node, b: Node)
    requires DistinctIds(nodes) && a in nodes && b in nodes && a != b
    ensures a.id != b.id
  {
  }

  /**
   * `links`: the published graph holds every link before the repair at its
   * measured cost, then repairs. It has no blocked pair, joins only online nodes
   * and has positive costs; in it every client has at least the peers it wants
   * or could get. It is connected exactly when all neighbouring components
   * before the repair have an unblocked pair, in particular when no online pair
   * is blocked.
   */
  method Links(hash: string -> nat, order: (Node, seq<Node>) -> seq<Node>, nodes: seq<Node>, stored: seq<Link>,
               blocks: seq<Link>, backboneDegree: int, clientLinks: int, symmetricLinks: int,
               metrics: Metrics, uptimes: map<NodeId, nat>, now: int)
    returns (out: seq<Link>)
    requires DistinctIds(nodes) && forall c, peers :: SamePeers(order(c, peers), peers)
    ensures Clear(out, BlockedKeys(blocks, Ids(nodes)))
    ensures Among(out, Ids(nodes)) && Positive(out)
    ensures (forall e :: e in blocks ==> e.a !in Ids(nodes) || e.b !in Ids(nodes)) ==> AllConnected(out, Ids(nodes))
    ensures var blocked := BlockedKeys(blocks, Ids(nodes));
      var before := BeforeRepair(order, nodes, stored, blocked, backboneDegree, clientLinks, symmetricLinks);
      && StartsWith(out, before, metrics, uptimes, now) && Mended(out, nodes, before, blocked)
      && (AllConnected(out, Ids(nodes)) <==> AdjacentBridgeable(nodes, before, blocked))
    ensures var blocked := BlockedKeys(blocks, Ids(nodes));
      Superpeers(nodes) != [] ==>
        ExactUpTo(BaseOf(nodes, stored, blocked, backboneDegree),
                  AttachedOf(order, nodes, stored, blocked, backboneDegree, clientLinks, symmetricLinks),
                  nodes, PeersOf(nodes, stored), blocked, clientLinks, symmetricLinks, |nodes|)
    ensures var blocked := BlockedKeys(blocks, Ids(nodes));
      var base, peers := BaseOf(nodes, stored, blocked, backboneDegree), PeersOf(nodes, stored);
      forall c :: c in nodes && c.role == "client" ==>
        && Served(base, out, c, peers, blocked, if c.natType == "symmetric" then symmetricLinks else clientLinks)
        && Served(base, out, c, peers, blocked, 1)
  {
    hide Sealed, Connected, AllConnected, AdjacentBridgeable, ServedUpTo, ExactUpTo, Served, BaseOf, PeersOf,
      Backbone.IsBackbone, ClientsClear, StartsWith, Mended, KeepUnblocked, AttachAll;
    var blocked := BlockedKeys(blocks, Ids(nodes));
    var base, peers := BaseLinks(nodes, stored, blocked, backboneDegree);
    var attached := AddAutomaticClientLinks(base, nodes, peers, blocked, clientLinks, symmetricLinks, order);
    ServedAmong(base, attached, nodes, peers, blocked, clientLinks, symmetricLinks);
    if Superpeers(nodes) != [] {
      PeersApartFromClients(nodes, stored);
    }
    out := Finish(hash, attached, nodes, blocked, metrics, uptimes, now);
    NothingBlocked(nodes, KeepUnblocked(attached, blocked));
    OfflineBlocksNothing(blocks, Ids(nodes));
    ServedAtTheEnd(base, attached, out, nodes, peers, blocked, clientLinks, symmetricLinks, metrics, uptimes, now);
    forall c | c in nodes && c.role == "client"
      ensures Served(base, out, c, peers, blocked, if c.natType == "symmetric" then symmetricLinks else clientLinks)
      ensures Served(base, out, c, peers, blocked, 1)
    {
      ServedWithLess(base, out, c, peers, blocked, Want(c, clientLinks, symmetricLinks),
                     if c.natType == "symmetric" then symmetricLinks else clientLinks);
      ServedWithLess(base, out, c, peers, blocked, Want(c, clientLinks, symmetricLinks), 1);
    }
  }

  /** Pairs with an offline node block nothing, any other blocked pair does. */
  lemma {:induction false} OfflineBlocksNothing(blocks: seq<Link>, ids: set<NodeId>)
    ensures BlockedKeys(blocks, ids) == {} <==> forall e :: e in blocks ==> e.a !in ids || e.b !in ids
  {
    if e :| e in blocks && e.a in ids && e.b in ids {
      assert EdgeKey(e.a, e.b) in BlockedKeys(blocks, ids);
    }
  }

  lemma {:induction false} ServedWithLess(base: seq<Link>, out: seq<Link>, c: Node, peers: seq<Node>, blocked: set<string>, want: int, less: int)
    requires Served(base, out, c, peers, blocked, want) && less <= want
    ensures Served(base, out, c, peers, blocked, less)
  {
  }

  /** Some stored link joins two online nodes. */
  ghost predicate HasManual(nodes: seq<Node>, stored: seq<Link>) {
    exists e :: e in stored && e.a in Ids(nodes) && e.b in Ids(nodes)
  }

  lemma {:induction false} HasManualIff(nodes: seq<Node>, stored: seq<Link>)
    ensures HasManual(nodes, stored) <==> KeepAmong(stored, Ids(nodes)) != []
  {
    var manual := KeepAmong(stored, Ids(nodes));
    if manual != [] {
      assert manual[0] in manual;
    }
  }

  /** Clients attach to the superpeers, or to everyone when there are neither superpeers nor manual links. */
  lemma {:induction false} PeersAre(nodes: seq<Node>, stored: seq<Link>, p: Node)
    ensures p in PeersOf(nodes, stored) <==>
      p in nodes && (p.role == "superpeer" || (!HasManual(nodes, stored) && forall q :: q in nodes ==> q.role != "superpeer"))
  {
    HasManualIff(nodes, stored);
    hide HasManual;
    var superpeers := Superpeers(nodes);
    if superpeers != [] {
      assert superpeers[0] in superpeers;
    }
  }

  /** Manual links, where stored, replace the backbone, and the blocked ones among them are no links at all. */
  lemma {:induction false} BaseIs(nodes: seq<Node>, stored: seq<Link>, blocked: set<string>, degree: int)
    ensures HasManual(nodes, stored) ==> forall e :: e in BaseOf(nodes, stored, blocked, degree) <==>
      e in stored && e.a in Ids(nodes) && e.b in Ids(nodes) && EdgeKey(e.a, e.b) !in blocked
    ensures !HasManual(nodes, stored) ==>
      BaseOf(nodes, stored, blocked, degree) == Backbone.BackboneOf(Superpeers(nodes), degree)
  {
    HasManualIff(nodes, stored);
    hide HasManual, EdgeKey;
    var manual := KeepAmong(stored, Ids(nodes));
    forall e
      ensures e in KeepUnblocked(manual, blocked) <==> e in manual && EdgeKey(e.a, e.b) !in blocked
    {
      KeptAre(manual, blocked, e);
    }
  }

  /** The filters keep the order of what they keep. */
  lemma {:induction false} SuperpeersInOrder(nodes: seq<Node>) returns (at: seq<nat>)
    ensures Picks(Superpeers(nodes), nodes, at)
  {
    at := [];
    if nodes != [] {
      var init, n := nodes[..|nodes| - 1], nodes[|nodes| - 1];
      at := SuperpeersInOrder(init);
      PicksNext(Superpeers(init), init, at, n);
      assert nodes == init + [n];
      at := if n.role == "superpeer" then at + [|init|] else at;
    }
  }

  lemma {:induction false} UnblockedInOrder(edges: seq<Link>, blocked: set<string>) returns (at: seq<nat>)
    ensures Picks(KeepUnblocked(edges, blocked), edges, at)
  {
    hide EdgeKey;
    at := [];
    if edges != [] {
      var init, e := edges[..|edges| - 1], edges[|edges| - 1];
      at := UnblockedInOrder(init, blocked);
      PicksNext(KeepUnblocked(init, blocked), init, at, e);
      assert edges == init + [e];
      at := if EdgeKey(e.a, e.b) !in blocked then at + [|init|] else at;
    }
  }

  lemma {:induction false} ManualInOrder(links: seq<Link>, ids: set<NodeId>) returns (at: seq<nat>)
    ensures Picks(KeepAmong(links, ids), links, at)
  {
    at := [];
    if links != [] {
      var init, e := links[..|links| - 1], links[|links| - 1];
      at := ManualInOrder(init, ids);
      PicksNext(KeepAmong(init, ids), init, at, e);
      assert links == init + [e];
      at := if e.a in ids && e.b in ids then at + [|init|] else at;
    }
  }

  /** Superpeers to attach to are no clients. */
  lemma {:induction false} PeersApartFromClients(nodes: seq<Node>, stored: seq<Link>)
    requires DistinctIds(nodes) && Superpeers(nodes) != []
    ensures PeersApart(nodes, PeersOf(nodes, stored))
  {
    forall c, p | c in nodes && c.role == "client" && p in Superpeers(nodes)
      ensures c.id != p.id
    {
      OtherNode(nodes, c, p);
    }
  }

  /** Removing blocked pairs takes no link from a client, and the repair only adds. */
  lemma {:induction false} ServedAtTheEnd(base: seq<Link>, attached: seq<Link>, out: seq<Link>, nodes: seq<Node>, peers: seq<Node>,
                                          blocked: set<string>, cl: int, sl: int,
                                          metrics: Metrics, uptimes: map<NodeId, nat>, now: int)
    requires ClientsClear(base, nodes, blocked)
    requires ServedUpTo(base, attached, nodes, peers, blocked, cl, sl, |nodes|)
    requires StartsWith(out, KeepUnblocked(attached, blocked), metrics, uptimes, now)
    ensures forall c :: c in nodes && c.role == "client" ==> Served(base, out, c, peers, blocked, Want(c, cl, sl))
  {
    forall c | c in nodes && c.role == "client"
      ensures Served(base, out, c, peers, blocked, Want(c, cl, sl))
    {
      var j :| 0 <= j < |nodes| && nodes[j] == c;
      assert Served(base, attached, nodes[j], peers, blocked, Want(nodes[j], cl, sl));
      forall e | e in attached && (e.a == c.id || e.b == c.id)
        ensures EdgeKey(e.a, e.b) !in blocked
      {
        AttachedIsClear(base, attached, nodes, peers, blocked, e, c);
      }
      NeighborsKept(attached, out, blocked, c.id, metrics, uptimes, now);
      SubsetSize(LinkedPeers(attached, c, peers), LinkedPeers(out, c, peers));
    }
  }

  lemma {:induction false} AttachedIsClear(base: seq<Link>, attached: seq<Link>, nodes: seq<Node>, peers: seq<Node>,
                                           blocked: set<string>, e: Link, c: Node)
    requires ClientsClear(base, nodes, blocked) && base <= attached && e in attached
    requires c in nodes && c.role == "client" && (e.a == c.id || e.b == c.id)
    requires forall x :: x in attached[|base|..] ==> AddedLink(nodes, peers, blocked, x)
    ensures EdgeKey(e.a, e.b) !in blocked
  {
    assert attached == base + attached[|base|..];
    assert e in base || AddedLink(nodes, peers, blocked, e);
  }

  lemma {:induction false} NeighborsKept(attached: seq<Link>, out: seq<Link>, blocked: set<string>, id: NodeId,
                                         metrics: Metrics, uptimes: map<NodeId, nat>, now: int)
    requires StartsWith(out, KeepUnblocked(attached, blocked), metrics, uptimes, now)
    requires forall e :: e in attached && (e.a == id || e.b == id) ==> EdgeKey(e.a, e.b) !in blocked
    ensures NeighborIds(attached, id) <= NeighborIds(out, id)
  {
    var kept := KeepUnblocked(attached, blocked);
    forall e | e in attached && (e.a == id || e.b == id)
      ensures exists x :: x in out && x.a == e.a && x.b == e.b
    {
      KeptAre(attached, blocked, e);
      var i :| 0 <= i < |kept| && kept[i] == e;
      assert out[i] in out;
    }
  }

  lemma {:induction false} ManualAmong(manual: seq<Link>, nodes: seq<Node>, blocked: set<string>)
    requires Among(manual, Ids(nodes))
    ensures Among(KeepUnblocked(manual, blocked), Ids(nodes))
  {
    forall e | e in KeepUnblocked(manual, blocked)
      ensures e.a in Ids(nodes) && e.b in Ids(nodes)
    {
      KeptAre(manual, blocked, e);
    }
  }

  lemma {:induction false} ServedAmong(out0: seq<Link>, out: seq<Link>, nodes: seq<Node>, peers: seq<Node>,
                                       blocked: set<string>, cl: int, sl: int)
    requires Among(out0, Ids(nodes)) && forall p :: p in peers ==> p in nodes
    requires ServedUpTo(out0, out, nodes, peers, blocked, cl, sl, |nodes|)
    ensures Among(out, Ids(nodes))
  {
    AttachedAmong(out0, out, nodes, peers, blocked);
  }

  // ----- One block that strands a node -----

  /** Three online superpeers. */
  function Trio(): seq<Node> {
    [Relay("a"), Relay("b"), Relay("c")]
  }

  /** The one manual link of the network, which is blocked as well. */
  function Pair(): seq<Link> {
    [Link("a", "b", 1.0)]
  }

  lemma {:induction false} NoClients(out: seq<Link>, nodes: seq<Node>, peers: seq<Node>, blocked: set<string>, cl: int, sl: int,
                                     order: (Node, seq<Node>) -> seq<Node>, i: nat)
    requires i <= |nodes| && forall n :: n in nodes ==> n.role != "client"
    ensures AttachAll(out, nodes, peers, blocked, cl, sl, order, i) == out
  {
    hide Attach;
    if i > 0 {
      NoClients(out, nodes, peers, blocked, cl, sl, order, i - 1);
      assert nodes[i - 1] in nodes;
    }
  }

  lemma {:induction false} PairIsBlocked()
    ensures Ids(Trio()) == {"a", "b", "c"} && BlockedKeys(Pair(), Ids(Trio())) == {"a:b"}
    ensures KeepAmong(Pair(), Ids(Trio())) == Pair() && KeepUnblocked(Pair(), {"a:b"}) == []
  {
    KeysABC();
    hide EdgeKey;
    assert Trio()[0] in Trio() && Trio()[1] in Trio() && Trio()[2] in Trio();
    var e := Pair()[0];
    assert e in Pair() && Pair()[..0] == [];
    assert KeepAmong(Pair()[..0], Ids(Trio())) == [];
    assert KeepUnblocked(Pair()[..0], {"a:b"}) == [];
  }

  lemma {:induction false} NothingBeforeRepair(order: (Node, seq<Node>) -> seq<Node>, degree: int, cl: int, sl: int)
    ensures BeforeRepair(order, Trio(), Pair(), {"a:b"}, degree, cl, sl) == []
  {
    PairIsBlocked();
    hide KeepAmong, EdgeKey, AttachAll, Superpeers;
    var peers := PeersOf(Trio(), Pair());
    NoClients([], Trio(), peers, {"a:b"}, cl, sl, order, 3);
    assert KeepUnblocked([], {"a:b"}) == [];
  }

  /** Two unblocked links would connect the three. */
  lemma {:induction false} TwoLinksWould()
    ensures AllConnected([Link("a", "c", 1.0), Link("b", "c", 1.0)], {"a", "b", "c"})
    ensures EdgeKey("a", "c") != "a:b" && EdgeKey("b", "c") != "a:b"
  {
    KeysABC();
    hide EdgeKey, Connected;
    var links, ids := [Link("a", "c", 1.0), Link("b", "c", 1.0)], {"a", "b", "c"};
    assert links[0] in links && links[1] in links;
    forall u, v | u in ids && v in ids
      ensures Connected(links, ids, u, v)
    {
      PathsAreCuts(links, ids, u, v);
    }
  }

  /**
   * The whole build fails the promise that a block keeps the nodes reachable:
   * with the only manual link blocked it publishes a disconnected graph,
   * whatever the other inputs, although two unblocked links would connect all.
   */
  method BuildStranded(hash: string -> nat, order: (Node, seq<Node>) -> seq<Node>, backboneDegree: int,
                       clientLinks: int, symmetricLinks: int, metrics: Metrics, uptimes: map<NodeId, nat>, now: int)
    returns (out: seq<Link>)
    requires forall c, peers :: SamePeers(order(c, peers), peers)
    ensures !AllConnected(out, Ids(Trio()))
    ensures exists links :: AllConnected(links, Ids(Trio())) && Clear(links, BlockedKeys(Pair(), Ids(Trio())))
  {
    hide BeforeRepair, AllConnected, AdjacentBridgeable, StartsWith, Mended, Served, ExactUpTo, EdgeKey, BaseOf, PeersOf,
      AttachedOf, BlockedKeys;
    PairIsBlocked();
    NothingBeforeRepair(order, backboneDegree, clientLinks, symmetricLinks);
    StrandedByOneBlock();
    TwoLinksWould();
    assert Clear([Link("a", "c", 1.0), Link("b", "c", 1.0)], {"a:b"});
    assert DistinctIds(Trio());
    out := Links(hash, order, Trio(), Pair(), Pair(), backboneDegree, clientLinks, symmetricLinks, metrics, uptimes, now);
  }
}
