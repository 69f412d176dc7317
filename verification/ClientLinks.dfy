/** Attaching clients to their preferred peers. */
module ClientLinks {
  import opened Overlay
  import opened Graph
  import opened Bridges

  /** The peers that `client` is linked to. */
  function LinkedPeers(out: seq<Link>, client: Node, peers: seq<Node>): set<NodeId> {
    set p | p in peers && p.id != client.id && p.id in NeighborIds(out, client.id) :: p.id
  }

  /** The peers that `client` is linked to already or may be linked to. */
  function EligiblePeers(out: seq<Link>, client: Node, peers: seq<Node>, blocked: set<string>): set<NodeId> {
    set p | p in peers && p.id != client.id && (p.id in NeighborIds(out, client.id) || Unblocked(blocked, client, p)) :: p.id
  }

  function Min(a: int, b: int): int {
    if a < b then a else b
  }

  function Max(a: int, b: int): int {
    if a > b then a else b
  }

  function Want(client: Node, clientLinks: int, symmetricLinks: int): int {
    Max(1, if client.natType == "symmetric" then symmetricLinks else clientLinks)
  }

  /** A link that client attachment may add for `client`. */
  ghost predicate ClientLink(client: Node, peers: seq<Node>, blocked: set<string>, e: Link) {
    e.a == client.id && exists p :: p in peers && e.b == p.id && p.id != client.id && Unblocked(blocked, client, p)
  }

  lemma {:induction false} NeighborsGrow(out: seq<Link>, e: Link, id: NodeId)
    ensures NeighborIds(out + [e], id) == NeighborIds(out, id)
      + (if e.a == id then {e.b} else {}) + (if e.b == id then {e.a} else {})
  {
  }

  /** What holds when every peer of `order[..j]` has been considered. */
  ghost predicate Attached(out0: seq<Link>, out: seq<Link>, client: Node, peers: seq<Node>, blocked: set<string>,
                           order: seq<Node>, j: int)
    requires 0 <= j <= |order|
  {
    && out0 <= out
    && (forall e :: e in out[|out0|..] ==> ClientLink(client, peers, blocked, e))
    && LinkedPeers(out0, client, peers) <= LinkedPeers(out, client, peers) <= EligiblePeers(out0, client, peers, blocked)
    && (forall p :: p in order[..j] && p.id in EligiblePeers(out0, client, peers, blocked) ==>
          p.id in LinkedPeers(out, client, peers))
  }

  lemma {:induction false} AttachOne(out0: seq<Link>, out: seq<Link>, client: Node, peers: seq<Node>,
                                     blocked: set<string>, order: seq<Node>, j: int, cost: real)
    requires 0 <= j < |order| && order[j] in peers
    requires Attached(out0, out, client, peers, blocked, order, j)
    requires order[j].id != client.id && order[j].id !in NeighborIds(out, client.id) && Unblocked(blocked, client, order[j])
    ensures Attached(out0, out + [Link(client.id, order[j].id, cost)], client, peers, blocked, order, j + 1)
    ensures LinkedPeers(out + [Link(client.id, order[j].id, cost)], client, peers) ==
      LinkedPeers(out, client, peers) + {order[j].id}
  {
    var e := Link(client.id, order[j].id, cost);
    var more := out + [e];
    NeighborsGrow(out, e, client.id);
    assert ClientLink(client, peers, blocked, e);
    assert LinkedPeers(more, client, peers) == LinkedPeers(out, client, peers) + {order[j].id};
    assert more[|out0|..] == out[|out0|..] + [e];
    assert order[..j + 1] == order[..j] + [order[j]];
  }

  lemma {:induction false} AttachSkip(out0: seq<Link>, out: seq<Link>, client: Node, peers: seq<Node>,
                                      blocked: set<string>, order: seq<Node>, j: int)
    requires 0 <= j < |order| && order[j] in peers
    requires Attached(out0, out, client, peers, blocked, order, j)
    requires order[j].id == client.id || order[j].id in NeighborIds(out, client.id) || !Unblocked(blocked, client, order[j])
    ensures Attached(out0, out, client, peers, blocked, order, j + 1)
  {
    var x := order[j];
    assert order[..j + 1] == order[..j] + [x];
    NeighborsMonotone(out0, out, client.id);
    assert x.id in EligiblePeers(out0, client, peers, blocked) ==> x.id in LinkedPeers(out, client, peers);
  }

  lemma {:induction false} NeighborsMonotone(out0: seq<Link>, out: seq<Link>, id: NodeId)
    requires out0 <= out
    ensures NeighborIds(out0, id) <= NeighborIds(out, id)
  {
    assert forall e :: e in out0 ==> e in out;
  }

  /** Counts the peers that the client is linked to. */
  method CountLinked(client: Node, peers: seq<Node>, connected: set<NodeId>, ghost out: seq<Link>)
    returns (count: nat)
    requires connected == NeighborIds(out, client.id) && DistinctIds(peers)
    ensures count == |LinkedPeers(out, client, peers)|
  {
    count := 0;
    ghost var linked: set<NodeId> := {};
    for i := 0 to |peers|
      invariant linked == LinkedPeers(out, client, peers[..i])
      invariant count == |linked|
    {
      assert peers[..i + 1] == peers[..i] + [peers[i]];
      if peers[i].id != client.id && peers[i].id in connected {
        assert peers[i].id !in linked;
        linked := linked + {peers[i].id};
        count := count + 1;
      }
    }
    assert peers[..|peers|] == peers;
  }

  ghost predicate SamePeers(order: seq<Node>, peers: seq<Node>) {
    multiset(order) == multiset(peers)
  }

  lemma SameMembers(order: seq<Node>, peers: seq<Node>)
    requires SamePeers(order, peers)
    ensures forall p :: p in order <==> p in peers
  {
    assert forall p :: p in order <==> p in multiset(order);
    assert forall p :: p in peers <==> p in multiset(peers);
  }

  /** Every client ends with the links it wants, as far as eligible peers exist. */
  ghost predicate Satisfied(out0: seq<Link>, out: seq<Link>, client: Node, peers: seq<Node>, blocked: set<string>, want: int) {
    |LinkedPeers(out, client, peers)| ==
      Max(|LinkedPeers(out0, client, peers)|, Min(want, |EligiblePeers(out0, client, peers, blocked)|))
  }

  /** The peer is not worth a new link. */
  predicate Skipped(out: seq<Link>, client: Node, peer: Node, blocked: set<string>) {
    peer.id == client.id || peer.id in NeighborIds(out, client.id) || !Unblocked(blocked, client, peer)
  }

  function NewLink(client: Node, peer: Node, count: nat): Link {
    Link(client.id, peer.id, 1.0 + count as real / 10.0)
  }

  /** `out` after one client took links from the peers in `order`, being at `count` links now. */
  function Attach(out: seq<Link>, client: Node, order: seq<Node>, blocked: set<string>, want: int, count: nat): seq<Link>
    decreases |order|
  {
    if order == [] || count >= want then out
    else if Skipped(out, client, order[0], blocked) then Attach(out, client, order[1..], blocked, want, count)
    else Attach(out + [NewLink(client, order[0], count)], client, order[1..], blocked, want, count + 1)
  }

  /** `out` after the first `i` nodes were attached. */
  function AttachAll(out: seq<Link>, nodes: seq<Node>, peers: seq<Node>, blocked: set<string>, cl: int, sl: int,
                     order: (Node, seq<Node>) -> seq<Node>, i: nat): seq<Link>
    requires i <= |nodes|
  {
    if i == 0 then out
    else
      var c, before := nodes[i - 1], AttachAll(out, nodes, peers, blocked, cl, sl, order, i - 1);
      if c.role == "client" then Attach(before, c, order(c, peers), blocked, Want(c, cl, sl), |LinkedPeers(before, c, peers)|)
      else before
  }

  /** The client loop before `order[j]`. */
  ghost predicate Attaching(out0: seq<Link>, out: seq<Link>, client: Node, peers: seq<Node>, order: seq<Node>,
                            blocked: set<string>, want: int, count: nat, j: int)
    requires 0 <= j <= |order|
  {
    && Attached(out0, out, client, peers, blocked, order, j)
    && count == |LinkedPeers(out, client, peers)| <= Max(|LinkedPeers(out0, client, peers)|, want)
    && Attach(out0, client, order, blocked, want, |LinkedPeers(out0, client, peers)|) ==
         Attach(out, client, order[j..], blocked, want, count)
  }

  lemma {:induction false} AttachingFirst(out0: seq<Link>, client: Node, peers: seq<Node>, order: seq<Node>,
                                          blocked: set<string>, want: int)
    ensures Attaching(out0, out0, client, peers, order, blocked, want, |LinkedPeers(out0, client, peers)|, 0)
  {
    hide Attach;
    assert order[0..] == order;
  }

  lemma {:induction false} AttachingNext(out0: seq<Link>, out: seq<Link>, client: Node, peers: seq<Node>, order: seq<Node>,
                                         blocked: set<string>, want: int, count: nat, j: int)
    requires 0 <= j < |order| && order[j] in peers && count < want
    requires Attaching(out0, out, client, peers, order, blocked, want, count, j)
    ensures if Skipped(out, client, order[j], blocked) then Attaching(out0, out, client, peers, order, blocked, want, count, j + 1)
      else Attaching(out0, out + [NewLink(client, order[j], count)], client, peers, order, blocked, want, count + 1, j + 1)
  {
    hide Attach, Attached, LinkedPeers;
    AttachNext(out, client, order, blocked, want, count, j);
    if Skipped(out, client, order[j], blocked) {
      AttachSkip(out0, out, client, peers, blocked, order, j);
    } else {
      AttachOne(out0, out, client, peers, blocked, order, j, NewLink(client, order[j], count).cost);
      NotLinkedYet(out, client, peers, order[j]);
    }
  }

  lemma {:induction false} AttachingDone(out0: seq<Link>, out: seq<Link>, client: Node, peers: seq<Node>, order: seq<Node>,
                                         blocked: set<string>, want: int, count: nat, j: int)
    requires DistinctIds(peers) && 0 <= j <= |order| && (j == |order| || count >= want)
    requires forall p :: p in peers ==> p in order
    requires Attaching(out0, out, client, peers, order, blocked, want, count, j)
    ensures out0 <= out && forall e :: e in out[|out0|..] ==> ClientLink(client, peers, blocked, e)
    ensures Satisfied(out0, out, client, peers, blocked, want)
    ensures out == Attach(out0, client, order, blocked, want, |LinkedPeers(out0, client, peers)|)
  {
    AttachDone(out0, out, client, peers, blocked, order, j, want);
  }

  /** One client: links it to eligible peers in its own order until it has enough. */
  method AttachClient(out0: seq<Link>, client: Node, peers: seq<Node>, order: seq<Node>, blocked: set<string>, want: int)
    returns (out: seq<Link>)
    requires DistinctIds(peers) && SamePeers(order, peers)
    ensures out0 <= out
    ensures forall e :: e in out[|out0|..] ==> ClientLink(client, peers, blocked, e)
    ensures Satisfied(out0, out, client, peers, blocked, want)
    ensures out == Attach(out0, client, order, blocked, want, |LinkedPeers(out0, client, peers)|)
  {
    SameMembers(order, peers);
    out := out0;
    var connected := NeighborIds(out, client.id);
    var count: nat := CountLinked(client, peers, connected, out);
    AttachingFirst(out0, client, peers, order, blocked, want);
    hide *;
    var j := 0;
    while j < |order| && count < want
      invariant 0 <= j <= |order|
      invariant Attaching(out0, out, client, peers, order, blocked, want, count, j)
      invariant connected == NeighborIds(out, client.id)
    {
      var peer := order[j];
      AttachingNext(out0, out, client, peers, order, blocked, want, count, j);
      SkippedIff(out, client, peer, blocked);
      if !(peer.id == client.id || peer.id in connected || !Unblocked(blocked, client, peer)) {
        var link := NewLink(client, peer, count);
        NewNeighbor(out, client, peer, count);
        out := out + [link];
        connected := connected + {peer.id};
        count := count + 1;
      }
      j := j + 1;
    }
    AttachingDone(out0, out, client, peers, order, blocked, want, count, j);
  }

  lemma {:induction false} SkippedIff(out: seq<Link>, client: Node, peer: Node, blocked: set<string>)
    ensures Skipped(out, client, peer, blocked) <==>
      peer.id == client.id || peer.id in NeighborIds(out, client.id) || !Unblocked(blocked, client, peer)
  {
  }

  lemma {:induction false} NewNeighbor(out: seq<Link>, client: Node, peer: Node, count: nat)
    ensures NeighborIds(out + [NewLink(client, peer, count)], client.id) == NeighborIds(out, client.id) + {peer.id}
  {
    NeighborsGrow(out, NewLink(client, peer, count), client.id);
    assert peer.id == client.id ==> NeighborIds(out, client.id) + {peer.id} + {client.id} == NeighborIds(out, client.id) + {peer.id};
  }

  /** Attaching only appends, and each new link costs a tenth more than the one before. */
  lemma {:induction false} AttachCosts(out: seq<Link>, client: Node, order: seq<Node>, blocked: set<string>, want: int, count: nat)
    ensures var all := Attach(out, client, order, blocked, want, count);
      && out <= all
      && forall k :: |out| <= k < |all| ==> all[k].a == client.id && all[k].cost == 1.0 + (count + k - |out|) as real / 10.0
    decreases |order|
  {
    hide Skipped;
    if order != [] && count < want {
      if Skipped(out, client, order[0], blocked) {
        AttachCosts(out, client, order[1..], blocked, want, count);
      } else {
        AttachCosts(out + [NewLink(client, order[0], count)], client, order[1..], blocked, want, count + 1);
      }
    }
  }

  /** No peer that could be linked is passed over for a later one in the client's order. */
  lemma {:induction false} AttachInOrder(out: seq<Link>, client: Node, order: seq<Node>, blocked: set<string>, want: int, count: nat,
                                         i: nat, j: nat)
    requires DistinctIds(order) && i < j < |order|
    requires order[i].id != client.id && EdgeKey(client.id, order[i].id) !in blocked
    requires order[j].id !in NeighborIds(out, client.id)
    requires order[j].id in NeighborIds(Attach(out, client, order, blocked, want, count), client.id)
    ensures order[i].id in NeighborIds(Attach(out, client, order, blocked, want, count), client.id)
    decreases |order|
  {
    hide NeighborIds, EdgeKey;
    if order[i].id in NeighborIds(out, client.id) {
      AttachCosts(out, client, order, blocked, want, count);
      NeighborsMonotone(out, Attach(out, client, order, blocked, want, count), client.id);
    } else if count < want {
      var rest := order[1..];
      if Skipped(out, client, order[0], blocked) {
        AttachInOrder(out, client, rest, blocked, want, count, i - 1, j - 1);
      } else {
        var more := out + [NewLink(client, order[0], count)];
        NewNeighbor(out, client, order[0], count);
        if i == 0 {
          AttachCosts(more, client, rest, blocked, want, count + 1);
          NeighborsMonotone(more, Attach(more, client, rest, blocked, want, count + 1), client.id);
        } else {
          AttachInOrder(more, client, rest, blocked, want, count + 1, i - 1, j - 1);
        }
      }
    }
  }

  lemma {:induction false} AttachAllNext(out: seq<Link>, nodes: seq<Node>, peers: seq<Node>, blocked: set<string>, cl: int, sl: int,
                                         order: (Node, seq<Node>) -> seq<Node>, i: nat)
    requires i < |nodes|
    ensures var before := AttachAll(out, nodes, peers, blocked, cl, sl, order, i);
      AttachAll(out, nodes, peers, blocked, cl, sl, order, i + 1) ==
        if nodes[i].role == "client"
        then Attach(before, nodes[i], order(nodes[i], peers), blocked, Want(nodes[i], cl, sl), |LinkedPeers(before, nodes[i], peers)|)
        else before
  {
  }

  lemma {:induction false} AttachNext(out: seq<Link>, client: Node, order: seq<Node>, blocked: set<string>, want: int,
                                      count: nat, j: nat)
    requires j < |order| && count < want
    ensures Attach(out, client, order[j..], blocked, want, count) ==
      if Skipped(out, client, order[j], blocked) then Attach(out, client, order[j + 1..], blocked, want, count)
      else Attach(out + [NewLink(client, order[j], count)], client, order[j + 1..], blocked, want, count + 1)
  {
    hide Skipped;
    assert order[j..][1..] == order[j + 1..];
  }

  lemma NotLinkedYet(out: seq<Link>, client: Node, peers: seq<Node>, peer: Node)
    requires peer.id !in NeighborIds(out, client.id)
    ensures peer.id !in LinkedPeers(out, client, peers)
  {
  }

  lemma {:induction false} AttachDone(out0: seq<Link>, out: seq<Link>, client: Node, peers: seq<Node>,
                                      blocked: set<string>, order: seq<Node>, j: int, want: int)
    requires 0 <= j <= |order| && Attached(out0, out, client, peers, blocked, order, j)
    requires forall p :: p in peers ==> p in order
    requires |LinkedPeers(out, client, peers)| <= Max(|LinkedPeers(out0, client, peers)|, want)
    requires j == |order| || |LinkedPeers(out, client, peers)| >= want
    ensures Satisfied(out0, out, client, peers, blocked, want)
  {
    var l0, l, all := LinkedPeers(out0, client, peers), LinkedPeers(out, client, peers),
                      EligiblePeers(out0, client, peers, blocked);
    SubsetSize(l0, l);
    SubsetSize(l, all);
    if |l| < want {
      assert order[..j] == order;
      assert all <= l;
      assert all == l;
    }
  }

  // ----- All clients -----

  /** No client is among the peers, as when the peers are superpeers. */
  ghost predicate PeersApart(nodes: seq<Node>, peers: seq<Node>) {
    forall c, p :: c in nodes && c.role == "client" && p in peers ==> c.id != p.id
  }

  /** An attached link touches no other client's peer links when clients are no peers. */
  lemma {:induction false} OthersUntouched(out0: seq<Link>, out: seq<Link>, client: Node, other: Node, peers: seq<Node>,
                                           blocked: set<string>)
    requires out0 <= out && forall e :: e in out[|out0|..] ==> ClientLink(client, peers, blocked, e)
    requires other.id != client.id
    requires forall p :: p in peers ==> p.id != other.id && p.id != client.id
    ensures Untouched(out0, out, other, peers, blocked)
  {
    assert out == out0 + out[|out0|..];
    forall e | e in out && (e.a == other.id || e.b == other.id)
      ensures e in out0
    {
      assert e in out0 || ClientLink(client, peers, blocked, e);
    }
    assert forall e :: e in out0 ==> e in out;
    assert NeighborIds(out, other.id) == NeighborIds(out0, other.id);
  }

  lemma {:induction false} PeersMonotone(out0: seq<Link>, out: seq<Link>, client: Node, peers: seq<Node>, blocked: set<string>)
    requires out0 <= out
    ensures |LinkedPeers(out0, client, peers)| <= |LinkedPeers(out, client, peers)|
    ensures |EligiblePeers(out0, client, peers, blocked)| <= |EligiblePeers(out, client, peers, blocked)|
  {
    NeighborsMonotone(out0, out, client.id);
    SubsetSize(LinkedPeers(out0, client, peers), LinkedPeers(out, client, peers));
    SubsetSize(EligiblePeers(out0, client, peers, blocked), EligiblePeers(out, client, peers, blocked));
  }

  /** `client` has at least the links it wants or could get. */
  ghost predicate Served(out0: seq<Link>, out: seq<Link>, client: Node, peers: seq<Node>, blocked: set<string>, want: int) {
    |LinkedPeers(out, client, peers)| >= Min(want, |EligiblePeers(out0, client, peers, blocked)|)
  }

  /** A link added for some client. */
  ghost predicate AddedLink(nodes: seq<Node>, peers: seq<Node>, blocked: set<string>, e: Link) {
    exists c :: c in nodes && c.role == "client" && ClientLink(c, peers, blocked, e)
  }

  /** The state of the client loop before `nodes[i]`. */
  ghost predicate ServedUpTo(out0: seq<Link>, out: seq<Link>, nodes: seq<Node>, peers: seq<Node>, blocked: set<string>,
                             cl: int, sl: int, i: int)
    requires 0 <= i <= |nodes|
  {
    && out0 <= out
    && (forall e :: e in out[|out0|..] ==> AddedLink(nodes, peers, blocked, e))
    && (forall j :: 0 <= j < i && nodes[j].role == "client" ==>
          Served(out0, out, nodes[j], peers, blocked, Want(nodes[j], cl, sl)))
  }

  ghost predicate Untouched(out0: seq<Link>, out: seq<Link>, client: Node, peers: seq<Node>, blocked: set<string>) {
    && LinkedPeers(out, client, peers) == LinkedPeers(out0, client, peers)
    && EligiblePeers(out, client, peers, blocked) == EligiblePeers(out0, client, peers, blocked)
  }

  /** With superpeers as peers: the clients done are exactly satisfied, the others untouched. */
  ghost predicate ExactUpTo(out0: seq<Link>, out: seq<Link>, nodes: seq<Node>, peers: seq<Node>, blocked: set<string>,
                            cl: int, sl: int, i: int)
    requires 0 <= i <= |nodes|
  {
    forall j :: 0 <= j < |nodes| && nodes[j].role == "client" ==>
      if j < i then Satisfied(out0, out, nodes[j], peers, blocked, Want(nodes[j], cl, sl))
      else Untouched(out0, out, nodes[j], peers, blocked)
  }

  lemma {:induction false} ServeNext(out0: seq<Link>, out: seq<Link>, out': seq<Link>, nodes: seq<Node>, peers: seq<Node>,
                                     blocked: set<string>, cl: int, sl: int, i: int)
    requires 0 <= i < |nodes| && nodes[i].role == "client"
    requires ServedUpTo(out0, out, nodes, peers, blocked, cl, sl, i)
    requires out <= out' && forall e :: e in out'[|out|..] ==> ClientLink(nodes[i], peers, blocked, e)
    requires Satisfied(out, out', nodes[i], peers, blocked, Want(nodes[i], cl, sl))
    ensures ServedUpTo(out0, out', nodes, peers, blocked, cl, sl, i + 1)
  {
    forall e | e in out'[|out0|..]
      ensures AddedLink(nodes, peers, blocked, e)
    {
      assert out'[|out0|..] == out[|out0|..] + out'[|out|..];
      if e in out'[|out|..] {
        assert ClientLink(nodes[i], peers, blocked, e);
      }
    }
    forall j | 0 <= j < i + 1 && nodes[j].role == "client"
      ensures Served(out0, out', nodes[j], peers, blocked, Want(nodes[j], cl, sl))
    {
      PeersMonotone(out, out', nodes[j], peers, blocked);
      PeersMonotone(out0, out, nodes[j], peers, blocked);
    }
  }

  lemma {:induction false} ExactNext(out0: seq<Link>, out: seq<Link>, out': seq<Link>, nodes: seq<Node>, peers: seq<Node>,
                                     blocked: set<string>, cl: int, sl: int, i: int)
    requires 0 <= i < |nodes| && nodes[i].role == "client" && DistinctIds(nodes) && PeersApart(nodes, peers)
    requires ExactUpTo(out0, out, nodes, peers, blocked, cl, sl, i)
    requires out <= out' && forall e :: e in out'[|out|..] ==> ClientLink(nodes[i], peers, blocked, e)
    requires Satisfied(out, out', nodes[i], peers, blocked, Want(nodes[i], cl, sl))
    ensures ExactUpTo(out0, out', nodes, peers, blocked, cl, sl, i + 1)
  {
    forall j | 0 <= j < |nodes| && nodes[j].role == "client"
      ensures if j < i + 1 then Satisfied(out0, out', nodes[j], peers, blocked, Want(nodes[j], cl, sl))
              else Untouched(out0, out', nodes[j], peers, blocked)
    {
      hide LinkedPeers, EligiblePeers, ClientLink;
      if j != i {
        assert nodes[j] in nodes && nodes[i] in nodes;
        OthersUntouched(out, out', nodes[i], nodes[j], peers, blocked);
      }
    }
  }

  /** Attaches every client; `order` is its telemetry preference among the peers. */
  method AddAutomaticClientLinks(out0: seq<Link>, nodes: seq<Node>, peers: seq<Node>, blocked: set<string>,
                                 clientLinks: int, symmetricLinks: int, order: (Node, seq<Node>) -> seq<Node>)
    returns (out: seq<Link>)
    requires DistinctIds(nodes) && DistinctIds(peers) && forall c :: SamePeers(order(c, peers), peers)
    ensures ServedUpTo(out0, out, nodes, peers, blocked, clientLinks, symmetricLinks, |nodes|)
    ensures PeersApart(nodes, peers) ==> ExactUpTo(out0, out, nodes, peers, blocked, clientLinks, symmetricLinks, |nodes|)
    ensures out ==
      if peers == [] then out0 else AttachAll(out0, nodes, peers, blocked, clientLinks, symmetricLinks, order, |nodes|)
  {
    out := out0;
    if |peers| == 0 {
      return;
    }
    assert AttachAll(out0, nodes, peers, blocked, clientLinks, symmetricLinks, order, 0) == out0;
    for i := 0 to |nodes|
      invariant ServedUpTo(out0, out, nodes, peers, blocked, clientLinks, symmetricLinks, i)
      invariant PeersApart(nodes, peers) ==> ExactUpTo(out0, out, nodes, peers, blocked, clientLinks, symmetricLinks, i)
      invariant out == AttachAll(out0, nodes, peers, blocked, clientLinks, symmetricLinks, order, i)
    {
      AttachAllNext(out0, nodes, peers, blocked, clientLinks, symmetricLinks, order, i);
      if nodes[i].role == "client" {
        hide ServedUpTo, ExactUpTo, Satisfied, ClientLink, Attach, AttachAll, LinkedPeers;
        var want := Want(nodes[i], clientLinks, symmetricLinks);
        var next := AttachClient(out, nodes[i], peers, order(nodes[i], peers), blocked, want);
        ServeNext(out0, out, next, nodes, peers, blocked, clientLinks, symmetricLinks, i);
        if PeersApart(nodes, peers) {
          ExactNext(out0, out, next, nodes, peers, blocked, clientLinks, symmetricLinks, i);
        }
        out := next;
      }
    }
  }
}
