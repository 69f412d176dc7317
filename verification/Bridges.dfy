/** Choosing the pair of nodes that joins two components. */
module Bridges {
  import opened Overlay
  import opened Graph

  /** The directory entry of an online node, as far as link building reads it. */
  datatype Node = Node(id: NodeId, role: string, natType: string, capacity: int)

  function Ids(nodes: seq<Node>): set<NodeId> {
    set n | n in nodes :: n.id
  }

  ghost predicate DistinctIds(nodes: seq<Node>) {
    forall i, j :: 0 <= i < j < |nodes| ==> nodes[i].id != nodes[j].id
  }

  function Tier(n: Node): nat {
    if n.role == "superpeer" then 0 else 1
  }

  /** Weighted rendezvous score over an arbitrary hash of the pair. */
  function RendezvousScore(hash: string -> nat, client: NodeId, peer: NodeId, capacity: int): nat {
    hash(client + ":" + peer) / (if capacity < 1 then 1 else capacity)
  }

  /** What a candidate pair is ranked by. */
  datatype Rank = Rank(tier: nat, score: nat, pair: string)

  function PairRank(hash: string -> nat, x: Node, y: Node): Rank {
    var s1 := RendezvousScore(hash, x.id, y.id, x.capacity);
    var s2 := RendezvousScore(hash, y.id, x.id, y.capacity);
    Rank(Tier(x) + Tier(y), if s2 < s1 then s2 else s1, x.id + "\0" + y.id)
  }

  predicate Better(p: Rank, q: Rank) {
    p.tier < q.tier || (p.tier == q.tier && (p.score < q.score || (p.score == q.score && Less(p.pair, q.pair))))
  }

  /** How many of the two are superpeers. */
  function Superpeering(x: Node, y: Node): nat {
    if x.role == "superpeer" && y.role == "superpeer" then 2 else if x.role != "superpeer" && y.role != "superpeer" then 0 else 1
  }

  /** The smaller of the two weighted hashes; each capacity divides its own, and less than 1 counts as 1. */
  function LowerScore(hash: string -> nat, x: Node, y: Node): nat {
    var a := if x.capacity > 1 then hash(x.id + ":" + y.id) / x.capacity else hash(x.id + ":" + y.id);
    var b := if y.capacity > 1 then hash(y.id + ":" + x.id) / y.capacity else hash(y.id + ":" + x.id);
    if a <= b then a else b
  }

  /** `(u, v)` bridges as well as `(x, y)`: by superpeers, then by score, then by the IDs in order. */
  predicate AtLeastAsGood(hash: string -> nat, u: Node, v: Node, x: Node, y: Node) {
    || Superpeering(u, v) > Superpeering(x, y)
    || (Superpeering(u, v) == Superpeering(x, y)
        && (LowerScore(hash, u, v) < LowerScore(hash, x, y)
            || (LowerScore(hash, u, v) == LowerScore(hash, x, y)
                && !Less(x.id + "\0" + y.id, u.id + "\0" + v.id))))
  }

  /** The rank that the code compares says just that. */
  lemma {:induction false} RankingMeans(hash: string -> nat, x: Node, y: Node, u: Node, v: Node)
    ensures !Better(PairRank(hash, x, y), PairRank(hash, u, v)) <==> AtLeastAsGood(hash, u, v, x, y)
  {
    ScoreIsLower(hash, x, y);
    ScoreIsLower(hash, u, v);
    hide Less, RendezvousScore, LowerScore;
  }

  lemma {:induction false} ScoreIsLower(hash: string -> nat, x: Node, y: Node)
    ensures PairRank(hash, x, y).score == LowerScore(hash, x, y)
    ensures PairRank(hash, x, y).tier == 2 - Superpeering(x, y)
    ensures PairRank(hash, x, y).pair == x.id + "\0" + y.id
  {
  }

  lemma {:induction false} BetterIsStrict(p: Rank, q: Rank, r: Rank)
    ensures !Better(p, p)
    ensures Better(p, q) && Better(q, r) ==> Better(p, r)
  {
    LessTotal(p.pair, p.pair);
    if Less(p.pair, q.pair) && Less(q.pair, r.pair) {
      LessTransitive(p.pair, q.pair, r.pair);
    }
  }

  predicate Unblocked(blocked: set<string>, x: Node, y: Node) {
    EdgeKey(x.id, y.id) !in blocked
  }

  /** Some pair across the two components is not blocked. */
  ghost predicate Bridgeable(a: seq<Node>, b: seq<Node>, blocked: set<string>) {
    exists x, y :: x in a && y in b && Unblocked(blocked, x, y)
  }

  datatype Choice = None | Best(x: Node, y: Node)

  /** `c` is the best of the unblocked ones among `pairs`. */
  ghost predicate IsBest(hash: string -> nat, blocked: set<string>, pairs: iset<(Node, Node)>, c: Choice) {
    && (c.Best? ==> (c.x, c.y) in pairs && Unblocked(blocked, c.x, c.y))
    && (forall p :: p in pairs && Unblocked(blocked, p.0, p.1) ==>
          c.Best? && !Better(PairRank(hash, p.0, p.1), PairRank(hash, c.x, c.y)))
  }

  function Offer(hash: string -> nat, blocked: set<string>, c: Choice, x: Node, y: Node): Choice {
    if !Unblocked(blocked, x, y) then c
    else if c.None? || Better(PairRank(hash, x, y), PairRank(hash, c.x, c.y)) then Best(x, y)
    else c
  }

  lemma {:induction false} OfferKeepsBest(hash: string -> nat, blocked: set<string>, pairs: iset<(Node, Node)>,
                                          c: Choice, x: Node, y: Node)
    requires IsBest(hash, blocked, pairs, c)
    ensures IsBest(hash, blocked, pairs + iset{(x, y)}, Offer(hash, blocked, c, x, y))
  {
    var c' := Offer(hash, blocked, c, x, y);
    forall p | p in pairs + iset{(x, y)} && Unblocked(blocked, p.0, p.1)
      ensures c'.Best? && !Better(PairRank(hash, p.0, p.1), PairRank(hash, c'.x, c'.y))
    {
      BetterIsStrict(PairRank(hash, p.0, p.1), PairRank(hash, x, y), PairRank(hash, x, y));
      if c.Best? {
        BetterIsStrict(PairRank(hash, p.0, p.1), PairRank(hash, x, y), PairRank(hash, c.x, c.y));
      }
    }
  }

  /**
   * The best unblocked pair across two components: superpeers first, then the
   * lower rendezvous score, then the smaller pair of IDs. Fails exactly when
   * every pair is blocked.
   */
  method BridgeNodes(hash: string -> nat, a: seq<Node>, b: seq<Node>, blocked: set<string>)
    returns (best: Choice)
    ensures best.Best? <==> Bridgeable(a, b, blocked)
    ensures best.Best? ==>
      && best.x in a && best.y in b && Unblocked(blocked, best.x, best.y)
      && forall x, y :: x in a && y in b && Unblocked(blocked, x, y) ==>
           AtLeastAsGood(hash, best.x, best.y, x, y)
  {
    best := None;
    ghost var pairs: iset<(Node, Node)> := iset{};
    for i := 0 to |a|
      invariant pairs == iset x, y | x in a[..i] && y in b :: (x, y)
      invariant IsBest(hash, blocked, pairs, best)
    {
      for j := 0 to |b|
        invariant pairs == iset x, y | (x in a[..i] && y in b) || (x == a[i] && y in b[..j]) :: (x, y)
        invariant IsBest(hash, blocked, pairs, best)
      {
        hide IsBest;
        OfferKeepsBest(hash, blocked, pairs, best, a[i], b[j]);
        best := Offer(hash, blocked, best, a[i], b[j]);
        pairs := pairs + iset{(a[i], b[j])};
        assert b[..j + 1] == b[..j] + [b[j]];
      }
      assert a[..i + 1] == a[..i] + [a[i]] && b[..|b|] == b;
    }
    assert a[..|a|] == a;
    forall x, y | x in a && y in b && Unblocked(blocked, x, y)
      ensures best.Best? && AtLeastAsGood(hash, best.x, best.y, x, y)
    {
      assert (x, y) in pairs;
      RankingMeans(hash, x, y, best.x, best.y);
    }
  }
}
