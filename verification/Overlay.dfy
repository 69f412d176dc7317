/** The overlay graph that the coordinator publishes and every node routes over. */
module Overlay {

  /** A node ID. The program uses 32 lower-case hex digits; the empty string stands for "none". */
  type NodeId = string

  /** The ID of one symmetric-NAT rendezvous. */
  type Session = string

  /** An undirected overlay link (`link` on the coordinator, `edge` on a node). */
  datatype Link = Link(a: NodeId, b: NodeId, cost: real)

  predicate Connects(l: Link, u: NodeId, v: NodeId) {
    (l.a == u && l.b == v) || (l.a == v && l.b == u)
  }

  /** Some link of cost `c` leads from `u` to `v`. */
  ghost predicate Joined(links: seq<Link>, u: NodeId, v: NodeId, c: real) {
    exists l :: l in links && Connects(l, u, v) && l.cost == c
  }

  ghost predicate NonNegative(links: seq<Link>) {
    forall l :: l in links ==> l.cost >= 0.0
  }

  ghost predicate Positive(links: seq<Link>) {
    forall l :: l in links ==> l.cost > 0.0
  }

  ghost predicate Named(links: seq<Link>) {
    forall l :: l in links ==> l.a != "" && l.b != ""
  }
}
