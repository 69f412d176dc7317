/** Walks through the overlay, the reference against which route tables are judged. */
module Walks {
  import opened Overlay

  /**
   * What one route search may use: the links, the searching node, and the
   * neighbours a step out of that node may go to. Steps out of any other node
   * are not restricted.
   */
  datatype View = View(links: seq<Link>, self: NodeId, allowed: set<NodeId>)

  /** A walk that leaves the searching node, listed from its last step back. */
  datatype Walk = Start | Extend(init: Walk, to: NodeId, step: real)

  function End(g: View, w: Walk): NodeId {
    match w
    case Start => g.self
    case Extend(_, to, _) => to
  }

  function Cost(w: Walk): real {
    match w
    case Start => 0.0
    case Extend(init, _, step) => Cost(init) + step
  }

  function Length(w: Walk): nat {
    match w
    case Start => 0
    case Extend(init, _, _) => Length(init) + 1
  }

  function FirstHop(w: Walk): NodeId
    requires w.Extend?
  {
    if w.init.Start? then w.to else FirstHop(w.init)
  }

  ghost predicate Arc(g: View, u: NodeId, v: NodeId, c: real) {
    Joined(g.links, u, v, c) && (u == g.self ==> v in g.allowed)
  }

  ghost predicate IsWalk(g: View, w: Walk) {
    match w
    case Start => true
    case Extend(init, to, step) => IsWalk(g, init) && Arc(g, End(g, init), to, step)
  }

  ghost predicate WalkTo(g: View, w: Walk, v: NodeId) {
    IsWalk(g, w) && End(g, w) == v
  }

  ghost predicate Reachable(g: View, v: NodeId) {
    exists w :: WalkTo(g, w, v)
  }

  /** No walk to `v` is cheaper than `w`. */
  ghost predicate Shortest(g: View, w: Walk, v: NodeId) {
    WalkTo(g, w, v) && forall other :: WalkTo(g, other, v) ==> Cost(w) <= Cost(other)
  }

  /** `hop` is the first hop of some cheapest walk to `v`. */
  ghost predicate BestFirstHop(g: View, v: NodeId, hop: NodeId) {
    exists w :: Shortest(g, w, v) && w.Extend? && FirstHop(w) == hop
  }

  lemma {:induction false} FirstHopAllowed(g: View, w: Walk)
    requires IsWalk(g, w) && w.Extend?
    ensures FirstHop(w) in g.allowed
  {
    if !w.init.Start? {
      FirstHopAllowed(g, w.init);
    }
  }
}
