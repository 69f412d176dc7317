/** Strings as ordered keys, and connectivity of the overlay graph on the coordinator. */
module Graph {
  import opened Overlay

  // ----- Go's string order -----

  predicate Less(a: string, b: string) {
    b != [] && (a == [] || a[0] < b[0] || (a[0] == b[0] && Less(a[1..], b[1..])))
  }

  /** The order of texts: by the first character that differs, and a proper beginning comes before the whole. */
  lemma {:induction false} LessIff(a: string, b: string)
    ensures Less(a, b) <==> exists k :: 0 <= k <= |a| && k < |b| && a[..k] == b[..k] && (k == |a| || a[k] < b[k])
  {
    if a == [] {
      assert b != [] ==> a[..0] == b[..0];
    } else if b != [] {
      if a[0] != b[0] {
        assert a[..0] == b[..0];
        forall k | 0 < k <= |a| && k < |b|
          ensures a[..k] != b[..k]
        {
          assert a[..k][0] == a[0] && b[..k][0] == b[0];
        }
      } else {
        var x, y := a[1..], b[1..];
        LessIff(x, y);
        if k :| 0 <= k <= |x| && k < |y| && x[..k] == y[..k] && (k == |x| || x[k] < y[k]) {
          assert a[..k + 1] == [a[0]] + x[..k] && b[..k + 1] == [b[0]] + y[..k];
        }
        if k :| 0 <= k <= |a| && k < |b| && a[..k] == b[..k] && (k == |a| || a[k] < b[k]) {
          assert k > 0;
          assert x[..k - 1] == a[..k][1..] && y[..k - 1] == b[..k][1..];
        }
      }
    }
  }

  lemma LessTotal(a: string, b: string)
    ensures !Less(a, a)
    ensures Less(a, b) || a == b || Less(b, a)
    ensures !(Less(a, b) && Less(b, a))
  {
    if a != [] && b != [] {
      LessTotal(a[1..], b[1..]);
      assert a == [a[0]] + a[1..] && b == [b[0]] + b[1..];
    }
  }

  lemma LessTransitive(a: string, b: string, c: string)
    requires Less(a, b) && Less(b, c)
    ensures Less(a, c)
  {
    if a != [] && a[0] == b[0] == c[0] {
      LessTransitive(a[1..], b[1..], c[1..]);
    }
  }

  // ----- Edge keys -----

  /** The key of an unordered pair of nodes, as used for blocked pairs. */
  function EdgeKey(a: NodeId, b: NodeId): string {
    if Less(b, a) then b + ":" + a else a + ":" + b
  }

  predicate Plain(id: NodeId) {
    ':' !in id
  }

  /** A key names its pair: for IDs without a colon no two pairs share one. */
  lemma EdgeKeyNamesPair(a: NodeId, b: NodeId, c: NodeId, d: NodeId)
    requires Plain(a) && Plain(b) && Plain(c) && Plain(d)
    ensures EdgeKey(a, b) == EdgeKey(c, d) <==> (a == c && b == d) || (a == d && b == c)
  {
    LessTotal(a, b);
    LessTotal(c, d);
    if EdgeKey(a, b) == EdgeKey(c, d) {
      var (x, y) := if Less(b, a) then (b, a) else (a, b);
      var (u, v) := if Less(d, c) then (d, c) else (c, d);
      JoinInjective(x, y, u, v);
    }
  }

  lemma {:induction false} JoinInjective(x: string, y: string, u: string, v: string)
    requires Plain(x) && Plain(u) && x + ":" + y == u + ":" + v
    ensures x == u && y == v
  {
    var s, t := x + ":" + y, u + ":" + v;
    assert s[|x|] == ':' && t[|u|] == ':';
    assert forall i :: 0 <= i < |x| ==> s[i] == x[i] && s[i] != ':';
    assert forall i :: 0 <= i < |u| ==> t[i] == u[i] && t[i] != ':';
    assert |x| == |u|;
    assert x == s[..|x|] && u == t[..|u|];
    assert y == s[|x| + 1..] && v == t[|u| + 1..];
  }

  // ----- Connectivity -----

  ghost predicate Linked(edges: seq<Link>, u: NodeId, v: NodeId) {
    exists e :: e in edges && Connects(e, u, v)
  }

  ghost predicate IsPath(edges: seq<Link>, ids: set<NodeId>, p: seq<NodeId>) {
    && p != []
    && (forall i :: 0 <= i < |p| ==> p[i] in ids)
    && (forall i :: 0 < i < |p| ==> Linked(edges, p[i - 1], p[i]))
  }

  /** Some path of edges among `ids` leads from `u` to `v`. */
  ghost predicate Connected(edges: seq<Link>, ids: set<NodeId>, u: NodeId, v: NodeId) {
    exists p :: IsPath(edges, ids, p) && p[0] == u && p[|p| - 1] == v
  }

  ghost predicate AllConnected(edges: seq<Link>, ids: set<NodeId>) {
    forall u, v :: u in ids && v in ids ==> Connected(edges, ids, u, v)
  }

  /** No edge among `ids` leaves `s`. */
  ghost predicate Sealed(edges: seq<Link>, ids: set<NodeId>, s: set<NodeId>) {
    forall e :: e in edges && e.a in ids && e.b in ids ==> (e.a in s <==> e.b in s)
  }

  /** No sealed set separates `u` from `v`: connectivity seen through cuts. */
  ghost predicate Inseparable(edges: seq<Link>, ids: set<NodeId>, u: NodeId, v: NodeId) {
    forall s :: Sealed(edges, ids, s) && u in s ==> v in s
  }

  /** Paths and cuts agree. */
  lemma PathsAreCuts(edges: seq<Link>, ids: set<NodeId>, u: NodeId, v: NodeId)
    requires u in ids && v in ids
    ensures Connected(edges, ids, u, v) <==> Inseparable(edges, ids, u, v)
  {
    if Connected(edges, ids, u, v) {
      var p :| IsPath(edges, ids, p) && p[0] == u && p[|p| - 1] == v;
      forall s | Sealed(edges, ids, s) && u in s
        ensures v in s
      {
        PathStaysInside(edges, ids, s, p, |p| - 1);
      }
    } else {
      var reached := set x | x in ids && Connected(edges, ids, u, x);
      ReachedIsSealed(edges, ids, u, reached);
      assert IsPath(edges, ids, [u]);
    }
  }

  lemma {:induction false} PathStaysInside(edges: seq<Link>, ids: set<NodeId>, s: set<NodeId>, p: seq<NodeId>, i: nat)
    requires IsPath(edges, ids, p) && Sealed(edges, ids, s) && p[0] in s && i < |p|
    ensures p[i] in s
  {
    if i > 0 {
      PathStaysInside(edges, ids, s, p, i - 1);
      assert Linked(edges, p[i - 1], p[i]);
    }
  }

  lemma {:induction false} ReachedIsSealed(edges: seq<Link>, ids: set<NodeId>, u: NodeId, reached: set<NodeId>)
    requires forall x :: x in reached <==> x in ids && Connected(edges, ids, u, x)
    ensures Sealed(edges, ids, reached)
  {
    forall e | e in edges && e.a in ids && e.b in ids
      ensures e.a in reached <==> e.b in reached
    {
      if e.a in reached {
        Extended(edges, ids, u, e.a, e.b);
      }
      if e.b in reached {
        Extended(edges, ids, u, e.b, e.a);
      }
    }
  }

  lemma {:induction false} Extended(edges: seq<Link>, ids: set<NodeId>, u: NodeId, x: NodeId, y: NodeId)
    requires Connected(edges, ids, u, x) && Linked(edges, x, y) && y in ids
    ensures Connected(edges, ids, u, y)
  {
    var p :| IsPath(edges, ids, p) && p[0] == u && p[|p| - 1] == x;
    var q := p + [y];
    forall i | 0 < i < |q|
      ensures Linked(edges, q[i - 1], q[i])
    {
      if i < |p| {
        assert Linked(edges, p[i - 1], p[i]);
      }
    }
    assert IsPath(edges, ids, q);
  }

  // ----- Neighbours -----

  function NeighborIds(out: seq<Link>, id: NodeId): set<NodeId> {
    (set e | e in out && e.a == id :: e.b) + (set e | e in out && e.b == id :: e.a)
  }

  lemma {:induction false} SubsetSize<T>(a: set<T>, b: set<T>)
    requires a <= b
    ensures |a| <= |b|
  {
    assert b == a + (b - a);
  }
}
