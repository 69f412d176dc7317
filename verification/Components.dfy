/** Connected components by union-find with path halving. */
module Components {
  import opened Overlay
  import opened Graph

  // ----- The simple form: a class name per node -----

  type Classes = map<NodeId, NodeId>

  function Singletons(ids: set<NodeId>): Classes {
    map x | x in ids :: x
  }

  function Merge(root: Classes, ra: NodeId, rb: NodeId): Classes {
    map x | x in root :: if root[x] == ra then rb else root[x]
  }

  function Absorb(root: Classes, e: Link): Classes {
    if e.a in root && e.b in root then Merge(root, root[e.a], root[e.b]) else root
  }

  /** Relabels whole classes, edge by edge; edges to unknown nodes are skipped. */
  function QuickFind(ids: set<NodeId>, edges: seq<Link>): Classes {
    if edges == [] then Singletons(ids)
    else Absorb(QuickFind(ids, edges[..|edges| - 1]), edges[|edges| - 1])
  }

  lemma QuickFindKeys(ids: set<NodeId>, edges: seq<Link>)
    ensures QuickFind(ids, edges).Keys == ids
    ensures forall x :: x in ids ==>
      var r := QuickFind(ids, edges); r[x] in ids && r[r[x]] == r[x]
  {
    if edges != [] {
      QuickFindKeys(ids, edges[..|edges| - 1]);
    }
  }

  /** The two ends of every edge share a class, so a class is never left by an edge. */
  lemma ClassesAreSealed(ids: set<NodeId>, edges: seq<Link>)
    ensures QuickFind(ids, edges).Keys == ids
    ensures forall e :: e in edges && e.a in ids && e.b in ids ==>
      QuickFind(ids, edges)[e.a] == QuickFind(ids, edges)[e.b]
  {
    QuickFindKeys(ids, edges);
    if edges != [] {
      ClassesAreSealed(ids, edges[..|edges| - 1]);
      assert edges == edges[..|edges| - 1] + [edges[|edges| - 1]];
    }
  }

  /** Nodes of one class cannot be separated. */
  lemma ClassesHoldTogether(ids: set<NodeId>, edges: seq<Link>, x: NodeId, y: NodeId)
    requires x in ids && y in ids
    requires QuickFind(ids, edges).Keys == ids
    requires QuickFind(ids, edges)[x] == QuickFind(ids, edges)[y]
    ensures Inseparable(edges, ids, x, y)
    decreases |edges|, 0
  {
    if edges != [] {
      var e, init := edges[|edges| - 1], edges[..|edges| - 1];
      assert edges == init + [e];
      QuickFindKeys(ids, init);
      var r := QuickFind(ids, init);
      forall s | Sealed(edges, ids, s) && x in s
        ensures y in s
      {
        assert Sealed(init, ids, s);
        SealedClass(ids, init, s);
        if r[x] != r[y] {
          assert e in edges;
        }
      }
    }
  }

  /** A sealed set holds whole classes. */
  lemma SealedClass(ids: set<NodeId>, edges: seq<Link>, s: set<NodeId>)
    requires Sealed(edges, ids, s) && QuickFind(ids, edges).Keys == ids
    ensures forall x, y :: x in ids && y in ids && QuickFind(ids, edges)[x] == QuickFind(ids, edges)[y] && x in s ==> y in s
    decreases |edges|, 1
  {
    forall x, y | x in ids && y in ids && QuickFind(ids, edges)[x] == QuickFind(ids, edges)[y] && x in s
      ensures y in s
    {
      ClassesHoldTogether(ids, edges, x, y);
    }
  }

  /** The classes are exactly the connected components. */
  lemma ClassesAreComponents(ids: set<NodeId>, edges: seq<Link>, x: NodeId, y: NodeId)
    requires x in ids && y in ids
    ensures QuickFind(ids, edges).Keys == ids
    ensures QuickFind(ids, edges)[x] == QuickFind(ids, edges)[y] <==> Connected(edges, ids, x, y)
  {
    ClassesAreSealed(ids, edges);
    PathsAreCuts(edges, ids, x, y);
    var r := QuickFind(ids, edges);
    if r[x] == r[y] {
      ClassesHoldTogether(ids, edges, x, y);
    } else {
      var s := set z | z in ids && r[z] == r[x];
      assert Sealed(edges, ids, s);
      assert x in s && y !in s;
    }
  }

  // ----- The fast form: a parent forest with path halving -----

  type Parents = map<NodeId, NodeId>

  /** `x` hangs below a node of its own class and smaller rank, or is the class root. */
  ghost predicate Hung(parent: Parents, root: Classes, rank: map<NodeId, nat>, x: NodeId) {
    && x in parent && x in root && x in rank
    && parent[x] in parent && parent[x] in root && parent[x] in rank
    && root[parent[x]] == root[x]
    && (if parent[x] == x then root[x] == x else root[x] != x && rank[parent[x]] < rank[x])
  }

  /** An acyclic forest whose trees are the classes of `root`. */
  ghost predicate Forest(parent: Parents, root: Classes, rank: map<NodeId, nat>) {
    && parent.Keys == root.Keys == rank.Keys
    && (forall x {:trigger Hung(parent, root, rank, x)} :: x in parent ==> Hung(parent, root, rank, x))
  }

  /** `find`: walks to the root, halving the path on the way. */
  method Find(parent0: Parents, x0: NodeId, ghost root: Classes, ghost rank: map<NodeId, nat>)
    returns (parent: Parents, r: NodeId)
    requires Forest(parent0, root, rank) && x0 in parent0
    ensures Forest(parent, root, rank)
    ensures r == root[x0] && r in root && root[r] == r
  {
    parent := parent0;
    var x := x0;
    assert Hung(parent, root, rank, x);
    while parent[x] != x
      invariant Forest(parent, root, rank) && x in parent && root[x] == root[x0]
      invariant Hung(parent, root, rank, x)
      decreases rank[x]
    {
      assert Hung(parent, root, rank, parent[x]);
      HalvingKeeps(parent, root, rank, x);
      parent := parent[x := parent[parent[x]]];
      x := parent[x];
      assert Hung(parent, root, rank, x);
    }
    r := x;
  }

  lemma {:induction false} HalvingKeeps(parent: Parents, root: Classes, rank: map<NodeId, nat>, x: NodeId)
    requires Forest(parent, root, rank)
    requires Hung(parent, root, rank, x) && Hung(parent, root, rank, parent[x])
    ensures Forest(parent[x := parent[parent[x]]], root, rank)
  {
    var parent' := parent[x := parent[parent[x]]];
    forall y | y in parent'
      ensures Hung(parent', root, rank, y)
    {
      assert Hung(parent, root, rank, y);
    }
  }

  /** The ranks after hanging `ra` below `rb`: the whole tree of `ra` moves above `rb`. */
  ghost function Raised(root: Classes, rank: map<NodeId, nat>, ra: NodeId, rb: NodeId): map<NodeId, nat>
    requires root.Keys == rank.Keys && rb in rank
  {
    map x | x in rank :: if root[x] == ra then rank[x] + rank[rb] + 1 else rank[x]
  }

  lemma {:induction false} UnionHangs(parent: Parents, root: Classes, rank: map<NodeId, nat>, ra: NodeId, rb: NodeId, y: NodeId)
    requires parent.Keys == root.Keys == rank.Keys
    requires ra in root && rb in root && root[ra] == ra && root[rb] == rb && ra != rb
    requires Hung(parent, root, rank, y) && (y == ra ==> parent[y] == y)
    ensures Hung(parent[ra := rb], Merge(root, ra, rb), Raised(root, rank, ra, rb), y)
  {
  }

  /** Hanging one root below another merges their classes. */
  lemma {:induction false} UnionKeeps(parent: Parents, root: Classes, rank: map<NodeId, nat>, ra: NodeId, rb: NodeId)
    returns (rank': map<NodeId, nat>)
    requires Forest(parent, root, rank)
    requires ra in root && rb in root && root[ra] == ra && root[rb] == rb && ra != rb
    ensures Forest(parent[ra := rb], Merge(root, ra, rb), rank')
  {
    rank' := Raised(root, rank, ra, rb);
    assert rank'.Keys == rank.Keys;
    hide Merge, Raised;
    var parent', root' := parent[ra := rb], Merge(root, ra, rb);
    assert Hung(parent, root, rank, ra);
    forall y | y in parent'
      ensures Hung(parent', root', rank', y)
    {
      assert y in parent && Hung(parent, root, rank, y);
      UnionHangs(parent, root, rank, ra, rb, y);
    }
  }

  lemma {:induction false} MergeSame(root: Classes, e: Link)
    requires e.a in root && e.b in root && root[e.a] == root[e.b]
    ensures Absorb(root, e) == root
  {
  }

  /** The parent map after all edges: a forest for the classes of `QuickFind`. */
  method UnionAll(ids: set<NodeId>, edges: seq<Link>) returns (parent: Parents, ghost rank: map<NodeId, nat>)
    ensures Forest(parent, QuickFind(ids, edges), rank)
  {
    parent := map x | x in ids :: x;
    rank := map x | x in ids :: 0;
    ghost var root := Singletons(ids);
    assert forall x :: x in ids ==> Hung(parent, root, rank, x);
    for i := 0 to |edges|
      invariant root == QuickFind(ids, edges[..i])
      invariant Forest(parent, root, rank)
    {
      var e := edges[i];
      assert edges[..i + 1][..i] == edges[..i];
      if e.a in parent && e.b in parent {
        var ra, rb;
        parent, ra := Find(parent, e.a, root, rank);
        parent, rb := Find(parent, e.b, root, rank);
        if ra != rb {
          rank := UnionKeeps(parent, root, rank, ra, rb);
          parent := parent[ra := rb];
        } else {
          MergeSame(root, e);
        }
      }
      root := Absorb(root, e);
    }
    assert edges[..|edges|] == edges;
  }
}
