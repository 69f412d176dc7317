/** What the connectivity repair achieves, and exactly when it succeeds. */
module Repaired {
  import opened Wrappers
  import opened Overlay
  import opened Graph
  import opened Components
  import opened Bridges
  import opened Repair

  /** In root order, every two neighbouring components have an unblocked pair. */
  ghost predicate AdjacentBridgeable(nodes: seq<Node>, edges: seq<Link>, blocked: set<string>) {
    var root := QuickFind(Ids(nodes), edges);
    Ids(nodes) <= root.Keys &&
    forall j :: 1 <= j < |Sorted(root.Values)| ==> BridgeableAt(nodes, root, Sorted(root.Values), blocked, j)
  }

  // ----- A sealed set spreads over bridged components -----

  ghost predicate ClassInside(root: Classes, r: NodeId, s: set<NodeId>) {
    forall x :: x in root && root[x] == r ==> x in s
  }

  lemma {:induction false} Spread(ids: set<NodeId>, edges: seq<Link>, added: seq<Link>, roots: seq<NodeId>,
                                  s: set<NodeId>, j: int)
    requires QuickFind(ids, edges).Keys == ids
    requires Sealed(edges + added, ids, s)
    requires Bridged(added, QuickFind(ids, edges), roots, j) && 1 <= j < |roots|
    ensures ClassInside(QuickFind(ids, edges), roots[j - 1], s) <==> ClassInside(QuickFind(ids, edges), roots[j], s)
  {
    var root := QuickFind(ids, edges);
    var e :| e in added && BridgesAt(e, root, roots, j);
    assert e in edges + added;
    assert Sealed(edges, ids, s);
    SealedClass(ids, edges, s);
  }

  lemma {:induction false} SpreadFrom(ids: set<NodeId>, edges: seq<Link>, added: seq<Link>, roots: seq<NodeId>,
                                      s: set<NodeId>, i: nat, k: nat)
    requires QuickFind(ids, edges).Keys == ids
    requires Sealed(edges + added, ids, s)
    requires forall j :: 1 <= j < |roots| ==> Bridged(added, QuickFind(ids, edges), roots, j)
    requires i < |roots| && k < |roots| && ClassInside(QuickFind(ids, edges), roots[i], s)
    ensures ClassInside(QuickFind(ids, edges), roots[k], s)
    decreases if i < k then k - i else i - k
  {
    if i < k {
      Spread(ids, edges, added, roots, s, i + 1);
      SpreadFrom(ids, edges, added, roots, s, i + 1, k);
    } else if k < i {
      Spread(ids, edges, added, roots, s, i);
      SpreadFrom(ids, edges, added, roots, s, i - 1, k);
    }
  }

  lemma {:induction false} BridgedConnects(ids: set<NodeId>, edges: seq<Link>, added: seq<Link>, roots: seq<NodeId>)
    requires QuickFind(ids, edges).Keys == ids
    requires forall r :: r in roots <==> r in QuickFind(ids, edges).Values
    requires forall j :: 1 <= j < |roots| ==> Bridged(added, QuickFind(ids, edges), roots, j)
    ensures AllConnected(edges + added, ids)
  {
    var root := QuickFind(ids, edges);
    forall u, v | u in ids && v in ids
      ensures Connected(edges + added, ids, u, v)
    {
      assert root[u] in root.Values && root[v] in root.Values;
      assert root[u] in roots && root[v] in roots;
      var i :| 0 <= i < |roots| && roots[i] == root[u];
      var k :| 0 <= k < |roots| && roots[k] == root[v];
      forall s | Sealed(edges + added, ids, s) && u in s
        ensures v in s
      {
        assert Sealed(edges, ids, s);
        SealedClass(ids, edges, s);
        SpreadFrom(ids, edges, added, roots, s, i, k);
      }
      PathsAreCuts(edges + added, ids, u, v);
    }
  }

  // ----- A missing bridge leaves a sealed cut -----

  lemma {:induction false} MissingBridgeCuts(ids: set<NodeId>, edges: seq<Link>, added: seq<Link>, roots: seq<NodeId>,
                                             j: int)
    requires QuickFind(ids, edges).Keys == ids && NoRepeat(roots)
    requires forall r :: r in roots <==> r in QuickFind(ids, edges).Values
    requires forall e :: e in added ==> exists i :: BridgesAt(e, QuickFind(ids, edges), roots, i)
    requires 1 <= j < |roots| && !Bridged(added, QuickFind(ids, edges), roots, j)
    ensures !AllConnected(edges + added, ids)
  {
    var root := QuickFind(ids, edges);
    var s := set x | x in ids && root[x] in roots[..j];
    ClassesAreSealed(ids, edges);
    forall e | e in edges + added && e.a in ids && e.b in ids
      ensures e.a in s <==> e.b in s
    {
      if e in added {
        var i :| BridgesAt(e, root, roots, i);
        assert i != j;
        InPrefix(roots, i - 1, j);
        InPrefix(roots, i, j);
      }
    }
    assert Sealed(edges + added, ids, s);
    QuickFindKeys(ids, edges);
    InPrefix(roots, 0, j);
    InPrefix(roots, j, j);
    var u, v := roots[0], roots[j];
    assert u in roots && v in roots;
    assert u in s && v !in s;
    PathsAreCuts(edges + added, ids, u, v);
  }

  lemma {:induction false} InPrefix(roots: seq<NodeId>, i: int, j: int)
    requires NoRepeat(roots) && 0 <= i < |roots| && 0 <= j <= |roots|
    ensures roots[i] in roots[..j] <==> i < j
  {
    if i < j {
      assert roots[..j][i] == roots[i];
    }
  }

  // ----- ensureConnected -----

  /** A repair edge: between two components, not a blocked pair. */
  ghost predicate RepairEdge(ids: set<NodeId>, root: Classes, blocked: set<string>, e: Link) {
    && e.a in ids && e.b in ids && e.a in root && e.b in root && root[e.a] != root[e.b]
    && EdgeKey(e.a, e.b) !in blocked && e.cost == 1.25
  }

  lemma {:induction false} BridgesAreRepairs(nodes: seq<Node>, root: Classes, roots: seq<NodeId>,
                                             blocked: set<string>, added: seq<Link>)
    requires root.Keys == Ids(nodes) && NoRepeat(roots)
    requires BridgedUpTo(nodes, root, roots, blocked, added, |roots|)
    ensures forall e :: e in added ==> RepairEdge(Ids(nodes), root, blocked, e)
    ensures forall e :: e in added ==> exists i :: BridgesAt(e, root, roots, i)
  {
    forall e | e in added
      ensures RepairEdge(Ids(nodes), root, blocked, e) && exists i :: BridgesAt(e, root, roots, i)
    {
      assert IsBridge(e, root, roots, blocked);
    }
  }

  /**
   * Keeps every edge, adds fewer repairs than there are components and none of
   * a blocked pair, and connects all nodes exactly when neighbouring components
   * can be bridged.
   */
  method EnsureConnected(hash: string -> nat, edges: seq<Link>, nodes: seq<Node>, blocked: set<string>)
    returns (out: seq<Link>)
    ensures edges <= out
    ensures nodes != [] ==> |out| - |edges| <= |QuickFind(Ids(nodes), edges).Values| - 1
    ensures forall e :: e in out[|edges|..] ==>
      RepairEdge(Ids(nodes), QuickFind(Ids(nodes), edges), blocked, e)
    ensures AllConnected(out, Ids(nodes)) <==> AdjacentBridgeable(nodes, edges, blocked)
  {
    ghost var ids := Ids(nodes);
    ghost var root := QuickFind(ids, edges);
    ghost var sorted := Sorted(root.Values);
    RootFacts(nodes, edges);
    if |nodes| < 2 {
      FewNodes(nodes, edges);
      OneComponent(nodes, edges, blocked);
      return edges;
    }
    var parent; ghost var rank;
    parent, rank := UnionAll(Ids(nodes), edges);
    var components := GroupByRoot(nodes, parent, root, rank);
    if |components| <= 1 {
      assert |components| == |components.Keys|;
      OneComponent(nodes, edges, blocked);
      return edges;
    }
    var roots := SortStrings(components.Keys);
    var added := AddBridges(hash, nodes, components, root, roots, blocked);
    out := edges + added;
    BridgesAreRepairs(nodes, root, roots, blocked, added);
    RepairOutcome(nodes, edges, blocked, added);
  }

  lemma {:induction false} RootFacts(nodes: seq<Node>, edges: seq<Link>)
    ensures var root := QuickFind(Ids(nodes), edges);
      && root.Keys == Ids(nodes)
      && NoRepeat(Sorted(root.Values))
      && |Sorted(root.Values)| == |root.Values|
      && (forall r :: r in Sorted(root.Values) <==> r in root.Values)
      && (nodes != [] ==> |root.Values| >= 1)
  {
    var root := QuickFind(Ids(nodes), edges);
    QuickFindKeys(Ids(nodes), edges);
    SortedEnumerates(root.Values);
    var roots := Sorted(root.Values);
    forall i, j | 0 <= i < j < |roots|
      ensures roots[i] != roots[j]
    {
      LessTotal(roots[i], roots[j]);
    }
    if nodes != [] {
      assert nodes[0] in nodes;
      assert nodes[0].id in root;
      assert root[nodes[0].id] in root.Values;
      assert root.Values != {};
    }
  }

  lemma {:induction false} RepairOutcome(nodes: seq<Node>, edges: seq<Link>, blocked: set<string>, added: seq<Link>)
    requires var root := QuickFind(Ids(nodes), edges);
      && root.Keys == Ids(nodes)
      && BridgedUpTo(nodes, root, Sorted(root.Values), blocked, added, |Sorted(root.Values)|)
    ensures AllConnected(edges + added, Ids(nodes)) <==> AdjacentBridgeable(nodes, edges, blocked)
  {
    var root := QuickFind(Ids(nodes), edges);
    var roots := Sorted(root.Values);
    RootFacts(nodes, edges);
    BridgesAreRepairs(nodes, root, roots, blocked, added);
    if AdjacentBridgeable(nodes, edges, blocked) {
      BridgedConnects(Ids(nodes), edges, added, roots);
    } else {
      var j :| 1 <= j < |roots| && !BridgeableAt(nodes, root, roots, blocked, j);
      MissingBridgeCuts(Ids(nodes), edges, added, roots, j);
    }
  }

  lemma {:induction false} OneComponent(nodes: seq<Node>, edges: seq<Link>, blocked: set<string>)
    requires |QuickFind(Ids(nodes), edges).Values| <= 1
    ensures AllConnected(edges, Ids(nodes)) && AdjacentBridgeable(nodes, edges, blocked)
  {
    RootFacts(nodes, edges);
    BridgedConnects(Ids(nodes), edges, [], Sorted(QuickFind(Ids(nodes), edges).Values));
    assert edges + [] == edges;
  }

  lemma {:induction false} FewNodes(nodes: seq<Node>, edges: seq<Link>)
    requires |nodes| < 2
    ensures |QuickFind(Ids(nodes), edges).Values| <= 1
  {
    QuickFindKeys(Ids(nodes), edges);
    var values := QuickFind(Ids(nodes), edges).Values;
    if values != {} {
      var r :| r in values;
      assert forall x :: x in values ==> x == r;
      assert values == {r};
    }
  }

  // ----- When the repair succeeds -----

  /** With nothing blocked the repaired graph is always connected. */
  lemma {:induction false} NothingBlocked(nodes: seq<Node>, edges: seq<Link>)
    ensures AdjacentBridgeable(nodes, edges, {})
  {
    RootFacts(nodes, edges);
    var root := QuickFind(Ids(nodes), edges);
    var roots := Sorted(root.Values);
    forall j | 1 <= j < |roots|
      ensures BridgeableAt(nodes, root, roots, {}, j)
    {
      assert roots[j - 1] in roots && roots[j] in roots;
      ValuesHaveMembers(nodes, root, roots[j - 1]);
      ValuesHaveMembers(nodes, root, roots[j]);
      var x, y := Members(nodes, root, roots[j - 1])[0], Members(nodes, root, roots[j])[0];
      assert Unblocked({}, x, y);
    }
  }

  function Relay(id: NodeId): Node {
    Node(id, "superpeer", "cone", 1)
  }

  lemma {:induction false} SortedABC()
    ensures Sorted({"a", "b", "c"}) == ["a", "b", "c"]
  {
    assert Less("a", "b") && Less("a", "c") && Less("b", "c");
    LessTotal("a", "b");
    LessTotal("a", "c");
    LessTotal("b", "c");
    assert LeastOf({"a", "b", "c"}) == "a";
    assert {"a", "b", "c"} - {"a"} == {"b", "c"};
    assert LeastOf({"b", "c"}) == "b";
    assert {"b", "c"} - {"b"} == {"c"};
    assert {"c"} - {"c"} == {};
  }

  lemma {:induction false} KeysABC()
    ensures EdgeKey("a", "b") == "a:b" && EdgeKey("a", "c") != "a:b" && EdgeKey("b", "c") != "a:b"
  {
    assert Less("a", "b") && Less("a", "c") && Less("b", "c");
    LessTotal("a", "b");
    LessTotal("a", "c");
    LessTotal("b", "c");
    assert "a" + ":" + "b" == "a:b";
    assert EdgeKey("a", "c")[2] == 'c';
    assert EdgeKey("b", "c")[0] == 'b';
  }

  /**
   * Blocking one pair can strand a component although unblocked links would
   * connect everything: only neighbours in root order are tried.
   */
  lemma {:induction false} StrandedByOneBlock()
    ensures !AdjacentBridgeable([Relay("a"), Relay("b"), Relay("c")], [], {"a:b"})
    ensures Unblocked({"a:b"}, Relay("a"), Relay("c")) && Unblocked({"a:b"}, Relay("b"), Relay("c"))
  {
    var nodes := [Relay("a"), Relay("b"), Relay("c")];
    var root := QuickFind(Ids(nodes), []);
    assert nodes[0] in nodes && nodes[1] in nodes && nodes[2] in nodes;
    assert Ids(nodes) == {"a", "b", "c"};
    assert root["a"] == "a" && root["b"] == "b" && root["c"] == "c";
    assert root.Values == {"a", "b", "c"};
    SortedABC();
    KeysABC();
    hide EdgeKey, Less, Sorted;
    forall x, y | x in Members(nodes, root, "a") && y in Members(nodes, root, "b")
      ensures !Unblocked({"a:b"}, x, y)
    {
      MembersAre(nodes, root, "a", x);
      MembersAre(nodes, root, "b", y);
    }
    assert !BridgeableAt(nodes, root, Sorted(root.Values), {"a:b"}, 1);
  }
}
