/** The connectivity repair that closes every link build. */
module Repair {
  import opened Wrappers
  import opened Overlay
  import opened Graph
  import opened Components
  import opened Bridges

  // ----- Roots in sorted order -----

  lemma LeastExists(s: set<string>) returns (m: string)
    requires s != {}
    ensures m in s && forall x :: x in s ==> x == m || Less(m, x)
  {
    var y :| y in s;
    if s == {y} {
      m := y;
    } else {
      var m' := LeastExists(s - {y});
      LessTotal(y, m');
      m := if Less(y, m') then y else m';
      forall x | x in s
        ensures x == m || Less(m, x)
      {
        if x != y && x != m' && Less(y, m') {
          LessTransitive(y, m', x);
        }
      }
    }
  }

  /** The strings of `s` in increasing order. */
  ghost function Sorted(s: set<string>): seq<string> {
    if s == {} then [] else
      var w := LeastOf(s);
      [w] + Sorted(s - {w})
  }

  ghost function LeastOf(s: set<string>): (m: string)
    requires s != {}
    ensures m in s && forall x :: x in s ==> x == m || Less(m, x)
  {
    assert exists m :: m in s && forall x :: x in s ==> x == m || Less(m, x) by {
      var m := LeastExists(s);
    }
    var m :| m in s && forall x :: x in s ==> x == m || Less(m, x);
    m
  }

  lemma {:induction false} SortedEnumerates(s: set<string>)
    ensures |Sorted(s)| == |s|
    ensures forall x :: x in Sorted(s) <==> x in s
    ensures forall i, j :: 0 <= i < j < |Sorted(s)| ==> Less(Sorted(s)[i], Sorted(s)[j])
  {
    if s != {} {
      SortedEnumerates(s - {LeastOf(s)});
      assert |s| == |s - {LeastOf(s)}| + 1;
      var t := Sorted(s - {LeastOf(s)});
      assert Sorted(s) == [LeastOf(s)] + t;
      forall i, j | 0 <= i < j < |Sorted(s)|
        ensures Less(Sorted(s)[i], Sorted(s)[j])
      {
        assert Sorted(s)[j] == t[j - 1] && t[j - 1] in t;
      }
    }
  }

  method Least(s: set<string>) returns (m: string)
    requires s != {}
    ensures m == LeastOf(s)
  {
    m :| m in s;
    var others := s - {m};
    while others != {}
      invariant m in s && others <= s
      invariant forall x :: x in s && x !in others ==> x == m || Less(m, x)
      decreases others
    {
      var y :| y in others;
      LessTotal(y, m);
      if Less(y, m) {
        forall x | x in s && x !in others && x != m
          ensures Less(y, x)
        {
          LessTransitive(y, m, x);
        }
        m := y;
      }
      others := others - {y};
    }
    LessTotal(m, LeastOf(s));
  }

  /** `sort.Strings` over the component roots. */
  method SortStrings(s: set<string>) returns (sorted: seq<string>)
    ensures sorted == Sorted(s)
  {
    sorted := [];
    var rest := s;
    while rest != {}
      invariant Sorted(s) == sorted + Sorted(rest)
      decreases rest
    {
      var m := Least(rest);
      sorted, rest := sorted + [m], rest - {m};
    }
  }

  // ----- Components -----

  /** The nodes of one class, in directory order. */
  function Members(nodes: seq<Node>, root: Classes, r: NodeId): seq<Node>
    requires Ids(nodes) <= root.Keys
  {
    if nodes == [] then [] else
      var last := nodes[|nodes| - 1];
      assert last in nodes && forall n :: n in nodes[..|nodes| - 1] ==> n in nodes;
      Members(nodes[..|nodes| - 1], root, r) + (if root[last.id] == r then [last] else [])
  }

  lemma {:induction false} MembersAre(nodes: seq<Node>, root: Classes, r: NodeId, n: Node)
    requires Ids(nodes) <= root.Keys
    ensures n in Members(nodes, root, r) <==> n in nodes && root[n.id] == r
  {
    if nodes != [] {
      var last, init := nodes[|nodes| - 1], nodes[..|nodes| - 1];
      assert nodes == init + [last];
      assert last in nodes && forall x :: x in init ==> x in nodes;
      MembersAre(init, root, r, n);
    }
  }

  type Groups = map<NodeId, seq<Node>>

  function Group(components: Groups, r: NodeId): seq<Node> {
    if r in components then components[r] else []
  }

  lemma ForestKeys(parent: Parents, root: Classes, rank: map<NodeId, nat>)
    requires Forest(parent, root, rank)
    ensures parent.Keys == root.Keys
  {
  }

  ghost predicate Grouped(nodes: seq<Node>, root: Classes, components: Groups) {
    && Ids(nodes) <= root.Keys
    && (forall r :: Group(components, r) == Members(nodes, root, r))
    && (forall r :: r in components ==> components[r] != [])
  }

  lemma {:induction false} GroupNext(nodes: seq<Node>, root: Classes, components: Groups, n: Node)
    requires Grouped(nodes, root, components) && n.id in root
    ensures Grouped(nodes + [n], root, components[root[n.id] := Group(components, root[n.id]) + [n]])
  {
    var more, r0 := nodes + [n], root[n.id];
    IdsSnoc(nodes, n);
    hide Ids;
    forall r
      ensures Group(components[r0 := Group(components, r0) + [n]], r) == Members(more, root, r)
    {
      assert Group(components, r) == Members(nodes, root, r);
      MembersSnoc(nodes, n, root, r);
    }
  }

  lemma {:induction false} IdsSnoc(nodes: seq<Node>, n: Node)
    ensures Ids(nodes + [n]) == Ids(nodes) + {n.id}
  {
    var more := nodes + [n];
    assert forall x :: x in more <==> x in nodes || x == n;
  }

  lemma {:induction false} MembersSnoc(nodes: seq<Node>, n: Node, root: Classes, r: NodeId)
    requires Ids(nodes) <= root.Keys && Ids(nodes + [n]) <= root.Keys && n.id in root
    ensures Members(nodes + [n], root, r) == Members(nodes, root, r) + (if root[n.id] == r then [n] else [])
  {
    var more := nodes + [n];
    assert more[..|more| - 1] == nodes && more[|more| - 1] == n;
  }

  lemma {:induction false} AllGrouped(nodes: seq<Node>, root: Classes, components: Groups)
    requires Grouped(nodes, root, components) && root.Keys == Ids(nodes)
    ensures components.Keys == root.Values
    ensures forall r :: r in components ==> components[r] == Members(nodes, root, r)
  {
    forall r
      ensures r in components <==> r in root.Values
    {
      ValuesHaveMembers(nodes, root, r);
      assert Group(components, r) == Members(nodes, root, r);
    }
    forall r | r in components
      ensures components[r] == Members(nodes, root, r)
    {
      assert Group(components, r) == Members(nodes, root, r);
    }
  }

  lemma {:induction false} NoneGrouped(nodes: seq<Node>, root: Classes)
    ensures Grouped(nodes[..0], root, map[])
  {
  }

  lemma {:induction false} NodeHasRoot(nodes: seq<Node>, root: Classes, i: nat)
    requires root.Keys == Ids(nodes) && i < |nodes|
    ensures nodes[i].id in root
  {
    assert nodes[i] in nodes;
  }

  /** `components`: the nodes grouped by the root that `find` reports. */
  method GroupByRoot(nodes: seq<Node>, parent0: Parents, ghost root: Classes, ghost rank: map<NodeId, nat>)
    returns (components: Groups)
    requires Forest(parent0, root, rank) && root.Keys == Ids(nodes)
    ensures components.Keys == root.Values
    ensures forall r :: r in components ==> components[r] == Members(nodes, root, r)
  {
    ForestKeys(parent0, root, rank);
    components := map[];
    var parent := parent0;
    NoneGrouped(nodes, root);
    hide *;
    for i := 0 to |nodes|
      invariant Forest(parent, root, rank) && parent.Keys == root.Keys
      invariant Grouped(nodes[..i], root, components)
    {
      var n := nodes[i];
      NodeHasRoot(nodes, root, i);
      var r;
      parent, r := Find(parent, n.id, root, rank);
      ForestKeys(parent, root, rank);
      GroupNext(nodes[..i], root, components, n);
      assert nodes[..i + 1] == nodes[..i] + [n];
      components := components[r := Group(components, r) + [n]];
    }
    assert nodes[..|nodes|] == nodes;
    AllGrouped(nodes, root, components);
  }

  lemma {:induction false} ValuesHaveMembers(nodes: seq<Node>, root: Classes, r: NodeId)
    requires root.Keys == Ids(nodes)
    ensures r in root.Values <==> Members(nodes, root, r) != []
  {
    if r in root.Values {
      var x :| x in root && root[x] == r;
      var n :| n in nodes && n.id == x;
      MembersAre(nodes, root, r, n);
    }
    if Members(nodes, root, r) != [] {
      var n := Members(nodes, root, r)[0];
      MembersAre(nodes, root, r, n);
      assert root[n.id] == r;
    }
  }

  // ----- Bridging neighbouring components -----

  /** `e` joins component `j - 1` to component `j` in root order. */
  ghost predicate BridgesAt(e: Link, root: Classes, roots: seq<NodeId>, j: int) {
    && 1 <= j < |roots| && e.a in root && e.b in root
    && root[e.a] == roots[j - 1] && root[e.b] == roots[j]
  }

  ghost predicate BridgeableAt(nodes: seq<Node>, root: Classes, roots: seq<NodeId>, blocked: set<string>, j: int)
    requires Ids(nodes) <= root.Keys
  {
    1 <= j < |roots| && Bridgeable(Members(nodes, root, roots[j - 1]), Members(nodes, root, roots[j]), blocked)
  }

  ghost predicate Bridged(added: seq<Link>, root: Classes, roots: seq<NodeId>, j: int) {
    exists e :: e in added && BridgesAt(e, root, roots, j)
  }

  ghost predicate IsBridge(e: Link, root: Classes, roots: seq<NodeId>, blocked: set<string>) {
    EdgeKey(e.a, e.b) !in blocked && e.cost == 1.25 && exists j :: BridgesAt(e, root, roots, j)
  }

  /** `added` bridges exactly the bridgeable neighbours among the first `k` components. */
  ghost predicate BridgedUpTo(nodes: seq<Node>, root: Classes, roots: seq<NodeId>, blocked: set<string>,
                              added: seq<Link>, k: int)
    requires Ids(nodes) <= root.Keys
  {
    && (forall e :: e in added ==> IsBridge(e, root, roots, blocked))
    && (forall j :: 1 <= j < k ==> (Bridged(added, root, roots, j) <==> BridgeableAt(nodes, root, roots, blocked, j)))
    && (forall j :: k <= j ==> !Bridged(added, root, roots, j))
  }

  lemma {:induction false} AddBridge(nodes: seq<Node>, root: Classes, roots: seq<NodeId>, blocked: set<string>,
                                     added: seq<Link>, k: int, e: Link)
    requires Ids(nodes) <= root.Keys && NoRepeat(roots)
    requires BridgedUpTo(nodes, root, roots, blocked, added, k)
    requires BridgesAt(e, root, roots, k) && BridgeableAt(nodes, root, roots, blocked, k)
    requires EdgeKey(e.a, e.b) !in blocked && e.cost == 1.25
    ensures BridgedUpTo(nodes, root, roots, blocked, added + [e], k + 1)
  {
    var more := added + [e];
    forall j
      ensures Bridged(more, root, roots, j) <==> Bridged(added, root, roots, j) || j == k
    {
      if Bridged(added, root, roots, j) {
        var x :| x in added && BridgesAt(x, root, roots, j);
        assert x in more;
      }
      if j == k {
        assert e in more;
      }
    }
  }

  method AddBridges(hash: string -> nat, nodes: seq<Node>, components: Groups, ghost root: Classes,
                    roots: seq<NodeId>, blocked: set<string>)
    returns (added: seq<Link>)
    requires Ids(nodes) <= root.Keys && NoRepeat(roots) && roots != []
    requires forall i :: 0 <= i < |roots| ==>
      roots[i] in components && components[roots[i]] == Members(nodes, root, roots[i])
    ensures |added| <= |roots| - 1
    ensures BridgedUpTo(nodes, root, roots, blocked, added, |roots|)
  {
    added := [];
    for i := 1 to |roots|
      invariant |added| <= i - 1
      invariant BridgedUpTo(nodes, root, roots, blocked, added, i)
    {
      hide BridgedUpTo;
      var best := BridgeNodes(hash, components[roots[i - 1]], components[roots[i]], blocked);
      if best.None? {
        SkipBridge(nodes, root, roots, blocked, added, i);
        continue;
      }
      MembersAre(nodes, root, roots[i - 1], best.x);
      MembersAre(nodes, root, roots[i], best.y);
      AddBridge(nodes, root, roots, blocked, added, i, Link(best.x.id, best.y.id, 1.25));
      added := added + [Link(best.x.id, best.y.id, 1.25)];
    }
  }

  lemma {:induction false} SkipBridge(nodes: seq<Node>, root: Classes, roots: seq<NodeId>, blocked: set<string>,
                                      added: seq<Link>, k: int)
    requires Ids(nodes) <= root.Keys && BridgedUpTo(nodes, root, roots, blocked, added, k)
    requires !BridgeableAt(nodes, root, roots, blocked, k)
    ensures BridgedUpTo(nodes, root, roots, blocked, added, k + 1)
  {
  }
}
