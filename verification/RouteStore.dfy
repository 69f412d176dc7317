/** The admin handlers for LAN routes, run one at a time against the stored table. */
module RouteStore {
  import opened Wrappers
  import opened Overlay
  import opened Prefixes
  import opened VirtualPool
  import opened SiteRoutes

  class Store {
    const mesh: Prefix
    var table: Table

    ghost predicate Valid()
      reads this
    {
      Invariant(mesh, table)
    }

    constructor (mesh: Prefix)
      ensures Valid() && this.mesh == mesh && table == map[]
    {
      this.mesh := mesh;
      table := map[];
    }

    /** Reads all rows but one in storage order, and adds the mesh network. */
    method CollectUsed(except: set<NodeId>) returns (used: seq<Prefix>)
      ensures Elements(used) == UsedBy(table, except) + {mesh}
    {
      used := [];
      var rows := table.Keys - except;
      ghost var done: set<NodeId> := {};
      while rows != {}
        invariant rows + done == table.Keys - except && rows !! done
        invariant forall p :: p in used <==> exists id :: id in done && Uses(table[id], p)
        decreases rows
      {
        var id :| id in rows;
        var own := Virtuals(table[id]);
        rows, done := rows - {id}, done + {id};
        used := used + own;
      }
      forall p
        ensures p in used <==> p in UsedBy(table, except)
      {
        UsedMeansUses(table, except, p);
      }
      used := used + [mesh];
    }

    /** Replaces a node's LAN list; other validation is folded into `accepted`. */
    method SaveNetwork(id: NodeId, lans: seq<Prefix>, accepted: bool) returns (ok: bool)
      requires Valid()
      modifies this`table
      ensures Valid()
      ensures ok ==> accepted && SaveStep(mesh, old(table), id, lans, table)
      ensures !ok ==> table == old(table)
      ensures !ok && accepted && AcceptableLans(lans) ==>
        Exhausted(MaskAll(lans), Row(table, id), UsedBy(table, {id}) + {mesh})
    {
      var fine := CheckLans(lans);
      if !fine {
        return false;
      }
      var used := CollectUsed({id});
      var masked := MaskAll(lans);
      var ads := Allocate(masked, Row(table, id), used);
      if |ads| < |lans| || !accepted {
        return false;
      }
      SaveKeeps(mesh, table, id, lans, table[id := ads]);
      table := table[id := ads];
      return true;
    }

    method AddRoute(id: NodeId, lan: Prefix, known: bool) returns (ok: bool)
      requires Valid()
      modifies this`table
      ensures Valid()
      ensures ok ==> known && AddStep(mesh, old(table), id, lan, table)
      ensures !ok ==> table == old(table)
      ensures ok ==> 16 <= lan.bits <= 30
      ensures !ok && known && 16 <= lan.bits <= 30 ==>
        || (exists ad :: ad in Row(table, id) && ad.lan == Mask(lan))
        || forall p :: PoolBlock(p) && p.bits == lan.bits ==> OverlapsAny(p, UsedBy(table, {}) + {mesh})
    {
      if lan.bits > 32 || !RoutableLength(lan) || !known {
        return false;
      }
      var row := Row(table, id);
      for i := 0 to |row|
        invariant forall j :: 0 <= j < i ==> row[j].lan != Mask(lan)
      {
        if row[i].lan == Mask(lan) {
          return false;
        }
      }
      var used := CollectUsed({});
      var virtual := AllocateVirtual(lan.bits, used);
      if virtual.None? {
        return false;
      }
      var next := table[id := row + [RouteAd(Mask(lan), Some(virtual.value))]];
      assert AddStep(mesh, table, id, lan, next);
      AddKeeps(mesh, table, id, lan, next);
      table := next;
      return true;
    }

    method RemoveRoute(id: NodeId, lan: Prefix) returns (ok: bool)
      requires Valid()
      modifies this`table
      ensures Valid()
      ensures ok <==> 16 <= lan.bits <= 30 && exists ad :: ad in Row(old(table), id) && ad.lan == Mask(lan)
      ensures ok ==> RemoveStep(old(table), id, lan, table)
      ensures !ok ==> table == old(table)
    {
      if lan.bits > 32 || !RoutableLength(lan) || id !in table {
        return false;
      }
      var row, remaining := table[id], [];
      ok := false;
      for i := 0 to |row|
        invariant remaining == Without(row[..i], Mask(lan))
        invariant ok <==> exists ad :: ad in row[..i] && ad.lan == Mask(lan)
      {
        assert row[..i + 1][..i] == row[..i] && row[..i + 1] == row[..i] + [row[i]];
        if row[i].lan == Mask(lan) {
          ok := true;
        } else {
          remaining := remaining + [row[i]];
        }
      }
      assert row[..|row|] == row;
      if ok {
        RemoveKeeps(mesh, table, id, lan, table[id := remaining]);
        table := table[id := remaining];
      }
    }

    /** Deleting a node takes its row with it and frees its prefixes. */
    method RemoveNode(id: NodeId)
      requires Valid()
      modifies this`table
      ensures Valid()
      ensures table == RemoveNodeStep(old(table), id) && UsedBy(table, {}) == UsedBy(old(table), {id})
    {
      RemoveNodeKeeps(mesh, table, id);
      table := table - {id};
    }
  }

  lemma {:induction false} UsedMeansUses(t: Table, except: set<NodeId>, p: Prefix)
    ensures p in UsedBy(t, except) <==> exists id :: id in t.Keys - except && Uses(t[id], p)
  {
    if p in UsedBy(t, except) {
      var id, ad :| id in t && id !in except && ad in t[id] && ad.virtual == Some(p);
      assert Uses(t[id], p);
    }
  }

  ghost predicate Uses(ads: seq<RouteAd>, p: Prefix) {
    exists ad :: ad in ads && ad.virtual == Some(p)
  }

  method Virtuals(ads: seq<RouteAd>) returns (used: seq<Prefix>)
    ensures forall p :: p in used <==> Uses(ads, p)
  {
    used := [];
    for i := 0 to |ads|
      invariant forall p :: p in used <==> Uses(ads[..i], p)
    {
      assert ads[..i + 1] == ads[..i] + [ads[i]];
      forall p
        ensures Uses(ads[..i + 1], p) <==> Uses(ads[..i], p) || ads[i].virtual == Some(p)
      {
        if Uses(ads[..i], p) {
          var ad :| ad in ads[..i] && ad.virtual == Some(p);
          assert ad in ads[..i + 1];
        }
        if ads[i].virtual == Some(p) {
          assert ads[i] in ads[..i + 1];
        }
      }
      if ads[i].virtual.Some? {
        used := used + [ads[i].virtual.value];
      }
    }
    assert ads[..|ads|] == ads;
  }

  method CheckLans(lans: seq<Prefix>) returns (fine: bool)
    ensures fine <==>
      && (forall i :: 0 <= i < |lans| ==> 16 <= lans[i].bits <= 30)
      && (forall i, j :: 0 <= i < j < |lans| && lans[i].bits <= 32 && lans[j].bits <= 32 ==> Mask(lans[i]) != Mask(lans[j]))
    ensures fine <==> AcceptableLans(lans)
  {
    var seen: set<Prefix> := {};
    for i := 0 to |lans|
      invariant forall j :: 0 <= j < i ==> Valid(lans[j]) && RoutableLength(lans[j]) && Mask(lans[j]) in seen
      invariant forall m :: m in seen ==> exists j :: 0 <= j < i && Valid(lans[j]) && Mask(lans[j]) == m
      invariant AcceptableLans(lans[..i])
    {
      if lans[i].bits < 16 || lans[i].bits > 30 || Mask(lans[i]) in seen {
        return false;
      }
      seen := seen + {Mask(lans[i])};
    }
    assert lans[..|lans|] == lans;
    return true;
  }

  /** Some listed LAN can keep no prefix and finds no free block. */
  ghost predicate Exhausted(lans: seq<Prefix>, prior: seq<RouteAd>, used: set<Prefix>) {
    exists ads :: Allocated(lans, prior, used, ads) && |ads| < |lans| &&
      !Reusable(prior, lans[|ads|], UsedBefore(used, ads, |ads|)) &&
      IsFirstFit(lans[|ads|].bits, UsedBefore(used, ads, |ads|), None)
  }

  /** The allocation loop: stops early exactly when the pool is exhausted. */
  method Allocate(lans: seq<Prefix>, prior: seq<RouteAd>, used0: seq<Prefix>) returns (ads: seq<RouteAd>)
    requires forall i :: 0 <= i < |lans| ==> RoutableLength(lans[i])
    ensures Allocated(lans, prior, Elements(used0), ads)
    ensures |ads| < |lans| ==> Exhausted(lans, prior, Elements(used0))
  {
    ads := [];
    var used := used0;
    hide IsFirstFit, Overlaps, OldVirtual;
    for i := 0 to |lans|
      invariant |ads| == i && Allocated(lans, prior, Elements(used0), ads)
      invariant Elements(used) == UsedBefore(Elements(used0), ads, i)
    {
      hide Allocated, UsedBefore;
      var virtual := OldVirtual(prior, lans[i]);
      if virtual.Some? {
        var overlaps := PrefixOverlapsAny(virtual.value, used);
        if overlaps {
          virtual := None;
        }
      }
      if virtual.None? {
        virtual := AllocateVirtual(lans[i].bits, used);
        if virtual.None? {
          assert Exhausted(lans, prior, Elements(used0));
          return;
        }
      }
      assert Assigned(prior, Elements(used), lans[i], virtual);
      used := used + [virtual.value];
      ExtendAllocated(lans, prior, Elements(used0), ads, virtual.value);
      ads := ads + [RouteAd(lans[i], virtual)];
    }
  }

  lemma {:induction false} ExtendAllocated(lans: seq<Prefix>, prior: seq<RouteAd>, used: set<Prefix>, ads: seq<RouteAd>, v: Prefix)
    requires Allocated(lans, prior, used, ads) && |ads| < |lans|
    requires Assigned(prior, UsedBefore(used, ads, |ads|), lans[|ads|], Some(v))
    ensures Allocated(lans, prior, used, ads + [RouteAd(lans[|ads|], Some(v))])
    ensures UsedBefore(used, ads + [RouteAd(lans[|ads|], Some(v))], |ads| + 1) == UsedBefore(used, ads, |ads|) + {v}
  {
    var more := ads + [RouteAd(lans[|ads|], Some(v))];
    forall i | 0 <= i <= |ads|
      ensures UsedBefore(used, more, i) == UsedBefore(used, ads, i)
    {
      assert forall j :: 0 <= j < i ==> more[j] == ads[j];
    }
    assert UsedBefore(used, more, |ads| + 1) == UsedBefore(used, more, |ads|) + {v} by {
      assert more[|ads|].virtual.value == v;
    }
  }
}
