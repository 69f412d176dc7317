/** The coordinator's table of advertised LAN routes and the admin operations on it. */
module SiteRoutes {
  import opened Wrappers
  import opened Overlay
  import opened Prefixes
  import opened VirtualPool

  /** An advertised LAN and its virtual prefix; old rows may lack the latter. */
  datatype RouteAd = RouteAd(lan: Prefix, virtual: Option<Prefix>)

  type Table = map<NodeId, seq<RouteAd>>

  function Row(t: Table, id: NodeId): seq<RouteAd> {
    if id in t then t[id] else []
  }

  // ----- The invariant -----

  ghost predicate Apart(a: RouteAd, b: RouteAd) {
    a.virtual.Some? && b.virtual.Some? ==> !Overlaps(a.virtual.value, b.virtual.value)
  }

  /** A virtual prefix lies in the pool, is aligned, as long as its LAN, and off the mesh network. */
  ghost predicate Good(mesh: Prefix, ad: RouteAd) {
    ad.virtual.Some? ==>
      && PoolBlock(ad.virtual.value) && !Overlaps(ad.virtual.value, mesh)
      && ad.virtual.value.bits == ad.lan.bits && IsMasked(ad.lan)
  }

  ghost predicate GoodRow(mesh: Prefix, ads: seq<RouteAd>) {
    && (forall i :: 0 <= i < |ads| ==> Good(mesh, ads[i]))
    && (forall i, j :: 0 <= i < j < |ads| ==> Apart(ads[i], ads[j]))
  }

  ghost predicate RowsApart(a: seq<RouteAd>, b: seq<RouteAd>) {
    forall x, y :: x in a && y in b ==> Apart(x, y)
  }

  /** All virtual prefixes are good and pairwise disjoint, within and across nodes. */
  ghost predicate Invariant(mesh: Prefix, t: Table) {
    && (forall id :: id in t ==> GoodRow(mesh, t[id]))
    && (forall id, other :: id in t && other in t && id != other ==> RowsApart(t[id], t[other]))
  }

  // ----- The operations as relations -----

  /** The virtual prefixes in use by all nodes but `except`. */
  function UsedBy(t: Table, except: set<NodeId>): set<Prefix> {
    set id, ad | id in t && id !in except && ad in t[id] && ad.virtual.Some? :: ad.virtual.value
  }

  /** `old[lan]` while the previous row of the node is read: the last entry wins. */
  function OldVirtual(ads: seq<RouteAd>, lan: Prefix): Option<Prefix> {
    if ads == [] then None
    else if ads[|ads| - 1].lan == lan then ads[|ads| - 1].virtual
    else OldVirtual(ads[..|ads| - 1], lan)
  }

  function UsedBefore(used: set<Prefix>, ads: seq<RouteAd>, i: nat): set<Prefix>
    requires i <= |ads|
  {
    used + set j | 0 <= j < i && ads[j].virtual.Some? :: ads[j].virtual.value
  }

  predicate Reusable(prior: seq<RouteAd>, lan: Prefix, used: set<Prefix>) {
    OldVirtual(prior, lan).Some? && !OverlapsAny(OldVirtual(prior, lan).value, used)
  }

  /** A LAN keeps its previous prefix when that is still free, and takes the first fit otherwise. */
  ghost predicate Assigned(prior: seq<RouteAd>, used: set<Prefix>, lan: Prefix, v: Option<Prefix>) {
    if Reusable(prior, lan, used) then v == OldVirtual(prior, lan) else IsFirstFit(lan.bits, used, v)
  }

  ghost predicate Allocated(lans: seq<Prefix>, prior: seq<RouteAd>, used: set<Prefix>, ads: seq<RouteAd>) {
    && |ads| <= |lans|
    && (forall i :: 0 <= i < |ads| ==>
          && ads[i].lan == lans[i] && ads[i].virtual.Some?
          && Assigned(prior, UsedBefore(used, ads, i), lans[i], ads[i].virtual))
  }

  predicate RoutableLength(p: Prefix) {
    16 <= p.bits <= 30
  }

  function MaskAll(lans: seq<Prefix>): seq<Prefix>
    requires forall i :: 0 <= i < |lans| ==> Valid(lans[i])
  {
    seq(|lans|, i requires 0 <= i < |lans| => Mask(lans[i]))
  }

  ghost predicate AcceptableLans(lans: seq<Prefix>) {
    && (forall i :: 0 <= i < |lans| ==> Valid(lans[i]) && RoutableLength(lans[i]))
    && (forall i, j :: 0 <= i < j < |lans| ==> Mask(lans[i]) != Mask(lans[j]))
  }

  /** A successful save replaces one row by a complete allocation for the listed LANs. */
  ghost predicate SaveStep(mesh: Prefix, t: Table, id: NodeId, lans: seq<Prefix>, t': Table) {
    && AcceptableLans(lans)
    && id in t' && t' == t[id := t'[id]]
    && |t'[id]| == |lans|
    && Allocated(MaskAll(lans), Row(t, id), UsedBy(t, {id}) + {mesh}, t'[id])
  }

  /** A successful add appends one first-fit entry. */
  ghost predicate AddStep(mesh: Prefix, t: Table, id: NodeId, lan: Prefix, t': Table) {
    && Valid(lan) && RoutableLength(lan)
    && (forall ad :: ad in Row(t, id) ==> ad.lan != Mask(lan))
    && exists v :: IsFirstFit(lan.bits, UsedBy(t, {}) + {mesh}, Some(v)) &&
         t' == t[id := Row(t, id) + [RouteAd(Mask(lan), Some(v))]]
  }

  function Without(ads: seq<RouteAd>, lan: Prefix): seq<RouteAd> {
    if ads == [] then [] else
      Without(ads[..|ads| - 1], lan) + (if ads[|ads| - 1].lan == lan then [] else [ads[|ads| - 1]])
  }

  ghost predicate RemoveStep(t: Table, id: NodeId, lan: Prefix, t': Table) {
    Valid(lan) && id in t && t' == t[id := Without(t[id], Mask(lan))]
  }

  /** Removing a node deletes its whole row. */
  function RemoveNodeStep(t: Table, id: NodeId): Table {
    t - {id}
  }

  datatype Op =
    | Save(id: NodeId, lans: seq<Prefix>)
    | Add(id: NodeId, lan: Prefix)
    | Remove(id: NodeId, lan: Prefix)
    | RemoveNode(id: NodeId)

  /** One admin request: refused without effect, or carried out. */
  ghost predicate Step(mesh: Prefix, t: Table, op: Op, t': Table) {
    || t' == t
    || match op
       case Save(id, lans) => SaveStep(mesh, t, id, lans, t')
       case Add(id, lan) => AddStep(mesh, t, id, lan, t')
       case Remove(id, lan) => RemoveStep(t, id, lan, t')
       case RemoveNode(id) => t' == RemoveNodeStep(t, id)
  }

  // ----- Every operation keeps the invariant -----

  lemma {:induction false} OverlapSymmetric(p: Prefix, q: Prefix)
    ensures Overlaps(p, q) <==> Overlaps(q, p)
  {
  }

  lemma {:induction false} OldVirtualIsStored(ads: seq<RouteAd>, lan: Prefix) returns (i: nat)
    requires OldVirtual(ads, lan).Some?
    ensures i < |ads| && ads[i].lan == lan && ads[i].virtual == OldVirtual(ads, lan)
  {
    if ads[|ads| - 1].lan == lan {
      i := |ads| - 1;
    } else {
      i := OldVirtualIsStored(ads[..|ads| - 1], lan);
    }
  }

  /** Entry `i` is the last for the LAN, and carries `v`. */
  ghost predicate LastFor(ads: seq<RouteAd>, lan: Prefix, v: Prefix, i: int) {
    0 <= i < |ads| && ads[i] == RouteAd(lan, Some(v)) && forall j :: i < j < |ads| ==> ads[j].lan != lan
  }

  /** The previous prefix of a LAN is that of its last entry in the stored row. */
  lemma {:induction false} OldVirtualIff(ads: seq<RouteAd>, lan: Prefix, v: Prefix)
    ensures OldVirtual(ads, lan) == Some(v) <==> exists i :: LastFor(ads, lan, v, i)
  {
    if ads != [] {
      var n := |ads| - 1;
      var init := ads[..n];
      if ads[n].lan != lan {
        OldVirtualIff(init, lan, v);
        forall i
          ensures LastFor(ads, lan, v, i) <==> LastFor(init, lan, v, i)
        {
          assert forall j :: 0 <= j < n ==> ads[j] == init[j];
        }
      } else {
        assert LastFor(ads, lan, v, n) <==> ads[n].virtual == Some(v);
        assert forall i :: LastFor(ads, lan, v, i) ==> i == n;
      }
    }
  }

  /** What one assignment guarantees, whether the prefix is reused or new. */
  lemma {:induction false} AssignedIsGood(mesh: Prefix, prior: seq<RouteAd>, used: set<Prefix>, lan: Prefix, v: Prefix)
    requires GoodRow(mesh, prior) && mesh in used && IsMasked(lan)
    requires Assigned(prior, used, lan, Some(v))
    ensures Good(mesh, RouteAd(lan, Some(v))) && !OverlapsAny(v, used)
  {
    if Reusable(prior, lan, used) {
      var i := OldVirtualIsStored(prior, lan);
      assert Good(mesh, prior[i]);
    }
  }

  lemma {:induction false} AllocatedIsGood(mesh: Prefix, lans: seq<Prefix>, prior: seq<RouteAd>, used: set<Prefix>,
                                           ads: seq<RouteAd>)
    requires GoodRow(mesh, prior) && mesh in used && Allocated(lans, prior, used, ads)
    requires forall i :: 0 <= i < |lans| ==> IsMasked(lans[i])
    ensures GoodRow(mesh, ads)
    ensures forall ad, u :: ad in ads && u in used ==> ad.virtual.Some? && !Overlaps(ad.virtual.value, u)
  {
    forall i | 0 <= i < |ads|
      ensures Good(mesh, ads[i]) && ads[i].virtual.Some? && !OverlapsAny(ads[i].virtual.value, UsedBefore(used, ads, i))
    {
      AssignedIsGood(mesh, prior, UsedBefore(used, ads, i), lans[i], ads[i].virtual.value);
    }
    forall i, j | 0 <= i < j < |ads|
      ensures Apart(ads[i], ads[j])
    {
      assert ads[i].virtual.value in UsedBefore(used, ads, j);
      OverlapSymmetric(ads[i].virtual.value, ads[j].virtual.value);
    }
    forall ad, u | ad in ads && u in used
      ensures ad.virtual.Some? && !Overlaps(ad.virtual.value, u)
    {
      var i :| 0 <= i < |ads| && ads[i] == ad;
      assert u in UsedBefore(used, ads, i);
    }
  }

  /** Replacing a row by a good one that stays off all other rows keeps the invariant. */
  lemma {:induction false} ReplaceRow(mesh: Prefix, t: Table, id: NodeId, ads: seq<RouteAd>)
    requires Invariant(mesh, t) && GoodRow(mesh, ads)
    requires forall other :: other in t && other != id ==> RowsApart(ads, t[other]) && RowsApart(t[other], ads)
    ensures Invariant(mesh, t[id := ads])
  {
  }

  lemma {:induction false} ApartFromUsed(t: Table, id: NodeId, other: NodeId, ads: seq<RouteAd>, used: set<Prefix>)
    requires other in t && other != id && UsedBy(t, {id}) <= used
    requires forall ad, u :: ad in ads && u in used ==> ad.virtual.Some? && !Overlaps(ad.virtual.value, u)
    ensures RowsApart(ads, t[other]) && RowsApart(t[other], ads)
  {
    forall x, y | x in ads && y in t[other]
      ensures Apart(x, y) && Apart(y, x)
    {
      if y.virtual.Some? {
        assert y.virtual.value in UsedBy(t, {id});
        OverlapSymmetric(x.virtual.value, y.virtual.value);
      }
    }
  }

  lemma {:induction false} SaveKeeps(mesh: Prefix, t: Table, id: NodeId, lans: seq<Prefix>, t': Table)
    requires Invariant(mesh, t) && SaveStep(mesh, t, id, lans, t')
    ensures Invariant(mesh, t')
  {
    var ads, used := t'[id], UsedBy(t, {id}) + {mesh};
    AllocatedIsGood(mesh, MaskAll(lans), Row(t, id), used, ads);
    forall other | other in t && other != id
      ensures RowsApart(ads, t[other]) && RowsApart(t[other], ads)
    {
      ApartFromUsed(t, id, other, ads, used);
    }
    ReplaceRow(mesh, t, id, ads);
  }

  lemma {:induction false} ExtendRow(mesh: Prefix, ads: seq<RouteAd>, added: RouteAd)
    requires GoodRow(mesh, ads) && Good(mesh, added) && forall x :: x in ads ==> Apart(x, added)
    ensures GoodRow(mesh, ads + [added])
  {
  }

  lemma {:induction false} ExtendApart(a: seq<RouteAd>, b: seq<RouteAd>, added: RouteAd)
    requires RowsApart(a, b) && RowsApart(b, a) && forall y :: y in b ==> Apart(added, y) && Apart(y, added)
    ensures RowsApart(a + [added], b) && RowsApart(b, a + [added])
  {
  }

  lemma {:induction false} AddKeeps(mesh: Prefix, t: Table, id: NodeId, lan: Prefix, t': Table)
    requires Invariant(mesh, t) && AddStep(mesh, t, id, lan, t')
    ensures Invariant(mesh, t')
  {
    var used := UsedBy(t, {}) + {mesh};
    var v :| IsFirstFit(lan.bits, used, Some(v)) && t' == t[id := Row(t, id) + [RouteAd(Mask(lan), Some(v))]];
    var added := RouteAd(Mask(lan), Some(v));
    assert mesh in used;
    assert Good(mesh, added);
    forall other, x | other in t && x in t[other]
      ensures Apart(x, added) && Apart(added, x)
    {
      if x.virtual.Some? {
        assert x.virtual.value in UsedBy(t, {});
        OverlapSymmetric(x.virtual.value, v);
      }
    }
    hide Apart, Good, IsFirstFit;
    ExtendRow(mesh, Row(t, id), added);
    forall other | other in t && other != id
      ensures RowsApart(Row(t, id) + [added], t[other]) && RowsApart(t[other], Row(t, id) + [added])
    {
      ExtendApart(Row(t, id), t[other], added);
    }
    ReplaceRow(mesh, t, id, Row(t, id) + [added]);
  }

  lemma {:induction false} WithoutIsSubsequence(mesh: Prefix, ads: seq<RouteAd>, lan: Prefix)
    requires GoodRow(mesh, ads)
    ensures GoodRow(mesh, Without(ads, lan))
    ensures forall ad :: ad in Without(ads, lan) <==> ad in ads && ad.lan != lan
  {
    if ads != [] {
      var last, init := ads[|ads| - 1], ads[..|ads| - 1];
      assert ads == init + [last];
      WithoutIsSubsequence(mesh, init, lan);
      forall x | x in init
        ensures Apart(x, last)
      {
        var i :| 0 <= i < |init| && init[i] == x;
        assert Apart(ads[i], ads[|ads| - 1]);
      }
    }
  }

  /** Removing a LAN keeps the order of the rest, so first matches stay what they were. */
  lemma {:induction false} WithoutInOrder(ads: seq<RouteAd>, lan: Prefix) returns (at: seq<nat>)
    ensures Picks(Without(ads, lan), ads, at)
    ensures forall ad :: ad in Without(ads, lan) <==> ad in ads && ad.lan != lan
  {
    at := [];
    if ads != [] {
      var init, ad := ads[..|ads| - 1], ads[|ads| - 1];
      at := WithoutInOrder(init, lan);
      PicksNext(Without(init, lan), init, at, ad);
      assert ads == init + [ad];
      at := if ad.lan != lan then at + [|init|] else at;
    }
  }

  lemma {:induction false} RemoveKeeps(mesh: Prefix, t: Table, id: NodeId, lan: Prefix, t': Table)
    requires Invariant(mesh, t) && RemoveStep(t, id, lan, t')
    ensures Invariant(mesh, t')
  {
    WithoutIsSubsequence(mesh, t[id], Mask(lan));
    ReplaceRow(mesh, t, id, Without(t[id], Mask(lan)));
  }

  lemma {:induction false} RemoveNodeKeeps(mesh: Prefix, t: Table, id: NodeId)
    requires Invariant(mesh, t)
    ensures Invariant(mesh, RemoveNodeStep(t, id))
    ensures UsedBy(RemoveNodeStep(t, id), {}) == UsedBy(t, {id})
  {
  }

  /** Over any sequence of serialised admin requests the invariant holds throughout. */
  lemma {:induction false} RunKeeps(mesh: Prefix, ops: seq<Op>, tables: seq<Table>)
    requires |tables| == |ops| + 1 && Invariant(mesh, tables[0])
    requires forall i :: 0 <= i < |ops| ==> Step(mesh, tables[i], ops[i], tables[i + 1])
    ensures Invariant(mesh, tables[|ops|])
  {
    if ops != [] {
      var n := |ops| - 1;
      forall i | 0 <= i < |ops[..n]|
        ensures Step(mesh, tables[..n + 1][i], ops[..n][i], tables[..n + 1][i + 1])
      {
        assert Step(mesh, tables[i], ops[i], tables[i + 1]);
      }
      RunKeeps(mesh, ops[..n], tables[..n + 1]);
      StepKeeps(mesh, tables[n], ops[n], tables[n + 1]);
    }
  }

  lemma {:induction false} StepKeeps(mesh: Prefix, t: Table, op: Op, t': Table)
    requires Invariant(mesh, t) && Step(mesh, t, op, t')
    ensures Invariant(mesh, t')
  {
    if t' != t {
      match op
      case Save(id, lans) => SaveKeeps(mesh, t, id, lans, t');
      case Add(id, lan) => AddKeeps(mesh, t, id, lan, t');
      case Remove(id, lan) => RemoveKeeps(mesh, t, id, lan, t');
      case RemoveNode(id) => RemoveNodeKeeps(mesh, t, id);
    }
  }

  // ----- Stability -----

  /** A stored prefix is off the mesh network and off every other node's prefixes. */
  lemma {:induction false} StoredIsFree(mesh: Prefix, t: Table, id: NodeId, i: nat)
    requires Invariant(mesh, t) && i < |Row(t, id)| && Row(t, id)[i].virtual.Some?
    ensures !OverlapsAny(Row(t, id)[i].virtual.value, UsedBy(t, {id}) + {mesh})
  {
    var ad := Row(t, id)[i];
    assert Good(mesh, ad);
    forall u | u in UsedBy(t, {id})
      ensures !Overlaps(ad.virtual.value, u)
    {
      var other, x :| other in t && other != id && x in t[other] && x.virtual == Some(u);
      assert RowsApart(t[id], t[other]);
      assert Apart(ad, x);
    }
  }

  /** On a resave, a LAN loses its prefix only to a LAN listed before it. */
  lemma {:induction false} KeptUnlessTaken(mesh: Prefix, t: Table, id: NodeId, lans: seq<Prefix>, t': Table, i: nat)
    requires Invariant(mesh, t) && SaveStep(mesh, t, id, lans, t') && i < |lans|
    requires OldVirtual(Row(t, id), Mask(lans[i])).Some?
    ensures t'[id][i].virtual == OldVirtual(Row(t, id), Mask(lans[i])) <==>
      forall j :: 0 <= j < i ==>
        !Overlaps(t'[id][j].virtual.value, OldVirtual(Row(t, id), Mask(lans[i])).value)
  {
    var ads, used, v := t'[id], UsedBy(t, {id}) + {mesh}, OldVirtual(Row(t, id), Mask(lans[i])).value;
    AllocatedIsGood(mesh, MaskAll(lans), Row(t, id), used, ads);
    var k := OldVirtualIsStored(Row(t, id), Mask(lans[i]));
    StoredIsFree(mesh, t, id, k);
    if ads[i].virtual == Some(v) {
      forall j | 0 <= j < i
        ensures !Overlaps(ads[j].virtual.value, v)
      {
        assert Apart(ads[j], ads[i]);
      }
    } else {
      assert !Reusable(Row(t, id), Mask(lans[i]), UsedBefore(used, ads, i));
      var u :| u in UsedBefore(used, ads, i) && Overlaps(v, u);
      var j :| 0 <= j < i && ads[j].virtual == Some(u);
      OverlapSymmetric(u, v);
    }
  }

  /** A resave that lists the kept LANs first keeps all their prefixes. */
  lemma {:induction false} KeptFirstIsStable(mesh: Prefix, t: Table, id: NodeId, lans: seq<Prefix>, t': Table,
                                             kept: nat, i: nat)
    requires Invariant(mesh, t) && SaveStep(mesh, t, id, lans, t') && i < kept <= |lans|
    requires forall j :: 0 <= j < kept ==> OldVirtual(Row(t, id), Mask(lans[j])).Some?
    ensures t'[id][i].virtual == OldVirtual(Row(t, id), Mask(lans[i]))
  {
    forall j | 0 <= j < i
      ensures !Overlaps(t'[id][j].virtual.value, OldVirtual(Row(t, id), Mask(lans[i])).value)
    {
      KeptFirstIsStable(mesh, t, id, lans, t', kept, j);
      StoredApart(mesh, t, id, Mask(lans[j]), Mask(lans[i]));
    }
    KeptUnlessTaken(mesh, t, id, lans, t', i);
  }

  // ----- A save as a function of its inputs -----

  function Assign(prior: seq<RouteAd>, used: set<Prefix>, lan: Prefix): Option<Prefix>
    requires Valid(lan)
  {
    if Reusable(prior, lan, used) then OldVirtual(prior, lan) else FirstFit(lan.bits, used)
  }

  /** The prefixes that the allocation loop would hand out; none for a LAN that finds no free block. */
  function Plan(lans: seq<Prefix>, prior: seq<RouteAd>, used: set<Prefix>): (ads: seq<RouteAd>)
    requires forall i :: 0 <= i < |lans| ==> Valid(lans[i])
    ensures |ads| == |lans| && forall i :: 0 <= i < |lans| ==> ads[i].lan == lans[i]
  {
    if lans == [] then []
    else
      var n := |lans| - 1;
      var init := Plan(lans[..n], prior, used);
      init + [RouteAd(lans[n], Assign(prior, UsedBefore(used, init, n), lans[n]))]
  }

  function Planned(mesh: Prefix, t: Table, id: NodeId, lans: seq<Prefix>): seq<RouteAd>
    requires forall i :: 0 <= i < |lans| ==> Valid(lans[i])
  {
    Plan(MaskAll(lans), Row(t, id), UsedBy(t, {id}) + {mesh})
  }

  /** The assignment rule has one solution. */
  lemma {:induction false} AssignedIffAssign(prior: seq<RouteAd>, used: set<Prefix>, lan: Prefix, v: Option<Prefix>)
    requires Valid(lan) && RoutableLength(lan)
    ensures Assigned(prior, used, lan, v) <==> v == Assign(prior, used, lan)
  {
    hide Reusable, FirstFit, IsFirstFit;
    FirstFitIs(lan.bits, used);
    if IsFirstFit(lan.bits, used, v) {
      FirstFitUnique(lan.bits, used, v, FirstFit(lan.bits, used));
    }
  }

  lemma {:induction false} UsedBeforePrefix(used: set<Prefix>, ads: seq<RouteAd>, more: seq<RouteAd>, i: nat)
    requires ads <= more && i <= |ads|
    ensures UsedBefore(used, more, i) == UsedBefore(used, ads, i)
  {
    assert forall j :: 0 <= j < i ==> more[j] == ads[j];
  }

  /** The plan obeys the assignment rule entry by entry. */
  lemma {:induction false} PlanEntry(lans: seq<Prefix>, prior: seq<RouteAd>, used: set<Prefix>, i: nat)
    requires i < |lans| && forall j :: 0 <= j < |lans| ==> Valid(lans[j])
    ensures var ads := Plan(lans, prior, used);
      ads[i].virtual == Assign(prior, UsedBefore(used, ads, i), lans[i])
  {
    hide Assign, UsedBefore;
    var n := |lans| - 1;
    var init, ads := Plan(lans[..n], prior, used), Plan(lans, prior, used);
    assert init <= ads;
    UsedBeforePrefix(used, init, ads, i);
    if i < n {
      PlanEntry(lans[..n], prior, used, i);
    }
  }

  /** Any complete allocation is the plan. */
  lemma {:induction false} AllocatedIsPlan(lans: seq<Prefix>, prior: seq<RouteAd>, used: set<Prefix>, ads: seq<RouteAd>)
    requires forall j :: 0 <= j < |lans| ==> Valid(lans[j]) && RoutableLength(lans[j])
    requires |ads| == |lans| && Allocated(lans, prior, used, ads)
    ensures ads == Plan(lans, prior, used)
  {
    hide Assigned, Assign, UsedBefore;
    if lans != [] {
      var n := |lans| - 1;
      forall i | 0 <= i < n
        ensures UsedBefore(used, ads[..n], i) == UsedBefore(used, ads, i)
      {
        UsedBeforePrefix(used, ads[..n], ads, i);
      }
      UsedBeforePrefix(used, ads[..n], ads, n);
      AllocatedIsPlan(lans[..n], prior, used, ads[..n]);
      AssignedIffAssign(prior, UsedBefore(used, ads, n), lans[n], ads[n].virtual);
      assert ads == ads[..n] + [ads[n]];
    }
  }

  /** A save succeeds exactly when every LAN of the plan finds a prefix, and then stores the plan. */
  lemma {:induction false} SaveIffPlanned(mesh: Prefix, t: Table, id: NodeId, lans: seq<Prefix>, t': Table)
    requires AcceptableLans(lans)
    ensures SaveStep(mesh, t, id, lans, t') <==>
      && (forall i :: 0 <= i < |lans| ==> Planned(mesh, t, id, lans)[i].virtual.Some?)
      && t' == t[id := Planned(mesh, t, id, lans)]
  {
    hide Assigned, Assign, UsedBefore;
    var masked, prior, used := MaskAll(lans), Row(t, id), UsedBy(t, {id}) + {mesh};
    var plan := Planned(mesh, t, id, lans);
    if SaveStep(mesh, t, id, lans, t') {
      AllocatedIsPlan(masked, prior, used, t'[id]);
    }
    if (forall i :: 0 <= i < |lans| ==> plan[i].virtual.Some?) && t' == t[id := plan] {
      forall i | 0 <= i < |plan|
        ensures Assigned(prior, UsedBefore(used, plan, i), masked[i], plan[i].virtual)
      {
        PlanEntry(masked, prior, used, i);
        AssignedIffAssign(prior, UsedBefore(used, plan, i), masked[i], plan[i].virtual);
      }
    }
  }

  /** The `j`-th listed LAN keeps no prefix, and its first fit overlaps `v`. */
  predicate Displaces(mesh: Prefix, t: Table, id: NodeId, lans: seq<Prefix>, j: nat, v: Prefix)
    requires j < |lans| && forall i :: 0 <= i < |lans| ==> Valid(lans[i])
  {
    var used := UsedBefore(UsedBy(t, {id}) + {mesh}, Planned(mesh, t, id, lans), j);
    && !Reusable(Row(t, id), Mask(lans[j]), used)
    && FirstFit(lans[j].bits, used).Some? && Overlaps(FirstFit(lans[j].bits, used).value, v)
  }

  /**
   * Stability of a resave, from what is known before it: a LAN keeps its virtual
   * prefix exactly when no LAN listed before it that needs a new prefix finds
   * its first fit inside.
   */
  lemma {:induction false} KeptIff(mesh: Prefix, t: Table, id: NodeId, lans: seq<Prefix>, t': Table, i: nat)
    requires Invariant(mesh, t) && SaveStep(mesh, t, id, lans, t') && i < |lans|
    requires OldVirtual(Row(t, id), Mask(lans[i])).Some?
    ensures t'[id][i].virtual == OldVirtual(Row(t, id), Mask(lans[i])) <==>
      forall j :: 0 <= j < i ==> !Displaces(mesh, t, id, lans, j, OldVirtual(Row(t, id), Mask(lans[i])).value)
  {
    var v := OldVirtual(Row(t, id), Mask(lans[i])).value;
    hide Invariant, SaveStep, Displaces;
    KeptUnlessTaken(mesh, t, id, lans, t', i);
    SaveLength(mesh, t, id, lans, t');
    forall j | 0 <= j < i
      ensures t'[id][j].virtual.Some?
      ensures Overlaps(t'[id][j].virtual.value, v) <==> Displaces(mesh, t, id, lans, j, v)
    {
      TakenIffDisplaces(mesh, t, id, lans, t', i, j);
    }
  }

  lemma {:induction false} SaveLength(mesh: Prefix, t: Table, id: NodeId, lans: seq<Prefix>, t': Table)
    requires SaveStep(mesh, t, id, lans, t')
    ensures AcceptableLans(lans) && id in t' && |t'[id]| == |lans|
    ensures forall i :: 0 <= i < |lans| ==> t'[id][i].virtual.Some?
  {
  }

  lemma {:induction false} TakenIffDisplaces(mesh: Prefix, t: Table, id: NodeId, lans: seq<Prefix>, t': Table, i: nat, j: nat)
    requires Invariant(mesh, t) && SaveStep(mesh, t, id, lans, t') && j < i < |lans|
    requires OldVirtual(Row(t, id), Mask(lans[i])).Some?
    ensures t'[id][j].virtual.Some?
    ensures Overlaps(t'[id][j].virtual.value, OldVirtual(Row(t, id), Mask(lans[i])).value) <==>
      Displaces(mesh, t, id, lans, j, OldVirtual(Row(t, id), Mask(lans[i])).value)
  {
    hide Overlaps, FirstFit, UsedBefore;
    SaveIffPlanned(mesh, t, id, lans, t');
    var prior, used := Row(t, id), UsedBy(t, {id}) + {mesh};
    var plan := Planned(mesh, t, id, lans);
    PlanEntry(MaskAll(lans), prior, used, j);
    if Reusable(prior, Mask(lans[j]), UsedBefore(used, plan, j)) {
      StoredApart(mesh, t, id, Mask(lans[j]), Mask(lans[i]));
    }
  }

  /** Two LANs of one row have disjoint prefixes. */
  lemma {:induction false} StoredApart(mesh: Prefix, t: Table, id: NodeId, a: Prefix, b: Prefix)
    requires Invariant(mesh, t) && a != b && OldVirtual(Row(t, id), a).Some? && OldVirtual(Row(t, id), b).Some?
    ensures !Overlaps(OldVirtual(Row(t, id), a).value, OldVirtual(Row(t, id), b).value)
  {
    var k := OldVirtualIsStored(Row(t, id), a);
    var l := OldVirtualIsStored(Row(t, id), b);
    assert k != l;
    assert Apart(Row(t, id)[k], Row(t, id)[l]) || Apart(Row(t, id)[l], Row(t, id)[k]);
    OverlapSymmetric(Row(t, id)[k].virtual.value, Row(t, id)[l].virtual.value);
  }

  // ----- A resave that loses a prefix -----

  /** 10.77.0.0/24, 10.77.1.0/24 and 10.77.2.0/24. */
  const BLOCK0 := Prefix(0x0A4D_0000, 24)
  const BLOCK1 := Prefix(0x0A4D_0100, 24)
  const BLOCK2 := Prefix(0x0A4D_0200, 24)

  /** 192.168.0.0/24 and 192.168.1.0/24. */
  const LAN0 := Prefix(0xC0A8_0000, 24)
  const LAN1 := Prefix(0xC0A8_0100, 24)

  lemma {:induction false} Blocks()
    ensures Size(24) == 256
    ensures ShiftRight(POOL, 8) == 0x0A4D00 && ShiftRight(POOL + 256, 8) == 0x0A4D01 && ShiftRight(POOL + 512, 8) == 0x0A4D02
    ensures IsMasked(BLOCK0) && IsMasked(BLOCK1) && IsMasked(BLOCK2)
  {
    assert Pow2(4) == 16;
    assert Pow2(8) == 256;
    var p: nat := POOL;
    assert ShiftLeft(0x0A4D00, 8) == POOL;
    ShiftLeftNext(0x0A4D00, 8);
    ShiftLeftNext(0x0A4D01, 8);
    ShiftBack(0x0A4D00, 8);
    ShiftBack(0x0A4D01, 8);
    ShiftBack(0x0A4D02, 8);
  }

  lemma {:induction false} Lans()
    ensures Mask(LAN0) == LAN0 && Mask(LAN1) == LAN1 && IsMasked(LAN1)
  {
    assert ShiftLeft(0xC0A800, 8) == 0xC0A8_0000;
    assert Pow2(8) == 256;
    ShiftLeftNext(0xC0A800, 8);
    ShiftBack(0xC0A800, 8);
    ShiftBack(0xC0A801, 8);
  }

  lemma {:induction false} LansAreFine()
    ensures AcceptableLans([LAN0, LAN1]) && MaskAll([LAN0, LAN1]) == [LAN0, LAN1] && Mask(LAN1) == LAN1
  {
    Lans();
    hide Mask;
  }

  /** The node whose one LAN holds the first block behind the mesh network 10.77.0.0/24. */
  function OneRow(id: NodeId): Table {
    map[id := [RouteAd(LAN1, Some(BLOCK1))]]
  }

  lemma {:induction false} OneRowIsValid(id: NodeId)
    ensures Invariant(BLOCK0, OneRow(id))
    ensures UsedBy(OneRow(id), {id}) + {BLOCK0} == {BLOCK0}
  {
    Blocks();
    Lans();
    SecondBlock({BLOCK0});
  }

  function ResavedRow(): seq<RouteAd> {
    [RouteAd(LAN0, Some(BLOCK1)), RouteAd(LAN1, Some(BLOCK2))]
  }

  lemma {:induction false} ResaveAllocates(prior: seq<RouteAd>)
    requires prior == [RouteAd(LAN1, Some(BLOCK1))]
    ensures Allocated([LAN0, LAN1], prior, {BLOCK0}, ResavedRow())
    ensures OldVirtual(prior, LAN1) == Some(BLOCK1)
  {
    var ads, used := ResavedRow(), {BLOCK0};
    SecondBlock(used);
    ThirdBlock({BLOCK0, BLOCK1});
    assert Overlaps(BLOCK1, BLOCK1);
    hide IsFirstFit, Overlaps;
    assert OldVirtual(prior, LAN0) == None && !Reusable(prior, LAN0, used);
    assert OldVirtual(prior, LAN1) == Some(BLOCK1);
    assert UsedBefore(used, ads, 0) == used;
    assert UsedBefore(used, ads, 1) == {BLOCK0, BLOCK1} by { assert ads[0].virtual.value == BLOCK1; }
    assert !Reusable(prior, LAN1, {BLOCK0, BLOCK1}) by {
      assert BLOCK1 in {BLOCK0, BLOCK1};
    }
    hide Reusable, OldVirtual, UsedBefore;
    assert Assigned(prior, used, LAN0, ads[0].virtual) && Assigned(prior, {BLOCK0, BLOCK1}, LAN1, ads[1].virtual);
  }

  /** With a new LAN listed first, the resave succeeds and the old LAN's prefix moves to the new one. */
  lemma {:induction false} NewLanTakesPrefix(id: NodeId)
    ensures var t, lans := OneRow(id), [LAN0, LAN1];
      var t' := t[id := ResavedRow()];
      && Invariant(BLOCK0, t) && SaveStep(BLOCK0, t, id, lans, t')
      && t'[id][1].virtual != OldVirtual(Row(t, id), Mask(lans[1]))
  {
    OneRowIsValid(id);
    LansAreFine();
    hide Invariant, Allocated, AcceptableLans, MaskAll, Mask;
    ResaveAllocates(Row(OneRow(id), id));
  }

  lemma {:induction false} SecondBlock(used: set<Prefix>)
    requires used == {BLOCK0}
    ensures IsFirstFit(24, used, Some(BLOCK1)) && !Overlaps(BLOCK1, BLOCK0)
  {
    Blocks();
    hide ShiftRight, ShiftLeft, Pow2;
    forall p | PoolBlock(p) && p.bits == 24 && p.addr < BLOCK1.addr
      ensures OverlapsAny(p, used)
    {
      NextBlock(BLOCK0, p);
      assert BLOCK0 in used;
    }
  }

  lemma {:induction false} ThirdBlock(used: set<Prefix>)
    requires used == {BLOCK0, BLOCK1}
    ensures IsFirstFit(24, used, Some(BLOCK2))
  {
    Blocks();
    hide ShiftRight, ShiftLeft, Pow2;
    forall p | PoolBlock(p) && p.bits == 24 && p.addr < BLOCK2.addr
      ensures OverlapsAny(p, used)
    {
      if p.addr < BLOCK1.addr {
        NextBlock(BLOCK0, p);
      } else {
        NextBlock(BLOCK1, p);
      }
      assert p in used;
    }
  }
}
