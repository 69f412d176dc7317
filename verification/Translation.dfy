/** 1:1 address translation between LAN and virtual prefixes, on the coordinator and on a gateway. */
module Translation {
  import opened Wrappers
  import opened Overlay
  import opened Prefixes
  import opened SiteRoutes

  /** Moves an address from one prefix to another, in 32-bit arithmetic. */
  function Shifted(ip: Addr, from: Prefix, to: Prefix): Addr {
    var offset := (ip - from.addr) % 0x1_0000_0000;
    (to.addr + offset) % 0x1_0000_0000
  }

  // ----- Coordinator -----

  /** `translatedIP`: the first usable route that covers the address decides. */
  function TranslatedIP(ip: Addr, routes: seq<RouteAd>, toVirtual: bool): Option<Addr> {
    if routes == [] then None
    else
      var r := routes[0];
      if r.virtual.None? then TranslatedIP(ip, routes[1..], toVirtual)
      else
        var (from, to) := if toVirtual then (r.lan, r.virtual.value) else (r.virtual.value, r.lan);
        if Contains(from, ip) then Some(Shifted(ip, from, to)) else TranslatedIP(ip, routes[1..], toVirtual)
  }

  /** The route that `TranslatedIP` picks towards the virtual side. */
  lemma {:induction false} PickedRoute(ip: Addr, routes: seq<RouteAd>) returns (k: nat)
    requires TranslatedIP(ip, routes, true).Some?
    ensures k < |routes| && routes[k].virtual.Some? && Contains(routes[k].lan, ip)
    ensures TranslatedIP(ip, routes, true) == Some(Shifted(ip, routes[k].lan, routes[k].virtual.value))
  {
    var r := routes[0];
    if r.virtual.Some? && Contains(r.lan, ip) {
      k := 0;
    } else {
      var k' := PickedRoute(ip, routes[1..]);
      k := k' + 1;
    }
  }

  /** A LAN address is published exactly when an advertised LAN covers it. */
  lemma {:induction false} PublishedIff(ip: Addr, routes: seq<RouteAd>)
    ensures TranslatedIP(ip, routes, true).Some? <==>
      exists ad :: ad in routes && ad.virtual.Some? && Contains(ad.lan, ip)
  {
    if routes != [] {
      PublishedIff(ip, routes[1..]);
      assert routes == [routes[0]] + routes[1..];
    }
  }

  // ----- Gateway -----

  /** A route as a node keeps it. */
  datatype SubnetRoute = SubnetRoute(virtual: Prefix, lan: Prefix, owner: NodeId)

  /** A directory entry: a node and the routes it advertises. */
  datatype Entry = Entry(id: NodeId, routes: seq<RouteAd>)

  predicate Usable(ad: RouteAd) {
    ad.virtual.Some? && ad.virtual.value.bits == ad.lan.bits <= 32
  }

  function OwnRoutes(id: NodeId, ads: seq<RouteAd>): seq<SubnetRoute> {
    if ads == [] then []
    else
      var ad := ads[0];
      (if Usable(ad) then [SubnetRoute(Mask(ad.virtual.value), Mask(ad.lan), id)] else []) + OwnRoutes(id, ads[1..])
  }

  /** `applyTopology`: collects the routes of the whole directory. */
  function SubnetRoutes(directory: seq<Entry>): seq<SubnetRoute> {
    if directory == [] then [] else OwnRoutes(directory[0].id, directory[0].routes) + SubnetRoutes(directory[1..])
  }

  function From(r: SubnetRoute, source: bool): Prefix {
    if source then r.lan else r.virtual
  }

  function To(r: SubnetRoute, source: bool): Prefix {
    if source then r.virtual else r.lan
  }

  predicate Covers(r: SubnetRoute, self: NodeId, ip: Addr, source: bool) {
    r.owner == self && Contains(From(r, source), ip)
  }

  /** The first own route that covers the address decides. */
  function LocalAddress(routes: seq<SubnetRoute>, self: NodeId, ip: Addr, source: bool): Option<Addr> {
    if routes == [] then None
    else if Covers(routes[0], self, ip, source) then
      Some(Shifted(ip, From(routes[0], source), To(routes[0], source)))
    else LocalAddress(routes[1..], self, ip, source)
  }

  lemma {:induction false} AllAgree(routes: seq<SubnetRoute>, self: NodeId, ip: Addr, source: bool, k: nat, x: Addr)
    requires k < |routes| && Covers(routes[k], self, ip, source)
    requires forall r :: r in routes && Covers(r, self, ip, source) ==> Shifted(ip, From(r, source), To(r, source)) == x
    ensures LocalAddress(routes, self, ip, source) == Some(x)
  {
    if !Covers(routes[0], self, ip, source) {
      AllAgree(routes[1..], self, ip, source, k - 1, x);
    }
  }

  lemma {:induction false} OwnRoutesAre(id: NodeId, ads: seq<RouteAd>, r: SubnetRoute)
    ensures r in OwnRoutes(id, ads) <==>
      r.owner == id && exists ad :: ad in ads && Usable(ad) && r == SubnetRoute(Mask(ad.virtual.value), Mask(ad.lan), id)
  {
    if ads != [] {
      assert ads == [ads[0]] + ads[1..];
      OwnRoutesAre(id, ads[1..], r);
    }
  }

  lemma {:induction false} SubnetRoutesAre(directory: seq<Entry>, r: SubnetRoute)
    ensures r in SubnetRoutes(directory) <==> exists e :: e in directory && r in OwnRoutes(e.id, e.routes)
  {
    if directory != [] {
      assert directory == [directory[0]] + directory[1..];
      SubnetRoutesAre(directory[1..], r);
    }
  }

  // ----- Round trip -----

  lemma {:induction false} ShiftedValue(ip: Addr, from: Prefix, to: Prefix)
    requires from.addr <= ip && to.addr + (ip - from.addr) < 0x1_0000_0000
    ensures Shifted(ip, from, to) == to.addr + (ip - from.addr)
  {
  }

  /** Within equal-length masked prefixes translation is exact and reversible. */
  lemma {:induction false} ShiftedIsExact(ip: Addr, from: Prefix, to: Prefix)
    requires IsMasked(from) && IsMasked(to) && from.bits == to.bits && Contains(from, ip)
    ensures Shifted(ip, from, to) == to.addr + (ip - from.addr)
    ensures Contains(to, Shifted(ip, from, to))
    ensures Shifted(Shifted(ip, from, to), to, from) == ip
  {
    hide ShiftRight, ShiftLeft, Pow2, Shifted;
    MaskedInterval(from, ip);
    MaskedFits(to);
    MaskedInterval(to, to.addr + (ip - from.addr));
    ShiftedValue(ip, from, to);
    ShiftedValue(Shifted(ip, from, to), to, from);
  }

  lemma {:induction false} MaskIdempotent(p: Prefix)
    requires IsMasked(p)
    ensures Mask(p) == p
  {
  }

  /** Every directory entry of `id` carries the stored row of `id`. */
  ghost predicate Publishes(directory: seq<Entry>, t: Table) {
    forall e :: e in directory ==> e.routes == Row(t, e.id)
  }

  /**
   * What the coordinator publishes for a LAN address, the gateway maps back to
   * that address, even when the LANs of the gateway overlap.
   */
  lemma {:induction false} RoundTrip(mesh: Prefix, t: Table, directory: seq<Entry>, id: NodeId, ip: Addr, v: Addr)
    requires Invariant(mesh, t) && Publishes(directory, t)
    requires Entry(id, Row(t, id)) in directory
    requires TranslatedIP(ip, Row(t, id), true) == Some(v)
    ensures LocalAddress(SubnetRoutes(directory), id, v, false) == Some(ip)
  {
    var ads, routes := Row(t, id), SubnetRoutes(directory);
    var k := PickedRoute(ip, ads);
    var ad := ads[k];
    assert Good(mesh, ad);
    ShiftedIsExact(ip, ad.lan, ad.virtual.value);
    var own := SubnetRoute(ad.virtual.value, ad.lan, id);
    MaskIdempotent(ad.virtual.value);
    MaskIdempotent(ad.lan);
    OwnRoutesAre(id, ads, own);
    SubnetRoutesAre(directory, own);
    var i :| 0 <= i < |routes| && routes[i] == own;
    forall r | r in routes && Covers(r, id, v, false)
      ensures Shifted(v, From(r, false), To(r, false)) == ip
    {
      OnlyRoute(mesh, t, directory, id, k, v, r);
    }
    AllAgree(routes, id, v, false, i, ip);
  }

  /** Disjointness: only one advertised prefix of the node can cover a virtual address. */
  lemma {:induction false} OnlyRoute(mesh: Prefix, t: Table, directory: seq<Entry>, id: NodeId, k: nat, v: Addr, r: SubnetRoute)
    requires Invariant(mesh, t) && Publishes(directory, t)
    requires k < |Row(t, id)| && Row(t, id)[k].virtual.Some? && Contains(Row(t, id)[k].virtual.value, v)
    requires r in SubnetRoutes(directory) && Covers(r, id, v, false)
    ensures r == SubnetRoute(Row(t, id)[k].virtual.value, Row(t, id)[k].lan, id)
  {
    hide Invariant, SubnetRoutes, OwnRoutes, ShiftRight, ShiftLeft;
    var ads := Row(t, id);
    SubnetRoutesAre(directory, r);
    var e :| e in directory && r in OwnRoutes(e.id, e.routes);
    OwnRoutesAre(e.id, e.routes, r);
    var ad :| ad in ads && Usable(ad) && r == SubnetRoute(Mask(ad.virtual.value), Mask(ad.lan), id);
    var j :| 0 <= j < |ads| && ads[j] == ad;
    RowIsGood(mesh, t, id);
    assert Good(mesh, ads[j]);
    MaskIdempotent(ad.virtual.value);
    MaskIdempotent(ad.lan);
    UniqueAd(mesh, ads, j, k, v);
  }

  lemma {:induction false} RowIsGood(mesh: Prefix, t: Table, id: NodeId)
    requires Invariant(mesh, t)
    ensures GoodRow(mesh, Row(t, id))
  {
  }

  lemma {:induction false} UniqueAd(mesh: Prefix, ads: seq<RouteAd>, j: nat, k: nat, v: Addr)
    requires GoodRow(mesh, ads) && j < |ads| && k < |ads| && ads[j].virtual.Some? && ads[k].virtual.Some?
    requires Contains(ads[j].virtual.value, v) && Contains(ads[k].virtual.value, v)
    ensures j == k
  {
    SharedAddress(ads[j].virtual.value, ads[k].virtual.value, v);
    SharedAddress(ads[k].virtual.value, ads[j].virtual.value, v);
    assert j < k ==> Apart(ads[j], ads[k]);
    assert k < j ==> Apart(ads[k], ads[j]);
  }

  // ----- The two programs agree on outgoing addresses -----

  /** Routes of other nodes play no part. */
  lemma {:induction false} OthersSkipped(self: NodeId, others: seq<SubnetRoute>, rest: seq<SubnetRoute>, ip: Addr, source: bool)
    requires forall r :: r in others ==> r.owner != self
    ensures LocalAddress(others + rest, self, ip, source) == LocalAddress(rest, self, ip, source)
  {
    hide Contains, Shifted;
    if others == [] {
      assert others + rest == rest;
    } else {
      assert others[0] in others;
      assert forall r :: r in others[1..] ==> r in others;
      OthersSkipped(self, others[1..], rest, ip, source);
      assert (others + rest)[1..] == others[1..] + rest;
    }
  }

  lemma {:induction false} OwnFirst(mesh: Prefix, id: NodeId, ads: seq<RouteAd>, rest: seq<SubnetRoute>, ip: Addr,
                                   source: bool)
    requires forall i :: 0 <= i < |ads| ==> Good(mesh, ads[i])
    ensures LocalAddress(OwnRoutes(id, ads) + rest, id, ip, source) ==
      if TranslatedIP(ip, ads, source).Some? then TranslatedIP(ip, ads, source) else LocalAddress(rest, id, ip, source)
  {
    hide Good, Contains, Shifted, LocalAddress;
    if ads == [] {
      assert OwnRoutes(id, ads) + rest == rest;
    } else {
      OwnFirst(mesh, id, ads[1..], rest, ip, source);
      FirstOwn(mesh, id, ads, rest, ip, source);
    }
  }

  /** The prefix that an entry translates from. */
  function Side(ad: RouteAd, source: bool): Prefix
    requires ad.virtual.Some?
  {
    if source then ad.lan else ad.virtual.value
  }

  /** One entry of the row: the gateway's route for it, if any, decides just as the coordinator's does. */
  lemma {:induction false} FirstOwn(mesh: Prefix, id: NodeId, ads: seq<RouteAd>, rest: seq<SubnetRoute>, ip: Addr, source: bool)
    requires ads != [] && Good(mesh, ads[0])
    ensures var (all, tail) := (OwnRoutes(id, ads) + rest, OwnRoutes(id, ads[1..]) + rest);
      && (ads[0].virtual.Some? && Contains(Side(ads[0], source), ip) ==>
            LocalAddress(all, id, ip, source) == Some(Shifted(ip, Side(ads[0], source), Side(ads[0], !source))))
      && (!(ads[0].virtual.Some? && Contains(Side(ads[0], source), ip)) ==>
            LocalAddress(all, id, ip, source) == LocalAddress(tail, id, ip, source))
  {
    GoodIsUsable(mesh, ads[0]);
    OwnHead(id, ads);
    hide Good, Usable, Contains, Shifted, Mask, LocalAddress, OwnRoutes;
    if Usable(ads[0]) {
      var r := SubnetRoute(ads[0].virtual.value, ads[0].lan, id);
      var own := OwnRoutes(id, ads[1..]);
      assert [r] + own + rest == [r] + (own + rest);
      LocalHead(r, own + rest, id, ip, source);
    }
  }

  lemma {:induction false} LocalHead(r: SubnetRoute, rest: seq<SubnetRoute>, self: NodeId, ip: Addr, source: bool)
    ensures LocalAddress([r] + rest, self, ip, source) ==
      if Covers(r, self, ip, source) then Some(Shifted(ip, From(r, source), To(r, source)))
      else LocalAddress(rest, self, ip, source)
  {
    hide Covers, Shifted;
    assert ([r] + rest)[1..] == rest;
  }

  lemma {:induction false} OwnHead(id: NodeId, ads: seq<RouteAd>)
    requires ads != []
    ensures OwnRoutes(id, ads) == OwnRoutes(id, ads[1..]) || Usable(ads[0])
    ensures Usable(ads[0]) ==>
      OwnRoutes(id, ads) == [SubnetRoute(Mask(ads[0].virtual.value), Mask(ads[0].lan), id)] + OwnRoutes(id, ads[1..])
  {
    hide Usable, Mask;
  }

  lemma {:induction false} GoodIsUsable(mesh: Prefix, ad: RouteAd)
    requires Good(mesh, ad)
    ensures Usable(ad) <==> ad.virtual.Some?
    ensures Usable(ad) ==> Valid(ad.lan) && Valid(ad.virtual.value) && Mask(ad.virtual.value) == ad.virtual.value && Mask(ad.lan) == ad.lan
  {
    if ad.virtual.Some? {
      MaskIdempotent(ad.virtual.value);
      MaskIdempotent(ad.lan);
    }
  }

  /**
   * In both directions the gateway writes exactly the address that the
   * coordinator computes from the stored row, first match included.
   */
  lemma {:induction false} GatewayAgrees(mesh: Prefix, t: Table, directory: seq<Entry>, id: NodeId, ip: Addr, source: bool)
    requires Invariant(mesh, t) && Publishes(directory, t)
    ensures LocalAddress(SubnetRoutes(directory), id, ip, source) ==
      if Entry(id, Row(t, id)) in directory then TranslatedIP(ip, Row(t, id), source) else None
  {
    if directory != [] {
      var e, tail := directory[0], directory[1..];
      assert directory == [e] + tail;
      GatewayAgrees(mesh, t, tail, id, ip, source);
      if e.id == id {
        RowIsGood(mesh, t, id);
        OwnFirst(mesh, id, e.routes, SubnetRoutes(tail), ip, source);
      } else {
        forall r | r in OwnRoutes(e.id, e.routes) ensures r.owner != id { OwnRoutesAre(e.id, e.routes, r); }
        OthersSkipped(id, OwnRoutes(e.id, e.routes), SubnetRoutes(tail), ip, source);
      }
    }
  }

  /** The coordinator's two directions undo each other on every published address. */
  lemma {:induction false} PublishedReturns(mesh: Prefix, t: Table, id: NodeId, ip: Addr, v: Addr)
    requires Invariant(mesh, t) && TranslatedIP(ip, Row(t, id), true) == Some(v)
    ensures TranslatedIP(v, Row(t, id), false) == Some(ip)
  {
    var directory := [Entry(id, Row(t, id))];
    assert directory[0] in directory;
    RoundTrip(mesh, t, directory, id, ip, v);
    GatewayAgrees(mesh, t, directory, id, v, false);
  }
}
