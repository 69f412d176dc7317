/** The coordinator's control connections and its table of pending scan requests. */
module ControlPlane {
  import opened Wrappers
  import opened Overlay
  import Hex

  /** A control connection, named by its accept order. */
  type Conn = nat

  /** A request that waits for the target's acknowledgement. */
  datatype Pending = Pending(source: NodeId, target: NodeId, expires: int)

  /** What the coordinator's database says of a node. */
  datatype Info = Info(natType: string, endpoint: string, role: string)

  const RENDEZVOUS_SECONDS := 30

  // ----- Bindings -----

  /** No node ID is bound to two connections. */
  ghost predicate UniqueBinding(controls: map<Conn, NodeId>) {
    forall c, d :: c in controls && d in controls && controls[c] == controls[d] ==> c == d
  }

  predicate Holds(controls: map<Conn, NodeId>, c: Conn, id: NodeId) {
    c in controls && controls[c] == id
  }

  /** The other connections that hold the ID. */
  function Rivals(controls: map<Conn, NodeId>, client: Conn, id: NodeId): set<Conn> {
    set c | c in controls && c != client && controls[c] == id
  }

  /** The rebinding a register performs, with the connections it closes. */
  function RegisterStep(controls: map<Conn, NodeId>, client: Conn, id: NodeId): map<Conn, NodeId> {
    var rivals := Rivals(controls, client, id);
    var kept := controls - (set c | c in rivals && c <= client);
    if exists c :: c in rivals && c > client then kept else kept[client := id]
  }

  /** Among the connections that hold or claim an ID the newest wins; a later-accepted connection keeps its binding. */
  lemma {:induction false} NewestWins(controls: map<Conn, NodeId>, client: Conn, id: NodeId)
    requires UniqueBinding(controls)
    ensures UniqueBinding(RegisterStep(controls, client, id))
    ensures forall c :: Holds(RegisterStep(controls, client, id), c, id) <==>
      (c == client || Holds(controls, c, id)) && client <= c && forall d :: Holds(controls, d, id) ==> d <= c
    ensures forall c :: c in controls && (c > client || (controls[c] != id && c != client)) ==>
      Holds(RegisterStep(controls, client, id), c, controls[c])
  {
    var r := RegisterStep(controls, client, id);
    var rivals := Rivals(controls, client, id);
    assert forall c: Conn :: c in rivals <==> c != client && Holds(controls, c, id);
    if newer :| newer in rivals && newer > client {
      assert r == controls - (set c | c in rivals && c <= client);
    } else {
      assert r == (controls - (set c | c in rivals && c <= client))[client := id];
      forall c: Conn | Holds(r, c, id)
        ensures c == client
      {
        assert c in rivals || c == client;
      }
    }
    forall c, d | c in r && d in r && r[c] == r[d]
      ensures c == d
    {
      assert r[c] == id ==> Holds(r, c, id) && Holds(r, d, id);
    }
  }

  datatype BindingStep = Register(client: Conn, id: NodeId) | Disconnect(client: Conn)

  function ApplyBinding(controls: map<Conn, NodeId>, s: BindingStep): map<Conn, NodeId> {
    match s
    case Register(client, id) => if id == "" then controls else RegisterStep(controls, client, id)
    case Disconnect(client) => controls - {client}
  }

  function Bindings(steps: seq<BindingStep>): map<Conn, NodeId> {
    if steps == [] then map[]
    else ApplyBinding(Bindings(steps[..|steps| - 1]), steps[|steps| - 1])
  }

  /** In every reachable state a node ID is bound to at most one connection. */
  lemma {:induction false} BoundOnce(steps: seq<BindingStep>)
    ensures UniqueBinding(Bindings(steps))
  {
    if steps != [] {
      var n := |steps| - 1;
      BoundOnce(steps[..n]);
      if steps[n].Register? && steps[n].id != "" {
        NewestWins(Bindings(steps[..n]), steps[n].client, steps[n].id);
      }
    }
  }

  /** The step takes the ID away from a connection at least as new as `c`, by its own doing. */
  predicate Leaves(s: BindingStep, c: Conn, id: NodeId) {
    s.client >= c && (s.Disconnect? || (s.Register? && s.id != id))
  }

  /**
   * An ID never moves to an older connection: as long as no connection from `c` on
   * hangs up or registers another ID, the ID stays with `c` or a newer one.
   */
  lemma {:induction false} NeverMovesBack(steps: seq<BindingStep>, more: seq<BindingStep>, c: Conn, id: NodeId)
    requires Holds(Bindings(steps), c, id)
    requires forall s :: s in more ==> !Leaves(s, c, id)
    ensures exists d :: c <= d && Holds(Bindings(steps + more), d, id)
  {
    if more == [] {
      assert steps + more == steps;
    } else {
      var n := |more| - 1;
      var m := more[n];
      NeverMovesBack(steps, more[..n], c, id);
      var all := steps + more;
      assert all[..|all| - 1] == steps + more[..n] && all[|all| - 1] == m;
      var before := Bindings(steps + more[..n]);
      var d :| c <= d && Holds(before, d, id);
      BoundOnce(steps + more[..n]);
      assert !Leaves(m, c, id);
      if m.Register? && m.id != "" {
        NewestWins(before, m.client, m.id);
        var e := if m.id == id && m.client > d then m.client else d;
        assert forall k :: Holds(before, k, id) ==> k == d;
        assert Holds(RegisterStep(before, m.client, m.id), e, id);
        assert c <= e && Holds(Bindings(all), e, id);
      } else {
        assert Holds(Bindings(all), d, id);
      }
    }
  }

  // ----- Pending requests -----

  function Expire(pending: map<Session, Pending>, now: int): map<Session, Pending> {
    map x | x in pending && now <= pending[x].expires :: pending[x]
  }

  function StoreStep(pending: map<Session, Pending>, source: NodeId, target: NodeId, x: Session, now: int): map<Session, Pending> {
    Expire(pending, now)[x := Pending(source, target, now + RENDEZVOUS_SECONDS)]
  }

  /** The acknowledgement of `target` for `source` matches a pending request that has not expired. */
  predicate Acknowledges(pending: map<Session, Pending>, target: NodeId, source: NodeId, x: Session, now: int) {
    && x in pending && pending[x].source == source && pending[x].target == target
    && now < pending[x].expires
  }

  /** A stored request answers its relay's acknowledgement for 30 seconds, and only its. */
  lemma {:induction false} AnswersFor30(pending: map<Session, Pending>, source: NodeId, target: NodeId, x: Session, now: int,
                                        relay: NodeId, asker: NodeId, later: int)
    ensures Acknowledges(StoreStep(pending, source, target, x, now), relay, asker, x, later) <==>
      relay == target && asker == source && later - now < 30
  {
  }

  /** Storing leaves every other request as it was for all times to come, and drops only what is past its time. */
  lemma {:induction false} OthersKept(pending: map<Session, Pending>, source: NodeId, target: NodeId, x: Session, now: int, y: Session)
    requires y != x
    ensures y in StoreStep(pending, source, target, x, now) <==> y in pending && now <= pending[y].expires
    ensures forall relay, asker, later :: later >= now ==>
      (Acknowledges(StoreStep(pending, source, target, x, now), relay, asker, y, later) <==>
        Acknowledges(pending, relay, asker, y, later))
  {
  }

  /** The session IDs of the protocol: 32 hex digits. */
  lemma {:induction false} SessionIff(x: Session)
    ensures ValidSession(x) <==> IsSession(x)
  {
    Hex.DecodesIff(x);
  }

  predicate ValidSession(x: Session) {
    Hex.Decode(x).Some? && |Hex.Decode(x).value| == 16
  }

  /** What a session ID looks like. */
  predicate IsSession(x: Session) {
    |x| == 32 && forall i :: 0 <= i < |x| ==> Hex.IsDigit(x[i])
  }

  /** The status of a scan request that is refused before anything is stored. */
  function Refusal(source: NodeId, body: Option<(NodeId, Session)>, nodes: map<NodeId, Info>): Option<int> {
    if source == "" then Some(409)
    else if body.None? || body.value.0 == "" || !ValidSession(body.value.1) then Some(400)
    else if source !in nodes || body.value.0 !in nodes then Some(404)
    else
      var s, t := nodes[source], nodes[body.value.0];
      if s.natType != "symmetric" || t.natType != "cone" || t.role != "superpeer" || s.endpoint == "" then Some(409)
      else None
  }

  class Coordinator {
    /** `s.controls` and `s.symmetricRendezvous`. */
    var controls: map<Conn, NodeId>
    var pending: map<Session, Pending>

    constructor ()
      ensures controls == map[] && pending == map[]
    {
      controls, pending := map[], map[];
    }

    /** The rebinding after a successful register; `stale` are the connections to close. */
    method Register(client: Conn, id: NodeId) returns (alreadySynced: bool, stale: set<Conn>)
      modifies this`controls
      ensures controls == if id == "" then old(controls) else RegisterStep(old(controls), client, id)
      ensures stale == old(controls).Keys - controls.Keys
      ensures forall c :: c in stale ==> c < client && old(controls)[c] == id
      ensures id != "" ==> (alreadySynced <==> Holds(old(controls), client, id))
    {
      alreadySynced, stale := false, {};
      if id == "" {
        return;
      }
      ghost var before := controls;
      ghost var seen := {};
      var superseded := false;
      var rest := controls.Keys;
      while rest != {}
        invariant rest <= before.Keys && seen == before.Keys - rest
        invariant stale == set c | c in Rivals(before, client, id) && c <= client && c in seen
        invariant controls == before - stale
        invariant superseded <==> exists c :: c in Rivals(before, client, id) && c > client && c in seen
        decreases rest
      {
        var other :| other in rest;
        rest := rest - {other};
        seen := seen + {other};
        assert controls[other] == before[other];
        if other != client && controls[other] == id {
          if other > client {
            superseded := true;
            assert other in Rivals(before, client, id) && other in seen;
          } else {
            controls := controls - {other};
            stale := stale + {other};
          }
        }
      }
      assert seen == before.Keys;
      assert stale == set c | c in Rivals(before, client, id) && c <= client;
      alreadySynced := client in controls && controls[client] == id;
      if !superseded {
        controls := controls[client := id];
      }
    }

    method RegisteredControlID(client: Conn) returns (id: NodeId)
      ensures id == if client in controls then controls[client] else ""
    {
      id := if client in controls then controls[client] else "";
    }

    /** `sendControlEvent`; `sends` tells which connections accept a frame. */
    method SendControlEvent(id: NodeId, sends: Conn -> bool) returns (to: Option<Conn>)
      ensures to.Some? ==> Holds(controls, to.value, id) && sends(to.value)
      ensures to.None? <==> forall c :: Holds(controls, c, id) ==> !sends(c)
    {
      var targets: seq<Conn> := [];
      var rest := controls.Keys;
      while rest != {}
        invariant rest <= controls.Keys
        invariant forall c :: c in targets <==> c in controls && c !in rest && controls[c] == id
        decreases rest
      {
        var client :| client in rest;
        rest := rest - {client};
        if controls[client] == id {
          targets := targets + [client];
        }
      }
      for i := 0 to |targets|
        invariant forall k :: 0 <= k < i ==> !sends(targets[k])
      {
        assert targets[i] in targets;
        if sends(targets[i]) {
          return Some(targets[i]);
        }
      }
      to := None;
    }

    /** The expiry sweep and the new entry. */
    method Store(source: NodeId, target: NodeId, x: Session, now: int)
      modifies this`pending
      ensures pending == StoreStep(old(pending), source, target, x, now)
    {
      ghost var before := pending;
      var rest := pending.Keys;
      while rest != {}
        invariant rest <= before.Keys
        invariant forall y :: y in pending <==> y in before && (y in rest || now <= before[y].expires)
        invariant forall y :: y in pending ==> pending[y] == before[y]
        decreases rest
      {
        var y :| y in rest;
        rest := rest - {y};
        if now > pending[y].expires {
          pending := pending - {y};
        }
      }
      assert pending == Expire(before, now);
      pending := pending[x := Pending(source, target, now + RENDEZVOUS_SECONDS)];
    }

    /** `symmetricScanRequest` with its parsed body, as one caller sees it. */
    method SymmetricScanRequest(client: Conn, body: Option<(NodeId, Session)>, nodes: map<NodeId, Info>, now: int,
                                sends: Conn -> bool)
      returns (status: int, to: Option<Conn>)
      modifies this`pending
      ensures var source := if client in controls then controls[client] else "";
              var wellFormed := body.Some? && body.value.0 != "" && IsSession(body.value.1);
              var known := wellFormed && source in nodes && body.value.0 in nodes;
              var paired := known && nodes[source].natType == "symmetric" && nodes[source].endpoint != ""
                && nodes[body.value.0].natType == "cone" && nodes[body.value.0].role == "superpeer";
              if source == "" || !paired then
                && status == (if source == "" then 409 else if !wellFormed then 400 else if !known then 404 else 409)
                && to.None? && pending == old(pending)
              else
                var (target, x) := body.value;
                var stored := StoreStep(old(pending), source, target, x, now);
                && status == (if exists c :: Holds(controls, c, target) && sends(c) then 202 else 503)
                && (status == 202 ==> to.Some? && Holds(controls, to.value, target) && sends(to.value) && pending == stored)
                && (status == 503 ==> to.None? && pending == stored - {x})
    {
      var source := RegisteredControlID(client);
      if body.Some? {
        SessionIff(body.value.1);
      }
      var refusal := Refusal(source, body, nodes);
      if refusal.Some? {
        return refusal.value, None;
      }
      var (target, x) := body.value;
      Store(source, target, x, now);
      to := SendControlEvent(target, sends);
      if to.None? {
        pending := pending - {x};
        return 503, None;
      }
      status := 202;
    }

    /** `symmetricScanACK` with its parsed body: a matching entry is consumed whether or not the source can be reached. */
    method SymmetricScanACK(client: Conn, body: Option<(NodeId, Session)>, now: int, sends: Conn -> bool)
      returns (status: int, to: Option<Conn>)
      modifies this`pending
      ensures var target := if client in controls then controls[client] else "";
              var valid := target != "" && body.Some? && body.value.0 != "" && IsSession(body.value.1);
              if !valid then status == (if target == "" then 409 else 400) && to.None? && pending == old(pending)
              else
                var (source, x) := body.value;
                var matched := x in old(pending) && old(pending)[x].source == source && old(pending)[x].target == target
                  && now < old(pending)[x].expires;
                && pending == (if matched then old(pending) - {x} else old(pending))
                && (to.Some? ==> matched && Holds(controls, to.value, source) && sends(to.value))
                && status == (if !matched then 409 else if to.Some? then 200 else 503)
                && (status == 503 ==> forall c :: Holds(controls, c, source) ==> !sends(c))
    {
      to := None;
      if body.Some? {
        SessionIff(body.value.1);
      }
      var target := RegisteredControlID(client);
      if target == "" {
        return 409, None;
      }
      if body.None? || body.value.0 == "" || !ValidSession(body.value.1) {
        return 400, None;
      }
      var (source, x) := body.value;
      if !Acknowledges(pending, target, source, x, now) {
        return 409, None;
      }
      pending := pending - {x};
      to := SendControlEvent(source, sends);
      status := if to.Some? then 200 else 503;
    }
  }
}
