/** The three-party rendezvous: a source asks the coordinator to have a relay scan for it, and waits for the acknowledgement. */
module Rendezvous {
  import opened Overlay
  import opened ControlPlane
  import Scans = ScanSessions

  /** Who opened a session, and the relay it asked. */
  datatype Pair = Pair(source: NodeId, relay: NodeId)

  /** A store of a pending request. */
  type Ticket = nat

  /**
   * Frames in flight and calls between two locked sections. None is ever
   * removed, so frames may be delayed, repeated or lost.
   */
  datatype Message =
    | Request(conn: Conn, target: NodeId, session: Session)
    | Storing(source: NodeId, target: NodeId, session: Session)
    | Notifying(source: NodeId, target: NodeId, session: Session)
    | ScanEvent(conn: Conn, peer: NodeId, session: Session)
    | Arming(relay: NodeId, peer: NodeId, session: Session)
    | Armed(relay: NodeId, peer: NodeId, session: Session)
    | Ack(conn: Conn, peer: NodeId, session: Session)
    | Taking(target: NodeId, source: NodeId, session: Session)
    | AckEvent(conn: Conn, session: Session)

  /** An acknowledgement the coordinator has matched and not yet forwarded. */
  datatype Forwarding = Forwarding(source: NodeId, target: NodeId, session: Session)

  datatype World = World(
    owner: map<Conn, NodeId>,
    controls: map<Conn, NodeId>,
    pending: map<Session, Pending>,
    nodes: map<NodeId, Scans.State>,
    asked: map<Session, Pair>,
    waiters: set<(NodeId, Session)>,
    fired: set<(NodeId, Session)>,
    flight: set<Message>,
    // Every store has a ticket; `current` is the last ticket of a session.
    tickets: map<Ticket, Session>,
    current: map<Session, Ticket>,
    forwarding: map<Ticket, Forwarding>,
    forwards: multiset<Ticket>)

  const START := World(map[], map[], map[], map[], map[], {}, {}, {}, map[], map[], map[], multiset{})

  /** The scan state of a node. */
  function Scanning(w: World, n: NodeId): Scans.State {
    if n in w.nodes then w.nodes[n] else Scans.INITIAL
  }

  // ----- Steps -----

  datatype Step =
    | Accept(conn: Conn, n: NodeId)
    | Register(conn: Conn)
    | Disconnect(conn: Conn)
    | Ask(n: NodeId, relay: NodeId, x: Session)
    | SendRequest(conn: Conn, x: Session)
    | ReceiveRequest(m: Message)
    | Store(m: Message, now: int, ticket: Ticket)
    | Notify(m: Message, conn: Conn)
    | Undo(m: Message)
    | ReceiveEvent(m: Message)
    | Arm(m: Message, live: bool, ch: Scans.Chan)
    | SendAck(m: Message, conn: Conn)
    | ReceiveAck(m: Message)
    | Take(m: Message, now: int)
    | Forward(ticket: Ticket, conn: Conn)
    | GiveUp(ticket: Ticket)
    | Signal(m: Message)
    | StopWaiting(n: NodeId, x: Session)
    | Scan(n: NodeId, step: Scans.Step)

  /**
   * When a step can happen. Connections register the ID of the node that opened
   * them, and session IDs are fresh.
   */
  predicate Enabled(w: World, s: Step) {
    match s
    case Accept(conn, n) => n != "" && forall c :: c in w.owner ==> c < conn
    case Register(conn) => conn in w.owner
    case Disconnect(_) => true
    case Ask(_, _, x) => x !in w.asked
    case SendRequest(conn, x) => x in w.asked && conn in w.owner && w.owner[conn] == w.asked[x].source
    case ReceiveRequest(m) => m in w.flight && m.Request? && m.conn in w.controls
    case Store(m, _, ticket) => m in w.flight && m.Storing? && ticket !in w.tickets
    case Notify(m, conn) => m in w.flight && m.Notifying? && Holds(w.controls, conn, m.target)
    case Undo(m) => m in w.flight && m.Notifying?
    case ReceiveEvent(m) => m in w.flight && m.ScanEvent? && m.conn in w.owner
    case Arm(m, _, ch) => m in w.flight && m.Arming? && ch !in Scanning(w, m.relay).started
    case SendAck(m, conn) => m in w.flight && m.Armed? && conn in w.owner && w.owner[conn] == m.relay
    case ReceiveAck(m) => m in w.flight && m.Ack? && m.conn in w.controls
    case Take(m, now) => m in w.flight && m.Taking?
    case Forward(ticket, conn) => ticket in w.forwarding && Holds(w.controls, conn, w.forwarding[ticket].source)
    case GiveUp(ticket) => ticket in w.forwarding
    case Signal(m) => m in w.flight && m.AckEvent? && m.conn in w.owner
    case StopWaiting(_, _) => true
    case Scan(n, step) => Scans.Enabled(Scanning(w, n), step)
  }

  function Send(w: World, m: Message): World {
    w.(flight := w.flight + {m})
  }

  /** The coordinator's rendezvous table after a scan request was stored. */
  function Stored(w: World, m: Message, now: int, ticket: Ticket): World
    requires m.Storing?
  {
    w.(pending := StoreStep(w.pending, m.source, m.target, m.session, now),
       tickets := w.tickets[ticket := m.session],
       current := w.current[m.session := ticket],
       flight := w.flight + {Notifying(m.source, m.target, m.session)})
  }

  /** The ticket of the last store for a session. */
  function Current(w: World, x: Session): Ticket {
    if x in w.current then w.current[x] else 0
  }

  function Taken(w: World, m: Message, now: int): World
    requires m.Taking?
  {
    if Acknowledges(w.pending, m.target, m.source, m.session, now) then
      w.(pending := w.pending - {m.session},
         forwarding := w.forwarding[Current(w, m.session) := Forwarding(m.source, m.target, m.session)])
    else w
  }

  function Scanned(w: World, n: NodeId, s: Scans.State): World {
    w.(nodes := w.nodes[n := s])
  }

  /** A transport reset also forgets the node's waiters. */
  function ScanStep(w: World, n: NodeId, step: Scans.Step): World
    requires Scans.Enabled(Scanning(w, n), step)
  {
    var v := Scanned(w, n, Scans.Apply(Scanning(w, n), step));
    if step.FullReset? then v.(waiters := set e | e in w.waiters && e.0 != n) else v
  }

  function Signalled(w: World, n: NodeId, x: Session): World {
    if (n, x) in w.waiters then w.(fired := w.fired + {(n, x)}) else w
  }

  function Apply(w: World, s: Step): World
    requires Enabled(w, s)
  {
    match s
    case Accept(conn, n) => w.(owner := w.owner[conn := n])
    case Register(conn) => w.(controls := RegisterStep(w.controls, conn, w.owner[conn]))
    case Disconnect(conn) => w.(controls := w.controls - {conn})
    case Ask(n, relay, x) => w.(asked := w.asked[x := Pair(n, relay)], waiters := w.waiters + {(n, x)})
    case SendRequest(conn, x) => Send(w, Message.Request(conn, w.asked[x].relay, x))
    case ReceiveRequest(m) => Send(w, Storing(w.controls[m.conn], m.target, m.session))
    case Store(m, now, ticket) => Stored(w, m, now, ticket)
    case Notify(m, conn) => Send(w, ScanEvent(conn, m.source, m.session))
    case Undo(m) => w.(pending := w.pending - {m.session})
    case ReceiveEvent(m) =>
      var relay := w.owner[m.conn];
      Send(Scanned(w, relay, Scans.EventStep(Scanning(w, relay), m.peer, m.session)), Arming(relay, m.peer, m.session))
    case Arm(m, live, ch) =>
      Send(Scanned(w, m.relay, Scans.StartStep(Scanning(w, m.relay), m.peer, m.session, true, live, ch)),
           Armed(m.relay, m.peer, m.session))
    case SendAck(m, conn) => Send(w, Ack(conn, m.peer, m.session))
    case ReceiveAck(m) => Send(w, Taking(w.controls[m.conn], m.peer, m.session))
    case Take(m, now) => Taken(w, m, now)
    case Forward(ticket, conn) =>
      var f := w.forwarding[ticket];
      w.(forwarding := w.forwarding - {ticket}, forwards := w.forwards + multiset{ticket},
         flight := w.flight + {AckEvent(conn, f.session)})
    case GiveUp(ticket) => w.(forwarding := w.forwarding - {ticket})
    case Signal(m) => Signalled(w, w.owner[m.conn], m.session)
    case StopWaiting(n, x) => w.(waiters := w.waiters - {(n, x)})
    case Scan(n, step) => ScanStep(w, n, step)
  }

  // ----- The invariant -----

  /** The relay has started a scan of the source for the session. */
  ghost predicate HasArmed(w: World, relay: NodeId, source: NodeId, x: Session) {
    exists ch :: ch in Scanning(w, relay).started && Scanning(w, relay).started[ch] == Scans.Scan(source, x)
  }

  predicate AskedFor(w: World, source: NodeId, relay: NodeId, x: Session) {
    x in w.asked && w.asked[x] == Pair(source, relay)
  }

  /** The session's relay has armed a scan for it and its source. */
  ghost predicate Answered(w: World, source: NodeId, x: Session) {
    x in w.asked && w.asked[x].source == source && HasArmed(w, w.asked[x].relay, source, x)
  }

  ghost predicate MessageValid(w: World, m: Message) {
    match m
    case Request(conn, target, x) => conn in w.owner && AskedFor(w, w.owner[conn], target, x)
    case Storing(source, target, x) => AskedFor(w, source, target, x)
    case Notifying(source, target, x) => AskedFor(w, source, target, x)
    case ScanEvent(conn, peer, x) => conn in w.owner && AskedFor(w, peer, w.owner[conn], x)
    case Arming(relay, peer, x) => AskedFor(w, peer, relay, x)
    case Armed(relay, peer, x) => HasArmed(w, relay, peer, x)
    case Ack(conn, peer, x) => conn in w.owner && HasArmed(w, w.owner[conn], peer, x)
    case Taking(target, source, x) => HasArmed(w, target, source, x)
    case AckEvent(conn, x) => conn in w.owner && Answered(w, w.owner[conn], x)
  }

  /** Bindings belong to the node that opened the connection, and are unique. */
  ghost predicate BindingsValid(w: World) {
    && UniqueBinding(w.controls)
    && forall c :: c in w.controls ==> c in w.owner && w.controls[c] == w.owner[c]
  }

  /** A ticket whose request no acknowledgement has used up. */
  predicate Unused(w: World, t: Ticket) {
    t in w.tickets && t !in w.forwarding && w.forwards[t] == 0
  }

  ghost predicate PendingValid(w: World, x: Session)
    requires x in w.pending
  {
    && AskedFor(w, w.pending[x].source, w.pending[x].target, x)
    && x in w.current && Unused(w, w.current[x]) && w.tickets[w.current[x]] == x
  }

  ghost predicate ForwardingValid(w: World, t: Ticket)
    requires t in w.forwarding
  {
    var f := w.forwarding[t];
    && t in w.tickets && w.tickets[t] == f.session && w.forwards[t] == 0
    && AskedFor(w, f.source, f.target, f.session) && HasArmed(w, f.target, f.source, f.session)
  }

  ghost predicate TablesValid(w: World) {
    && (forall x :: x in w.pending ==> PendingValid(w, x))
    && (forall t :: t in w.forwarding ==> ForwardingValid(w, t))
    && (forall t :: t in w.forwards ==> w.forwards[t] == 1 && t in w.tickets)
  }

  ghost predicate NodesValid(w: World) {
    forall n :: n in w.nodes ==> Scans.Invariant(w.nodes[n])
  }

  ghost predicate FlightValid(w: World) {
    && (forall m :: m in w.flight ==> MessageValid(w, m))
    && (forall e :: e in w.waiters ==> e.1 in w.asked && w.asked[e.1].source == e.0)
    && (forall e :: e in w.fired ==> Answered(w, e.0, e.1))
  }

  ghost predicate Invariant(w: World) {
    BindingsValid(w) && TablesValid(w) && NodesValid(w) && FlightValid(w)
  }

  // ----- What never shrinks -----

  /** Connections keep their owner, sessions their pair, and started scans stay started. */
  ghost predicate Grows(w: World, v: World) {
    && (forall c :: c in w.owner ==> c in v.owner && v.owner[c] == w.owner[c])
    && (forall x :: x in w.asked ==> x in v.asked && v.asked[x] == w.asked[x])
    && (forall n, ch :: ch in Scanning(w, n).started ==>
          ch in Scanning(v, n).started && Scanning(v, n).started[ch] == Scanning(w, n).started[ch])
  }

  lemma {:induction false} ArmedStays(w: World, v: World, relay: NodeId, source: NodeId, x: Session)
    requires Grows(w, v) && HasArmed(w, relay, source, x)
    ensures HasArmed(v, relay, source, x)
  {
    var ch :| ch in Scanning(w, relay).started && Scanning(w, relay).started[ch] == Scans.Scan(source, x);
    assert ch in Scanning(v, relay).started && Scanning(v, relay).started[ch] == Scans.Scan(source, x);
  }

  lemma {:induction false} MessageStays(w: World, v: World, m: Message)
    requires Grows(w, v) && MessageValid(w, m)
    ensures MessageValid(v, m)
  {
    hide HasArmed;
    match m {
      case Armed(relay, peer, x) => ArmedStays(w, v, relay, peer, x);
      case Ack(conn, peer, x) => ArmedStays(w, v, w.owner[conn], peer, x);
      case Taking(target, source, x) => ArmedStays(w, v, target, source, x);
      case AckEvent(conn, x) => ArmedStays(w, v, w.asked[x].relay, w.owner[conn], x);
      case _ =>
    }
  }

  /** Growth and new valid messages keep the flight valid. */
  lemma {:induction false} FlightStays(w: World, v: World)
    requires FlightValid(w) && Grows(w, v)
    requires forall m :: m in v.flight ==> m in w.flight || MessageValid(v, m)
    requires forall e :: e in v.waiters ==> e in w.waiters || (e.1 in v.asked && v.asked[e.1].source == e.0)
    requires forall e :: e in v.fired ==> e in w.fired || Answered(v, e.0, e.1)
    ensures FlightValid(v)
  {
    hide MessageValid, HasArmed;
    forall m | m in v.flight
      ensures MessageValid(v, m)
    {
      if m in w.flight {
        MessageStays(w, v, m);
      }
    }
    forall e | e in v.fired
      ensures Answered(v, e.0, e.1)
    {
      if e in w.fired {
        ArmedStays(w, v, w.asked[e.1].relay, e.0, e.1);
      }
    }
  }

  /** Growth keeps the coordinator's tables valid while they stay as they are. */
  lemma {:induction false} TablesStay(w: World, v: World)
    requires TablesValid(w) && Grows(w, v)
    requires forall x :: x in v.pending ==> x in w.pending && v.pending[x] == w.pending[x]
    requires v.tickets == w.tickets && v.current == w.current && v.forwarding == w.forwarding && v.forwards == w.forwards
    ensures TablesValid(v)
  {
    hide HasArmed;
    forall x | x in v.pending
      ensures PendingValid(v, x)
    {
      assert PendingValid(w, x);
    }
    forall t | t in v.forwarding
      ensures ForwardingValid(v, t)
    {
      assert ForwardingValid(w, t);
      ArmedStays(w, v, v.forwarding[t].target, v.forwarding[t].source, v.forwarding[t].session);
    }
  }

  // ----- Every step keeps the invariant -----

  lemma {:induction false} SendKeeps(w: World, m: Message)
    requires Invariant(w) && MessageValid(w, m)
    ensures Invariant(Send(w, m))
  {
    hide MessageValid, HasArmed;
    var v := Send(w, m);
    MessageStays(w, v, m);
    FlightStays(w, v);
    TablesStay(w, v);
  }

  lemma {:induction false} ScannedKeeps(w: World, n: NodeId, s: Scans.State)
    requires Invariant(w) && Scans.Invariant(s)
    requires forall ch :: ch in Scanning(w, n).started ==> ch in s.started && s.started[ch] == Scanning(w, n).started[ch]
    ensures Invariant(Scanned(w, n, s))
    ensures Grows(w, Scanned(w, n, s))
  {
    hide MessageValid, HasArmed, Scans.Invariant;
    var v := Scanned(w, n, s);
    forall k, ch | ch in Scanning(w, k).started
      ensures ch in Scanning(v, k).started && Scanning(v, k).started[ch] == Scanning(w, k).started[ch]
    {
      assert k == n || Scanning(v, k) == Scanning(w, k);
    }
    FlightStays(w, v);
    TablesStay(w, v);
  }

  lemma {:induction false} NodeValid(w: World, n: NodeId)
    requires NodesValid(w)
    ensures Scans.Invariant(Scanning(w, n))
  {
  }

  lemma {:induction false} AcceptKeeps(w: World, conn: Conn, n: NodeId)
    requires Invariant(w) && conn !in w.owner
    ensures Invariant(w.(owner := w.owner[conn := n]))
  {
    hide MessageValid, HasArmed, Scans.Invariant, UniqueBinding;
    var v := w.(owner := w.owner[conn := n]);
    FlightStays(w, v);
    TablesStay(w, v);
  }

  lemma {:induction false} RebindKeeps(w: World, controls: map<Conn, NodeId>)
    requires Invariant(w) && BindingsValid(w.(controls := controls))
    ensures Invariant(w.(controls := controls))
  {
    hide MessageValid, HasArmed, Scans.Invariant, BindingsValid;
    var v := w.(controls := controls);
    FlightStays(w, v);
    TablesStay(w, v);
  }

  lemma {:induction false} BindingStepKeeps(w: World, s: Step)
    requires Invariant(w) && Enabled(w, s) && (s.Register? || s.Disconnect?)
    ensures Invariant(Apply(w, s))
  {
    hide TablesValid, NodesValid, FlightValid, RegisterStep;
    var v := Apply(w, s);
    if s.Register? {
      NewestWins(w.controls, s.conn, w.owner[s.conn]);
      RegisterBinds(w.controls, s.conn, w.owner[s.conn]);
    }
    RebindKeeps(w, v.controls);
  }

  /** A register binds nothing but its own connection. */
  lemma {:induction false} RegisterBinds(controls: map<Conn, NodeId>, client: Conn, id: NodeId)
    ensures forall c :: c in RegisterStep(controls, client, id) ==>
      Holds(controls, c, RegisterStep(controls, client, id)[c]) || (c == client && RegisterStep(controls, client, id)[c] == id)
  {
  }

  lemma {:induction false} MessageStepKeeps(w: World, s: Step)
    requires Invariant(w) && Enabled(w, s)
    requires s.SendRequest? || s.ReceiveRequest? || s.Notify? || s.SendAck? || s.ReceiveAck?
    ensures Invariant(Apply(w, s))
  {
    hide Scans.Invariant, HasArmed;
    if !s.SendRequest? {
      assert MessageValid(w, s.m);
    }
    match s {
      case SendRequest(conn, x) => SendKeeps(w, Message.Request(conn, w.asked[x].relay, x));
      case ReceiveRequest(m) => SendKeeps(w, Storing(w.controls[m.conn], m.target, m.session));
      case Notify(m, conn) => SendKeeps(w, ScanEvent(conn, m.source, m.session));
      case SendAck(m, conn) => SendKeeps(w, Ack(conn, m.peer, m.session));
      case ReceiveAck(m) => SendKeeps(w, Taking(w.controls[m.conn], m.peer, m.session));
    }
  }

  lemma {:induction false} StoreTables(w: World, m: Message, now: int, ticket: Ticket)
    requires TablesValid(w) && m.Storing? && AskedFor(w, m.source, m.target, m.session) && ticket !in w.tickets
    ensures TablesValid(Stored(w, m, now, ticket))
  {
    hide HasArmed;
    var v := Stored(w, m, now, ticket);
    forall x | x in v.pending
      ensures PendingValid(v, x)
    {
      if x != m.session {
        assert x in w.pending && PendingValid(w, x);
      } else {
        assert ticket in w.forwarding ==> ForwardingValid(w, ticket);
      }
    }
    forall t | t in v.forwarding
      ensures ForwardingValid(v, t)
    {
      assert ForwardingValid(w, t);
      ArmedStays(w, v, v.forwarding[t].target, v.forwarding[t].source, v.forwarding[t].session);
    }
  }

  lemma {:induction false} StoreKeeps(w: World, m: Message, now: int, ticket: Ticket)
    requires Invariant(w) && Enabled(w, Store(m, now, ticket))
    ensures Invariant(Stored(w, m, now, ticket))
  {
    hide HasArmed, Scans.Invariant, TablesValid, StoreStep;
    var v := Stored(w, m, now, ticket);
    assert MessageValid(w, m);
    StoreTables(w, m, now, ticket);
    assert MessageValid(v, Notifying(m.source, m.target, m.session));
    FlightStays(w, v);
  }

  lemma {:induction false} TakeTables(w: World, m: Message, now: int)
    requires TablesValid(w) && m.Taking? && HasArmed(w, m.target, m.source, m.session)
    requires Acknowledges(w.pending, m.target, m.source, m.session, now)
    ensures TablesValid(Taken(w, m, now))
  {
    hide HasArmed;
    var v := Taken(w, m, now);
    assert PendingValid(w, m.session);
    ArmedStays(w, v, m.target, m.source, m.session);
    forall x | x in v.pending
      ensures PendingValid(v, x)
    {
      assert PendingValid(w, x);
    }
    forall t | t in v.forwarding
      ensures ForwardingValid(v, t)
    {
      if t != w.current[m.session] {
        assert ForwardingValid(w, t);
        ArmedStays(w, v, w.forwarding[t].target, w.forwarding[t].source, w.forwarding[t].session);
      }
    }
  }

  /** A matched acknowledgement comes from a relay that has armed its scan, and uses up the ticket. */
  lemma {:induction false} TakeKeeps(w: World, m: Message, now: int)
    requires Invariant(w) && Enabled(w, Take(m, now))
    ensures Invariant(Taken(w, m, now))
  {
    hide HasArmed, Scans.Invariant, TablesValid, Acknowledges;
    var v := Taken(w, m, now);
    assert MessageValid(w, m);
    FlightStays(w, v);
    if Acknowledges(w.pending, m.target, m.source, m.session, now) {
      TakeTables(w, m, now);
    }
  }

  lemma {:induction false} ForwardKeeps(w: World, ticket: Ticket, conn: Conn)
    requires Invariant(w) && Enabled(w, Forward(ticket, conn))
    ensures Invariant(Apply(w, Forward(ticket, conn)))
  {
    hide HasArmed, Scans.Invariant;
    var v := Apply(w, Forward(ticket, conn));
    var f := w.forwarding[ticket];
    assert ForwardingValid(w, ticket);
    ArmedStays(w, v, f.target, f.source, f.session);
    assert MessageValid(v, AckEvent(conn, f.session));
    FlightStays(w, v);
    UsedUp(w, v, ticket);
  }

  lemma {:induction false} UsedUp(w: World, v: World, ticket: Ticket)
    requires TablesValid(w) && ticket in w.forwarding && Grows(w, v)
    requires v.pending == w.pending && v.tickets == w.tickets && v.current == w.current
    requires v.forwarding == w.forwarding - {ticket}
    requires v.forwards == w.forwards || v.forwards == w.forwards + multiset{ticket}
    ensures TablesValid(v)
  {
    hide HasArmed;
    assert ForwardingValid(w, ticket);
    forall x | x in v.pending
      ensures PendingValid(v, x)
    {
      assert PendingValid(w, x);
    }
    forall t | t in v.forwarding
      ensures ForwardingValid(v, t)
    {
      assert ForwardingValid(w, t);
      ArmedStays(w, v, v.forwarding[t].target, v.forwarding[t].source, v.forwarding[t].session);
    }
  }

  lemma {:induction false} EventKeeps(w: World, m: Message)
    requires Invariant(w) && Enabled(w, ReceiveEvent(m))
    ensures Invariant(Apply(w, ReceiveEvent(m)))
  {
    hide HasArmed, Scans.Invariant, Scans.Apply, Scans.EventStep, BindingsValid, TablesValid;
    var relay := w.owner[m.conn];
    var before := Scanning(w, relay);
    NodeValid(w, relay);
    Scans.ScanEndsIff(before, Scans.Event(m.peer, m.session));
    EventIsApply(before, m.peer, m.session);
    var after := Scans.EventStep(before, m.peer, m.session);
    ScannedKeeps(w, relay, after);
    assert MessageValid(w, m);
    assert MessageValid(Scanned(w, relay, after), Arming(relay, m.peer, m.session));
    SendKeeps(Scanned(w, relay, after), Arming(relay, m.peer, m.session));
  }

  lemma {:induction false} ScanStepKeeps(w: World, n: NodeId, step: Scans.Step)
    requires Invariant(w) && Scans.Enabled(Scanning(w, n), step)
    ensures Invariant(ScanStep(w, n, step))
  {
    hide HasArmed, MessageValid, Scans.Invariant, Scans.Apply, Scans.Enabled;
    NodeValid(w, n);
    Scans.ScanEndsIff(Scanning(w, n), step);
    var u := Scanned(w, n, Scans.Apply(Scanning(w, n), step));
    ScannedKeeps(w, n, Scans.Apply(Scanning(w, n), step));
    WaitersShrink(u, ScanStep(w, n, step));
  }

  /** Of a node's scan steps only the transport reset touches waiters, and only the node's own. */
  lemma {:induction false} ResetForgetsWaiters(w: World, n: NodeId, step: Scans.Step, m: NodeId, x: Session)
    requires Scans.Enabled(Scanning(w, n), step)
    ensures (m, x) in ScanStep(w, n, step).waiters <==> (m, x) in w.waiters && !(step.FullReset? && m == n)
  {
    hide Scans.Apply, Scans.Enabled;
  }

  lemma {:induction false} WaitersShrink(w: World, v: World)
    requires Invariant(w) && v.waiters <= w.waiters && v == w.(waiters := v.waiters)
    ensures Invariant(v)
  {
    hide HasArmed, MessageValid, Scans.Invariant;
    FlightStays(w, v);
    TablesStay(w, v);
  }

  lemma EventIsApply(s: Scans.State, p: NodeId, x: Session)
    ensures Scans.Apply(s, Scans.Event(p, x)) == Scans.EventStep(s, p, x)
  {
  }

  /** The relay's forced start arms the scan before any acknowledgement leaves. */
  lemma {:induction false} ArmKeeps(w: World, m: Message, live: bool, ch: Scans.Chan)
    requires Invariant(w) && Enabled(w, Arm(m, live, ch))
    ensures Invariant(Apply(w, Arm(m, live, ch)))
  {
    hide Scans.Invariant, Scans.StartStep;
    var before := Scanning(w, m.relay);
    NodeValid(w, m.relay);
    var s' := Scans.StartStep(before, m.peer, m.session, true, live, ch);
    Scans.ForcedStartArms(before, m.peer, m.session, live, ch);
    ScannedKeeps(w, m.relay, s');
    var u := Scanned(w, m.relay, s');
    assert Scanning(u, m.relay).started[ch] == Scans.Scan(m.peer, m.session);
    assert HasArmed(u, m.relay, m.peer, m.session);
    SendKeeps(u, Armed(m.relay, m.peer, m.session));
  }

  lemma {:induction false} AskKeeps(w: World, n: NodeId, relay: NodeId, x: Session)
    requires Invariant(w) && x !in w.asked
    ensures Invariant(Apply(w, Ask(n, relay, x)))
  {
    hide HasArmed, MessageValid, Scans.Invariant;
    var v := Apply(w, Ask(n, relay, x));
    FlightStays(w, v);
    TablesStay(w, v);
  }

  lemma {:induction false} FiredKeeps(w: World, n: NodeId, x: Session)
    requires Invariant(w) && Answered(w, n, x)
    ensures Invariant(w.(fired := w.fired + {(n, x)}))
  {
    hide HasArmed, MessageValid, Scans.Invariant;
    var v := w.(fired := w.fired + {(n, x)});
    ArmedStays(w, v, w.asked[x].relay, n, x);
    FlightStays(w, v);
    TablesStay(w, v);
  }

  /** A waiter fires on the acknowledgement of the relay that its own node asked. */
  lemma {:induction false} SignalKeeps(w: World, m: Message)
    requires Invariant(w) && Enabled(w, Signal(m))
    ensures Invariant(Apply(w, Signal(m)))
  {
    hide Answered, BindingsValid, TablesValid, NodesValid;
    assert MessageValid(w, m);
    FiredKeeps(w, w.owner[m.conn], m.session);
  }

  lemma {:induction false} UndoKeeps(w: World, x: Session)
    requires Invariant(w)
    ensures Invariant(w.(pending := w.pending - {x}))
  {
    hide HasArmed, MessageValid, Scans.Invariant;
    var v := w.(pending := w.pending - {x});
    FlightStays(w, v);
    TablesStay(w, v);
  }

  lemma {:induction false} NextKeeps(w: World, s: Step)
    requires Invariant(w) && Enabled(w, s)
    ensures Invariant(Apply(w, s))
  {
    hide Invariant;
    match s {
      case Accept(conn, n) => AcceptKeeps(w, conn, n);
      case Register(_) => BindingStepKeeps(w, s);
      case Disconnect(_) => BindingStepKeeps(w, s);
      case Store(m, now, ticket) => StoreKeeps(w, m, now, ticket);
      case Take(m, now) => TakeKeeps(w, m, now);
      case Forward(ticket, conn) => ForwardKeeps(w, ticket, conn);
      case GiveUp(ticket) => GiveUpKeeps(w, ticket);
      case ReceiveEvent(m) => EventKeeps(w, m);
      case Scan(n, step) => ScanStepKeeps(w, n, step);
      case Arm(m, live, ch) => ArmKeeps(w, m, live, ch);
      case Ask(n, relay, x) => AskKeeps(w, n, relay, x);
      case Signal(m) => SignalKeeps(w, m);
      case StopWaiting(_, _) => WaitersShrink(w, Apply(w, s));
      case Undo(m) => UndoKeeps(w, m.session);
      case _ => MessageStepKeeps(w, s);
    }
  }

  lemma {:induction false} GiveUpKeeps(w: World, ticket: Ticket)
    requires Invariant(w) && ticket in w.forwarding
    ensures Invariant(Apply(w, GiveUp(ticket)))
  {
    hide HasArmed, Scans.Invariant;
    var v := Apply(w, GiveUp(ticket));
    FlightStays(w, v);
    UsedUp(w, v, ticket);
  }

  // ----- Whole runs -----

  ghost predicate IsRun(steps: seq<Step>, worlds: seq<World>) {
    && |worlds| == |steps| + 1 && worlds[0] == START
    && forall i :: 0 <= i < |steps| ==> Enabled(worlds[i], steps[i]) && worlds[i + 1] == Apply(worlds[i], steps[i])
  }

  lemma {:induction false} RunKeeps(steps: seq<Step>, worlds: seq<World>, i: nat)
    requires IsRun(steps, worlds) && i < |worlds|
    ensures Invariant(worlds[i])
  {
    hide Apply, Enabled;
    if i > 0 {
      RunKeeps(steps, worlds, i - 1);
      assert worlds[i - 1 + 1] == Apply(worlds[i - 1], steps[i - 1]);
      NextKeeps(worlds[i - 1], steps[i - 1]);
    }
  }

  /**
   * Rendezvous safety over every run: a waiter fires only after the relay its
   * node asked armed a scan for that session and node; each stored request
   * yields at most one forwarded acknowledgement; a node ID has at most one
   * connection; and every node's scan table is sound.
   */
  lemma {:induction false} RendezvousSafety(steps: seq<Step>, worlds: seq<World>, i: nat)
    requires IsRun(steps, worlds) && i < |worlds|
    ensures forall n, x :: (n, x) in worlds[i].fired ==>
      && x in worlds[i].asked && worlds[i].asked[x].source == n
      && HasArmed(worlds[i], worlds[i].asked[x].relay, n, x)
    ensures forall t :: worlds[i].forwards[t] <= 1 && (t in worlds[i].forwards ==> t in worlds[i].tickets)
    ensures UniqueBinding(worlds[i].controls)
    ensures forall n :: Scans.Invariant(Scanning(worlds[i], n))
  {
    hide HasArmed, Scans.Invariant;
    RunKeeps(steps, worlds, i);
    var w := worlds[i];
    forall n, x | (n, x) in w.fired
      ensures x in w.asked && w.asked[x].source == n && HasArmed(w, w.asked[x].relay, n, x)
    {
      assert Answered(w, (n, x).0, (n, x).1);
    }
    forall n
      ensures Scans.Invariant(Scanning(w, n))
    {
      NodeValid(w, n);
    }
  }

  // ----- The handshake does complete -----

  ghost predicate Reachable(w: World) {
    exists steps, worlds :: IsRun(steps, worlds) && worlds[|steps|] == w
  }

  lemma {:induction false} Extend(w: World, s: Step) returns (v: World)
    requires Reachable(w) && Enabled(w, s)
    ensures v == Apply(w, s) && Reachable(v)
  {
    hide Apply, Enabled;
    var steps, worlds :| IsRun(steps, worlds) && worlds[|steps|] == w;
    v := Apply(w, s);
    var steps', worlds' := steps + [s], worlds + [v];
    assert IsRun(steps', worlds') && worlds'[|steps'|] == v;
  }

  /** Both nodes connect and register. */
  lemma {:induction false} BothConnect(source: NodeId, relay: NodeId) returns (w: World)
    requires source != "" && relay != "" && source != relay
    ensures Reachable(w) && w == START.(owner := map[0 := source, 1 := relay], controls := map[0 := source, 1 := relay])
  {
    var none: seq<Step> := [];
    assert IsRun(none, [START]) && [START][|none|] == START;
    w := Extend(START, Accept(0, source));
    w := Extend(w, Accept(1, relay));
    w := Extend(w, Step.Register(0));
    assert w.controls == map[0 := source];
    w := Extend(w, Step.Register(1));
    assert w.controls == map[0 := source, 1 := relay];
  }

  /** The request reaches the coordinator and is stored. */
  lemma {:induction false} RequestArrives(u: World, source: NodeId, relay: NodeId, x: Session, now: int) returns (w: World)
    requires Reachable(u) && u == START.(owner := map[0 := source, 1 := relay], controls := map[0 := source, 1 := relay])
    ensures Reachable(w) && w.owner == u.owner && w.controls == u.controls && w.nodes == map[]
    ensures w.pending == map[x := Pending(source, relay, now + RENDEZVOUS_SECONDS)]
    ensures w.current == map[x := 0] && (source, x) in w.waiters && Notifying(source, relay, x) in w.flight
  {
    hide Reachable;
    w := Extend(u, Ask(source, relay, x));
    w := Extend(w, SendRequest(0, x));
    w := Extend(w, ReceiveRequest(Message.Request(0, relay, x)));
    w := Extend(w, Store(Storing(source, relay, x), now, 0));
  }

  /** The relay is told and handles the event. */
  lemma {:induction false} RelayIsTold(u: World, source: NodeId, relay: NodeId, x: Session) returns (w: World)
    requires Reachable(u) && Holds(u.controls, 1, relay) && Holds(u.owner, 1, relay) && u.nodes == map[]
    requires Notifying(source, relay, x) in u.flight
    ensures Reachable(w) && w == u.(nodes := w.nodes, flight := w.flight) && Arming(relay, source, x) in w.flight
    ensures Scanning(w, relay).started == map[]
  {
    hide Reachable;
    w := Extend(u, Notify(Notifying(source, relay, x), 1));
    w := Extend(w, ReceiveEvent(ScanEvent(1, source, x)));
  }

  /** It arms its scan and acknowledges. */
  lemma {:induction false} RelayAnswers(u: World, source: NodeId, relay: NodeId, x: Session) returns (w: World)
    requires Reachable(u) && Holds(u.controls, 1, relay) && Holds(u.owner, 1, relay)
    requires Arming(relay, source, x) in u.flight && Scanning(u, relay).started == map[]
    ensures Reachable(w) && w == u.(nodes := w.nodes, flight := w.flight) && Taking(relay, source, x) in w.flight
  {
    hide Reachable, Scans.StartStep;
    w := Extend(u, Arm(Arming(relay, source, x), true, 0));
    w := Extend(w, SendAck(Armed(relay, source, x), 1));
    w := Extend(w, ReceiveAck(Ack(1, source, x)));
  }

  /** The coordinator matches the acknowledgement and the waiter fires. */
  lemma {:induction false} AckArrives(u: World, source: NodeId, relay: NodeId, x: Session, now: int) returns (w: World)
    requires Reachable(u) && Taking(relay, source, x) in u.flight
    requires Acknowledges(u.pending, relay, source, x, now) && u.current == map[x := 0]
    requires Holds(u.controls, 0, source) && Holds(u.owner, 0, source) && (source, x) in u.waiters
    ensures Reachable(w) && (source, x) in w.fired
  {
    hide Reachable;
    w := Extend(u, Take(Taking(relay, source, x), now));
    w := Extend(w, Forward(0, 0));
    w := Extend(w, Signal(AckEvent(0, x)));
  }

  /** For any two nodes and any session some run fires the source's waiter. */
  lemma {:induction false} HandshakeCompletes(source: NodeId, relay: NodeId, x: Session, now: int)
    requires source != "" && relay != "" && source != relay
    ensures exists w :: Reachable(w) && (source, x) in w.fired
  {
    hide Reachable;
    var w := BothConnect(source, relay);
    w := RequestArrives(w, source, relay, x, now);
    w := RelayIsTold(w, source, relay, x);
    w := RelayAnswers(w, source, relay, x);
    w := AckArrives(w, source, relay, x, now);
  }
}
