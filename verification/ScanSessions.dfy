/** The symmetric-NAT scans of one node: who is being scanned, for which session, and how to cancel it. */
module ScanSessions {
  import opened Overlay

  /** The identity of a cancel channel. */
  type Chan = nat

  /** What a scan was started for. */
  datatype Scan = Scan(peer: NodeId, session: Session)

  /**
   * `scans`, `sessions` and `connected` are the node's maps. The rest is what the
   * runtime knows: every channel made and what for, the closed ones, the scans whose
   * exit handler ran, and whether a closed channel was closed again.
   */
  datatype State = State(scans: map<NodeId, Chan>, sessions: map<NodeId, Session>, connected: set<NodeId>,
                         started: map<Chan, Scan>, closed: set<Chan>, exited: set<Chan>, panicked: bool)

  const INITIAL := State(map[], map[], {}, map[], {}, {}, false)

  // ----- The locked sections -----

  /** A Go map lookup: a missing key reads as the empty session. */
  function SessionOf(sessions: map<NodeId, Session>, p: NodeId): Session {
    if p in sessions then sessions[p] else ""
  }

  /** Closing the channels of these peers does not panic. */
  predicate CanClose(s: State, ps: set<NodeId>)
    requires ps <= s.scans.Keys
  {
    && (forall p :: p in ps ==> s.scans[p] !in s.closed)
    && (forall p, q :: p in ps && q in ps && s.scans[p] == s.scans[q] ==> p == q)
  }

  function CancelAll(s: State, ps: set<NodeId>): State
    requires ps <= s.scans.Keys
  {
    s.(scans := s.scans - ps,
       closed := s.closed + (set p | p in ps :: s.scans[p]),
       panicked := s.panicked || !CanClose(s, ps))
  }

  function Cancel(s: State, p: NodeId): State {
    if p in s.scans then CancelAll(s, {p}) else s
  }

  /** `startSymmetricScan` with the channel it would make. */
  function StartStep(s: State, p: NodeId, x: Session, force: bool, live: bool, ch: Chan): State {
    if p in s.scans && !force && SessionOf(s.sessions, p) == x then s
    else
      var s1 := if p in s.scans then Cancel(s, p).(sessions := s.sessions - {p}) else s;
      var s2 := if live then s1 else s1.(connected := s1.connected - {p});
      if p in s2.connected && !force then s2
      else s2.(scans := s2.scans[p := ch], sessions := s2.sessions[p := x], started := s2.started[ch := Scan(p, x)])
  }

  /** The locked part of `handleSymmetricScanEvent`. */
  function EventStep(s: State, p: NodeId, x: Session): State {
    Cancel(s, p).(connected := s.connected - {p}, sessions := s.sessions[p := x])
  }

  function CompleteStep(s: State, p: NodeId, x: Session): State {
    if p !in s.scans || SessionOf(s.sessions, p) != x then s
    else Cancel(s, p).(sessions := s.sessions - {p}, connected := s.connected + {p})
  }

  function ObsoleteStep(s: State, neighbors: set<NodeId>): State {
    var gone := s.scans.Keys - neighbors;
    CancelAll(s, gone).(sessions := s.sessions - gone, connected := s.connected - gone)
  }

  /** The locked tail of `resetSymmetricRelay`. */
  function RelayResetStep(s: State, p: NodeId): State {
    Cancel(s, p).(sessions := s.sessions - {p}, connected := s.connected - {p})
  }

  /** The part of `resetTransportState` that cancels scans. */
  function FullResetStep(s: State): State {
    CancelAll(s, s.scans.Keys).(sessions := map[], connected := {})
  }

  /** The exit handler of `scanSymmetricNeighbor`. */
  function ExitStep(s: State, ch: Chan): State
    requires ch in s.started
  {
    var p := s.started[ch].peer;
    var t := s.(exited := s.exited + {ch});
    if p in s.scans && s.scans[p] == ch then t.(scans := s.scans - {p}, sessions := s.sessions - {p}) else t
  }

  datatype Step =
    | Start(peer: NodeId, session: Session, force: bool, live: bool, ch: Chan)
    | Event(peer: NodeId, session: Session)
    | Complete(peer: NodeId, session: Session)
    | Obsolete(neighbors: set<NodeId>)
    | RelayReset(peer: NodeId)
    | FullReset
    | Exit(ch: Chan)

  /** A new channel is new, and an exit handler runs once, for a scan that was started. */
  predicate Enabled(s: State, step: Step) {
    match step
    case Start(_, _, _, _, ch) => ch !in s.started
    case Exit(ch) => ch in s.started && ch !in s.exited
    case _ => true
  }

  function Apply(s: State, step: Step): State
    requires Enabled(s, step)
  {
    match step
    case Start(p, x, force, live, ch) => StartStep(s, p, x, force, live, ch)
    case Event(p, x) => EventStep(s, p, x)
    case Complete(p, x) => CompleteStep(s, p, x)
    case Obsolete(neighbors) => ObsoleteStep(s, neighbors)
    case RelayReset(p) => RelayResetStep(s, p)
    case FullReset => FullResetStep(s)
    case Exit(ch) => ExitStep(s, ch)
  }

  // ----- The invariant -----

  /** The scan has not ended: its channel is open and its exit handler has not run. */
  predicate Running(s: State, ch: Chan) {
    ch in s.started && ch !in s.closed && ch !in s.exited
  }

  /** The table entry of a peer is a running scan of that peer for its recorded session. */
  predicate EntryValid(s: State, p: NodeId)
    requires p in s.scans
  {
    && Running(s, s.scans[p])
    && s.started[s.scans[p]].peer == p
    && p in s.sessions && s.sessions[p] == s.started[s.scans[p]].session
  }

  predicate Listed(s: State, ch: Chan)
    requires ch in s.started
  {
    s.started[ch].peer in s.scans && s.scans[s.started[ch].peer] == ch
  }

  /** The table holds exactly the running scans, and nothing was closed twice. */
  ghost predicate Invariant(s: State) {
    && !s.panicked
    && (forall p :: p in s.scans ==> EntryValid(s, p))
    && (forall ch :: Running(s, ch) ==> Listed(s, ch))
    && s.closed <= s.started.Keys && s.exited <= s.started.Keys
  }

  /** Cancelling scans of a valid table closes open channels, each once. */
  lemma {:induction false} CancelKeeps(s: State, ps: set<NodeId>)
    requires Invariant(s) && ps <= s.scans.Keys
    ensures Invariant(CancelAll(s, ps))
    ensures forall ch :: ch in s.started ==> (Running(CancelAll(s, ps), ch) <==> Running(s, ch) && s.started[ch].peer !in ps)
  {
    var t := CancelAll(s, ps);
    forall p, q | p in ps && q in ps && s.scans[p] == s.scans[q]
      ensures p == q
    {
      assert EntryValid(s, p) && EntryValid(s, q);
    }
    forall p | p in ps
      ensures s.scans[p] !in s.closed && s.scans[p] in s.started
    {
      assert EntryValid(s, p);
    }
    forall ch | ch in s.started
      ensures Running(t, ch) <==> Running(s, ch) && s.started[ch].peer !in ps
    {
      if Running(s, ch) {
        assert Listed(s, ch);
        if s.started[ch].peer !in ps {
          forall p | p in ps ensures s.scans[p] != ch { assert EntryValid(s, p); }
        }
      }
    }
    forall p | p in t.scans
      ensures EntryValid(t, p)
    {
      assert EntryValid(s, p);
    }
    forall ch | Running(t, ch)
      ensures Listed(t, ch)
    {
      assert Listed(s, ch);
    }
  }

  /** Closing a channel that is closed already panics, and so does closing one twice at once. */
  lemma {:induction false} SecondClosePanics(s: State, p: NodeId, q: NodeId)
    requires p in s.scans && q in s.scans
    ensures s.scans[p] in s.closed ==> Cancel(s, p).panicked
    ensures p != q && s.scans[p] == s.scans[q] ==> CancelAll(s, {p, q}).panicked
  {
    assert p in {p} && p in {p, q} && q in {p, q};
  }

  /** Sessions of peers that are not being scanned, and the connected set, are free to change. */
  lemma {:induction false} SessionsFree(s: State, t: State)
    requires Invariant(s)
    requires t == s.(sessions := t.sessions, connected := t.connected)
    requires forall p :: p in s.scans && p in s.sessions ==> p in t.sessions && t.sessions[p] == s.sessions[p]
    ensures Invariant(t)
    ensures forall ch :: Running(t, ch) <==> Running(s, ch)
  {
    forall p | p in t.scans
      ensures EntryValid(t, p)
    {
      assert EntryValid(s, p);
    }
    forall ch | Running(t, ch)
      ensures Listed(t, ch)
    {
      assert Running(s, ch) && Listed(s, ch);
    }
  }

  /** Starting a scan of a peer that has none. */
  lemma {:induction false} BeginKeeps(s: State, p: NodeId, x: Session, ch: Chan)
    requires Invariant(s) && p !in s.scans && ch !in s.started
    ensures var t := s.(scans := s.scans[p := ch], sessions := s.sessions[p := x], started := s.started[ch := Scan(p, x)]);
            && Invariant(t) && Running(t, ch)
            && (forall c :: c in s.started ==> (Running(t, c) <==> Running(s, c)))
  {
    var t := s.(scans := s.scans[p := ch], sessions := s.sessions[p := x], started := s.started[ch := Scan(p, x)]);
    forall q | q in t.scans
      ensures EntryValid(t, q)
    {
      if q != p {
        assert EntryValid(s, q);
      }
    }
    forall c | Running(t, c)
      ensures Listed(t, c)
    {
      if c != ch {
        assert Running(s, c) && Listed(s, c);
      }
    }
  }

  lemma {:induction false} ExitKeeps(s: State, ch: Chan)
    requires Invariant(s) && ch in s.started && ch !in s.exited
    ensures Invariant(ExitStep(s, ch))
    ensures forall c :: c in s.started ==> (Running(ExitStep(s, ch), c) <==> Running(s, c) && c != ch)
  {
    var t := ExitStep(s, ch);
    forall q | q in t.scans
      ensures EntryValid(t, q)
    {
      assert EntryValid(s, q);
    }
    forall c | Running(t, c)
      ensures Listed(t, c)
    {
      assert Running(s, c) && Listed(s, c);
    }
  }

  // ----- When a scan ends -----

  /** The steps that end a running scan `(peer, session)` on channel `ch`. */
  predicate Ends(step: Step, ch: Chan, scan: Scan) {
    match step
    case Start(p, x, force, _, _) => p == scan.peer && (force || x != scan.session)
    case Event(p, _) => p == scan.peer
    case Complete(p, x) => p == scan.peer && x == scan.session
    case Obsolete(neighbors) => scan.peer !in neighbors
    case RelayReset(p) => p == scan.peer
    case FullReset => true
    case Exit(c) => c == ch
  }

  lemma {:induction false} StartKeeps(s: State, p: NodeId, x: Session, force: bool, live: bool, ch: Chan)
    requires Invariant(s) && ch !in s.started
    ensures var t := StartStep(s, p, x, force, live, ch);
            && Invariant(t)
            && (forall c :: c in s.started ==>
                  c in t.started && t.started[c] == s.started[c]
                  && (Running(t, c) <==> Running(s, c) && !Ends(Start(p, x, force, live, ch), c, s.started[c])))
  {
    hide CanClose, Running, EntryValid;
    if p in s.scans {
      ListedIsRunning(s, p);
      OneScanPerPeer(s, p);
      if force || SessionOf(s.sessions, p) != x {
        StartAfterCancel(s, p, x, force, live, ch);
      }
    } else {
      StartFromIdle(s, p, x, force, live, ch);
      forall c | c in s.started && Running(s, c)
        ensures s.started[c].peer != p
      {
        assert Listed(s, c);
      }
    }
  }

  lemma {:induction false} ListedIsRunning(s: State, p: NodeId)
    requires Invariant(s) && p in s.scans
    ensures EntryValid(s, p) && Running(s, s.scans[p])
    ensures s.started[s.scans[p]].peer == p && SessionOf(s.sessions, p) == s.started[s.scans[p]].session
  {
    assert EntryValid(s, p);
  }

  /** Every running scan of a listed peer is the listed one. */
  lemma {:induction false} OneScanPerPeer(s: State, p: NodeId)
    requires Invariant(s) && p in s.scans
    ensures forall c :: c in s.started && Running(s, c) && s.started[c].peer == p ==> c == s.scans[p] && s.sessions[p] == s.started[c].session
  {
    assert EntryValid(s, p);
    forall c | c in s.started && Running(s, c) && s.started[c].peer == p
      ensures c == s.scans[p]
    {
      assert Listed(s, c);
    }
  }

  lemma {:induction false} StartFromIdle(s1: State, p: NodeId, x: Session, force: bool, live: bool, ch: Chan)
    requires Invariant(s1) && p !in s1.scans && ch !in s1.started
    ensures Invariant(StartStep(s1, p, x, force, live, ch))
    ensures forall c :: c in s1.started ==> (Running(StartStep(s1, p, x, force, live, ch), c) <==> Running(s1, c))
  {
    var s2 := if live then s1 else s1.(connected := s1.connected - {p});
    SessionsFree(s1, s2);
    if p !in s2.connected || force {
      BeginKeeps(s2, p, x, ch);
    }
  }

  lemma {:induction false} StartAfterCancel(s: State, p: NodeId, x: Session, force: bool, live: bool, ch: Chan)
    requires Invariant(s) && ch !in s.started && p in s.scans && (force || SessionOf(s.sessions, p) != x)
    ensures Invariant(StartStep(s, p, x, force, live, ch))
    ensures forall c :: c in s.started ==> (Running(StartStep(s, p, x, force, live, ch), c) <==> Running(s, c) && s.started[c].peer != p)
  {
    CancelKeeps(s, {p});
    var c0 := CancelAll(s, {p});
    var s1 := c0.(sessions := s.sessions - {p});
    SessionsFree(c0, s1);
    StartFromIdle(s1, p, x, force, live, ch);
  }

  /** Every locked section except `startSymmetricScan` and the exit handler: cancel, then adjust the maps. */
  lemma {:induction false} CancelStepKeeps(s: State, ps: set<NodeId>, sessions: map<NodeId, Session>, connected: set<NodeId>)
    requires Invariant(s) && ps <= s.scans.Keys
    requires forall p :: p in s.scans && p !in ps && p in s.sessions ==> p in sessions && sessions[p] == s.sessions[p]
    ensures var t := CancelAll(s, ps).(sessions := sessions, connected := connected);
            && Invariant(t)
            && (forall c :: c in s.started ==> (Running(t, c) <==> Running(s, c) && s.started[c].peer !in ps))
  {
    CancelKeeps(s, ps);
    SessionsFree(CancelAll(s, ps), CancelAll(s, ps).(sessions := sessions, connected := connected));
  }

  /** The same for the sections that cancel the scan of one peer, if it has one. */
  lemma {:induction false} CancelPeerKeeps(s: State, p: NodeId, sessions: map<NodeId, Session>, connected: set<NodeId>)
    requires Invariant(s)
    requires forall q :: q in s.sessions && q != p ==> q in sessions && sessions[q] == s.sessions[q]
    ensures var t := Cancel(s, p).(sessions := sessions, connected := connected);
            && Invariant(t)
            && (forall c :: c in s.started ==> (Running(t, c) <==> Running(s, c) && s.started[c].peer != p))
  {
    var ps := s.scans.Keys * {p};
    CancelIsAll(s, p);
    CancelStepKeeps(s, ps, sessions, connected);
    forall c | c in s.started && Running(s, c)
      ensures s.started[c].peer in ps <==> s.started[c].peer == p
    {
      assert Listed(s, c);
    }
  }

  lemma {:induction false} CompleteKeeps(s: State, p: NodeId, x: Session)
    requires Invariant(s)
    ensures var t := CompleteStep(s, p, x);
            && Invariant(t)
            && (forall c :: c in s.started ==> (Running(t, c) <==> Running(s, c) && s.started[c] != Scan(p, x)))
  {
    forall c | c in s.started && Running(s, c) && s.started[c].peer == p
      ensures p in s.scans && SessionOf(s.sessions, p) == s.started[c].session
    {
      assert Listed(s, c) && EntryValid(s, p);
    }
    if p in s.scans && SessionOf(s.sessions, p) == x {
      CancelPeerKeeps(s, p, s.sessions - {p}, s.connected + {p});
    }
  }

  lemma {:induction false} ObsoleteKeeps(s: State, neighbors: set<NodeId>)
    requires Invariant(s)
    ensures var t := ObsoleteStep(s, neighbors);
            && Invariant(t)
            && (forall c :: c in s.started ==> (Running(t, c) <==> Running(s, c) && s.started[c].peer in neighbors))
  {
    var gone := s.scans.Keys - neighbors;
    CancelStepKeeps(s, gone, s.sessions - gone, s.connected - gone);
    forall c | c in s.started && Running(s, c)
      ensures s.started[c].peer in gone <==> s.started[c].peer !in neighbors
    {
      assert Listed(s, c);
    }
  }

  lemma {:induction false} FullResetKeeps(s: State)
    requires Invariant(s)
    ensures Invariant(FullResetStep(s)) && forall c :: c in s.started ==> !Running(FullResetStep(s), c)
  {
    CancelStepKeeps(s, s.scans.Keys, map[], {});
    forall c | c in s.started && Running(s, c)
      ensures s.started[c].peer in s.scans
    {
      assert Listed(s, c);
    }
  }

  /**
   * Each step keeps the invariant, and a running scan ends exactly by the
   * steps meant for it: a stale acknowledgement or the exit of another scan,
   * including its predecessor for the same peer, leaves it running.
   */
  lemma {:induction false} ScanEndsIff(s: State, step: Step)
    requires Invariant(s) && Enabled(s, step)
    ensures var t := Apply(s, step);
            && Invariant(t)
            && (forall c :: c in s.started ==>
                  c in t.started && t.started[c] == s.started[c]
                  && (Running(t, c) <==> Running(s, c) && !Ends(step, c, s.started[c])))
  {
    hide Invariant, Running, CanClose;
    match step {
      case Start(p, x, force, live, ch) => StartKeeps(s, p, x, force, live, ch);
      case Event(p, x) => CancelPeerKeeps(s, p, s.sessions[p := x], s.connected - {p});
      case Complete(p, x) => CompleteKeeps(s, p, x);
      case Obsolete(neighbors) => ObsoleteKeeps(s, neighbors);
      case RelayReset(p) => CancelPeerKeeps(s, p, s.sessions - {p}, s.connected - {p});
      case FullReset => FullResetKeeps(s);
      case Exit(ch) => ExitKeeps(s, ch);
    }
  }

  lemma {:induction false} CancelIsAll(s: State, p: NodeId)
    ensures Cancel(s, p) == CancelAll(s, s.scans.Keys * {p})
  {
    if p in s.scans {
      assert s.scans.Keys * {p} == {p};
    } else {
      assert s.scans.Keys * {p} == {};
      assert s.scans - {} == s.scans;
    }
  }

  // ----- Whole runs -----

  ghost predicate IsRun(steps: seq<Step>, states: seq<State>) {
    && |states| == |steps| + 1 && states[0] == INITIAL
    && forall i :: 0 <= i < |steps| ==> Enabled(states[i], steps[i]) && states[i + 1] == Apply(states[i], steps[i])
  }

  lemma {:induction false} RunKeeps(steps: seq<Step>, states: seq<State>, i: nat)
    requires IsRun(steps, states) && i < |states|
    ensures Invariant(states[i])
  {
    if i > 0 {
      RunKeeps(steps, states, i - 1);
      ScanEndsIff(states[i - 1], steps[i - 1]);
      assert states[i - 1 + 1] == Apply(states[i - 1], steps[i - 1]);
    }
  }

  /** In every reachable state the table lists open channels only, for the recorded session, and no close panics. */
  lemma {:induction false} ReachableTable(steps: seq<Step>, states: seq<State>, i: nat)
    requires IsRun(steps, states) && i < |states|
    ensures var s := states[i];
            && !s.panicked
            && (forall p :: p in s.scans ==>
                  var ch := s.scans[p];
                  ch in s.started && ch !in s.closed && p in s.sessions && s.started[ch] == Scan(p, s.sessions[p]))
            && (forall ch :: ch in s.started ==>
                  (Listed(s, ch) <==> ch !in s.closed && ch !in s.exited))
  {
    RunKeeps(steps, states, i);
    var s := states[i];
    forall p | p in s.scans
      ensures var ch := s.scans[p];
              ch in s.started && ch !in s.closed && p in s.sessions && s.started[ch] == Scan(p, s.sessions[p])
    {
      assert EntryValid(s, p);
    }
    forall ch | ch in s.started
      ensures Listed(s, ch) <==> ch !in s.closed && ch !in s.exited
    {
      if Listed(s, ch) {
        assert EntryValid(s, s.started[ch].peer);
      }
      assert Running(s, ch) ==> Listed(s, ch);
    }
  }

  lemma {:induction false} OneStepOfRun(steps: seq<Step>, states: seq<State>, k: nat, ch: Chan)
    requires IsRun(steps, states) && k < |steps| && ch in states[k].started
    ensures ch in states[k + 1].started && states[k + 1].started[ch] == states[k].started[ch]
    ensures Listed(states[k + 1], ch) <==> Listed(states[k], ch) && !Ends(steps[k], ch, states[k].started[ch])
  {
    hide Apply, Ends;
    ReachableTable(steps, states, k);
    ReachableTable(steps, states, k + 1);
    RunKeeps(steps, states, k);
    ScanEndsIff(states[k], steps[k]);
    assert Running(states[k + 1], ch) <==> Running(states[k], ch) && !Ends(steps[k], ch, states[k].started[ch]);
  }

  /**
   * A scan listed at time `i` is still listed at a later time `j` exactly when no
   * step between the two was one of those that end it; once gone it never returns.
   */
  lemma {:induction false} LivesUntilEnded(steps: seq<Step>, states: seq<State>, i: nat, j: nat, ch: Chan)
    requires IsRun(steps, states) && i <= j < |states| && ch in states[i].started
    ensures ch in states[j].started && states[j].started[ch] == states[i].started[ch]
    ensures Listed(states[j], ch) <==>
      Listed(states[i], ch) && forall k :: i <= k < j ==> !Ends(steps[k], ch, states[i].started[ch])
    decreases j - i
  {
    hide Apply, Ends, Listed;
    if i < j {
      LivesUntilEnded(steps, states, i, j - 1, ch);
      OneStepOfRun(steps, states, j - 1, ch);
    }
  }

  /** An acknowledgement for a session marks the peer connected exactly when the running scan of that peer is for that session. */
  lemma {:induction false} CompletesOwnScan(s: State, p: NodeId, x: Session)
    requires Invariant(s)
    ensures CompleteStep(s, p, x) != s <==> exists ch :: Running(s, ch) && s.started[ch] == Scan(p, x)
    ensures CompleteStep(s, p, x) != s ==>
      && p in CompleteStep(s, p, x).connected
      && CompleteStep(s, p, x).closed - s.closed == {s.scans[p]}
      && s.started[s.scans[p]] == Scan(p, x)
  {
    if p in s.scans {
      assert EntryValid(s, p);
      var t := CompleteStep(s, p, x);
      if SessionOf(s.sessions, p) == x {
        assert Running(s, s.scans[p]) && s.started[s.scans[p]] == Scan(p, x);
        assert t.closed == s.closed + {s.scans[p]};
      }
    }
    if ch :| Running(s, ch) && s.started[ch] == Scan(p, x) {
      assert Listed(s, ch) && EntryValid(s, p);
    }
  }

  /** A forced start always leaves a running scan for its session. */
  lemma {:induction false} ForcedStartArms(s: State, p: NodeId, x: Session, live: bool, ch: Chan)
    requires Invariant(s) && ch !in s.started
    ensures var t := StartStep(s, p, x, true, live, ch);
            Invariant(t) && Running(t, ch) && t.started == s.started[ch := Scan(p, x)] && t.scans == s.scans[p := ch]
  {
    StartKeeps(s, p, x, true, live, ch);
    var t := StartStep(s, p, x, true, live, ch);
    assert EntryValid(t, p);
  }

  // ----- When a scan starts, and whom a node counts as connected -----

  /** A scan of that peer for that session is under way. */
  ghost predicate UnderWay(s: State, p: NodeId, x: Session) {
    exists ch :: Running(s, ch) && s.started[ch] == Scan(p, x)
  }

  lemma {:induction false} UnderWayIff(s: State, p: NodeId, x: Session)
    requires Invariant(s)
    ensures UnderWay(s, p, x) <==> p in s.scans && SessionOf(s.sessions, p) == x
  {
    if p in s.scans {
      assert EntryValid(s, p);
      assert SessionOf(s.sessions, p) == x ==> Running(s, s.scans[p]) && s.started[s.scans[p]] == Scan(p, x);
    }
    if UnderWay(s, p, x) {
      var ch :| Running(s, ch) && s.started[ch] == Scan(p, x);
      assert Listed(s, ch) && EntryValid(s, p);
    }
  }

  /** A start is ignored exactly when unforced for a scan under way, or for a usable neighbour already connected; otherwise it starts its scan. */
  lemma {:induction false} StartsIff(s: State, p: NodeId, x: Session, force: bool, live: bool, ch: Chan)
    requires Invariant(s) && ch !in s.started
    ensures var t := StartStep(s, p, x, force, live, ch);
      if force || !(UnderWay(s, p, x) || (live && p in s.connected))
      then t.started == s.started[ch := Scan(p, x)] && Running(t, ch)
      else t.started == s.started
  {
    UnderWayIff(s, p, x);
    StartKeeps(s, p, x, force, live, ch);
    var t := StartStep(s, p, x, force, live, ch);
    if p in t.scans {
      assert EntryValid(t, p);
    }
  }

  /** No other step starts a scan. */
  lemma {:induction false} OnlyStartsStart(s: State, step: Step)
    requires Enabled(s, step) && !step.Start?
    ensures Apply(s, step).started == s.started
  {
  }

  /** The steps after which a peer no longer counts as connected. */
  ghost predicate Forgets(s: State, step: Step, p: NodeId) {
    match step
    case Start(q, x, force, live, _) => p == q && !live && (force || !UnderWay(s, q, x))
    case Event(q, _) => p == q
    case Obsolete(neighbors) => p !in neighbors && exists x :: UnderWay(s, p, x)
    case RelayReset(q) => p == q
    case FullReset => true
    case Complete(_, _) => false
    case Exit(_) => false
  }

  /** A peer counts as connected exactly from the acknowledgement of a scan under way until a step that forgets it. */
  lemma {:induction false} ConnectedIff(s: State, step: Step, p: NodeId)
    requires Invariant(s) && Enabled(s, step)
    ensures p in Apply(s, step).connected <==>
      || (step.Complete? && step.peer == p && UnderWay(s, p, step.session))
      || (p in s.connected && !Forgets(s, step, p))
  {
    hide Invariant, UnderWay, CanClose;
    match step {
      case Start(q, x, force, live, ch) => UnderWayIff(s, q, x);
      case Complete(q, x) => UnderWayIff(s, q, x);
      case Obsolete(neighbors) =>
        UnderWayIff(s, p, SessionOf(s.sessions, p));
        forall x | UnderWay(s, p, x) ensures p in s.scans { UnderWayIff(s, p, x); }
      case _ =>
    }
  }

  /** The peer a step is about; `Obsolete` is about every peer that is no neighbour, a reset about all. */
  predicate Concerns(s: State, step: Step, q: NodeId) {
    match step
    case Start(p, _, _, _, _) => p == q
    case Event(p, _) => p == q
    case Complete(p, _) => p == q
    case Obsolete(neighbors) => q !in neighbors
    case RelayReset(p) => p == q
    case FullReset => true
    case Exit(ch) => ch in s.started && s.started[ch].peer == q
  }

  /** All other peers keep their scan, session and standing. */
  lemma {:induction false} OthersUntouched(s: State, step: Step, q: NodeId)
    requires Enabled(s, step) && !Concerns(s, step, q)
    ensures var t := Apply(s, step);
      && (q in t.scans <==> q in s.scans) && (q in s.scans ==> t.scans[q] == s.scans[q])
      && (q in t.sessions <==> q in s.sessions) && SessionOf(t.sessions, q) == SessionOf(s.sessions, q)
      && (q in t.connected <==> q in s.connected)
  {
    hide CanClose;
  }

  /** The session on record: an event's own at once, and none once the scan has ended in any other way but a new start. */
  lemma {:induction false} SessionAfter(s: State, step: Step, p: NodeId)
    requires Invariant(s) && Enabled(s, step)
    ensures step.Event? && step.peer == p ==> SessionOf(Apply(s, step).sessions, p) == step.session && p !in Apply(s, step).scans
    ensures step.Complete? && step.peer == p && UnderWay(s, p, step.session) ==> p !in Apply(s, step).sessions
    ensures (step.RelayReset? && step.peer == p) || step.FullReset? ==> p !in Apply(s, step).sessions
    ensures step.Obsolete? && p in s.scans && p !in step.neighbors ==> p !in Apply(s, step).sessions
    ensures step.Exit? && p in s.scans && s.scans[p] == step.ch ==> p !in Apply(s, step).sessions
  {
    if step.Complete? {
      UnderWayIff(s, p, step.session);
    }
    if p in s.scans {
      assert EntryValid(s, p);
    }
    hide Invariant, UnderWay, CanClose;
  }
}
