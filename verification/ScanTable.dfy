/** The locked sections of a node that work on its scan table, each proved to be one step of the state machine. */
module ScanTable {
  import opened Overlay
  import opened ScanSessions

  class Table {
    var scans: map<NodeId, Chan>
    var sessions: map<NodeId, Session>
    var connected: set<NodeId>
    /** The next channel identity that `make` hands out. */
    var made: nat
    ghost var started: map<Chan, Scan>
    ghost var closed: set<Chan>
    ghost var exited: set<Chan>

    /** The state with no panic so far: a second close of a channel would not verify. */
    ghost function View(): State
      reads this
    {
      State(scans, sessions, connected, started, closed, exited, false)
    }

    ghost predicate Valid()
      reads this
    {
      Invariant(View()) && forall ch :: ch in started ==> ch < made
    }

    constructor ()
      ensures Valid() && View() == INITIAL
    {
      scans, sessions, connected, made := map[], map[], {}, 0;
      started, closed, exited := map[], {}, {};
    }

    /** Go's `close`, which panics on a closed channel. */
    method Close(ch: Chan)
      requires ch !in closed
      modifies this`closed
      ensures closed == old(closed) + {ch}
    {
      closed := closed + {ch};
    }

    /** `startSymmetricScan`; `live` tells whether the neighbour is usable. */
    method StartSymmetricScan(peer: NodeId, session: Session, force: bool, live: bool)
      requires Valid()
      modifies this
      ensures Valid()
      ensures View() == StartStep(old(View()), peer, session, force, live, old(made))
    {
      hide Invariant, StartStep;
      ghost var before := View();
      StartValid(before, peer, session, force, live, made);
      StartIs(before, peer, session, force, live, made);
      if peer in scans {
        var existing := scans[peer];
        if !force && SessionOf(sessions, peer) == session {
          return;
        }
        CancelOne(before, peer);
        scans := scans - {peer};
        sessions := sessions - {peer};
        Close(existing);
      }
      if !live {
        connected := connected - {peer};
      }
      if peer in connected && !force {
        return;
      }
      var cancel := made;
      made := made + 1;
      scans := scans[peer := cancel];
      sessions := sessions[peer := session];
      started := started[cancel := Scan(peer, session)];
    }

    /** `handleSymmetricScanEvent` up to its call of `startSymmetricScan`. */
    method HandleScanEvent(peer: NodeId, session: Session)
      requires Valid()
      modifies this
      ensures Valid() && made == old(made)
      ensures View() == EventStep(old(View()), peer, session)
    {
      hide Running, EntryValid, Listed;
      ghost var before := View();
      ScanEndsIff(before, Event(peer, session));
      if peer in scans {
        var existing := scans[peer];
        CancelOne(before, peer);
        scans := scans - {peer};
        sessions := sessions - {peer};
        Close(existing);
      }
      connected := connected - {peer};
      sessions := sessions[peer := session];
      assert View().sessions == before.sessions[peer := session];
    }

    /** `completeSymmetricScan`. */
    method CompleteSymmetricScan(peer: NodeId, session: Session)
      requires Valid()
      modifies this
      ensures Valid() && made == old(made)
      ensures View() == CompleteStep(old(View()), peer, session)
    {
      ghost var before := View();
      ScanEndsIff(before, Complete(peer, session));
      if peer !in scans || SessionOf(sessions, peer) != session {
        return;
      }
      var cancel := scans[peer];
      CancelOne(before, peer);
      scans := scans - {peer};
      sessions := sessions - {peer};
      Close(cancel);
      connected := connected + {peer};
    }

    /** `cancelObsoleteSymmetricScans`. */
    method CancelObsolete(neighbors: set<NodeId>)
      requires Valid()
      modifies this
      ensures Valid() && made == old(made)
      ensures View() == ObsoleteStep(old(View()), neighbors)
    {
      hide Cancelled, Invariant, Running, EntryValid;
      ghost var before := View();
      CancelNone(before);
      var rest := scans.Keys;
      ghost var gone := {};
      while rest != {}
        invariant rest <= before.scans.Keys && gone == before.scans.Keys - rest - neighbors
        invariant Cancelled(before, gone, View())
        invariant sessions == before.sessions - gone && connected == before.connected - gone
        invariant made == old(made)
        decreases rest
      {
        var id :| id in rest;
        rest := rest - {id};
        if id in neighbors {
          assert gone == before.scans.Keys - rest - neighbors;
          continue;
        }
        CancelNext(before, gone, View(), id);
        var cancel := scans[id];
        scans := scans - {id};
        Close(cancel);
        sessions := sessions - {id};
        connected := connected - {id};
        gone := gone + {id};
      }
      assert gone == before.scans.Keys - neighbors;
      ObsoleteDone(before, neighbors, View());
    }

    /** The tail of `resetSymmetricRelay`. */
    method ResetSymmetricRelay(relay: NodeId)
      requires Valid()
      modifies this
      ensures Valid() && made == old(made)
      ensures View() == RelayResetStep(old(View()), relay)
    {
      ghost var before := View();
      ScanEndsIff(before, RelayReset(relay));
      if relay in scans {
        var cancel := scans[relay];
        CancelOne(before, relay);
        scans := scans - {relay};
        Close(cancel);
      }
      sessions := sessions - {relay};
      connected := connected - {relay};
    }

    /** The part of `resetTransportState` that cancels every scan. */
    method ResetTransportState()
      requires Valid()
      modifies this
      ensures Valid() && made == old(made)
      ensures View() == FullResetStep(old(View()))
    {
      hide Cancelled, Invariant, Running, EntryValid;
      ghost var before := View();
      CancelNone(before);
      var rest := scans.Keys;
      ghost var gone := {};
      while rest != {}
        invariant rest <= before.scans.Keys && gone == before.scans.Keys - rest
        invariant Cancelled(before, gone, View())
        invariant made == old(made)
        decreases rest
      {
        var id :| id in rest;
        rest := rest - {id};
        CancelNext(before, gone, View(), id);
        var cancel := scans[id];
        scans := scans - {id};
        Close(cancel);
        gone := gone + {id};
      }
      assert gone == before.scans.Keys;
      FullResetDone(before, View());
      sessions := map[];
      connected := {};
    }

    /** The deferred exit handler of `scanSymmetricNeighbor`, run once per scan. */
    method ScanExit(peer: NodeId, cancel: Chan)
      requires Valid() && cancel in started && started[cancel].peer == peer && cancel !in exited
      modifies this
      ensures Valid() && made == old(made)
      ensures View() == ExitStep(old(View()), cancel)
    {
      ExitKeeps(View(), cancel);
      exited := exited + {cancel};
      if peer in scans && scans[peer] == cancel {
        scans := scans - {peer};
        sessions := sessions - {peer};
      }
    }
  }

  lemma {:induction false} StartValid(s: State, p: NodeId, x: Session, force: bool, live: bool, ch: Chan)
    requires Invariant(s) && ch !in s.started
    ensures Invariant(StartStep(s, p, x, force, live, ch))
  {
    StartKeeps(s, p, x, force, live, ch);
  }

  /** The start step on a valid table, without the chance of a panic. */
  lemma {:induction false} StartIs(s: State, p: NodeId, x: Session, force: bool, live: bool, ch: Chan)
    requires Invariant(s)
    ensures var t := StartStep(s, p, x, force, live, ch);
      var connected := if live then s.connected else s.connected - {p};
      if p in s.scans && !force && SessionOf(s.sessions, p) == x then t == s
      else
        var s1 := if p in s.scans then s.(scans := s.scans - {p}, sessions := s.sessions - {p}, closed := s.closed + {s.scans[p]})
                  else s;
        if p in connected && !force then t == s1.(connected := connected)
        else t == s1.(connected := connected, scans := s1.scans[p := ch], sessions := s1.sessions[p := x],
                      started := s.started[ch := Scan(p, x)])
  {
    if p in s.scans {
      CancelOne(s, p);
    }
    hide Cancel;
  }

  lemma {:induction false} CancelOne(s: State, p: NodeId)
    requires Invariant(s) && p in s.scans
    ensures s.scans[p] !in s.closed
    ensures Cancel(s, p) == s.(scans := s.scans - {p}, closed := s.closed + {s.scans[p]})
  {
    assert EntryValid(s, p);
    assert (set q | q in {p} :: s.scans[q]) == {s.scans[p]};
  }

  /** Midway through a loop that has cancelled the scans of `gone`. */
  ghost predicate Cancelled(s: State, gone: set<NodeId>, t: State) {
    && gone <= s.scans.Keys
    && t.scans == s.scans - gone
    && t.closed == s.closed + (set p | p in gone :: s.scans[p])
    && t.started == s.started && t.exited == s.exited
  }

  lemma {:induction false} CancelNone(s: State)
    ensures Cancelled(s, {}, s)
  {
    assert s.scans - {} == s.scans;
  }

  lemma {:induction false} CancelNext(s: State, gone: set<NodeId>, t: State, id: NodeId)
    requires Invariant(s) && Cancelled(s, gone, t) && id in s.scans && id !in gone
    ensures id in t.scans && t.scans[id] !in t.closed
    ensures forall sessions, connected ::
      Cancelled(s, gone + {id},
                State(t.scans - {id}, sessions, connected, t.started, t.closed + {t.scans[id]}, t.exited, t.panicked))
  {
    assert EntryValid(s, id);
    forall p | p in gone ensures s.scans[p] != s.scans[id] { assert EntryValid(s, p); }
    assert (set p | p in gone + {id} :: s.scans[p]) == (set p | p in gone :: s.scans[p]) + {s.scans[id]};
  }

  lemma {:induction false} ObsoleteDone(s: State, neighbors: set<NodeId>, t: State)
    requires Invariant(s) && Cancelled(s, s.scans.Keys - neighbors, t) && !t.panicked
    requires t.sessions == s.sessions - (s.scans.Keys - neighbors)
    requires t.connected == s.connected - (s.scans.Keys - neighbors)
    ensures t == ObsoleteStep(s, neighbors) && Invariant(t) && t.started == s.started
  {
    ScanEndsIff(s, Obsolete(neighbors));
  }

  lemma {:induction false} FullResetDone(s: State, t: State)
    requires Invariant(s) && Cancelled(s, s.scans.Keys, t) && !t.panicked
    ensures t.(sessions := map[], connected := {}) == FullResetStep(s)
    ensures Invariant(FullResetStep(s)) && t.started == s.started
  {
    ScanEndsIff(s, FullReset);
  }
}
