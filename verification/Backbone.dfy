/** The superpeer backbone: a ring with chords. */
module Backbone {
  import opened Overlay
  import opened Graph
  import opened Bridges

  ghost predicate PlainIds(nodes: seq<Node>) {
    forall i :: 0 <= i < |nodes| ==> Plain(nodes[i].id)
  }

  // ----- Collecting links without repeating a pair -----

  predicate HasKey(out: seq<Link>, key: string) {
    exists e :: e in out && EdgeKey(e.a, e.b) == key
  }

  /** The lower ID first, hence no self-loops; no pair twice; and `seen` is exactly the keys of `out`. */
  ghost predicate Simple(out: seq<Link>, seen: set<string>) {
    && (forall e :: e in out ==> Less(e.a, e.b) && e.a != e.b && e.cost == 1.0)
    && (forall i, j :: 0 <= i < j < |out| ==> EdgeKey(out[i].a, out[i].b) != EdgeKey(out[j].a, out[j].b))
    && (forall key :: key in seen <==> HasKey(out, key))
  }

  /** The link of a pair, lower ID first. */
  function PairLink(a: NodeId, b: NodeId): Link {
    if Less(b, a) then Link(b, a, 1.0) else Link(a, b, 1.0)
  }

  /** `out` after `add`. */
  function Added(out: seq<Link>, a: NodeId, b: NodeId): seq<Link> {
    if a == b || HasKey(out, EdgeKey(a, b)) then out else out + [PairLink(a, b)]
  }

  /** The closure `add`: links `a` and `b` unless they are equal or linked already. */
  method Add(out0: seq<Link>, seen0: set<string>, a: NodeId, b: NodeId) returns (out: seq<Link>, seen: set<string>)
    requires Simple(out0, seen0)
    ensures Simple(out, seen)
    ensures a != b ==> HasKey(out, EdgeKey(a, b))
    ensures out0 <= out && seen0 <= seen
    ensures forall e :: e in out ==> e in out0 || Connects(e, a, b)
    ensures out == Added(out0, a, b)
  {
    out, seen := out0, seen0;
    if a == b || EdgeKey(a, b) in seen {
      return;
    }
    LessTotal(a, b);
    var e := PairLink(a, b);
    LessTotal(e.a, e.b);
    out, seen := out + [e], seen + {EdgeKey(a, b)};
    assert EdgeKey(e.a, e.b) == EdgeKey(a, b);
    forall key
      ensures key in seen <==> HasKey(out, key)
    {
      if HasKey(out0, key) {
        var x :| x in out0 && EdgeKey(x.a, x.b) == key;
        assert x in out;
      }
      assert e in out;
    }
    forall i, j | 0 <= i < j < |out|
      ensures EdgeKey(out[i].a, out[i].b) != EdgeKey(out[j].a, out[j].b)
    {
      assert out[i] in out0;
    }
  }

  // ----- The ring -----

  lemma {:induction false} WrapMod(x: nat, n: nat)
    requires 0 < n && x < 2 * n
    ensures x % n == if x < n then x else x - n
  {
    if x >= n {
      assert x == n * 1 + (x - n);
      assert x / n == 1;
    }
  }

  function Clamp(n: int, degree: int): int {
    var d := if degree < 2 then 2 else degree;
    if d > n - 1 then n - 1 else d
  }

  /** How many positions `k` lies ahead of `i` on the ring. */
  function Ahead(n: nat, i: nat, k: nat): int {
    if k >= i then k - i else k - i + n
  }

  /** The largest distance round the ring that a clamped degree links. */
  function Reach(d: int): int {
    if d / 2 < 1 then 1 else d / 2
  }

  /** The pair of positions is one that the build may link. */
  predicate Chord(n: nat, degree: int, i: nat, k: nat) {
    || 1 <= Ahead(n, i, k) <= Reach(degree)
    || (degree % 2 == 1 && i < n / 2 && k == i + n / 2)
  }

  function Wrap(n: nat, x: nat): nat {
    if x < n then x else if x < 2 * n then x - n else 0
  }

  ghost predicate FromChord(nodes: seq<Node>, degree: int, e: Link) {
    exists i: nat, k: nat :: i < |nodes| && k < |nodes| && Chord(|nodes|, degree, i, k) && Connects(e, nodes[i].id, nodes[k].id)
  }

  /** Where two positions carry different IDs, their pair is linked. */
  ghost predicate Paired(nodes: seq<Node>, out: seq<Link>, i: nat, k: nat)
    requires i < |nodes| && k < |nodes|
  {
    nodes[i].id != nodes[k].id ==> HasKey(out, EdgeKey(nodes[i].id, nodes[k].id))
  }

  ghost predicate PairedAhead(nodes: seq<Node>, out: seq<Link>, i: nat, step: nat)
    requires i < |nodes|
  {
    Paired(nodes, out, i, Wrap(|nodes|, i + step))
  }

  /** The first `upTo` positions are linked to the ones `step` further round. */
  ghost predicate Stepped(nodes: seq<Node>, out: seq<Link>, step: nat, upTo: nat) {
    forall i: nat :: i < |nodes| && i < upTo ==> PairedAhead(nodes, out, i, step)
  }

  lemma {:induction false} PairStays(nodes: seq<Node>, before: seq<Link>, after: seq<Link>, i: nat, k: nat)
    requires i < |nodes| && k < |nodes| && Paired(nodes, before, i, k) && before <= after
    ensures Paired(nodes, after, i, k)
  {
    if nodes[i].id != nodes[k].id {
      var e :| e in before && EdgeKey(e.a, e.b) == EdgeKey(nodes[i].id, nodes[k].id);
      assert e in after;
    }
  }

  lemma {:induction false} StepStays(nodes: seq<Node>, before: seq<Link>, after: seq<Link>, step: nat, upTo: nat)
    requires Stepped(nodes, before, step, upTo) && before <= after
    ensures Stepped(nodes, after, step, upTo)
  {
    hide Paired;
    forall i: nat | i < |nodes| && i < upTo
      ensures PairedAhead(nodes, after, i, step)
    {
      assert PairedAhead(nodes, before, i, step);
      PairStays(nodes, before, after, i, Wrap(|nodes|, i + step));
    }
  }

  lemma {:induction false} StepsStay(nodes: seq<Node>, before: seq<Link>, after: seq<Link>, limit: int)
    requires AllStepped(nodes, before, limit) && before <= after
    ensures AllStepped(nodes, after, limit)
  {
    hide Stepped;
    forall step: nat | 1 <= step < limit
      ensures Stepped(nodes, after, step, |nodes|)
    {
      StepStays(nodes, before, after, step, |nodes|);
    }
  }

  /** `out` after the first `i` positions were linked to the ones `step` further round. */
  function Round(nodes: seq<Node>, step: nat, out: seq<Link>, i: nat): seq<Link>
    requires i <= |nodes|
  {
    if i == 0 then out
    else Added(Round(nodes, step, out, i - 1), nodes[i - 1].id, nodes[Wrap(|nodes|, i - 1 + step)].id)
  }

  /** `out` after the chords of the steps below `limit`. */
  function Rounds(nodes: seq<Node>, limit: nat): seq<Link> {
    if limit <= 1 then [] else Round(nodes, limit - 1, Rounds(nodes, limit - 1), |nodes|)
  }

  /** The backbone as a function of the superpeers and the configured degree. */
  function BackboneOf(superpeers: seq<Node>, degree: int): seq<Link> {
    var n, d := |superpeers|, Clamp(|superpeers|, degree);
    if n < 2 then []
    else
      var chords := Rounds(superpeers, Reach(d) + 1);
      if d % 2 == 1 then Round(superpeers, n / 2, chords, n / 2) else chords
  }

  lemma {:induction false} RoundNext(nodes: seq<Node>, step: nat, out: seq<Link>, i: nat)
    requires i < |nodes|
    ensures Round(nodes, step, out, i + 1) ==
      Added(Round(nodes, step, out, i), nodes[i].id, nodes[Wrap(|nodes|, i + step)].id)
  {
  }

  lemma {:induction false} RoundsNext(nodes: seq<Node>, limit: nat)
    requires limit >= 1
    ensures Rounds(nodes, limit + 1) == Round(nodes, limit, Rounds(nodes, limit), |nodes|)
  {
  }

  /** The first `i` positions are linked to the ones `step` further round, by permitted chords. */
  ghost predicate Midway(nodes: seq<Node>, degree: int, step: nat, out0: seq<Link>, out: seq<Link>, seen: set<string>, i: nat)
    requires i <= |nodes|
  {
    && Simple(out, seen) && out0 <= out
    && (forall e :: e in out ==> FromChord(nodes, degree, e))
    && Stepped(nodes, out, step, i)
    && out == Round(nodes, step, out0, i)
  }

  lemma {:induction false} MidwayNext(nodes: seq<Node>, degree: int, step: nat, out0: seq<Link>, out: seq<Link>, seen: set<string>,
                                      i: nat, k: nat, out': seq<Link>, seen': set<string>)
    requires i < |nodes| && k == Wrap(|nodes|, i + step) && Chord(|nodes|, degree, i, k)
    requires Midway(nodes, degree, step, out0, out, seen, i)
    requires Simple(out', seen') && out <= out' && out' == Added(out, nodes[i].id, nodes[k].id)
    requires Paired(nodes, out', i, k)
    requires forall e :: e in out' ==> e in out || Connects(e, nodes[i].id, nodes[k].id)
    ensures Midway(nodes, degree, step, out0, out', seen', i + 1)
  {
    hide Simple, Stepped, Paired, Chord, Added, Round;
    StepGrows(nodes, out, out', step, i);
    RoundNext(nodes, step, out0, i);
  }

  /** Links every node to the one `step` positions further round. */
  method AddRound(nodes: seq<Node>, degree: int, step: nat, out0: seq<Link>, seen0: set<string>)
    returns (out: seq<Link>, seen: set<string>)
    requires |nodes| >= 2 && 1 <= step < |nodes| && step <= Reach(degree)
    requires Simple(out0, seen0) && forall e :: e in out0 ==> FromChord(nodes, degree, e)
    ensures Midway(nodes, degree, step, out0, out, seen, |nodes|)
  {
    out, seen := out0, seen0;
    hide FromChord;
    for i := 0 to |nodes|
      invariant Midway(nodes, degree, step, out0, out, seen, i)
    {
      WrapMod(i + step, |nodes|);
      var k := (i + step) % |nodes|;
      hide Simple, Stepped, Round, Added, HasKey;
      ghost var before, seenBefore := out, seen;
      out, seen := Add(out, seen, nodes[i].id, nodes[k].id);
      MidwayNext(nodes, degree, step, out0, before, seenBefore, i, k, out, seen);
    }
  }

  lemma {:induction false} StepGrows(nodes: seq<Node>, before: seq<Link>, after: seq<Link>, step: nat, i: nat)
    requires i < |nodes| && Stepped(nodes, before, step, i) && before <= after
    requires PairedAhead(nodes, after, i, step)
    ensures Stepped(nodes, after, step, i + 1)
  {
    StepStays(nodes, before, after, step, i);
  }

  /** For an odd degree, links opposite positions. */
  method AddOpposite(nodes: seq<Node>, degree: int, out0: seq<Link>, seen0: set<string>)
    returns (out: seq<Link>, seen: set<string>)
    requires degree % 2 == 1
    requires Simple(out0, seen0) && forall e :: e in out0 ==> FromChord(nodes, degree, e)
    ensures Midway(nodes, degree, |nodes| / 2, out0, out, seen, |nodes| / 2)
  {
    out, seen := out0, seen0;
    var half := |nodes| / 2;
    hide FromChord;
    for i := 0 to half
      invariant Midway(nodes, degree, half, out0, out, seen, i)
    {
      hide Simple, Stepped, Round, Added, HasKey;
      ghost var before, seenBefore := out, seen;
      out, seen := Add(out, seen, nodes[i].id, nodes[i + half].id);
      MidwayNext(nodes, degree, half, out0, before, seenBefore, i, i + half, out, seen);
    }
  }

  ghost predicate NoRepeats(out: seq<Link>) {
    exists seen :: Simple(out, seen)
  }

  ghost predicate AllStepped(nodes: seq<Node>, out: seq<Link>, limit: int) {
    forall step: nat :: 1 <= step < limit ==> Stepped(nodes, out, step, |nodes|)
  }

  /** The ring and every permitted chord, without self-loops or repeated pairs, and nothing else. */
  ghost predicate IsBackbone(superpeers: seq<Node>, degree: int, out: seq<Link>) {
    var d := Clamp(|superpeers|, degree);
    && NoRepeats(out)
    && AllStepped(superpeers, out, Reach(d) + 1)
    && (d % 2 == 1 ==> Stepped(superpeers, out, |superpeers| / 2, |superpeers| / 2))
    && forall e :: e in out ==> FromChord(superpeers, d, e)
  }

  /** The chords of all steps below `limit` are there, and nothing else. */
  ghost predicate Chorded(nodes: seq<Node>, d: int, out: seq<Link>, seen: set<string>, limit: nat) {
    && Simple(out, seen) && out == Rounds(nodes, limit) && AllStepped(nodes, out, limit)
    && forall e :: e in out ==> FromChord(nodes, d, e)
  }

  lemma {:induction false} ChordedFirst(nodes: seq<Node>, d: int)
    ensures Chorded(nodes, d, [], {}, 1)
  {
  }

  lemma {:induction false} ChordedNext(nodes: seq<Node>, d: int, before: seq<Link>, seenBefore: set<string>, step: nat,
                                       out: seq<Link>, seen: set<string>)
    requires step >= 1 && Chorded(nodes, d, before, seenBefore, step)
    requires Midway(nodes, d, step, before, out, seen, |nodes|)
    ensures Chorded(nodes, d, out, seen, step + 1)
  {
    hide Simple, Stepped, Rounds, Round, FromChord;
    NextRound(nodes, before, out, step);
    RoundsNext(nodes, step);
  }

  lemma {:induction false} ChordedIsBackbone(nodes: seq<Node>, degree: int, out: seq<Link>, seen: set<string>)
    requires |nodes| >= 2 && Clamp(|nodes|, degree) % 2 == 0
    requires Chorded(nodes, Clamp(|nodes|, degree), out, seen, Reach(Clamp(|nodes|, degree)) + 1)
    ensures IsBackbone(nodes, degree, out) && out == BackboneOf(nodes, degree)
  {
    hide Simple, Stepped, FromChord, Rounds, Round;
  }

  lemma {:induction false} OppositesComplete(nodes: seq<Node>, degree: int, before: seq<Link>, seenBefore: set<string>,
                                             out: seq<Link>, seen: set<string>)
    requires |nodes| >= 2 && Clamp(|nodes|, degree) % 2 == 1
    requires Chorded(nodes, Clamp(|nodes|, degree), before, seenBefore, Reach(Clamp(|nodes|, degree)) + 1)
    requires Midway(nodes, Clamp(|nodes|, degree), |nodes| / 2, before, out, seen, |nodes| / 2)
    ensures IsBackbone(nodes, degree, out) && out == BackboneOf(nodes, degree)
  {
    hide Simple, Stepped, FromChord, Rounds, Round;
    StepsStay(nodes, before, out, Reach(Clamp(|nodes|, degree)) + 1);
  }

  lemma {:induction false} ChordedGivesSimple(nodes: seq<Node>, d: int, out: seq<Link>, seen: set<string>, limit: nat)
    requires Chorded(nodes, d, out, seen, limit)
    ensures Simple(out, seen) && forall e :: e in out ==> FromChord(nodes, d, e)
  {
  }

  method BackboneLinks(superpeers: seq<Node>, degree: int) returns (out: seq<Link>)
    ensures |superpeers| < 2 ==> out == []
    ensures |superpeers| >= 2 ==> IsBackbone(superpeers, degree, out)
    ensures out == BackboneOf(superpeers, degree)
  {
    out := [];
    var seen: set<string> := {};
    var n := |superpeers|;
    if n < 2 {
      return;
    }
    var d := Clamp(n, degree);
    ChordedFirst(superpeers, d);
    hide Chorded, Midway, Simple, FromChord, IsBackbone, BackboneOf;
    ghost var before, seenBefore := out, seen;
    ChordedGivesSimple(superpeers, d, out, seen, 1);
    out, seen := AddRound(superpeers, d, 1, out, seen);
    ChordedNext(superpeers, d, before, seenBefore, 1, out, seen);
    var step := 2;
    while step <= d / 2
      invariant 2 <= step <= Reach(d) + 1
      invariant Chorded(superpeers, d, out, seen, step)
    {
      before, seenBefore := out, seen;
      ChordedGivesSimple(superpeers, d, out, seen, step);
      out, seen := AddRound(superpeers, d, step, out, seen);
      ChordedNext(superpeers, d, before, seenBefore, step, out, seen);
      step := step + 1;
    }
    if d % 2 == 1 {
      before, seenBefore := out, seen;
      ChordedGivesSimple(superpeers, d, out, seen, step);
      out, seen := AddOpposite(superpeers, d, out, seen);
      OppositesComplete(superpeers, degree, before, seenBefore, out, seen);
    } else {
      ChordedIsBackbone(superpeers, degree, out, seen);
    }
  }

  lemma {:induction false} NextRound(nodes: seq<Node>, before: seq<Link>, after: seq<Link>, step: nat)
    requires AllStepped(nodes, before, step) && before <= after && Stepped(nodes, after, step, |nodes|)
    ensures AllStepped(nodes, after, step + 1)
  {
    hide Stepped;
    StepsStay(nodes, before, after, step);
  }

  // ----- Exactly the chords -----

  lemma {:induction false} ChordIsPaired(superpeers: seq<Node>, degree: int, out: seq<Link>, i: nat, k: nat)
    requires IsBackbone(superpeers, degree, out) && i < |superpeers| && k < |superpeers|
    requires Chord(|superpeers|, Clamp(|superpeers|, degree), i, k)
    ensures Paired(superpeers, out, i, k)
  {
    hide Paired, FromChord, NoRepeats;
    var n, d := |superpeers|, Clamp(|superpeers|, degree);
    var step := Ahead(n, i, k);
    if 1 <= step <= Reach(d) {
      assert Stepped(superpeers, out, step, n);
      assert PairedAhead(superpeers, out, i, step);
    } else {
      assert PairedAhead(superpeers, out, i, n / 2);
    }
  }

  /** Two superpeers are linked exactly when they are close enough on the ring or, for an odd degree, opposite. */
  lemma {:induction false} BackboneIsChords(superpeers: seq<Node>, degree: int, out: seq<Link>, i: nat, k: nat)
    requires |superpeers| >= 2 && GoodDirectory(superpeers) && IsBackbone(superpeers, degree, out)
    requires i < |superpeers| && k < |superpeers| && i != k
    ensures var n := |superpeers|;
      var wanted := if degree < 2 then 2 else degree;
      var d := if wanted < n then wanted else n - 1;
      var apart := if i < k then k - i else i - k;
      Linked(out, superpeers[i].id, superpeers[k].id) <==>
        || apart == 1 || apart == n - 1
        || 2 * apart <= d || 2 * (n - apart) <= d
        || (d % 2 == 1 && apart == n / 2 && (if i < k then i else k) < n / 2)
  {
    ChordMeans(|superpeers|, degree, i, k);
    hide Chord, Clamp;
    var n, d := |superpeers|, Clamp(|superpeers|, degree);
    var a, b := superpeers[i].id, superpeers[k].id;
    assert a != b;
    ChordsArePlain(superpeers, degree, out);
    if Linked(out, a, b) {
      var e :| e in out && Connects(e, a, b);
      ChordOf(superpeers, d, e, i, k);
    }
    if Chord(n, d, i, k) {
      ChordIsPaired(superpeers, degree, out, i, k);
      KeyIsLink(out, a, b);
    }
    if Chord(n, d, k, i) {
      ChordIsPaired(superpeers, degree, out, k, i);
      KeyIsLink(out, b, a);
    }
  }

  /** Positions are linked when neighbours on the ring, within half the degree of each other, or opposite for an odd degree. */
  lemma {:induction false} ChordMeans(n: nat, degree: int, i: nat, k: nat)
    requires n >= 2 && i < n && k < n && i != k
    ensures var wanted := if degree < 2 then 2 else degree;
      var d := if wanted < n then wanted else n - 1;
      var apart := if i < k then k - i else i - k;
      && d == Clamp(n, degree)
      && (Chord(n, Clamp(n, degree), i, k) || Chord(n, Clamp(n, degree), k, i) <==>
            || apart == 1 || apart == n - 1
            || 2 * apart <= d || 2 * (n - apart) <= d
            || (d % 2 == 1 && apart == n / 2 && (if i < k then i else k) < n / 2))
  {
  }

  lemma {:induction false} KeyIsLink(out: seq<Link>, a: NodeId, b: NodeId)
    requires PlainEnds(out) && Plain(a) && Plain(b) && HasKey(out, EdgeKey(a, b))
    ensures Linked(out, a, b) && Linked(out, b, a)
  {
    var e :| e in out && EdgeKey(e.a, e.b) == EdgeKey(a, b);
    EdgeKeyNamesPair(e.a, e.b, a, b);
    assert Connects(e, a, b) && Connects(e, b, a);
  }

  lemma {:induction false} ChordOf(nodes: seq<Node>, d: int, e: Link, i: nat, k: nat)
    requires DistinctIds(nodes) && FromChord(nodes, d, e) && i < |nodes| && k < |nodes| && i != k
    requires Connects(e, nodes[i].id, nodes[k].id)
    ensures Chord(|nodes|, d, i, k) || Chord(|nodes|, d, k, i)
  {
    var x: nat, y: nat :| x < |nodes| && y < |nodes| && Chord(|nodes|, d, x, y) && Connects(e, nodes[x].id, nodes[y].id);
    SamePlaces(nodes, x, y, i, k);
  }

  lemma {:induction false} SamePlaces(nodes: seq<Node>, x: nat, y: nat, i: nat, k: nat)
    requires DistinctIds(nodes) && x < |nodes| && y < |nodes| && i < |nodes| && k < |nodes|
    requires (nodes[x].id == nodes[i].id && nodes[y].id == nodes[k].id) || (nodes[x].id == nodes[k].id && nodes[y].id == nodes[i].id)
    ensures (x == i && y == k) || (x == k && y == i)
  {
  }

  // ----- Connected, and still connected after losing one superpeer -----

  /** Ring neighbours are linked. */
  lemma {:induction false} RingLinked(nodes: seq<Node>, out: seq<Link>, i: nat)
    requires |nodes| >= 2 && DistinctIds(nodes) && PlainIds(nodes) && Stepped(nodes, out, 1, |nodes|) && i < |nodes|
    requires PlainEnds(out)
    ensures Linked(out, nodes[i].id, nodes[Wrap(|nodes|, i + 1)].id)
  {
    var k := Wrap(|nodes|, i + 1);
    assert PairedAhead(nodes, out, i, 1);
    KeyIsLink(out, nodes[i].id, nodes[k].id);
  }

  ghost predicate PlainEnds(out: seq<Link>) {
    forall e :: e in out ==> Plain(e.a) && Plain(e.b)
  }

  /** The node `i` positions after `start` on the ring. */
  function After(nodes: seq<Node>, start: nat, i: nat): NodeId
    requires start < |nodes| && i <= |nodes|
  {
    nodes[Wrap(|nodes|, start + i)].id
  }

  /** A stretch of the ring lies on one side of every sealed set. */
  lemma {:induction false} StretchTogether(nodes: seq<Node>, out: seq<Link>, ids: set<NodeId>, s: set<NodeId>,
                                           start: nat, len: nat, t: nat)
    requires |nodes| >= 2 && DistinctIds(nodes) && PlainIds(nodes) && Stepped(nodes, out, 1, |nodes|)
    requires PlainEnds(out) && start < |nodes| && t < len <= |nodes|
    requires forall i :: 0 <= i < len ==> After(nodes, start, i) in ids
    requires Sealed(out, ids, s)
    ensures After(nodes, start, t) in s <==> nodes[start].id in s
  {
    if t > 0 {
      StretchTogether(nodes, out, ids, s, start, len, t - 1);
      var i := Wrap(|nodes|, start + t - 1);
      assert Wrap(|nodes|, i + 1) == Wrap(|nodes|, start + t);
      RingLinked(nodes, out, i);
      assert After(nodes, start, t - 1) in ids && After(nodes, start, t) in ids;
    }
  }

  /** The ring keeps any set of nodes connected that occupies one stretch of it. */
  lemma {:induction false} StretchConnected(nodes: seq<Node>, out: seq<Link>, ids: set<NodeId>, start: nat, len: nat)
    requires |nodes| >= 2 && DistinctIds(nodes) && PlainIds(nodes) && Stepped(nodes, out, 1, |nodes|)
    requires PlainEnds(out) && start < |nodes| && len <= |nodes|
    requires forall i :: 0 <= i < len ==> After(nodes, start, i) in ids
    requires forall x :: x in ids ==> exists i :: 0 <= i < len && After(nodes, start, i) == x
    ensures AllConnected(out, ids)
  {
    forall u, v | u in ids && v in ids
      ensures Connected(out, ids, u, v)
    {
      var i :| 0 <= i < len && After(nodes, start, i) == u;
      var k :| 0 <= k < len && After(nodes, start, k) == v;
      forall s | Sealed(out, ids, s) && u in s
        ensures v in s
      {
        StretchTogether(nodes, out, ids, s, start, len, i);
        StretchTogether(nodes, out, ids, s, start, len, k);
      }
      PathsAreCuts(out, ids, u, v);
    }
  }

  ghost predicate GoodDirectory(superpeers: seq<Node>) {
    DistinctIds(superpeers) && PlainIds(superpeers)
  }

  lemma {:induction false} ChordsArePlain(superpeers: seq<Node>, degree: int, out: seq<Link>)
    requires PlainIds(superpeers) && IsBackbone(superpeers, degree, out)
    ensures PlainEnds(out)
  {
    forall e | e in out
      ensures Plain(e.a) && Plain(e.b)
    {
      assert FromChord(superpeers, Clamp(|superpeers|, degree), e);
    }
  }

  /** Two or more superpeers form one connected backbone. */
  lemma {:induction false} BackboneConnected(superpeers: seq<Node>, degree: int, out: seq<Link>)
    requires |superpeers| >= 2 && GoodDirectory(superpeers) && IsBackbone(superpeers, degree, out)
    ensures AllConnected(out, Ids(superpeers))
  {
    ChordsArePlain(superpeers, degree, out);
    var ids := Ids(superpeers);
    forall i | 0 <= i < |superpeers|
      ensures After(superpeers, 0, i) in ids
    {
      assert superpeers[i] in superpeers;
    }
    forall x | x in ids
      ensures exists i :: 0 <= i < |superpeers| && After(superpeers, 0, i) == x
    {
      var i :| 0 <= i < |superpeers| && superpeers[i].id == x;
      assert After(superpeers, 0, i) == x;
    }
    StretchConnected(superpeers, out, ids, 0, |superpeers|);
  }

  /** Leaving out one position, the others form one stretch. */
  lemma {:induction false} OthersAreStretch(superpeers: seq<Node>, lost: nat, x: NodeId)
    requires |superpeers| >= 3 && DistinctIds(superpeers) && lost < |superpeers|
    requires x in Ids(superpeers) && x != superpeers[lost].id
    ensures var start := Wrap(|superpeers|, lost + 1);
      exists i :: 0 <= i < |superpeers| - 1 && After(superpeers, start, i) == x
  {
    var start := Wrap(|superpeers|, lost + 1);
    var k :| 0 <= k < |superpeers| && superpeers[k].id == x;
    assert After(superpeers, start, Ahead(|superpeers|, start, k)) == x;
  }

  lemma {:induction false} StretchIsOthers(superpeers: seq<Node>, lost: nat, i: nat)
    requires |superpeers| >= 3 && DistinctIds(superpeers) && lost < |superpeers| && i < |superpeers| - 1
    ensures After(superpeers, Wrap(|superpeers|, lost + 1), i) in Ids(superpeers) - {superpeers[lost].id}
  {
    var k := Wrap(|superpeers|, Wrap(|superpeers|, lost + 1) + i);
    assert superpeers[k] in superpeers && k != lost;
  }

  /** The loss of any one of three or more superpeers leaves the others connected. */
  lemma {:induction false} BackboneSurvives(superpeers: seq<Node>, degree: int, out: seq<Link>, lost: nat)
    requires |superpeers| >= 3 && GoodDirectory(superpeers) && IsBackbone(superpeers, degree, out)
    requires lost < |superpeers|
    ensures AllConnected(out, Ids(superpeers) - {superpeers[lost].id})
  {
    ChordsArePlain(superpeers, degree, out);
    var start := Wrap(|superpeers|, lost + 1);
    var ids := Ids(superpeers) - {superpeers[lost].id};
    forall i | 0 <= i < |superpeers| - 1
      ensures After(superpeers, start, i) in ids
    {
      StretchIsOthers(superpeers, lost, i);
    }
    forall x | x in ids
      ensures exists i :: 0 <= i < |superpeers| - 1 && After(superpeers, start, i) == x
    {
      OthersAreStretch(superpeers, lost, x);
    }
    StretchConnected(superpeers, out, ids, start, |superpeers| - 1);
  }

  // ----- Degree -----

  /** The IDs up to `h` positions ahead of `p`. */
  function AheadIds(nodes: seq<Node>, p: nat, h: nat): (ids: set<NodeId>)
    requires p < |nodes| && h < |nodes|
    ensures |ids| <= h
    ensures forall k :: 0 <= k < |nodes| && 1 <= Ahead(|nodes|, p, k) <= h ==> nodes[k].id in ids
  {
    if h == 0 then {} else AheadIds(nodes, p, h - 1) + {nodes[Wrap(|nodes|, p + h)].id}
  }

  /** The IDs up to `h` positions behind `p`. */
  function BehindIds(nodes: seq<Node>, p: nat, h: nat): (ids: set<NodeId>)
    requires p < |nodes| && h < |nodes|
    ensures |ids| <= h
    ensures forall k :: 0 <= k < |nodes| && 1 <= Ahead(|nodes|, k, p) <= h ==> nodes[k].id in ids
  {
    if h == 0 then {} else BehindIds(nodes, p, h - 1) + {nodes[Wrap(|nodes|, p + |nodes| - h)].id}
  }

  function OppositeIds(nodes: seq<Node>, degree: int, p: nat): (ids: set<NodeId>)
    requires p < |nodes|
    ensures |ids| <= degree % 2
  {
    var half := |nodes| / 2;
    if degree % 2 == 0 then {}
    else if p < half then {nodes[p + half].id}
    else {nodes[p - half].id}
  }

  lemma {:induction false} NeighborPlace(nodes: seq<Node>, d: int, out: seq<Link>, p: nat, x: NodeId) returns (k: nat)
    requires p < |nodes| && DistinctIds(nodes)
    requires forall e :: e in out ==> FromChord(nodes, d, e)
    requires x in NeighborIds(out, nodes[p].id)
    ensures k < |nodes| && nodes[k].id == x && (Chord(|nodes|, d, p, k) || Chord(|nodes|, d, k, p))
  {
    var e :| e in out && Connects(e, nodes[p].id, x);
    assert FromChord(nodes, d, e);
    var i: nat, j: nat :| i < |nodes| && j < |nodes| && Chord(|nodes|, d, i, j) && Connects(e, nodes[i].id, nodes[j].id);
    SameEnds(e, nodes[p].id, x, nodes[i].id, nodes[j].id);
    k := if nodes[i].id == nodes[p].id && nodes[j].id == x then j else i;
  }

  lemma {:induction false} SameEnds(e: Link, a: NodeId, b: NodeId, c: NodeId, d: NodeId)
    requires Connects(e, a, b) && Connects(e, c, d)
    ensures (a == c && b == d) || (a == d && b == c)
  {
  }

  lemma {:induction false} PlaceCovered(nodes: seq<Node>, d: int, p: nat, k: nat)
    requires 2 <= d < |nodes| && p < |nodes| && k < |nodes|
    requires Chord(|nodes|, d, p, k) || Chord(|nodes|, d, k, p)
    ensures nodes[k].id in AheadIds(nodes, p, d / 2) + BehindIds(nodes, p, d / 2) + OppositeIds(nodes, d, p)
  {
  }

  /** Every neighbour of position `p` sits at one of the permitted places. */
  lemma {:induction false} NeighborsCovered(nodes: seq<Node>, d: int, out: seq<Link>, p: nat)
    requires 2 <= d < |nodes| && p < |nodes| && DistinctIds(nodes)
    requires forall e :: e in out ==> FromChord(nodes, d, e)
    ensures NeighborIds(out, nodes[p].id) <=
      AheadIds(nodes, p, d / 2) + BehindIds(nodes, p, d / 2) + OppositeIds(nodes, d, p)
  {
    hide Chord, FromChord, NeighborIds, AheadIds, BehindIds, OppositeIds;
    forall x | x in NeighborIds(out, nodes[p].id)
      ensures x in AheadIds(nodes, p, d / 2) + BehindIds(nodes, p, d / 2) + OppositeIds(nodes, d, p)
    {
      var k := NeighborPlace(nodes, d, out, p, x);
      PlaceCovered(nodes, d, p, k);
    }
  }

  /** No superpeer has more backbone neighbours than the clamped degree. */
  lemma {:induction false} BackboneDegree(superpeers: seq<Node>, degree: int, out: seq<Link>, p: nat)
    requires |superpeers| >= 2 && DistinctIds(superpeers) && IsBackbone(superpeers, degree, out)
    requires p < |superpeers|
    ensures |NeighborIds(out, superpeers[p].id)| <= Clamp(|superpeers|, degree)
  {
    var d := Clamp(|superpeers|, degree);
    var near := NeighborIds(out, superpeers[p].id);
    if d >= 2 {
      NeighborsCovered(superpeers, d, out, p);
      SubsetSize(near, AheadIds(superpeers, p, d / 2) + BehindIds(superpeers, p, d / 2) + OppositeIds(superpeers, d, p));
    } else {
      OnlyPeer(superpeers, degree, out, p);
    }
  }

  lemma {:induction false} OnlyPeer(superpeers: seq<Node>, degree: int, out: seq<Link>, p: nat)
    requires |superpeers| == 2 && DistinctIds(superpeers) && IsBackbone(superpeers, degree, out) && p < 2
    ensures |NeighborIds(out, superpeers[p].id)| <= 1
  {
    hide AllStepped, NoRepeats, FromChord, HasKey, Stepped;
    var other := superpeers[1 - p].id;
    forall x | x in NeighborIds(out, superpeers[p].id)
      ensures x == other
    {
      var k := NeighborPlace(superpeers, Clamp(2, degree), out, p, x);
      assert k != p;
    }
    SubsetSize(NeighborIds(out, superpeers[p].id), {other});
  }
}
