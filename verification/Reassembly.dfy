/** Reassembly of fragmented IP packets. */
module Reassembly {
  import opened Wrappers
  import opened Limits
  import opened Bytes
  import Hex

  const MAX_ASSEMBLIES := 128
  const MAX_FRAGMENTS := 128
  /** Seconds without progress after which an assembly is dropped. */
  const LIFETIME := 10

  type Chunks = map<nat, seq<byte>>

  datatype Assembly = Assembly(count: nat, chunks: Chunks, totalBytes: nat, receivedAt: int)

  // ----- Chunks -----

  function ChunkLength(chunks: Chunks, i: nat): nat {
    if i in chunks then |chunks[i]| else 0
  }

  /** The bytes held by the chunks below `n`. */
  function Total(chunks: Chunks, n: nat): nat {
    if n == 0 then 0 else Total(chunks, n - 1) + ChunkLength(chunks, n - 1)
  }

  ghost predicate Complete(chunks: Chunks, n: nat) {
    forall i :: 0 <= i < n ==> i in chunks
  }

  /** The chunks below `n` in order; a missing one contributes nothing. */
  function Concat(chunks: Chunks, n: nat): seq<byte> {
    if n == 0 then [] else Concat(chunks, n - 1) + (if n - 1 in chunks then chunks[n - 1] else [])
  }

  lemma ConcatLength(chunks: Chunks, n: nat)
    ensures |Concat(chunks, n)| == Total(chunks, n)
  {
  }

  lemma {:induction false} TotalInsert(chunks: Chunks, n: nat, index: nat, chunk: seq<byte>)
    requires index !in chunks
    ensures Total(chunks[index := chunk], n) == Total(chunks, n) + (if index < n then |chunk| else 0)
  {
    if n > 0 {
      TotalInsert(chunks, n - 1, index, chunk);
    }
  }

  /** The indices below `n`. */
  function Below(n: nat): (s: set<nat>)
    ensures |s| == n
    ensures forall i: nat :: i in s <==> i < n
  {
    if n == 0 then {} else Below(n - 1) + {n - 1}
  }

  /** Chunks below `n` are complete exactly when there are `n` of them. */
  lemma {:induction false} CompleteIff(chunks: Chunks, n: nat)
    requires forall i :: i in chunks ==> i < n
    ensures |chunks| <= n && (|chunks| == n <==> Complete(chunks, n))
  {
    var missing := Below(n) - chunks.Keys;
    assert Below(n) == chunks.Keys + missing;
    assert |chunks.Keys| + |missing| == n;
    if Complete(chunks, n) {
      assert missing == {};
    }
    if |missing| == 0 {
      assert missing == {};
      forall i | 0 <= i < n
        ensures i in chunks
      {
        assert i in Below(n);
      }
    }
  }

  // ----- One assembly -----

  datatype Outcome = Kept(state: Assembly) | Dropped | Delivered(packet: seq<byte>)

  function Fresh(count: nat): Assembly {
    Assembly(count, map[], 0, 0)
  }

  /** What a fragment does to the assembly it belongs to. */
  function Absorb(state: Assembly, count: nat, index: nat, chunk: seq<byte>, now: int): Outcome {
    if state.count != count then Dropped
    else if index in state.chunks then Kept(state)
    else if |chunk| > MAX_TUN - state.totalBytes then Dropped
    else
      var next := Assembly(count, state.chunks[index := chunk], state.totalBytes + |chunk|, now);
      if |next.chunks| != count then Kept(next) else Delivered(Concat(next.chunks, count))
  }

  /** A stored assembly: bounded, in range, incomplete, and its byte count is exact. */
  ghost predicate AssemblyValid(a: Assembly) {
    && 1 <= a.count <= MAX_FRAGMENTS
    && (forall i :: i in a.chunks ==> i < a.count)
    && |a.chunks| < a.count
    && a.totalBytes == Total(a.chunks, a.count) <= MAX_TUN
  }

  lemma TotalOfNone(n: nat)
    ensures Total(map[], n) == 0
  {
  }

  lemma {:induction false} FreshIsValid(count: nat)
    requires 1 <= count <= MAX_FRAGMENTS
    ensures AssemblyValid(Fresh(count))
  {
    TotalOfNone(count);
  }

  /** Absorbing keeps assemblies valid, and delivers only complete packets of at most `MAX_TUN` bytes. */
  lemma {:induction false} AbsorbKeeps(a: Assembly, count: nat, index: nat, chunk: seq<byte>, now: int)
    requires AssemblyValid(a) && index < count
    ensures var o := Absorb(a, count, index, chunk, now);
      && (o.Kept? ==> AssemblyValid(o.state))
      && (o.Delivered? ==> |o.packet| <= MAX_TUN)
  {
    if a.count == count && index !in a.chunks && |chunk| <= MAX_TUN - a.totalBytes {
      var chunks := a.chunks[index := chunk];
      TotalInsert(a.chunks, count, index, chunk);
      CompleteIff(chunks, count);
      ConcatLength(chunks, count);
    }
  }

  // ----- Order independence -----

  datatype Fragment = Fragment(index: nat, chunk: seq<byte>, now: int)

  /** The first chunk received for every index. */
  function Collected(frags: seq<Fragment>): Chunks {
    if frags == [] then map[]
    else
      var f, before := frags[|frags| - 1], Collected(frags[..|frags| - 1]);
      if f.index in before then before else before[f.index := f.chunk]
  }

  /** The first outcome of a sequence of fragments of one ID, without expiry or eviction. */
  function FirstOutcome(count: nat, frags: seq<Fragment>): Outcome {
    if frags == [] then Kept(Fresh(count))
    else
      var f, before := frags[|frags| - 1], FirstOutcome(count, frags[..|frags| - 1]);
      if before.Kept? then Absorb(before.state, count, f.index, f.chunk, f.now) else before
  }

  ghost predicate InRange(count: nat, frags: seq<Fragment>) {
    forall i :: 0 <= i < |frags| ==> frags[i].index < count
  }

  /**
   * The outcome depends only on the first chunk received for each index: dropped
   * when they exceed the limit, delivered in index order when all are there, and
   * kept otherwise.
   */
  lemma {:induction false} OutcomeIsCollected(count: nat, frags: seq<Fragment>)
    requires 1 <= count && InRange(count, frags)
    ensures var o, c := FirstOutcome(count, frags), Collected(frags);
      && (forall i :: i in c ==> i < count)
      && (if Total(c, count) > MAX_TUN then o == Dropped
          else if |c| == count then o == Delivered(Concat(c, count))
          else o.Kept? && o.state.count == count && o.state.chunks == c && o.state.totalBytes == Total(c, count))
  {
    if frags == [] {
      TotalOfNone(count);
    } else {
      var f, init := frags[|frags| - 1], frags[..|frags| - 1];
      OutcomeIsCollected(count, init);
      var before := Collected(init);
      CompleteIff(before, count);
      if f.index !in before {
        TotalInsert(before, count, f.index, f.chunk);
      }
    }
  }

  ghost predicate Arrives(frags: seq<Fragment>, i: int) {
    exists k :: 0 <= k < |frags| && frags[k].index == i
  }

  /** Fragments of one packet, in any order and with any duplicates, give back that packet. */
  lemma {:induction false} AnyOrderDelivers(pieces: seq<seq<byte>>, frags: seq<Fragment>)
    requires |pieces| >= 1 && InRange(|pieces|, frags)
    requires forall k :: 0 <= k < |frags| ==> frags[k].chunk == pieces[frags[k].index]
    requires forall i :: 0 <= i < |pieces| ==> Arrives(frags, i)
    requires |Flatten(pieces)| <= MAX_TUN
    ensures FirstOutcome(|pieces|, frags) == Delivered(Flatten(pieces))
  {
    var c := Collected(frags);
    CollectedPieces(pieces, frags);
    forall i | 0 <= i < |pieces|
      ensures i in c
    {
      assert Arrives(frags, i);
    }
    ConcatFlattens(pieces, c, |pieces|);
    ConcatLength(c, |pieces|);
    OutcomeIsCollected(|pieces|, frags);
    CompleteIff(c, |pieces|);
    assert pieces[..|pieces|] == pieces;
  }

  function Flatten(pieces: seq<seq<byte>>): seq<byte> {
    if pieces == [] then [] else Flatten(pieces[..|pieces| - 1]) + pieces[|pieces| - 1]
  }

  lemma {:induction false} CollectedPieces(pieces: seq<seq<byte>>, frags: seq<Fragment>)
    requires InRange(|pieces|, frags)
    requires forall k :: 0 <= k < |frags| ==> frags[k].chunk == pieces[frags[k].index]
    ensures forall i :: i in Collected(frags) ==> i < |pieces| && Collected(frags)[i] == pieces[i]
    ensures forall k :: 0 <= k < |frags| ==> frags[k].index in Collected(frags)
  {
    if frags != [] {
      CollectedPieces(pieces, frags[..|frags| - 1]);
    }
  }

  lemma {:induction false} ConcatFlattens(pieces: seq<seq<byte>>, c: Chunks, n: nat)
    requires n <= |pieces| && forall i :: 0 <= i < n ==> i in c && c[i] == pieces[i]
    ensures Concat(c, n) == Flatten(pieces[..n])
  {
    if n > 0 {
      ConcatFlattens(pieces, c, n - 1);
      assert pieces[..n][..n - 1] == pieces[..n - 1];
    }
  }

  // ----- The table of assemblies -----

  type Table = map<string, Assembly>

  /** The key of an assembly: sender and fragment ID. Short sender names are padded to a fixed width. */
  function StateKey(source: string, fragmentId: seq<byte>): string {
    if |source| <= 32 then source + seq(32 - |source|, _ => '\0') + ":" + Hex.Encode(fragmentId)
    else source + ":" + Hex.Encode(fragmentId)
  }

  /** For node IDs of 32 characters a key names sender and fragment ID. */
  lemma {:induction false} KeyNamesFragment(source: string, id: seq<byte>, source': string, id': seq<byte>)
    requires |source| == |source'| == 32 && StateKey(source, id) == StateKey(source', id')
    ensures source == source' && id == id'
  {
    var key, key' := StateKey(source, id), StateKey(source', id');
    assert key[..32] == source && key'[..32] == source';
    assert key[33..] == Hex.Encode(id) && key'[33..] == Hex.Encode(id');
    Hex.DecodeEncode(id);
    Hex.DecodeEncode(id');
  }

  function Expired(t: Table, now: int): Table {
    map k | k in t && t[k].receivedAt >= now - LIFETIME :: t[k]
  }

  ghost predicate TableValid(t: Table) {
    |t| <= MAX_ASSEMBLIES && forall k :: k in t ==> AssemblyValid(t[k])
  }

  /** Room for a new assembly: unchanged, or without one victim when the table is full. */
  ghost predicate MadeRoom(t: Table, t': Table) {
    if |t| < MAX_ASSEMBLIES then t' == t else exists k :: k in t && t' == t - {k}
  }

  function Applied(t: Table, key: string, o: Outcome): Table {
    if o.Kept? then t[key := o.state] else t - {key}
  }

  datatype Header = Header(fragmentId: seq<byte>, index: nat, count: nat)

  function ParseHeader(plain: seq<byte>): Header
    requires |plain| >= 12
  {
    Header(plain[..8], U16(plain, 8), U16(plain, 10))
  }

  predicate WellFormed(plain: seq<byte>) {
    && 12 <= |plain| <= 12 + MAX_TUN
    && 1 <= ParseHeader(plain).count <= MAX_FRAGMENTS
    && ParseHeader(plain).index < ParseHeader(plain).count
  }

  /** How one well-formed fragment changes the table, and what it delivers. */
  ghost predicate Step(t: Table, source: string, plain: seq<byte>, now: int, t': Table, o: Outcome)
    requires WellFormed(plain)
  {
    var h, live := ParseHeader(plain), Expired(t, now);
    var key := StateKey(source, h.fragmentId);
    if key in live then
      o == Absorb(live[key], h.count, h.index, plain[12..], now) && t' == Applied(live, key, o)
    else
      o == Absorb(Fresh(h.count), h.count, h.index, plain[12..], now) &&
      exists room :: MadeRoom(live, room) && t' == Applied(room, key, o)
  }

  lemma {:induction false} SubmapSize(t: Table, t': Table)
    requires t'.Keys <= t.Keys
    ensures |t'| <= |t|
  {
    assert t.Keys == t'.Keys + (t.Keys - t'.Keys);
    assert |t| == |t.Keys| && |t'| == |t'.Keys|;
  }

  lemma {:induction false} AppliedValid(t: Table, key: string, o: Outcome)
    requires TableValid(t) && (key in t || |t| < MAX_ASSEMBLIES)
    requires o.Kept? ==> AssemblyValid(o.state)
    ensures TableValid(Applied(t, key, o))
  {
    var t' := Applied(t, key, o);
    if o.Kept? {
      assert t'.Keys == t.Keys + {key};
      assert |t'| == |t'.Keys| && |t| == |t.Keys|;
    } else {
      SubmapSize(t, t');
    }
  }

  class Reassembler {
    var table: Table

    ghost predicate Valid()
      reads this
    {
      TableValid(table)
    }

    constructor ()
      ensures Valid() && table == map[]
    {
      table := map[];
    }

    /** `acceptIPFragmentAt`. */
    method AcceptFragment(source: string, plain: seq<byte>, now: int) returns (packet: Option<seq<byte>>)
      requires Valid()
      modifies this
      ensures Valid() && |table| <= 128
      ensures !WellFormed(plain) ==> table == old(table) && packet.None?
      ensures WellFormed(plain) ==>
        exists o :: Step(old(table), source, plain, now, table, o) &&
          packet == (if o.Delivered? then Some(o.packet) else None)
      ensures packet.Some? ==> |packet.value| <= 1350
    {
      packet := None;
      if !WellFormed(plain) {
        return;
      }
      hide AssemblyValid, Absorb, StateKey, U16;
      var h := ParseHeader(plain);
      ghost var before := table;
      ExpiredValid(table, now);
      table := Expired(table, now);
      var key := StateKey(source, h.fragmentId);
      var state;
      if key in table {
        state := table[key];
      } else {
        table := MakeRoom(table);
        state := Fresh(h.count);
        FreshIsValid(h.count);
      }
      var o := AbsorbFragment(state, h.count, h.index, plain[12..], now);
      AbsorbKeeps(state, h.count, h.index, plain[12..], now);
      AppliedValid(table, key, o);
      table := Applied(table, key, o);
      assert Step(before, source, plain, now, table, o);
      if o.Delivered? {
        packet := Some(o.packet);
      }
    }
  }

  lemma {:induction false} ExpiredValid(t: Table, now: int)
    requires TableValid(t)
    ensures TableValid(Expired(t, now))
  {
    SubmapSize(t, Expired(t, now));
  }

  /** Evicts some assembly when the table is full. */
  method MakeRoom(t: Table) returns (room: Table)
    requires TableValid(t)
    ensures MadeRoom(t, room) && TableValid(room) && |room| < MAX_ASSEMBLIES
    ensures room.Keys <= t.Keys
  {
    room := t;
    if |t| >= MAX_ASSEMBLIES {
      assert |t.Keys| == |t|;
      var victim :| victim in t;
      RemoveOne(t, victim);
      room := t - {victim};
    }
  }

  /** Stores one fragment and, when it was the last missing one, joins the chunks in order. */
  method AbsorbFragment(state: Assembly, count: nat, index: nat, chunk: seq<byte>, now: int) returns (o: Outcome)
    requires AssemblyValid(state)
    ensures o == Absorb(state, count, index, chunk, now)
  {
    if state.count != count || (index !in state.chunks && |chunk| > MAX_TUN - state.totalBytes) {
      return Dropped;
    }
    if index in state.chunks {
      return Kept(state);
    }
    var next := Assembly(count, state.chunks[index := chunk], state.totalBytes + |chunk|, now);
    if |next.chunks| != count {
      return Kept(next);
    }
    var scratch := [];
    for part := 0 to count
      invariant scratch == Concat(next.chunks, part)
    {
      scratch := scratch + (if part in next.chunks then next.chunks[part] else []);
    }
    return Delivered(scratch);
  }

  lemma {:induction false} RemoveOne(t: Table, k: string)
    requires k in t
    ensures |t - {k}| == |t| - 1
  {
    assert (t - {k}).Keys == t.Keys - {k};
    assert |t| == |t.Keys| && |t - {k}| == |(t - {k}).Keys|;
  }

  // ----- Runs of the table -----

  /** The table holds `state` under `key`, or nothing when no fragment has arrived. */
  ghost predicate Agrees(t: Table, key: string, count: nat, state: Assembly) {
    if key in t then t[key] == state else state == Fresh(count)
  }

  /** A step on a key that has not expired is `Absorb` on the state it holds. */
  lemma {:induction false} StepAgrees(t: Table, source: string, plain: seq<byte>, now: int, t': Table, o: Outcome,
                                      key: string, count: nat, state: Assembly)
    requires WellFormed(plain) && Step(t, source, plain, now, t', o)
    requires key == StateKey(source, ParseHeader(plain).fragmentId) && ParseHeader(plain).count == count
    requires key in t ==> key in Expired(t, now)
    requires Agrees(t, key, count, state)
    ensures o == Absorb(state, count, ParseHeader(plain).index, plain[12..], now)
    ensures o.Kept? ==> Agrees(t', key, count, o.state)
  {
    hide Absorb, StateKey, U16;
  }

  function ToFragment(plain: seq<byte>, now: int): Fragment
    requires |plain| >= 12
  {
    Fragment(ParseHeader(plain).index, plain[12..], now)
  }

  /** A fragment on any sender's behalf and what the table made of it. */
  datatype Arrival = Arrival(source: string, plain: seq<byte>, now: int, after: Table, outcome: Outcome)

  /** The arrival carries a fragment of the assembly `key`. */
  predicate Own(key: string, a: Arrival) {
    WellFormed(a.plain) && key == StateKey(a.source, ParseHeader(a.plain).fragmentId)
  }

  /** The fragments of `key` among the arrivals, in order of arrival. */
  function OwnFragments(key: string, arrivals: seq<Arrival>): seq<Fragment> {
    if arrivals == [] then []
    else
      var a, before := arrivals[|arrivals| - 1], OwnFragments(key, arrivals[..|arrivals| - 1]);
      if Own(key, a) then before + [ToFragment(a.plain, a.now)] else before
  }

  function TableBefore(start: Table, arrivals: seq<Arrival>, i: nat): Table
    requires i <= |arrivals|
  {
    if i == 0 then start else arrivals[i - 1].after
  }

  /**
   * One turn of the table: a fragment of `key`, of any other assembly, or a
   * malformed one. Neither expiry nor an eviction takes `key` away.
   */
  ghost predicate IsTurn(key: string, count: nat, t: Table, a: Arrival) {
    if !WellFormed(a.plain) then a.after == t
    else
      && Step(t, a.source, a.plain, a.now, a.after, a.outcome)
      && (if Own(key, a) then ParseHeader(a.plain).count == count && (key in t ==> key in Expired(t, a.now))
          else key in t ==> key in a.after)
  }

  /** Arrivals of all senders in turn, beginning before the first fragment of `key`. */
  ghost predicate IsRun(start: Table, key: string, count: nat, arrivals: seq<Arrival>) {
    && key !in start
    && (forall i :: 0 <= i < |arrivals| ==> IsTurn(key, count, TableBefore(start, arrivals, i), arrivals[i]))
  }

  lemma {:induction false} InitIsRun(start: Table, key: string, count: nat, arrivals: seq<Arrival>, n: nat)
    requires IsRun(start, key, count, arrivals) && n <= |arrivals|
    ensures IsRun(start, key, count, arrivals[..n])
  {
    hide IsTurn;
    var init := arrivals[..n];
    forall i | 0 <= i < n
      ensures IsTurn(key, count, TableBefore(start, init, i), init[i])
    {
      assert IsTurn(key, count, TableBefore(start, arrivals, i), arrivals[i]);
      assert TableBefore(start, init, i) == TableBefore(start, arrivals, i);
    }
  }

  /** A fragment of another assembly leaves this one alone. */
  lemma {:induction false} ForeignKeeps(t: Table, source: string, plain: seq<byte>, now: int, t': Table, o: Outcome, key: string)
    requires WellFormed(plain) && Step(t, source, plain, now, t', o)
    requires key != StateKey(source, ParseHeader(plain).fragmentId) && (key in t ==> key in t')
    ensures key in t' <==> key in t
    ensures key in t ==> t'[key] == t[key]
  {
    hide Absorb, StateKey, U16;
  }

  /** What one turn does to the state of `key`. */
  lemma {:induction false} TurnAgrees(key: string, count: nat, t: Table, a: Arrival, state: Assembly)
    requires IsTurn(key, count, t, a) && Agrees(t, key, count, state)
    ensures Own(key, a) ==>
      && a.outcome == Absorb(state, count, ParseHeader(a.plain).index, a.plain[12..], a.now)
      && (a.outcome.Kept? ==> Agrees(a.after, key, count, a.outcome.state))
    ensures !Own(key, a) ==> Agrees(a.after, key, count, state)
  {
    hide Step, Absorb, StateKey, U16;
    if Own(key, a) {
      StepAgrees(t, a.source, a.plain, a.now, a.after, a.outcome, key, count, state);
    } else if WellFormed(a.plain) {
      ForeignKeeps(t, a.source, a.plain, a.now, a.after, a.outcome, key);
    }
  }

  /**
   * Among any other traffic the fragments of one assembly have the outcome they
   * have alone: up to and including their first delivery or drop, the table does
   * what `FirstOutcome` says of the filtered arrivals.
   */
  lemma {:induction false} RunFollows(start: Table, key: string, count: nat, arrivals: seq<Arrival>)
    requires IsRun(start, key, count, arrivals)
    requires forall i :: 0 <= i < |arrivals| - 1 && Own(key, arrivals[i]) ==> arrivals[i].outcome.Kept?
    ensures var o := FirstOutcome(count, OwnFragments(key, arrivals));
      && (arrivals != [] && Own(key, arrivals[|arrivals| - 1]) ==> arrivals[|arrivals| - 1].outcome == o)
      && ((arrivals == [] || !Own(key, arrivals[|arrivals| - 1]) || o.Kept?) ==>
            o.Kept? && Agrees(TableBefore(start, arrivals, |arrivals|), key, count, o.state))
  {
    hide IsTurn, Absorb, Own;
    if arrivals == [] {
      assert OwnFragments(key, arrivals) == [];
    } else {
      var n := |arrivals| - 1;
      var init, a := arrivals[..n], arrivals[n];
      InitIsRun(start, key, count, arrivals, n);
      RunFollows(start, key, count, init);
      assert TableBefore(start, init, n) == TableBefore(start, arrivals, n);
      var own := OwnFragments(key, init);
      var before := FirstOutcome(count, own);
      assert before.Kept?;
      TurnAgrees(key, count, TableBefore(start, arrivals, n), a, before.state);
      if Own(key, a) {
        OwnIsLong(key, a);
        assert OwnFragments(key, arrivals)[..|own|] == own;
      }
    }
  }

  lemma {:induction false} OwnIsLong(key: string, a: Arrival)
    requires Own(key, a)
    ensures |a.plain| >= 12
  {
  }

  // ----- Delivery among other traffic -----

  /** Every fragment carries its piece of one packet. */
  ghost predicate PiecesOf(pieces: seq<seq<byte>>, frags: seq<Fragment>) {
    forall k :: 0 <= k < |frags| ==> frags[k].index < |pieces| && frags[k].chunk == pieces[frags[k].index]
  }

  lemma {:induction false} TotalAtMost(pieces: seq<seq<byte>>, c: Chunks, n: nat)
    requires n <= |pieces| && forall i :: i in c ==> i < |pieces| && c[i] == pieces[i]
    ensures Total(c, n) <= |Flatten(pieces[..n])| <= |Flatten(pieces)|
    decreases |pieces| - n, n
  {
    TotalBelow(pieces, c, n);
    if n < |pieces| {
      TotalAtMost(pieces, c, n + 1);
      assert pieces[..n + 1][..n] == pieces[..n];
    } else {
      assert pieces[..n] == pieces;
    }
  }

  lemma {:induction false} TotalBelow(pieces: seq<seq<byte>>, c: Chunks, n: nat)
    requires n <= |pieces| && forall i :: i in c ==> i < |pieces| && c[i] == pieces[i]
    ensures Total(c, n) <= |Flatten(pieces[..n])|
  {
    if n > 0 {
      TotalBelow(pieces, c, n - 1);
      assert pieces[..n][..n - 1] == pieces[..n - 1];
    }
  }

  lemma {:induction false} CollectedArrives(frags: seq<Fragment>, i: nat)
    requires i in Collected(frags)
    ensures Arrives(frags, i)
  {
    var n := |frags| - 1;
    if frags[n].index != i {
      CollectedArrives(frags[..n], i);
      var k :| 0 <= k < n && frags[..n][k].index == i;
      assert frags[k].index == i;
    }
  }

  /** As long as a piece is missing, nothing is delivered and nothing dropped. */
  lemma {:induction false} MissingIsKept(pieces: seq<seq<byte>>, frags: seq<Fragment>, missing: nat)
    requires PiecesOf(pieces, frags) && |Flatten(pieces)| <= MAX_TUN
    requires missing < |pieces| && !Arrives(frags, missing)
    ensures FirstOutcome(|pieces|, frags).Kept?
  {
    var c := Collected(frags);
    CollectedPieces(pieces, frags);
    OutcomeIsCollected(|pieces|, frags);
    TotalAtMost(pieces, c, |pieces|);
    assert missing !in c by {
      if missing in c {
        CollectedArrives(frags, missing);
      }
    }
    CompleteIff(c, |pieces|);
  }

  lemma {:induction false} KeptUntilComplete(start: Table, key: string, pieces: seq<seq<byte>>, arrivals: seq<Arrival>, missing: nat)
    requires IsRun(start, key, |pieces|, arrivals)
    requires PiecesOf(pieces, OwnFragments(key, arrivals)) && |Flatten(pieces)| <= MAX_TUN
    requires missing < |pieces| && !Arrives(OwnFragments(key, arrivals), missing)
    ensures forall i :: 0 <= i < |arrivals| && Own(key, arrivals[i]) ==> arrivals[i].outcome.Kept?
  {
    hide IsRun, Own, FirstOutcome;
    if arrivals != [] {
      var n := |arrivals| - 1;
      InitIsRun(start, key, |pieces|, arrivals, n);
      OwnInit(key, pieces, arrivals, missing);
      KeptUntilComplete(start, key, pieces, arrivals[..n], missing);
      assert forall i :: 0 <= i < n ==> arrivals[i] == arrivals[..n][i];
      RunFollows(start, key, |pieces|, arrivals);
      MissingIsKept(pieces, OwnFragments(key, arrivals), missing);
    }
  }

  /** Fewer arrivals carry fewer fragments. */
  lemma {:induction false} OwnInit(key: string, pieces: seq<seq<byte>>, arrivals: seq<Arrival>, i: nat)
    requires arrivals != [] && PiecesOf(pieces, OwnFragments(key, arrivals))
    ensures OwnFragments(key, arrivals[..|arrivals| - 1]) <= OwnFragments(key, arrivals)
    ensures PiecesOf(pieces, OwnFragments(key, arrivals[..|arrivals| - 1]))
    ensures Arrives(OwnFragments(key, arrivals[..|arrivals| - 1]), i) ==> Arrives(OwnFragments(key, arrivals), i)
  {
    hide Own;
    var own, all := OwnFragments(key, arrivals[..|arrivals| - 1]), OwnFragments(key, arrivals);
    forall k | 0 <= k < |own|
      ensures own[k] == all[k]
    {
    }
    if Arrives(own, i) {
      var k :| 0 <= k < |own| && own[k].index == i;
      assert all[k].index == i;
    }
  }

  /**
   * Reassembly at the table: the arrival that brings the last missing piece of a
   * packet delivers exactly that packet, whatever the order of its fragments,
   * their duplicates and all other traffic; no fragment before it delivers or
   * drops anything.
   */
  lemma {:induction false} DeliversAmongTraffic(start: Table, key: string, pieces: seq<seq<byte>>, arrivals: seq<Arrival>)
    requires arrivals != [] && Own(key, arrivals[|arrivals| - 1]) && IsRun(start, key, |pieces|, arrivals)
    requires PiecesOf(pieces, OwnFragments(key, arrivals)) && 1 <= |pieces| && |Flatten(pieces)| <= MAX_TUN
    requires forall i :: 0 <= i < |pieces| ==> Arrives(OwnFragments(key, arrivals), i)
    requires !Arrives(OwnFragments(key, arrivals[..|arrivals| - 1]), ParseHeader(arrivals[|arrivals| - 1].plain).index)
    ensures arrivals[|arrivals| - 1].outcome == Delivered(Flatten(pieces))
    ensures forall i :: 0 <= i < |arrivals| - 1 && Own(key, arrivals[i]) ==> arrivals[i].outcome.Kept?
  {
    hide IsRun, FirstOutcome;
    var n := |arrivals| - 1;
    var last := ParseHeader(arrivals[n].plain).index;
    var own := OwnFragments(key, arrivals);
    assert own[|own| - 1].index == last;
    hide Own;
    InitIsRun(start, key, |pieces|, arrivals, n);
    OwnInit(key, pieces, arrivals, last);
    KeptUntilComplete(start, key, pieces, arrivals[..n], last);
    assert forall i :: 0 <= i < n ==> arrivals[i] == arrivals[..n][i];
    RunFollows(start, key, |pieces|, arrivals);
    AnyOrderDelivers(pieces, own);
  }

  // ----- The same over the bytes on the wire -----

  /** A piece as its sender writes it: packet ID, index and count in two bytes each, and the bytes of the piece. */
  function Piece(id: seq<byte>, i: nat, n: nat, chunk: seq<byte>): seq<byte>
    requires i < 65536 && n < 65536
  {
    id + [i / 256, i % 256, n / 256, n % 256] + chunk
  }

  lemma {:induction false} PieceParses(id: seq<byte>, i: nat, n: nat, chunk: seq<byte>)
    requires |id| == 8 && i < 65536 && n < 65536
    ensures var plain := Piece(id, i, n, chunk);
      |plain| == 12 + |chunk| && ParseHeader(plain) == Header(id, i, n) && plain[12..] == chunk
  {
    var plain := Piece(id, i, n, chunk);
    assert plain[8] == i / 256 && plain[9] == i % 256 && plain[10] == n / 256 && plain[11] == n % 256;
    assert plain[..8] == id;
  }

  /** Exactly the pieces of a packet of at most 128 pieces are accepted, none longer than 1350 bytes. */
  lemma {:induction false} AcceptedIff(id: seq<byte>, i: nat, n: nat, chunk: seq<byte>)
    requires |id| == 8 && i < 65536 && n < 65536
    ensures WellFormed(Piece(id, i, n, chunk)) <==> 1 <= n <= 128 && i < n && |chunk| <= 1350
  {
    PieceParses(id, i, n, chunk);
  }

  /** Every plaintext of at least 12 bytes is a piece in this sense; a shorter one is never accepted. */
  lemma {:induction false} EveryPlainIsPiece(plain: seq<byte>) returns (i: nat, n: nat)
    ensures WellFormed(plain) ==> |plain| >= 12
    ensures |plain| >= 12 ==> i < 65536 && n < 65536 && plain == Piece(plain[..8], i, n, plain[12..])
  {
    if |plain| < 12 {
      i, n := 0, 0;
    } else {
      i, n := plain[8] as int * 256 + plain[9], plain[10] as int * 256 + plain[11];
      assert plain == plain[..8] + plain[8..12] + plain[12..];
    }
  }

  /** What the table makes of one arrival, well-formed or not. */
  ghost predicate Handled(t: Table, a: Arrival) {
    if WellFormed(a.plain) then Step(t, a.source, a.plain, a.now, a.after, a.outcome) else a.after == t
  }

  /** The arrival bears the sender and the packet ID. */
  predicate Mine(source: string, id: seq<byte>, a: Arrival) {
    a.source == source && |a.plain| >= 12 && a.plain[..8] == id
  }

  ghost predicate IsPiece(id: seq<byte>, pieces: seq<seq<byte>>, plain: seq<byte>, i: nat) {
    i < |pieces| <= 128 && plain == Piece(id, i, |pieces|, pieces[i])
  }

  /** The plaintext is some piece of the packet. */
  ghost predicate PieceOf(id: seq<byte>, pieces: seq<seq<byte>>, plain: seq<byte>) {
    exists i: nat :: IsPiece(id, pieces, plain, i)
  }

  /** The `i`-th piece has come from the sender. */
  ghost predicate Came(source: string, id: seq<byte>, pieces: seq<seq<byte>>, arrivals: seq<Arrival>, i: nat) {
    exists k :: 0 <= k < |arrivals| && arrivals[k].source == source && IsPiece(id, pieces, arrivals[k].plain, i)
  }

  /** Within ten seconds of its last new piece and with room in the table, an assembly stays. */
  ghost predicate Calm(t: Table, key: string, a: Arrival) {
    key in t ==> a.now - t[key].receivedAt <= 10 && (|t| < 128 || key in a.after)
  }

  /**
   * One arrival at a node while a packet comes in pieces: it is handled, the
   * assembly is neither outlived nor evicted, and what bears the packet's sender
   * and ID is one of its pieces.
   */
  ghost predicate TrafficTurn(source: string, id: seq<byte>, pieces: seq<seq<byte>>, t: Table, a: Arrival) {
    && |a.source| == 32 && Handled(t, a) && Calm(t, StateKey(source, id), a)
    && (Mine(source, id, a) ==> PieceOf(id, pieces, a.plain))
  }

  ghost predicate IsTraffic(start: Table, source: string, id: seq<byte>, pieces: seq<seq<byte>>, arrivals: seq<Arrival>) {
    && StateKey(source, id) !in start
    && forall k :: 0 <= k < |arrivals| ==> TrafficTurn(source, id, pieces, TableBefore(start, arrivals, k), arrivals[k])
  }

  lemma {:induction false} OwnIsMine(source: string, id: seq<byte>, a: Arrival)
    requires |source| == |a.source| == 32 && |id| == 8
    ensures Own(StateKey(source, id), a) <==> WellFormed(a.plain) && Mine(source, id, a)
  {
    if WellFormed(a.plain) && StateKey(source, id) == StateKey(a.source, ParseHeader(a.plain).fragmentId) {
      var i, n := EveryPlainIsPiece(a.plain);
      PieceParses(a.plain[..8], i, n, a.plain[12..]);
      KeyNamesFragment(source, id, a.source, ParseHeader(a.plain).fragmentId);
    }
    if WellFormed(a.plain) && Mine(source, id, a) {
      var i, n := EveryPlainIsPiece(a.plain);
      PieceParses(id, i, n, a.plain[12..]);
    }
  }

  /** An assembly outlives ten seconds of silence, and not more. */
  lemma {:induction false} SurvivesIff(t: Table, now: int, key: string)
    ensures key in Expired(t, now) <==> key in t && now - t[key].receivedAt <= 10
    ensures key in Expired(t, now) ==> Expired(t, now)[key] == t[key]
  {
  }

  /** A calm turn of other traffic leaves the assembly in the table. */
  lemma {:induction false} CalmKeeps(t: Table, key: string, a: Arrival)
    requires WellFormed(a.plain) && Handled(t, a) && Calm(t, key, a) && !Own(key, a) && key in t
    ensures key in a.after
  {
    hide Absorb, StateKey, U16;
    SurvivesIff(t, a.now, key);
    SubmapSize(t, Expired(t, a.now));
  }

  lemma {:induction false} TrafficIsTurn(source: string, id: seq<byte>, pieces: seq<seq<byte>>, t: Table, a: Arrival)
    requires |source| == 32 && |id| == 8 && 1 <= |pieces| <= 128
    requires TrafficTurn(source, id, pieces, t, a)
    ensures IsTurn(StateKey(source, id), |pieces|, t, a)
  {
    var key := StateKey(source, id);
    OwnIsMine(source, id, a);
    hide StateKey, Step, Absorb, U16, Own, WellFormed, Expired;
    if WellFormed(a.plain) && Own(key, a) {
      var i: nat :| IsPiece(id, pieces, a.plain, i);
      PieceParses(id, i, |pieces|, pieces[i]);
      SurvivesIff(t, a.now, key);
    } else if WellFormed(a.plain) && key in t {
      CalmKeeps(t, key, a);
    }
  }

  lemma {:induction false} TrafficIsRun(start: Table, source: string, id: seq<byte>, pieces: seq<seq<byte>>, arrivals: seq<Arrival>)
    requires |source| == 32 && |id| == 8 && 1 <= |pieces| <= 128
    requires IsTraffic(start, source, id, pieces, arrivals)
    ensures IsRun(start, StateKey(source, id), |pieces|, arrivals)
  {
    hide StateKey, TrafficTurn, IsTurn;
    forall k | 0 <= k < |arrivals|
      ensures IsTurn(StateKey(source, id), |pieces|, TableBefore(start, arrivals, k), arrivals[k])
    {
      TrafficIsTurn(source, id, pieces, TableBefore(start, arrivals, k), arrivals[k]);
    }
  }

  lemma {:induction false} MoreArrives(own: seq<Fragment>, all: seq<Fragment>, i: nat)
    requires all == own || (|all| == |own| + 1 && all[..|own|] == own)
    ensures Arrives(all, i) <==> Arrives(own, i) || (|all| > |own| && all[|own|].index == i)
  {
    if Arrives(own, i) {
      var k :| 0 <= k < |own| && own[k].index == i;
      assert all[k] == own[k];
    }
    if Arrives(all, i) {
      var k :| 0 <= k < |all| && all[k].index == i;
      assert k < |own| ==> own[k].index == i;
    }
  }

  /** The arrival can be part of the packet's traffic. */
  ghost predicate Fits(source: string, id: seq<byte>, pieces: seq<seq<byte>>, a: Arrival) {
    |a.source| == 32 && (Mine(source, id, a) ==> PieceOf(id, pieces, a.plain))
  }

  /** An arrival of the packet yields the fragment with its own index and bytes, any other arrival none. */
  lemma {:induction false} OwnFragmentOf(source: string, id: seq<byte>, pieces: seq<seq<byte>>, a: Arrival)
    requires |source| == 32 && |id| == 8 && 1 <= |pieces| <= 128 && |Flatten(pieces)| <= 1350
    requires Fits(source, id, pieces, a)
    ensures Own(StateKey(source, id), a) <==> Mine(source, id, a)
    ensures Mine(source, id, a) ==>
      && |a.plain| >= 12 && ParseHeader(a.plain).index < |pieces| && a.plain[12..] == pieces[ParseHeader(a.plain).index]
    ensures forall i: nat :: a.source == source && IsPiece(id, pieces, a.plain, i) <==>
      Mine(source, id, a) && i == ParseHeader(a.plain).index
  {
    OwnIsMine(source, id, a);
    hide StateKey, Own, U16, Flatten, WellFormed;
    forall j: nat | a.source == source && IsPiece(id, pieces, a.plain, j)
      ensures Mine(source, id, a) && j == ParseHeader(a.plain).index
    {
      PieceParses(id, j, |pieces|, pieces[j]);
      assert a.plain[..8] == id;
    }
    if Mine(source, id, a) {
      var i: nat :| IsPiece(id, pieces, a.plain, i);
      PieceParses(id, i, |pieces|, pieces[i]);
      PieceFits(pieces, i);
      AcceptedIff(id, i, |pieces|, pieces[i]);
    }
  }

  lemma {:induction false} PieceFits(pieces: seq<seq<byte>>, i: nat)
    requires i < |pieces|
    ensures |pieces[i]| <= |Flatten(pieces)|
  {
    var n := |pieces| - 1;
    if i < n {
      PieceFits(pieces[..n], i);
    }
  }

  /** The fragments filtered from the traffic are the pieces that came. */
  lemma {:induction false} TrafficFragments(source: string, id: seq<byte>, pieces: seq<seq<byte>>, arrivals: seq<Arrival>)
    requires |source| == 32 && |id| == 8 && 1 <= |pieces| <= 128 && |Flatten(pieces)| <= 1350
    requires forall k :: 0 <= k < |arrivals| ==> Fits(source, id, pieces, arrivals[k])
    ensures PiecesOf(pieces, OwnFragments(StateKey(source, id), arrivals))
    ensures forall i: nat ::
      Arrives(OwnFragments(StateKey(source, id), arrivals), i) <==> Came(source, id, pieces, arrivals, i)
  {
    var key := StateKey(source, id);
    if arrivals != [] {
      var n := |arrivals| - 1;
      var init, a := arrivals[..n], arrivals[n];
      TrafficFragments(source, id, pieces, init);
      OwnFragmentOf(source, id, pieces, a);
      var own, all := OwnFragments(key, init), OwnFragments(key, arrivals);
      hide StateKey, Own, U16, Flatten, IsPiece, Arrives, Came;
      forall i: nat
        ensures Arrives(all, i) <==> Came(source, id, pieces, arrivals, i)
      {
        MoreArrives(own, all, i);
        MoreCame(source, id, pieces, arrivals, i);
      }
    }
  }

  lemma {:induction false} MoreCame(source: string, id: seq<byte>, pieces: seq<seq<byte>>, arrivals: seq<Arrival>, i: nat)
    requires arrivals != []
    ensures var n := |arrivals| - 1;
      Came(source, id, pieces, arrivals, i) <==>
        Came(source, id, pieces, arrivals[..n], i) || (arrivals[n].source == source && IsPiece(id, pieces, arrivals[n].plain, i))
  {
    hide IsPiece;
    var n := |arrivals| - 1;
    var init := arrivals[..n];
    if Came(source, id, pieces, init, i) {
      var k :| 0 <= k < n && init[k].source == source && IsPiece(id, pieces, init[k].plain, i);
      assert arrivals[k] == init[k];
    }
    if Came(source, id, pieces, arrivals, i) {
      var k :| 0 <= k <= n && arrivals[k].source == source && IsPiece(id, pieces, arrivals[k].plain, i);
      assert k < n ==> init[k] == arrivals[k];
    }
  }

  lemma {:induction false} TrafficFits(start: Table, source: string, id: seq<byte>, pieces: seq<seq<byte>>, arrivals: seq<Arrival>, k: nat)
    requires IsTraffic(start, source, id, pieces, arrivals) && k < |arrivals|
    ensures Fits(source, id, pieces, arrivals[k])
  {
    assert TrafficTurn(source, id, pieces, TableBefore(start, arrivals, k), arrivals[k]);
  }

  /**
   * Reassembly end to end: whatever else arrives, the last of a packet's pieces
   * delivers exactly the packet, and no piece before it delivers or drops anything.
   */
  lemma {:induction false} PacketDelivers(start: Table, source: string, id: seq<byte>, pieces: seq<seq<byte>>,
                                          before: seq<Arrival>, a: Arrival, last: nat)
    requires |source| == 32 && |id| == 8 && 1 <= |pieces| <= 128 && |Flatten(pieces)| <= 1350
    requires IsTraffic(start, source, id, pieces, before + [a])
    requires a.source == source && IsPiece(id, pieces, a.plain, last)
    requires forall i: nat :: i < |pieces| ==> (Came(source, id, pieces, before, i) <==> i != last)
    ensures a.outcome == Delivered(Flatten(pieces))
    ensures forall k :: 0 <= k < |before| && Mine(source, id, before[k]) ==> before[k].outcome.Kept?
  {
    var key, n, arrivals := StateKey(source, id), |before|, before + [a];
    assert arrivals[..n] == before && arrivals[n] == a && forall k :: 0 <= k < n ==> arrivals[k] == before[k];
    TrafficIsRun(start, source, id, pieces, arrivals);
    forall k | 0 <= k < |arrivals|
      ensures Fits(source, id, pieces, arrivals[k]) && (Own(key, arrivals[k]) <==> Mine(source, id, arrivals[k]))
    {
      TrafficFits(start, source, id, pieces, arrivals, k);
      OwnFragmentOf(source, id, pieces, arrivals[k]);
    }
    OwnFragmentOf(source, id, pieces, arrivals[n]);
    hide IsTraffic, IsRun, StateKey, Own, OwnFragments, Flatten, U16, Fits, IsPiece, Came, Arrives, Mine, PiecesOf, TrafficTurn;
    TrafficFragments(source, id, pieces, arrivals);
    TrafficFragments(source, id, pieces, before);
    forall i: nat | i < |pieces|
      ensures Arrives(OwnFragments(key, arrivals), i)
    {
      MoreCame(source, id, pieces, arrivals, i);
    }
    DeliversAmongTraffic(start, key, pieces, arrivals);
  }
}
