/** Duplicate suppression on the fast path: sharded rings of recent packet IDs. */
module Dedup {
  import opened Wrappers
  import opened Bytes

  const FAST_SEEN_SHARDS := 64
  /** 10000 tracked IDs split over the shards. */
  const FAST_SEEN_RING_CAP := 156

  /** A 12-byte packet ID. */
  type PacketId = seq<byte>

  // ----- Shards -----

  /** Mixes in one byte: exclusive or, then multiplication by the FNV prime modulo 2^32. */
  function FnvByte(h: bv32, b: byte): bv32 {
    (h ^ (b as bv32)) * 16777619
  }

  /** FNV-1a in 32-bit arithmetic. */
  function Fnv(id: PacketId, h: bv32): bv32 {
    if id == [] then h else Fnv(id[1..], FnvByte(h, id[0]))
  }

  function FastShard(id: PacketId): (k: nat)
    ensures k < FAST_SEEN_SHARDS
  {
    (Fnv(id, 2166136261) as int) % FAST_SEEN_SHARDS
  }

  /** The state of one shard: the membership set, the ring and its oldest slot once full. */
  datatype Shard = Shard(seen: set<PacketId>, ring: seq<PacketId>, next: nat)

  /** The set is the contents of the ring, and the ring holds no ID twice. */
  ghost predicate ShardValid(s: Shard) {
    && |s.ring| <= FAST_SEEN_RING_CAP
    && s.next < FAST_SEEN_RING_CAP
    && (|s.ring| < FAST_SEEN_RING_CAP ==> s.next == 0)
    && (forall x :: x in s.seen <==> x in s.ring)
    && NoRepeat(s.ring)
  }

  /** The remembered IDs, oldest first. */
  function Window(s: Shard): seq<PacketId> {
    if s.next <= |s.ring| then s.ring[s.next..] + s.ring[..s.next] else s.ring
  }

  function LastN<T>(s: seq<T>, n: nat): seq<T> {
    if |s| <= n then s else s[|s| - n..]
  }

  /** What `rememberFast` makes of its shard when the ID is new. */
  function Remembered(s: Shard, id: PacketId): Shard {
    if |s.ring| < FAST_SEEN_RING_CAP then Shard(s.seen + {id}, s.ring + [id], s.next)
    else if s.next < |s.ring| then
      var next := if s.next + 1 == FAST_SEEN_RING_CAP then 0 else s.next + 1;
      Shard(s.seen - {s.ring[s.next]} + {id}, s.ring[s.next := id], next)
    else s
  }

  /** Remembering a new ID slides the window by one and keeps the shard valid. */
  lemma {:induction false} RememberSlides(s: Shard, id: PacketId)
    requires ShardValid(s) && id !in s.seen
    ensures ShardValid(Remembered(s, id))
    ensures Window(Remembered(s, id)) == LastN(Window(s) + [id], FAST_SEEN_RING_CAP)
  {
    var t := Remembered(s, id);
    if |s.ring| < FAST_SEEN_RING_CAP {
      assert Window(s) == s.ring && Window(t) == s.ring + [id];
    } else {
      EvictKeeps(s, id);
      assert Window(s) + [id] == [s.ring[s.next]] + s.ring[s.next + 1..] + s.ring[..s.next] + [id];
      assert LastN(Window(s) + [id], FAST_SEEN_RING_CAP) == (Window(s) + [id])[1..];
      assert t.ring[s.next + 1..] == s.ring[s.next + 1..] && t.ring[..s.next] == s.ring[..s.next];
      assert t.ring[..s.next + 1] == s.ring[..s.next] + [id];
    }
  }

  lemma {:induction false} EvictKeeps(s: Shard, id: PacketId)
    requires ShardValid(s) && id !in s.seen && |s.ring| == FAST_SEEN_RING_CAP
    ensures ShardValid(Remembered(s, id))
  {
    var t := Remembered(s, id);
    forall x
      ensures x in t.seen <==> x in t.ring
    {
      if x in t.ring {
        var i :| 0 <= i < |t.ring| && t.ring[i] == x;
        assert i == s.next || s.ring[i] == x;
      }
      if x in t.seen && x != id {
        var i :| 0 <= i < |s.ring| && s.ring[i] == x;
        assert t.ring[i] == x;
      }
      assert t.ring[s.next] == id;
    }
  }

  // ----- The specification: a bounded FIFO per shard over the accepted IDs -----

  /** The accepted IDs of one shard, in order. */
  function Of(history: seq<PacketId>, k: nat): seq<PacketId> {
    if history == [] then []
    else
      var last := history[|history| - 1];
      Of(history[..|history| - 1], k) + (if FastShard(last) == k then [last] else [])
  }

  /** An ID is accepted when it is not among its shard's last accepted ones. */
  predicate Accepts(history: seq<PacketId>, id: PacketId) {
    id !in LastN(Of(history, FastShard(id)), FAST_SEEN_RING_CAP)
  }

  function Next(history: seq<PacketId>, id: PacketId): seq<PacketId> {
    if Accepts(history, id) then history + [id] else history
  }

  lemma {:induction false} OfAppend(history: seq<PacketId>, id: PacketId, k: nat)
    ensures Of(history + [id], k) == Of(history, k) + (if FastShard(id) == k then [id] else [])
  {
    hide FastShard, Fnv;
    assert (history + [id])[..|history|] == history;
  }

  lemma {:induction false} OfConcat(a: seq<PacketId>, b: seq<PacketId>, k: nat)
    ensures Of(a + b, k) == Of(a, k) + Of(b, k)
  {
    hide FastShard, Fnv;
    if b == [] {
      assert a + b == a;
    } else {
      var init, last := b[..|b| - 1], b[|b| - 1];
      assert a + b == a + init + [last] && b == init + [last];
      OfConcat(a, init, k);
      OfAppend(a + init, last, k);
      OfAppend(init, last, k);
    }
  }

  lemma {:induction false} LastNAppend<T>(s: seq<T>, x: T, n: nat)
    requires n >= 1
    ensures LastN(LastN(s, n) + [x], n) == LastN(s + [x], n)
  {
    if |s| > n {
      assert LastN(s, n) + [x] == (s + [x])[|s| - n..];
      assert LastN(LastN(s, n) + [x], n) == (LastN(s, n) + [x])[1..];
    }
  }

  /** Calls on different shards do not affect each other, in either order. */
  lemma {:induction false} ShardsCommute(history: seq<PacketId>, x: PacketId, y: PacketId, k: nat)
    requires FastShard(x) != FastShard(y)
    ensures Accepts(Next(history, x), y) == Accepts(history, y)
    ensures Accepts(Next(history, y), x) == Accepts(history, x)
    ensures Of(Next(Next(history, x), y), k) == Of(Next(Next(history, y), x), k)
  {
    hide Of, Fnv, FastShard, LastN, Next;
    NextOf(history, x, FastShard(y));
    NextOf(history, y, FastShard(x));
    NextOf(history, x, k);
    NextOf(history, y, k);
    NextOf(Next(history, x), y, k);
    NextOf(Next(history, y), x, k);
  }

  lemma {:induction false} NextOf(history: seq<PacketId>, id: PacketId, k: nat)
    ensures Of(Next(history, id), k) ==
      if FastShard(id) == k && Accepts(history, id) then Of(history, k) + [id] else Of(history, k)
  {
    OfAppend(history, id, k);
  }

  /** An accepted ID is refused exactly for as long as its shard has accepted fewer than 156 IDs after it. */
  lemma {:induction false} DuplicateRefused(history: seq<PacketId>, id: PacketId, later: seq<PacketId>)
    requires id !in later
    ensures !Accepts(history + [id] + later, id) <==> |Of(later, FastShard(id))| < 156
  {
    NotInOf(later, FastShard(id), id);
    hide FastShard, Fnv;
    var k := FastShard(id);
    OfConcat(history + [id], later, k);
    OfAppend(history, id, k);
    var all := Of(history, k) + [id] + Of(later, k);
    assert Of(history + [id] + later, k) == all;
    assert all[|Of(history, k)|] == id;
    if |all| > FAST_SEEN_RING_CAP && |Of(later, k)| < FAST_SEEN_RING_CAP {
      var at := |Of(history, k)| - (|all| - FAST_SEEN_RING_CAP);
      assert LastN(all, FAST_SEEN_RING_CAP)[at] == id;
    }
    if |Of(later, k)| >= FAST_SEEN_RING_CAP {
      assert LastN(all, FAST_SEEN_RING_CAP) == Of(later, k)[|Of(later, k)| - FAST_SEEN_RING_CAP..];
    }
  }

  lemma {:induction false} NotInOf(ids: seq<PacketId>, k: nat, id: PacketId)
    requires id !in ids
    ensures id !in Of(ids, k)
  {
    hide FastShard, Fnv;
    if ids != [] {
      NotInOf(ids[..|ids| - 1], k, id);
    }
  }

  lemma FnvByteIs(h: bv32, b: byte)
    ensures FnvByte(h, b) == (h ^ (b as bv32)) * 0x0100_0193
  {
  }

  /** The shard hash is 32-bit FNV-1a over the bytes in order, starting from its offset basis. */
  lemma {:induction false} FnvAppend(id: seq<byte>, b: byte, h: bv32)
    ensures Fnv(id + [b], h) == FnvByte(Fnv(id, h), b)
    ensures FastShard(id) == (Fnv(id, 0x811C_9DC5) as int) % 64
  {
    hide FnvByte;
    if id == [] {
      var one: seq<byte> := [b];
      assert id + [b] == one && one[1..] == [];
    } else {
      assert (id + [b])[1..] == id[1..] + [b];
      FnvAppend(id[1..], b, FnvByte(h, id[0]));
    }
  }

  // ----- The implementation -----

  /** The shard remembers exactly the last accepted IDs of its own. */
  ghost predicate Follows(s: Shard, history: seq<PacketId>, k: nat) {
    ShardValid(s) && Window(s) == LastN(Of(history, k), FAST_SEEN_RING_CAP)
  }

  lemma {:induction false} FollowsNext(s: Shard, history: seq<PacketId>, id: PacketId, k: nat)
    requires Follows(s, history, k) && (FastShard(id) == k ==> id !in s.seen)
    ensures Follows(if FastShard(id) == k then Remembered(s, id) else s, history + [id], k)
  {
    hide ShardValid, Window, Of, LastN, Remembered, FastShard;
    OfAppend(history, id, k);
    if FastShard(id) == k {
      RememberSlides(s, id);
      LastNAppend(Of(history, k), id, FAST_SEEN_RING_CAP);
    } else {
      assert Of(history, k) + [] == Of(history, k);
    }
  }

  class FastSeen {
    const shards: array<Shard>
    ghost var history: seq<PacketId>

    /** Each shard remembers exactly the last accepted IDs of its own. */
    ghost predicate Valid()
      reads this, shards
    {
      && shards.Length == FAST_SEEN_SHARDS
      && forall k :: 0 <= k < FAST_SEEN_SHARDS ==>
           Follows(shards[k], history, k)
    }

    constructor ()
      ensures Valid() && fresh(shards) && history == []
    {
      shards := new Shard[FAST_SEEN_SHARDS](_ => Shard({}, [], 0));
      history := [];
    }

    /** `rememberFast`: true exactly for an ID that its shard has not accepted recently. */
    method RememberFast(id: PacketId) returns (isNew: bool)
      requires Valid()
      modifies shards, this`history
      ensures Valid()
      ensures isNew == Accepts(old(history), id)
      ensures history == Next(old(history), id)
      ensures forall k :: 0 <= k < FAST_SEEN_SHARDS && k != FastShard(id) ==> shards[k] == old(shards[k])
    {
      hide Fnv, Of, Window, ShardValid, Remembered;
      var si := FastShard(id);
      var shard := shards[si];
      WindowMembers(shard, id);
      if id in shard.seen {
        return false;
      }
      forall k | 0 <= k < FAST_SEEN_SHARDS
        ensures Follows(if k == si then Remembered(shard, id) else shards[k], history + [id], k)
      {
        FollowsNext(shards[k], history, id, k);
      }
      shards[si] := Remembered(shard, id);
      history := history + [id];
      return true;
    }
  }

  lemma {:induction false} WindowMembers(s: Shard, id: PacketId)
    requires ShardValid(s)
    ensures id in Window(s) <==> id in s.seen
  {
    assert s.ring == s.ring[..s.next] + s.ring[s.next..] || s.next > |s.ring|;
  }
}
