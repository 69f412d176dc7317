/** Fast frames: sealed IP packets with a mutable hop limit, from sender over relays to delivery. */
module FastFrame {
  import opened Wrappers
  import opened Limits
  import opened Bytes
  import Hex
  import R = Reassembly

  const FAST_HEADER := 49
  const NONCE_SIZE := 12
  const AEAD_TAG := 16
  const MAX_FAST_FRAME := FAST_HEADER + NONCE_SIZE + 12 + MAX_TUN + AEAD_TAG

  /** "MIP1" */
  const FAST_MAGIC: seq<byte> := [77, 73, 80, 49]

  /** Authenticated encryption under the key that two peers share. */
  datatype Aead = Aead(seal: (seq<byte>, seq<byte>, seq<byte>) -> seq<byte>,
                       open: (seq<byte>, seq<byte>, seq<byte>) -> Option<seq<byte>>)

  /** Opening what was sealed with the same nonce and associated data returns the plaintext. */
  ghost predicate Lawful(a: Aead) {
    forall nonce, plain, aad ::
      |a.seal(nonce, plain, aad)| == |plain| + AEAD_TAG && a.open(nonce, a.seal(nonce, plain, aad), aad) == Some(plain)
  }

  function Ascii(s: string): (b: seq<byte>)
    ensures |b| == |s|
  {
    seq(|s|, i requires 0 <= i < |s| => s[i] as int % 256)
  }

  /** The associated data of a frame: both IDs in hex and the packet ID. The hop limit is not part of it. */
  function FastAad(source: string, destination: string, packetId: seq<byte>): seq<byte> {
    Ascii(source + ":" + destination) + packetId
  }

  /** A frame's unsealed fields. */
  datatype Envelope = Envelope(src: seq<byte>, dst: seq<byte>, packetId: seq<byte>, nonce: seq<byte>)

  predicate EnvelopeValid(e: Envelope) {
    |e.src| == 16 && |e.dst| == 16 && |e.packetId| == 12 && |e.nonce| == NONCE_SIZE
  }

  function Frame(e: Envelope, ttl: byte, sealed: seq<byte>): (f: seq<byte>)
    ensures |f| == 5 + |e.src| + |e.dst| + |e.packetId| + |e.nonce| + |sealed|
  {
    FAST_MAGIC + [ttl] + e.src + e.dst + e.packetId + e.nonce + sealed
  }

  /** Fragment ID and index zero, count one, then the packet. */
  function Plain(p: seq<byte>): (plain: seq<byte>)
    ensures |plain| == 12 + |p|
  {
    [0, 0, 0, 0, 0, 0, 0, 0, 0, 0, 0, 1] + p
  }

  /** The frame that `sendIP` puts on the wire for the node with hex ID `self`. */
  function Sent(a: Aead, e: Envelope, self: string, peer: string, p: seq<byte>): seq<byte> {
    Frame(e, DEFAULT_TTL, a.seal(e.nonce, Plain(p), FastAad(self, peer, e.packetId)))
  }

  // ----- Building a frame in the send buffer -----

  method Copy(buffer: array<byte>, at: nat, s: seq<byte>)
    requires at + |s| <= buffer.Length
    modifies buffer
    ensures buffer[at..at + |s|] == s
    ensures buffer[..at] == old(buffer[..at])
    ensures buffer[at + |s|..] == old(buffer[at + |s|..])
  {
    forall i | 0 <= i < |s| {
      buffer[at + i] := s[i];
    }
  }

  /** A single-fragment header and the packet. */
  method CopyPlain(buffer: array<byte>, at: nat, p: seq<byte>)
    requires at + 12 + |p| <= buffer.Length
    modifies buffer
    ensures buffer[at..at + 12 + |p|] == Plain(p)
    ensures buffer[..at] == old(buffer[..at])
  {
    Copy(buffer, at, [0, 0, 0, 0, 0, 0, 0, 0, 0, 0, 0, 1]);
    ghost var head := buffer[at..at + 12];
    Copy(buffer, at + 12, p);
    assert buffer[at..at + 12] == head by {
      assert buffer[..at + 12][at..] == head;
    }
    assert buffer[at..at + 12 + |p|] == buffer[at..at + 12] + buffer[at + 12..at + 12 + |p|];
  }

  /** `sendIP`: builds the plaintext in place, then seals it over itself. */
  method SendIP(buffer: array<byte>, a: Aead, e: Envelope, self: string, peer: string, p: seq<byte>)
    returns (length: Option<nat>)
    requires buffer.Length == MAX_FAST_FRAME && EnvelopeValid(e) && Lawful(a)
    modifies buffer
    ensures length.None? <==> |p| > MAX_TUN
    ensures length.Some? ==> length.value <= MAX_FAST_FRAME && buffer[..length.value] == Sent(a, e, self, peer, p)
  {
    if |p| > MAX_TUN {
      return None;
    }
    var plainAt := FAST_HEADER + NONCE_SIZE;
    var head: seq<byte> := FAST_MAGIC + [DEFAULT_TTL] + e.src + e.dst + e.packetId;
    Copy(buffer, 0, head);
    Copy(buffer, FAST_HEADER, e.nonce);
    assert buffer[..plainAt] == head + e.nonce;
    CopyPlain(buffer, plainAt, p);
    var sealed := a.seal(e.nonce, buffer[plainAt..plainAt + 12 + |p|], FastAad(self, peer, e.packetId));
    Copy(buffer, plainAt, sealed);
    assert buffer[..plainAt + |sealed|] == buffer[..plainAt] + sealed;
    length := Some(plainAt + |sealed|);
  }

  // ----- Relaying -----

  predicate SizeOk(frame: seq<byte>) {
    FAST_HEADER + 28 <= |frame| <= MAX_FAST_FRAME
  }

  /** A relay: its own ID, its role, and whether the packet ID is new to it. */
  datatype Relay = Relay(id: seq<byte>, superpeer: bool, isNew: bool)

  predicate Willing(r: Relay, dst: seq<byte>) {
    r.superpeer && r.isNew && r.id != dst
  }

  /** What `fast` forwards on a node that is not the destination. */
  function Forwarded(frame: seq<byte>, r: Relay): Option<seq<byte>> {
    if !SizeOk(frame) || frame[4] < 1 || frame[4] > DEFAULT_TTL then None
    else if frame[21..37] != r.id && r.superpeer && frame[4] > 1 && r.isNew then Some(frame[4 := frame[4] - 1])
    else None
  }

  /** The frame after a chain of relays, unless one of them dropped it. */
  function Chain(frame: seq<byte>, relays: seq<Relay>): Option<seq<byte>>
    decreases |relays|
  {
    if relays == [] then Some(frame)
    else
      var next := Forwarded(frame, relays[0]);
      if next.None? then None else Chain(next.value, relays[1..])
  }

  /** The relay branch of `fast` decrements the hop limit in the receive buffer itself. */
  method RelayInPlace(data: array<byte>, r: Relay) returns (forward: bool)
    modifies data
    ensures forward <==> Forwarded(old(data[..]), r).Some?
    ensures forward ==> data[..] == Forwarded(old(data[..]), r).value
    ensures !forward ==> data[..] == old(data[..])
  {
    if data.Length < FAST_HEADER + 28 || data.Length > MAX_FAST_FRAME {
      return false;
    }
    var ttl := data[4];
    if ttl < 1 || ttl > DEFAULT_TTL {
      return false;
    }
    if data[21..37] == r.id {
      return false;
    }
    if r.superpeer && ttl > 1 && r.isNew {
      data[4] := data[4] - 1;
      return true;
    }
    return false;
  }

  // ----- Receiving -----

  /** What `fast` hands to delivery at the destination `self` for a packet ID it has not seen. */
  function Received(a: Aead, self: seq<byte>, frame: seq<byte>): Option<seq<byte>>
    requires |self| == 16
  {
    if !SizeOk(frame) || frame[4] < 1 || frame[4] > DEFAULT_TTL || frame[21..37] != self then None
    else
      var aad := FastAad(Hex.Encode(frame[5..21]), Hex.Encode(self), frame[37..49]);
      var plain := a.open(frame[49..61], frame[61..], aad);
      if plain.None? then None else Delivered(plain.value)
  }

  /** The single-fragment path of `acceptIPFragment` and the length guard of `enqueueDeliver`. */
  function Delivered(plain: seq<byte>): Option<seq<byte>> {
    if |plain| >= 12 && U16(plain, 8) == 0 && U16(plain, 10) == 1 && 20 <= |plain| - 12 <= MAX_TUN
    then Some(plain[12..]) else None
  }

  /** The associated data binds both IDs and the packet ID: frames that differ in one of them do not share it. */
  lemma {:induction false} AadBinds(s: string, d: string, id: seq<byte>, s': string, d': string, id': seq<byte>)
    requires |s| == |s'| == |d| == |d'| == 32
    requires Hex.LowerHex(s) && Hex.LowerHex(s') && Hex.LowerHex(d) && Hex.LowerHex(d')
    requires FastAad(s, d, id) == FastAad(s', d', id')
    ensures s == s' && d == d' && id == id'
  {
    var x, y := FastAad(s, d, id), FastAad(s', d', id');
    assert x[65..] == id && y[65..] == id';
    forall i | 0 <= i < 32
      ensures s[i] == s'[i] && d[i] == d'[i]
    {
      assert x[i] == s[i] as int && y[i] == s'[i] as int;
      assert x[33 + i] == d[i] as int && y[33 + i] == d'[i] as int;
    }
  }

  /** The reassembly table delivers such a plaintext at once, as a packet of one piece. */
  lemma {:induction false} PlainIsOnePiece(p: seq<byte>, now: int)
    requires |p| <= MAX_TUN
    ensures Plain(p) == R.Piece([0, 0, 0, 0, 0, 0, 0, 0], 0, 1, p) && R.WellFormed(Plain(p))
    ensures R.Absorb(R.Fresh(1), 1, 0, p, now) == R.Delivered(p)
    ensures Delivered(Plain(p)) == if |p| >= 20 then Some(p) else None
  {
    OnlyOnePieceDelivers([0, 0, 0, 0, 0, 0, 0, 0], 0, 1, p);
    R.AcceptedIff([0, 0, 0, 0, 0, 0, 0, 0], 0, 1, p);
    var chunks: R.Chunks := map[0 := p];
    assert R.Fresh(1).chunks[0 := p] == chunks;
    assert R.Concat(chunks, 0) == [];
    assert R.Concat(chunks, 1) == p;
    assert Plain(p)[12..] == p;
  }

  /** Of all pieces, only that of a packet of one piece is delivered here, when its packet has a length IP allows. */
  lemma {:induction false} OnlyOnePieceDelivers(id: seq<byte>, i: nat, n: nat, p: seq<byte>)
    requires |id| == 8 && i < 65536 && n < 65536
    ensures Delivered(R.Piece(id, i, n, p)) == if i == 0 && n == 1 && 20 <= |p| <= 1350 then Some(p) else None
  {
    R.PieceParses(id, i, n, p);
  }

  // ----- End to end -----

  lemma {:induction false} FrameFields(e: Envelope, ttl: byte, sealed: seq<byte>)
    requires EnvelopeValid(e)
    ensures var f := Frame(e, ttl, sealed);
      && f[4] == ttl && f[5..21] == e.src && f[21..37] == e.dst && f[37..49] == e.packetId
      && f[49..61] == e.nonce && f[61..] == sealed
  {
    var f := Frame(e, ttl, sealed);
    assert f[5..21] == e.src;
    assert f[21..37] == e.dst;
    assert f[37..49] == e.packetId;
    assert f[49..61] == e.nonce;
    assert f[61..] == sealed;
  }

  /** What is too short to be sealed, longer than any frame, or over its hop limit is never passed on. */
  lemma {:induction false} NeverForwarded(frame: seq<byte>, r: Relay)
    requires |frame| < 77 || |frame| > 1439 || frame[4] <= 1 || frame[4] > 8
    ensures Forwarded(frame, r).None?
  {
  }

  lemma {:induction false} FrameTtl(e: Envelope, ttl: byte, next: byte, sealed: seq<byte>)
    requires EnvelopeValid(e)
    ensures Frame(e, ttl, sealed)[4 := next] == Frame(e, next, sealed)
  {
  }

  /** A frame passes a chain of relays exactly when each is willing and they are fewer than its hop limit. */
  lemma {:induction false} ChainPasses(e: Envelope, ttl: byte, sealed: seq<byte>, relays: seq<Relay>)
    requires EnvelopeValid(e) && 1 <= ttl <= 8 && 77 <= |Frame(e, ttl, sealed)| <= 1439
    ensures Chain(Frame(e, ttl, sealed), relays).Some? <==>
      |relays| < ttl && forall i :: 0 <= i < |relays| ==> Willing(relays[i], e.dst)
    ensures |relays| < ttl && Chain(Frame(e, ttl, sealed), relays).Some? ==>
      Chain(Frame(e, ttl, sealed), relays).value == Frame(e, ttl - |relays|, sealed)
  {
    if relays != [] {
      FrameFields(e, ttl, sealed);
      var next := Forwarded(Frame(e, ttl, sealed), relays[0]);
      if next.Some? {
        FrameTtl(e, ttl, ttl - 1, sealed);
        ChainPasses(e, ttl - 1, sealed, relays[1..]);
        assert relays == [relays[0]] + relays[1..];
      }
    }
  }

  /** With any hop limit left, the destination opens the frame and delivers the original packet. */
  lemma {:induction false} ReceivedIsSent(a: Aead, e: Envelope, ttl: byte, p: seq<byte>)
    requires Lawful(a) && EnvelopeValid(e) && 1 <= ttl <= DEFAULT_TTL && |p| <= MAX_TUN
    ensures var sealed := a.seal(e.nonce, Plain(p), FastAad(Hex.Encode(e.src), Hex.Encode(e.dst), e.packetId));
      Received(a, e.dst, Frame(e, ttl, sealed)) == if |p| >= 20 then Some(p) else None
  {
    var sealed := a.seal(e.nonce, Plain(p), FastAad(Hex.Encode(e.src), Hex.Encode(e.dst), e.packetId));
    FrameFields(e, ttl, sealed);
    assert Plain(p)[12..] == p;
    assert U16(Plain(p), 8) == 0 && U16(Plain(p), 10) == 1;
  }

  /**
   * End to end: an IP packet of 20 to 1350 bytes, sent under lower-case hex IDs,
   * fits the frame limit, survives any chain of up to seven willing relays, and
   * is delivered byte for byte at the destination.
   */
  lemma {:induction false} EndToEnd(a: Aead, e: Envelope, p: seq<byte>, relays: seq<Relay>)
    requires Lawful(a) && EnvelopeValid(e) && 20 <= |p| <= MAX_TUN
    requires |relays| <= 7 && forall i :: 0 <= i < |relays| ==> Willing(relays[i], e.dst)
    ensures var sent := Sent(a, e, Hex.Encode(e.src), Hex.Encode(e.dst), p);
      && |sent| == |p| + 89 <= 1439
      && Chain(sent, relays).Some?
      && Received(a, e.dst, Chain(sent, relays).value) == Some(p)
  {
    var sealed := a.seal(e.nonce, Plain(p), FastAad(Hex.Encode(e.src), Hex.Encode(e.dst), e.packetId));
    ChainPasses(e, DEFAULT_TTL, sealed, relays);
    ReceivedIsSent(a, e, DEFAULT_TTL - |relays|, p);
  }

  /** No chain of eight or more relays is ever passed, even around a routing loop. */
  lemma {:induction false} HopLimit(a: Aead, e: Envelope, p: seq<byte>, relays: seq<Relay>)
    requires Lawful(a) && EnvelopeValid(e) && |p| <= MAX_TUN && |relays| >= 8
    ensures Chain(Sent(a, e, Hex.Encode(e.src), Hex.Encode(e.dst), p), relays).None?
  {
    var sealed := a.seal(e.nonce, Plain(p), FastAad(Hex.Encode(e.src), Hex.Encode(e.dst), e.packetId));
    ChainPasses(e, DEFAULT_TTL, sealed, relays);
  }
}
