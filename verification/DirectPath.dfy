/** Which addresses a node may take for a direct path to a peer. */
module DirectPath {
  import opened Wrappers
  import opened Limits
  import opened Overlay
  import opened Bytes
  import Hex
  import C = Compact

  /** A UDP address. */
  type Address = int

  /** The JSON envelope as an abstract codec that preserves packets, with a hop limit of 1 to 8. */
  datatype Json = Json(encode: C.Packet -> seq<byte>, decode: seq<byte> -> C.Result<C.Packet>)

  ghost predicate Faithful(j: Json) {
    && (forall p: C.Packet :: 1 <= p.ttl <= DEFAULT_TTL ==> j.decode(j.encode(p)) == C.Ok(p))
    && (forall p: C.Packet :: !C.IsCompact(j.encode(p)))
    && (forall data :: j.decode(data).Ok? ==> 1 <= j.decode(data).value.ttl <= DEFAULT_TTL)
  }

  /** The codecs of one network. */
  datatype Codec = Codec(json: Json, mac: C.Mac)

  ghost predicate CodecValid(c: Codec) {
    Faithful(c.json) && C.IsMac(c.mac)
  }

  // ----- What one node does -----

  function DecTTL(p: C.Packet): C.Result<C.Packet> {
    if p.ttl <= 1 then C.Err else C.Ok(p.(ttl := p.ttl - 1))
  }

  predicate ConfirmsDirectPath(kind: string, ttl: int) {
    ttl == DEFAULT_TTL && (kind == "HELLO" || kind == "HELLO_ACK" || kind == "PING" || kind == "PONG")
  }

  function DecodeDatagram(c: Codec, data: seq<byte>): C.Result<C.Packet>
    requires C.IsMac(c.mac)
  {
    if C.IsCompact(data) then C.Decode(c.mac, data) else c.json.decode(data)
  }

  /** `encodePacketForPeer`: compact only for a fresh handshake without a session. */
  function EncodeForPeer(c: Codec, p: C.Packet, speaksCompact: bool): seq<byte>
    requires C.IsMac(c.mac)
  {
    if p.ttl == DEFAULT_TTL && (p.kind == "HELLO" || p.kind == "HELLO_ACK")
      && C.PayloadString(p, "session_id") == "" && speaksCompact && C.Encode(c.mac, p).Ok?
    then C.Encode(c.mac, p).value
    else c.json.encode(p)
  }

  /** The outcome of one datagram: an address to record for a peer, and a datagram to pass on. */
  datatype Reaction = Reaction(touch: Option<(NodeId, Address)>, forward: Option<seq<byte>>)

  function React(c: Codec, self: NodeId, superpeer: bool, data: seq<byte>, from: Address, speaksCompact: bool): Reaction
    requires C.IsMac(c.mac)
  {
    var r := DecodeDatagram(c, data);
    if r.Err? then Reaction(None, None)
    else
      var p := r.value;
      Reaction(
        if p.destination == self && ConfirmsDirectPath(p.kind, p.ttl) then Some((p.source, from)) else None,
        if p.destination != self && superpeer && DecTTL(p).Ok?
        then Some(EncodeForPeer(c, DecTTL(p).value, speaksCompact)) else None)
  }

  // ----- What a reaction means -----

  /** A node passes a datagram on exactly as a superpeer that is not its destination, with hops left, and takes one hop off. */
  lemma {:induction false} ForwardIff(c: Codec, self: NodeId, superpeer: bool, data: seq<byte>, from: Address, speaks: bool)
    requires CodecValid(c)
    ensures var (r, forward) := (DecodeDatagram(c, data), React(c, self, superpeer, data, from, speaks).forward);
      && (forward.Some? <==> r.Ok? && superpeer && r.value.destination != self && r.value.ttl > 1)
      && (forward.Some? ==> !C.IsCompact(forward.value))
      && (forward.Some? ==> DecodeDatagram(c, forward.value) == C.Ok(r.value.(ttl := r.value.ttl - 1)))
  {
    if DecodeDatagram(c, data).Ok? {
      DecodedTtl(c, data);
    }
  }

  lemma {:induction false} DecodedTtl(c: Codec, data: seq<byte>)
    requires CodecValid(c) && DecodeDatagram(c, data).Ok?
    ensures 1 <= DecodeDatagram(c, data).value.ttl <= 8
  {
  }

  /** It takes the sending address for the named source exactly from a handshake or probe for itself that no relay has touched. */
  lemma {:induction false} TouchIff(c: Codec, self: NodeId, superpeer: bool, data: seq<byte>, from: Address, speaks: bool)
    requires C.IsMac(c.mac)
    ensures var (r, touch) := (DecodeDatagram(c, data), React(c, self, superpeer, data, from, speaks).touch);
      && (touch.Some? <==>
            r.Ok? && r.value.destination == self && r.value.ttl == 8 && r.value.kind in {"HELLO", "HELLO_ACK", "PING", "PONG"})
      && (touch.Some? ==> touch.value == (r.value.source, from))
  {
  }

  /** Compact goes out only to a peer that speaks it: a handshake without a session that this node sends first. */
  lemma {:induction false} CompactOnlyWhen(c: Codec, p: C.Packet, speaks: bool)
    requires CodecValid(c)
    ensures C.IsCompact(EncodeForPeer(c, p, speaks)) <==>
      speaks && p.ttl == 8 && p.kind in {"HELLO", "HELLO_ACK"} && C.PayloadString(p, "session_id") == "" && C.Encode(c.mac, p).Ok?
  {
    if C.Encode(c.mac, p).Ok? {
      C.DecodeEncode(c.mac, p);
    }
  }

  /** A node on the way: its ID and role, whether its next peer speaks the compact format, and its replay cache's answer. */
  datatype Hop = Hop(id: NodeId, superpeer: bool, speaks: bool, isNew: bool)

  /** The datagram after these nodes have passed it on, one after the other. */
  function Passed(c: Codec, data: seq<byte>, hops: seq<Hop>): Option<seq<byte>>
    requires C.IsMac(c.mac)
    decreases |hops|
  {
    if hops == [] then Some(data)
    else if !hops[0].isNew then None
    else
      var forward := React(c, hops[0].id, hops[0].superpeer, data, 0, hops[0].speaks).forward;
      if forward.None? then None else Passed(c, forward.value, hops[1..])
  }

  predicate Willing(h: Hop, destination: NodeId) {
    h.superpeer && h.isNew && h.id != destination
  }

  /** A packet passes a chain of nodes exactly when each is willing and they are fewer than its hop limit. */
  lemma {:induction false} ChainPasses(c: Codec, data: seq<byte>, hops: seq<Hop>)
    requires CodecValid(c) && DecodeDatagram(c, data).Ok?
    ensures var p := DecodeDatagram(c, data).value;
      && (Passed(c, data, hops).Some? <==>
            |hops| < p.ttl && forall i :: 0 <= i < |hops| ==> Willing(hops[i], p.destination))
      && (Passed(c, data, hops).Some? ==>
            DecodeDatagram(c, Passed(c, data, hops).value) == C.Ok(p.(ttl := p.ttl - |hops|)))
    decreases |hops|
  {
    hide React, DecodeDatagram;
    var p := DecodeDatagram(c, data).value;
    DecodedTtl(c, data);
    if hops != [] {
      var h, rest := hops[0], hops[1..];
      ForwardIff(c, h.id, h.superpeer, data, 0, h.speaks);
      var forward := React(c, h.id, h.superpeer, data, 0, h.speaks).forward;
      assert forall i :: 1 <= i < |hops| ==> hops[i] == rest[i - 1];
      if forward.Some? {
        ChainPasses(c, forward.value, rest);
      }
    }
  }

  class MeshNode {
    const id: NodeId
    const superpeer: bool
    /** The last address each neighbour was heard from. */
    var last: map<NodeId, Address>
    /** Datagrams handed to the socket. */
    var outbox: seq<seq<byte>>

    constructor (id: NodeId, superpeer: bool)
      ensures this.id == id && this.superpeer == superpeer && last == map[] && outbox == []
    {
      this.id, this.superpeer := id, superpeer;
      last, outbox := map[], [];
    }

    /**
     * `handleDatagram` up to the relay decision. `isNew` is the answer of the replay
     * cache, `hold` whether a fresh LAN address takes precedence in `touch`.
     */
    method HandleDatagram(c: Codec, data: seq<byte>, from: Address, isNew: bool, hold: bool, speaksCompact: bool)
      requires C.IsMac(c.mac)
      modifies this
      ensures !isNew ==> last == old(last) && outbox == old(outbox)
      ensures isNew ==>
        var r := React(c, id, superpeer, data, from, speaksCompact);
        && last == (if r.touch.Some? && r.touch.value.0 in old(last) && !hold
                    then old(last)[r.touch.value.0 := from] else old(last))
        && outbox == (if r.forward.Some? then old(outbox) + [r.forward.value] else old(outbox))
    {
      var r;
      if C.IsCompact(data) {
        r := C.Decode(c.mac, data);
      } else {
        r := c.json.decode(data);
      }
      if r.Err? || !isNew {
        return;
      }
      var p := r.value;
      if p.destination == id && ConfirmsDirectPath(p.kind, p.ttl) {
        if p.source in last && !hold {
          last := last[p.source := from];
        }
      }
      if p.destination != id {
        if superpeer {
          var q := DecTTL(p);
          if q.Ok? {
            outbox := outbox + [EncodeForPeer(c, q.value, speaksCompact)];
          }
        }
      }
    }
  }

  // ----- The network -----

  /** A datagram in flight: its bytes and source address; the sending node and hop count are known to the observer only. */
  datatype Datagram = Datagram(data: seq<byte>, from: Address, sender: NodeId, hops: nat)

  /** Everything that was ever sent, what sources emitted from where, and what was recorded. */
  datatype Net = Net(flight: set<Datagram>, emitted: set<(NodeId, Address)>, recorded: set<(NodeId, NodeId, Address)>)

  ghost predicate LowerIds(p: C.Packet) {
    Hex.LowerHex(p.source) && Hex.LowerHex(p.destination) && Hex.LowerHex(p.id)
  }

  /** A node emits a packet of its own, in either format, from some address of its own. */
  ghost predicate Originate(c: Codec, n: Net, p: C.Packet, from: Address, data: seq<byte>, n': Net)
    requires CodecValid(c)
  {
    && p.ttl == DEFAULT_TTL && LowerIds(p)
    && (data == c.json.encode(p) || C.Encode(c.mac, p) == C.Ok(data))
    && n' == Net(n.flight + {Datagram(data, from, p.source, 0)}, n.emitted + {(p.source, from)}, n.recorded)
  }

  /** A node handles a datagram, which stays available for delivery again. */
  ghost predicate Handle(c: Codec, n: Net, self: NodeId, superpeer: bool, d: Datagram, speaks: bool, from: Address, n': Net)
    requires CodecValid(c)
  {
    var r := React(c, self, superpeer, d.data, d.from, speaks);
    && d in n.flight
    && n' == Net(
         if r.forward.Some? then n.flight + {Datagram(r.forward.value, from, self, d.hops + 1)} else n.flight,
         n.emitted,
         if r.touch.Some? then n.recorded + {(self, r.touch.value.0, r.touch.value.1)} else n.recorded)
  }

  datatype Step =
    | Emission(p: C.Packet, from: Address, data: seq<byte>)
    | Handling(self: NodeId, superpeer: bool, d: Datagram, speaks: bool, from: Address)

  ghost predicate Next(c: Codec, n: Net, s: Step, n': Net)
    requires CodecValid(c)
  {
    match s
    case Emission(p, from, data) => Originate(c, n, p, from, data, n')
    case Handling(self, superpeer, d, speaks, from) => Handle(c, n, self, superpeer, d, speaks, from, n')
  }

  // ----- Safety -----

  /** A datagram's hop limit tells how often it was relayed, and an unrelayed one comes from its source. */
  ghost predicate Honest(c: Codec, n: Net, d: Datagram)
    requires CodecValid(c)
  {
    var r := DecodeDatagram(c, d.data);
    r.Ok? ==>
      && r.value.ttl + d.hops == DEFAULT_TTL
      && r.value.ttl >= 1
      && (d.hops == 0 ==> d.sender == r.value.source && (r.value.source, d.from) in n.emitted)
  }

  ghost predicate Safe(c: Codec, n: Net)
    requires CodecValid(c)
  {
    && (forall d :: d in n.flight ==> Honest(c, n, d))
    && (forall e :: e in n.recorded ==> (e.1, e.2) in n.emitted)
  }

  lemma {:induction false} OriginatedIsHonest(c: Codec, n: Net, p: C.Packet, from: Address, data: seq<byte>, n': Net)
    requires CodecValid(c) && Originate(c, n, p, from, data, n')
    ensures Honest(c, n', Datagram(data, from, p.source, 0))
  {
    if data != c.json.encode(p) {
      C.DecodeEncode(c.mac, p);
    }
  }

  /** A relayed packet always travels as JSON, with one hop less. */
  lemma {:induction false} RelayedIsHonest(c: Codec, n: Net, self: NodeId, superpeer: bool, d: Datagram, speaks: bool,
                                           from: Address, n': Net)
    requires CodecValid(c) && Honest(c, n, d)
    requires var r := React(c, self, superpeer, d.data, d.from, speaks); r.forward.Some?
    ensures Honest(c, n', Datagram(React(c, self, superpeer, d.data, d.from, speaks).forward.value, from, self, d.hops + 1))
  {
  }

  lemma {:induction false} NextKeepsSafe(c: Codec, n: Net, s: Step, n': Net)
    requires CodecValid(c) && Safe(c, n) && Next(c, n, s, n')
    ensures Safe(c, n')
  {
    hide DecodeDatagram;
    match s {
      case Emission(p, from, data) =>
        OriginatedIsHonest(c, n, p, from, data, n');
        forall d | d in n'.flight
          ensures Honest(c, n', d)
        {
          if d in n.flight {
            assert Honest(c, n, d);
          }
        }
      case Handling(self, superpeer, d, speaks, from) =>
        var r := React(c, self, superpeer, d.data, d.from, speaks);
        assert Honest(c, n, d);
        if r.forward.Some? {
          RelayedIsHonest(c, n, self, superpeer, d, speaks, from, n');
        }
        forall x | x in n'.flight
          ensures Honest(c, n', x)
        {
          if x in n.flight {
            assert Honest(c, n, x);
          }
        }
    }
  }

  ghost predicate IsRun(c: Codec, steps: seq<Step>, nets: seq<Net>)
    requires CodecValid(c)
  {
    && |nets| == |steps| + 1 && nets[0] == Net({}, {}, {})
    && forall i :: 0 <= i < |steps| ==> Next(c, nets[i], steps[i], nets[i + 1])
  }

  lemma {:induction false} RunIsSafe(c: Codec, steps: seq<Step>, nets: seq<Net>, i: nat)
    requires CodecValid(c) && IsRun(c, steps, nets) && i < |nets|
    ensures Safe(c, nets[i])
  {
    if i > 0 {
      RunIsSafe(c, steps, nets, i - 1);
      assert Next(c, nets[i - 1], steps[i - 1], nets[i - 1 + 1]);
      NextKeepsSafe(c, nets[i - 1], steps[i - 1], nets[i]);
    }
  }

  /**
   * Direct-path safety over every run, with any routes and any mix of formats:
   * a datagram that decodes with a full hop limit was emitted by the node it
   * names as its source, every address recorded for a peer is one that peer
   * itself emitted from, and no packet is relayed more than seven times.
   */
  lemma {:induction false} DirectPathSafety(c: Codec, steps: seq<Step>, nets: seq<Net>, i: nat)
    requires CodecValid(c) && IsRun(c, steps, nets) && i < |nets|
    ensures forall d :: d in nets[i].flight && DecodeDatagram(c, d.data).Ok? ==>
      && (DecodeDatagram(c, d.data).value.ttl == DEFAULT_TTL ==>
            d.sender == DecodeDatagram(c, d.data).value.source && (d.sender, d.from) in nets[i].emitted)
      && d.hops <= 7
    ensures forall self, peer, a :: (self, peer, a) in nets[i].recorded ==> (peer, a) in nets[i].emitted
  {
    hide DecodeDatagram;
    RunIsSafe(c, steps, nets, i);
    forall d | d in nets[i].flight && DecodeDatagram(c, d.data).Ok?
      ensures DecodeDatagram(c, d.data).value.ttl == DEFAULT_TTL ==>
        d.sender == DecodeDatagram(c, d.data).value.source && (d.sender, d.from) in nets[i].emitted
      ensures d.hops <= 7
    {
      assert Honest(c, nets[i], d);
    }
  }
}
