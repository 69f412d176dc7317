/** The compact binary form of keepalive and handshake packets. */
module Compact {
  import opened Wrappers
  import opened Limits
  import opened Bytes
  import Hex

  const COMPACT_MAGIC: byte := 0xC1
  const COMPACT_HMAC_SIZE := 16
  const COMPACT_PING_SIZE := 70
  const COMPACT_PONG_SIZE := 82

  type Int64 = x: int | -0x8000_0000_0000_0000 <= x < 0x8000_0000_0000_0000

  /** A control packet; only string-valued payload entries matter here. */
  datatype Packet = Packet(kind: string, source: string, destination: string,
                           payload: map<string, string>, id: string, ttl: int, timestamp: Int64)

  datatype Result<+T> = Ok(value: T) | Err

  function PayloadString(p: Packet, key: string): string {
    if key in p.payload then p.payload[key] else ""
  }

  // ----- 64-bit timestamps -----

  function Pow256(n: nat): (p: nat)
    ensures p >= 1
  {
    if n == 0 then 1 else 256 * Pow256(n - 1)
  }

  /** `n` bytes, most significant first. */
  function BigEndian(v: nat, n: nat): (b: seq<byte>)
    ensures |b| == n
  {
    if n == 0 then [] else BigEndian(v / 256, n - 1) + [v % 256]
  }

  function Number(b: seq<byte>): nat {
    if b == [] then 0 else Number(b[..|b| - 1]) * 256 + b[|b| - 1]
  }

  lemma {:induction false} NumberOfBytes(v: nat, n: nat)
    requires v < Pow256(n)
    ensures Number(BigEndian(v, n)) == v
  {
    if n > 0 {
      NumberOfBytes(v / 256, n - 1);
      assert BigEndian(v, n)[..n - 1] == BigEndian(v / 256, n - 1);
    }
  }

  lemma {:induction false} BytesOfNumber(b: seq<byte>)
    ensures Number(b) < Pow256(|b|) && BigEndian(Number(b), |b|) == b
  {
    if b != [] {
      BytesOfNumber(b[..|b| - 1]);
      assert b == b[..|b| - 1] + [b[|b| - 1]];
    }
  }

  lemma Pow256Of8()
    ensures Pow256(8) == 0x1_0000_0000_0000_0000
  {
    assert Pow256(2) == 65536;
    assert Pow256(4) == 0x1_0000_0000;
    assert Pow256(6) == 0x1_0000_0000_0000;
  }

  /** `uint64(ts)` and back. */
  function ToUnsigned(ts: Int64): (v: nat)
    ensures v < 0x1_0000_0000_0000_0000
  {
    if ts < 0 then ts + 0x1_0000_0000_0000_0000 else ts
  }

  function ToSigned(v: nat): (ts: Int64)
    requires v < 0x1_0000_0000_0000_0000
    ensures ToUnsigned(ts) == v
  {
    if v >= 0x8000_0000_0000_0000 then v - 0x1_0000_0000_0000_0000 else v
  }

  function TimeBytes(ts: Int64): (b: seq<byte>)
    ensures |b| == 8
  {
    BigEndian(ToUnsigned(ts), 8)
  }

  function TimeOf(b: seq<byte>): Int64
    requires |b| == 8
  {
    BytesOfNumber(b);
    Pow256Of8();
    ToSigned(Number(b))
  }

  lemma {:induction false} TimeRoundTrip(ts: Int64, b: seq<byte>)
    requires |b| == 8
    ensures TimeOf(TimeBytes(ts)) == ts
    ensures TimeBytes(TimeOf(b)) == b
  {
    Pow256Of8();
    NumberOfBytes(ToUnsigned(ts), 8);
    BytesOfNumber(b);
  }

  // ----- Types -----

  function TypeByte(kind: string): Result<byte> {
    if kind == "PING" then Ok(1)
    else if kind == "PONG" then Ok(2)
    else if kind == "HELLO" then Ok(3)
    else if kind == "HELLO_ACK" then Ok(4)
    else Err
  }

  function Kind(t: byte): Result<string> {
    if t == 1 then Ok("PING")
    else if t == 2 then Ok("PONG")
    else if t == 3 then Ok("HELLO")
    else if t == 4 then Ok("HELLO_ACK")
    else Err
  }

  lemma TypesMatch(kind: string, t: byte)
    ensures TypeByte(kind) == Ok(t) <==> Kind(t) == Ok(kind)
  {
    assert "PING"[1] == 'I' && "PONG"[1] == 'O';
    assert |"PING"| == 4 && |"HELLO"| == 5 && |"HELLO_ACK"| == 9;
  }

  // ----- Layout -----

  /** Decodes a hex identifier of a fixed number of bytes. */
  function RawId(s: string, n: nat): (r: Result<seq<byte>>)
    ensures r.Ok? ==> |r.value| == n
  {
    var b := Hex.Decode(s);
    if b.Some? && |b.value| == n then Ok(b.value) else Err
  }

  /** The fields of a compact frame, without the tag. */
  datatype Fields = Fields(typ: byte, src: seq<byte>, dst: seq<byte>, id: seq<byte>, time: seq<byte>, ping: seq<byte>)

  predicate FieldsValid(f: Fields) {
    && |f.src| == 16 && |f.dst| == 16 && |f.id| == 12 && |f.time| == 8
    && 1 <= f.typ <= 4 && |f.ping| == (if f.typ == 2 then 12 else 0)
  }

  function Layout(f: Fields): seq<byte> {
    [COMPACT_MAGIC, f.typ] + f.src + f.dst + f.id + f.time + f.ping
  }

  function Parse(body: seq<byte>): (f: Fields)
    requires |body| >= 54
  {
    Fields(body[1], body[2..18], body[18..34], body[34..46], body[46..54], body[54..])
  }

  lemma {:induction false} ParseLayout(f: Fields)
    requires FieldsValid(f)
    ensures |Layout(f)| == 54 + |f.ping| && Layout(f)[0] == COMPACT_MAGIC && Parse(Layout(f)) == f
  {
    var b := Layout(f);
    assert b[2..18] == f.src;
    assert b[18..34] == f.dst;
    assert b[34..46] == f.id;
    assert b[46..54] == f.time;
    assert b[54..] == f.ping;
  }

  lemma {:induction false} LayoutParse(body: seq<byte>)
    requires |body| >= 54 && body[0] == COMPACT_MAGIC
    ensures Layout(Parse(body)) == body
  {
    assert body == [body[0], body[1]] + body[2..18] + body[18..34] + body[34..46] + body[46..54] + body[54..];
  }

  /** The fields of an encodable packet. */
  function ToFields(p: Packet): (r: Result<Fields>)
    ensures r.Ok? ==> FieldsValid(r.value)
  {
    var typ, src, dst, id := TypeByte(p.kind), RawId(p.source, 16), RawId(p.destination, 16), RawId(p.id, 12);
    if typ.Err? || src.Err? || dst.Err? || id.Err? then Err
    else if typ.value == 2 then
      var ping := RawId(PayloadString(p, "ping_id"), 12);
      if PayloadString(p, "ping_id") == "" || ping.Err? then Err
      else Ok(Fields(typ.value, src.value, dst.value, id.value, TimeBytes(p.timestamp), ping.value))
    else if typ.value >= 3 && PayloadString(p, "session_id") != "" then Err
    else Ok(Fields(typ.value, src.value, dst.value, id.value, TimeBytes(p.timestamp), []))
  }

  function FromFields(f: Fields): Packet
    requires FieldsValid(f)
  {
    Packet(Kind(f.typ).value, Hex.Encode(f.src), Hex.Encode(f.dst),
           if f.typ == 2 then map["ping_id" := Hex.Encode(f.ping)] else map[],
           Hex.Encode(f.id), DEFAULT_TTL, TimeOf(f.time))
  }

  lemma {:induction false} RawIdOfEncoded(b: seq<byte>)
    ensures RawId(Hex.Encode(b), |b|) == Ok(b)
  {
    Hex.DecodeEncode(b);
  }

  /** A parsed packet encodes to the same fields. */
  lemma {:induction false} FieldsRoundTrip(f: Fields)
    requires FieldsValid(f)
    ensures ToFields(FromFields(f)) == Ok(f)
  {
    RawIdOfEncoded(f.src);
    RawIdOfEncoded(f.dst);
    RawIdOfEncoded(f.id);
    RawIdOfEncoded(f.ping);
    TimeRoundTrip(0, f.time);
    TypesMatch(Kind(f.typ).value, f.typ);
  }

  // ----- Frames -----

  /** A keyed hash, as far as framing needs one: 32 bytes for every input. */
  type Mac = seq<byte> -> seq<byte>

  ghost predicate IsMac(mac: Mac) {
    forall b :: |mac(b)| == 32
  }

  function Framed(mac: Mac, body: seq<byte>): seq<byte>
    requires IsMac(mac)
  {
    body + mac(body)[..COMPACT_HMAC_SIZE]
  }

  function Encode(mac: Mac, p: Packet): Result<seq<byte>>
    requires IsMac(mac)
  {
    var f := ToFields(p);
    if f.Ok? then Ok(Framed(mac, Layout(f.value))) else Err
  }

  predicate IsCompact(data: seq<byte>) {
    |data| >= 2 && data[0] == COMPACT_MAGIC
  }

  function WantedSize(t: byte): nat {
    if t == 2 then COMPACT_PONG_SIZE else COMPACT_PING_SIZE
  }

  function Decode(mac: Mac, data: seq<byte>): Result<Packet>
    requires IsMac(mac)
  {
    if !IsCompact(data) || Kind(data[1]).Err? || |data| != WantedSize(data[1]) then Err
    else
      var body := data[..|data| - COMPACT_HMAC_SIZE];
      if mac(body)[..COMPACT_HMAC_SIZE] != data[|data| - COMPACT_HMAC_SIZE..] then Err
      else Ok(FromFields(Parse(body)))
  }

  /** Two texts of the same identifier; the decoded one is the lower-case one. */
  ghost predicate SameId(given: string, decoded: string) {
    && Hex.Decode(given) == Hex.Decode(decoded)
    && (decoded == given <==> Hex.LowerHex(given))
  }

  lemma {:induction false} IdComesBack(s: string, n: nat)
    requires RawId(s, n).Ok?
    ensures SameId(s, Hex.Encode(RawId(s, n).value))
  {
    Hex.DecodeEncode(RawId(s, n).value);
    Hex.EncodeDecode(s);
  }

  /** Decoding an encoded packet gives it back, with identifiers in lower case and a full hop limit. */
  lemma {:induction false} DecodeEncode(mac: Mac, p: Packet)
    requires IsMac(mac) && Encode(mac, p).Ok?
    ensures var data := Encode(mac, p).value;
      && |data| == (if p.kind == "PONG" then COMPACT_PONG_SIZE else COMPACT_PING_SIZE)
      && Decode(mac, data).Ok?
      && var q := Decode(mac, data).value;
        && q.kind == p.kind && q.timestamp == p.timestamp && q.ttl == DEFAULT_TTL
        && SameId(p.source, q.source) && SameId(p.destination, q.destination) && SameId(p.id, q.id)
        && q.payload.Keys == (if p.kind == "PONG" then {"ping_id"} else {})
        && (p.kind == "PONG" ==> SameId(PayloadString(p, "ping_id"), PayloadString(q, "ping_id")))
  {
    var f := ToFields(p).value;
    var body := Layout(f);
    ParseLayout(f);
    var data := Framed(mac, body);
    assert data[..|data| - COMPACT_HMAC_SIZE] == body;
    assert data[|data| - COMPACT_HMAC_SIZE..] == mac(body)[..COMPACT_HMAC_SIZE];
    assert data[0] == body[0] && data[1] == body[1] == f.typ;
    TypesMatch(p.kind, f.typ);
    FieldsComeBack(p);
  }

  lemma {:induction false} FieldsComeBack(p: Packet)
    requires ToFields(p).Ok?
    ensures var f := ToFields(p).value;
      var q := FromFields(f);
      && TypeByte(p.kind) == Ok(f.typ) && (p.kind == "PONG" <==> f.typ == 2)
      && q.kind == p.kind && q.timestamp == p.timestamp && q.ttl == DEFAULT_TTL
      && SameId(p.source, q.source) && SameId(p.destination, q.destination) && SameId(p.id, q.id)
      && q.payload.Keys == (if f.typ == 2 then {"ping_id"} else {})
      && (f.typ == 2 ==> SameId(PayloadString(p, "ping_id"), PayloadString(q, "ping_id")))
  {
    hide SameId;
    var f := ToFields(p).value;
    TypesMatch(p.kind, f.typ);
    IdComesBack(p.source, 16);
    IdComesBack(p.destination, 16);
    IdComesBack(p.id, 12);
    TimeRoundTrip(p.timestamp, f.time);
    if f.typ == 2 {
      IdComesBack(PayloadString(p, "ping_id"), 12);
    }
  }

  /** `n` bytes in hex, in either case. */
  predicate IsHex(s: string, n: nat) {
    |s| == 2 * n && forall i :: 0 <= i < |s| ==> Hex.IsDigit(s[i])
  }

  lemma {:induction false} RawIdIff(s: string, n: nat)
    ensures RawId(s, n).Ok? <==> IsHex(s, n)
  {
    Hex.DecodesIff(s);
  }

  /** Which packets have a compact form: the four types, proper identifiers, and nothing the form cannot carry. */
  lemma {:induction false} EncodableIff(mac: Mac, p: Packet)
    requires IsMac(mac)
    ensures Encode(mac, p).Ok? <==>
      && p.kind in {"PING", "PONG", "HELLO", "HELLO_ACK"}
      && IsHex(p.source, 16) && IsHex(p.destination, 16) && IsHex(p.id, 12)
      && (p.kind == "PONG" ==> "ping_id" in p.payload && IsHex(p.payload["ping_id"], 12))
      && (p.kind in {"HELLO", "HELLO_ACK"} ==> "session_id" !in p.payload || p.payload["session_id"] == "")
  {
    RawIdIff(p.source, 16);
    RawIdIff(p.destination, 16);
    RawIdIff(p.id, 12);
    RawIdIff(PayloadString(p, "ping_id"), 12);
    hide RawId, IsHex, Layout, Framed;
    assert !IsHex("", 12) by { NoEmptyId(); }
  }

  lemma NoEmptyId()
    ensures !IsHex("", 12)
  {
  }

  /** The form on the wire, byte by byte. */
  lemma {:induction false} WireLayout(mac: Mac, p: Packet)
    requires IsMac(mac) && Encode(mac, p).Ok?
    ensures var data := Encode(mac, p).value;
      && |data| == (if p.kind == "PONG" then 82 else 70)
      && data[0] == 0xC1
      && data[1] == (if p.kind == "PING" then 1 else if p.kind == "PONG" then 2 else if p.kind == "HELLO" then 3 else 4)
      && Hex.Decode(p.source) == Some(data[2..18]) && Hex.Decode(p.destination) == Some(data[18..34])
      && Hex.Decode(p.id) == Some(data[34..46])
      && Number(data[46..54]) == (if p.timestamp >= 0 then p.timestamp else p.timestamp + 0x1_0000_0000_0000_0000)
      && (p.kind == "PONG" ==> Hex.Decode(PayloadString(p, "ping_id")) == Some(data[54..66]))
      && data[|data| - 16..] == mac(data[..|data| - 16])[..16]
  {
    var f := ToFields(p).value;
    var body := Layout(f);
    ParseLayout(f);
    var data := Framed(mac, body);
    assert data[..|data| - 16] == body;
    assert data[2..18] == body[2..18] && data[18..34] == body[18..34] && data[34..46] == body[34..46];
    assert data[46..54] == body[46..54];
    assert f.typ == 2 ==> data[54..66] == body[54..66] == f.ping;
    TimeIsNumber(p.timestamp);
  }

  lemma {:induction false} TimeIsNumber(ts: Int64)
    ensures Number(TimeBytes(ts)) == if ts >= 0 then ts else ts + 0x1_0000_0000_0000_0000
  {
    Pow256Of8();
    NumberOfBytes(ToUnsigned(ts), 8);
  }

  /** Every accepted byte string is the encoding of the packet it decodes to. */
  lemma {:induction false} EncodeDecode(mac: Mac, data: seq<byte>)
    requires IsMac(mac) && Decode(mac, data).Ok?
    ensures Encode(mac, Decode(mac, data).value) == Ok(data)
  {
    var body := data[..|data| - COMPACT_HMAC_SIZE];
    LayoutParse(body);
    assert FieldsValid(Parse(body));
    FieldsRoundTrip(Parse(body));
    assert data == body + data[|data| - COMPACT_HMAC_SIZE..];
  }

  /** Exactly the encodings are accepted. */
  lemma {:induction false} AcceptedIff(mac: Mac, data: seq<byte>)
    requires IsMac(mac)
    ensures Decode(mac, data).Ok? <==> exists p :: Encode(mac, p) == Ok(data)
  {
    if Decode(mac, data).Ok? {
      EncodeDecode(mac, data);
    }
    if p :| Encode(mac, p) == Ok(data) {
      DecodeEncode(mac, p);
    }
  }

  // ----- The codec with a reused hash state -----

  /** A pooled hash state: whatever it was fed before, a reset returns it to its keyed start. */
  class PooledMac {
    const mac: Mac
    var fed: seq<byte>

    constructor (mac: Mac)
      ensures this.mac == mac && fed == []
    {
      this.mac := mac;
      fed := [];
    }

    method Reset()
      modifies this
      ensures fed == []
    {
      fed := [];
    }

    method Write(b: seq<byte>)
      modifies this
      ensures fed == old(fed) + b
    {
      fed := fed + b;
    }

    method Sum(prefix: seq<byte>) returns (out: seq<byte>)
      ensures out == prefix + mac(fed)
    {
      out := prefix + mac(fed);
    }
  }

  /** `CompactBody`: appends the fields one after the other. */
  method CompactBody(p: Packet) returns (body: Result<seq<byte>>)
    ensures body == if ToFields(p).Ok? then Ok(Layout(ToFields(p).value)) else Err
  {
    var typ := TypeByte(p.kind);
    var src, dst, id := RawId(p.source, 16), RawId(p.destination, 16), RawId(p.id, 12);
    if typ.Err? || src.Err? || dst.Err? || id.Err? {
      return Err;
    }
    var b: seq<byte> := [COMPACT_MAGIC, typ.value];
    b := b + src.value;
    b := b + dst.value;
    b := b + id.value;
    b := b + TimeBytes(p.timestamp);
    if typ.value == 2 {
      var pingId := PayloadString(p, "ping_id");
      if |pingId| == 0 {
        return Err;
      }
      var raw := RawId(pingId, 12);
      if raw.Err? {
        return Err;
      }
      b := b + raw.value;
    }
    if (typ.value == 3 || typ.value == 4) && PayloadString(p, "session_id") != "" {
      return Err;
    }
    assert b + [] == b;
    return Ok(b);
  }

  method CompactFramed(holder: PooledMac, body: seq<byte>) returns (frame: seq<byte>)
    requires IsMac(holder.mac)
    modifies holder
    ensures frame == Framed(holder.mac, body)
  {
    holder.Reset();
    holder.Write(body);
    assert holder.fed == body;
    var sum := holder.Sum(body);
    frame := sum[..|body| + COMPACT_HMAC_SIZE];
  }

  /** The result does not depend on what the holder was used for before. */
  method EncodeCompactReuse(p: Packet, holder: PooledMac) returns (frame: Result<seq<byte>>)
    requires IsMac(holder.mac)
    modifies holder
    ensures frame == Encode(holder.mac, p)
  {
    var body := CompactBody(p);
    if body.Err? {
      return Err;
    }
    var framed := CompactFramed(holder, body.value);
    return Ok(framed);
  }

  method DecodeCompactReuse(data: seq<byte>, holder: PooledMac) returns (p: Result<Packet>)
    requires IsMac(holder.mac)
    modifies holder
    ensures p == Decode(holder.mac, data)
  {
    if !IsCompact(data) || Kind(data[1]).Err? || |data| != WantedSize(data[1]) {
      return Err;
    }
    holder.Reset();
    holder.Write(data[..|data| - COMPACT_HMAC_SIZE]);
    assert holder.fed == data[..|data| - COMPACT_HMAC_SIZE];
    var sum := holder.Sum([]);
    assert sum == holder.mac(holder.fed);
    if sum[..COMPACT_HMAC_SIZE] != data[|data| - COMPACT_HMAC_SIZE..] {
      return Err;
    }
    return Ok(FromFields(Parse(data[..|data| - COMPACT_HMAC_SIZE])));
  }
}
