/** In-place prefix translation of IPv4 packets at a gateway. */
module PacketTranslation {
  import opened Wrappers
  import opened Overlay
  import opened Prefixes
  import opened SiteRoutes
  import opened Translation
  import opened Bytes
  import opened Checksum

  const TCP: byte := 6
  const UDP: byte := 17

  // ----- The packet after translation, as a function -----

  /** Repairs the checksum field at `at` for an address that changes from `was` to `now`. */
  function Adjust(p: seq<byte>, at: nat, was: Addr, now: Addr): (q: seq<byte>)
    requires at + 2 <= |p|
    ensures |q| == |p|
    ensures forall i :: 0 <= i < |p| && i != at && i != at + 1 ==> q[i] == p[i]
  {
    SetU16(p, at, Adjusted(U16(p, at), Hi(was), Lo(was), Hi(now), Lo(now)))
  }

  function HeaderLength(p: seq<byte>): nat
    requires |p| >= 20
  {
    p[0] % 16 * 4
  }

  /** The fragment offset, in units of eight bytes. */
  function FragmentOffset(p: seq<byte>): nat
    requires |p| >= 20
  {
    U16(p, 6) % 8192
  }

  /** Where the transport checksum sits that has to follow an address change, if there is one. */
  function TransportField(p: seq<byte>): (at: Option<nat>)
    requires |p| >= 20
    ensures at.Some? ==> at.value + 2 <= |p|
  {
    var ihl := HeaderLength(p);
    if ihl > |p| || FragmentOffset(p) != 0 then None
    else if p[9] == TCP && ihl + 18 <= |p| then Some(ihl + 16)
    else if p[9] == UDP && ihl + 8 <= |p| && U16(p, ihl + 6) != 0 then Some(ihl + 6)
    else None
  }

  function AddressOffset(source: bool): nat {
    if source then 12 else 16
  }

  /** The packet with the new address and the repaired header checksum. */
  function HeaderReplaced(p: seq<byte>, at: nat, now: Addr): (q: seq<byte>)
    requires |p| >= 20 && (at == 12 || at == 16)
    ensures |q| == |p|
    ensures forall i :: 0 <= i < |p| && !(10 <= i < 12) && !(at <= i < at + 4) ==> q[i] == p[i]
  {
    Adjust(SetU32(p, at, now), 10, U32(p, at), now)
  }

  /** The same with the transport checksum repaired as well. */
  function Replaced(p: seq<byte>, at: nat, now: Addr): (q: seq<byte>)
    requires |p| >= 20 && (at == 12 || at == 16)
    ensures |q| == |p|
  {
    var header := HeaderReplaced(p, at, now);
    var field := TransportField(header);
    if field.Some? then Adjust(header, field.value, U32(p, at), now) else header
  }

  /** The packet and verdict of `translateLocalPacket`. */
  function Translated(p: seq<byte>, source: bool, routes: seq<SubnetRoute>, self: NodeId): (seq<byte>, bool) {
    if |p| < 20 then (p, false)
    else
      var now := LocalAddress(routes, self, U32(p, AddressOffset(source)), source);
      if now.None? then (p, false) else (Replaced(p, AddressOffset(source), now.value), true)
  }

  // ----- The method -----

  method PutU16(packet: array<byte>, at: nat, v: nat)
    requires at + 2 <= packet.Length && v < 65536
    modifies packet
    ensures packet[..] == SetU16(old(packet[..]), at, v)
  {
    packet[at] := v / 256;
    packet[at + 1] := v % 256;
  }

  /** Folds the two address words into the complement of a checksum field. */
  method AdjustSum(field: nat, was: seq<nat>, now: seq<nat>) returns (r: nat)
    requires field < 65536 && |was| == |now| == 2
    requires was[0] < 65536 && was[1] < 65536 && now[0] < 65536 && now[1] < 65536
    ensures r == Adjusted(field, was[0], was[1], now[0], now[1])
  {
    var sum: nat := 0xffff - field;
    for i := 0 to 2
      invariant i == 0 ==> sum == 0xffff - field
      invariant i == 1 ==> sum == FoldOnce(0xffff - field + (0xffff - was[0]) + now[0])
      invariant i == 2 ==>
        sum == FoldOnce(FoldOnce(0xffff - field + (0xffff - was[0]) + now[0]) + (0xffff - was[1]) + now[1])
    {
      sum := sum + (0xffff - was[i]);
      sum := sum + now[i];
      sum := FoldOnce(sum);
    }
    sum := FoldOnce(sum);
    r := 0xffff - sum;
  }

  method AdjustAddressChecksum(packet: array<byte>, at: nat, was: Addr, now: Addr)
    requires at + 2 <= packet.Length
    modifies packet
    ensures packet[..] == Adjust(old(packet[..]), at, was, now)
  {
    var field := U16(packet[..], at);
    var r := AdjustSum(field, [Hi(was), Lo(was)], [Hi(now), Lo(now)]);
    PutU16(packet, at, r);
  }

  /** The first own route that covers the address. */
  method FindRoute(routes: seq<SubnetRoute>, self: NodeId, ip: Addr, source: bool) returns (now: Option<Addr>)
    ensures now == LocalAddress(routes, self, ip, source)
  {
    for i := 0 to |routes|
      invariant LocalAddress(routes, self, ip, source) == LocalAddress(routes[i..], self, ip, source)
    {
      if routes[i].owner != self {
        continue;
      }
      if Contains(From(routes[i], source), ip) {
        return Some(Shifted(ip, From(routes[i], source), To(routes[i], source)));
      }
    }
    return None;
  }

  /** `translateLocalPacket`: rewrites the packet in place. */
  method TranslateLocalPacket(packet: array<byte>, source: bool, routes: seq<SubnetRoute>, self: NodeId)
    returns (ok: bool)
    modifies packet
    ensures (packet[..], ok) == Translated(old(packet[..]), source, routes, self)
  {
    if packet.Length < 20 {
      return false;
    }
    var at := AddressOffset(source);
    ghost var p := packet[..];
    var was: Addr := U32(packet[..], at);
    var now := FindRoute(routes, self, was, source);
    if now.None? {
      return false;
    }
    PutU16(packet, at, Hi(now.value));
    PutU16(packet, at + 2, Lo(now.value));
    AdjustAddressChecksum(packet, 10, was, now.value);
    assert packet[..] == Adjust(SetU32(p, at, now.value), 10, was, now.value);
    var field := TransportField(packet[..]);
    if field.Some? {
      AdjustAddressChecksum(packet, field.value, was, now.value);
    }
    return true;
  }

  // ----- Checksums stay valid -----

  /** Changing one aligned word changes the sum by the difference. */
  lemma {:induction false} WordSumSet(s: seq<byte>, at: nat, v: nat)
    requires at % 2 == 0 && at + 2 <= |s| && v < 65536
    ensures WordSum(SetU16(s, at, v)) == WordSum(s) - U16(s, at) + v
  {
    var t := SetU16(s, at, v);
    if at == 0 {
      assert t[2..] == s[2..];
    } else {
      assert t[2..] == SetU16(s[2..], at - 2, v);
      WordSumSet(s[2..], at - 2, v);
    }
  }

  /** The same, seen in a slice that contains the word. */
  lemma {:induction false} SliceSumSet(p: seq<byte>, lo: nat, hi: nat, at: nat, v: nat)
    requires lo <= hi <= |p| && lo % 2 == 0 && at % 2 == 0 && at + 2 <= |p| && v < 65536
    requires at + 2 <= lo || hi <= at || (lo <= at && at + 2 <= hi)
    ensures WordSum(SetU16(p, at, v)[lo..hi]) ==
      if lo <= at && at + 2 <= hi then WordSum(p[lo..hi]) - U16(p, at) + v else WordSum(p[lo..hi])
  {
    hide WordSum;
    if lo <= at && at + 2 <= hi {
      assert SetU16(p, at, v)[lo..hi] == SetU16(p[lo..hi], at - lo, v);
      WordSumSet(p[lo..hi], at - lo, v);
    } else {
      assert SetU16(p, at, v)[lo..hi] == p[lo..hi];
    }
  }

  /** Adding an address change and its adjustment leaves a positive sum as valid as it was. */
  lemma {:induction false} ChangeCancels(rest: nat, field: nat, was: Addr, now: Addr)
    requires field < 65536 && rest > 0
    ensures var r := Adjusted(field, Hi(was), Lo(was), Hi(now), Lo(now));
      Verifies(rest + r + Hi(now) + Lo(now)) <==> Verifies(rest + field + Hi(was) + Lo(was))
  {
    hide Adjusted;
    var r := Adjusted(field, Hi(was), Lo(was), Hi(now), Lo(now));
    AdjustedKeepsSum(field, Hi(was), Lo(was), Hi(now), Lo(now));
    VerifiesMeans(rest + r + Hi(now) + Lo(now));
    VerifiesMeans(rest + field + Hi(was) + Lo(was));
    CongruentSums(rest, r + Hi(now) + Lo(now), field + Hi(was) + Lo(was));
  }

  lemma CongruentSums(rest: nat, x: nat, y: nat)
    requires x % 65535 == y % 65535
    ensures (rest + x) % 65535 == (rest + y) % 65535
  {
  }

  /** The header checksum region. */
  function HeaderSum(p: seq<byte>): nat
    requires WellFormed(p)
  {
    WordSum(p[0..p[0] % 16 * 4])
  }

  /** The transport checksum region: pseudo-header (addresses, protocol, length) and segment. */
  function TransportSum(p: seq<byte>, length: nat): nat
    requires WellFormed(p)
  {
    U16(p, 12) + U16(p, 14) + U16(p, 16) + U16(p, 18) + p[9] + length + WordSum(p[p[0] % 16 * 4..|p|])
  }

  /** A whole header of at least 20 bytes; its length is the low half of the first byte, in words. */
  predicate WellFormed(p: seq<byte>) {
    |p| >= 20 && 20 <= p[0] % 16 * 4 <= |p|
  }

  /** A first fragment with the checksum field of its TCP header in it. */
  predicate CarriesTcp(p: seq<byte>)
    requires WellFormed(p)
  {
    U16(p, 6) % 8192 == 0 && p[9] == 6 && p[0] % 16 * 4 + 18 <= |p|
  }

  /** A first fragment with a whole UDP header that holds a checksum. */
  predicate CarriesUdp(p: seq<byte>)
    requires WellFormed(p)
  {
    U16(p, 6) % 8192 == 0 && p[9] == 17 && p[0] % 16 * 4 + 8 <= |p| && U16(p, p[0] % 16 * 4 + 6) != 0
  }

  /** The field the code repairs is that of TCP or UDP, and there is none otherwise. */
  lemma {:induction false} FieldIs(p: seq<byte>)
    requires WellFormed(p)
    ensures HeaderLength(p) == p[0] % 16 * 4
    ensures TransportField(p) ==
      if CarriesTcp(p) then Some(p[0] % 16 * 4 + 16)
      else if CarriesUdp(p) then Some(p[0] % 16 * 4 + 6)
      else None
  {
  }

  lemma {:induction false} HeaderUntouchedParts(p: seq<byte>, at: nat, now: Addr)
    requires WellFormed(p) && (at == 12 || at == 16)
    ensures WellFormed(HeaderReplaced(p, at, now))
    ensures HeaderLength(HeaderReplaced(p, at, now)) == HeaderLength(p)
    ensures HeaderReplaced(p, at, now)[9] == p[9]
    ensures TransportField(HeaderReplaced(p, at, now)) == TransportField(p)
  {
    hide HeaderReplaced;
    var q := HeaderReplaced(p, at, now);
    assert q[0] == p[0] && q[6] == p[6] && q[7] == p[7] && q[9] == p[9];
    assert HeaderLength(q) == HeaderLength(p);
    if HeaderLength(p) + 8 <= |p| {
      assert q[HeaderLength(p) + 6] == p[HeaderLength(p) + 6];
      assert q[HeaderLength(p) + 7] == p[HeaderLength(p) + 7];
    }
  }

  /** How the words of a slice move when address and header checksum change. */
  lemma {:induction false} HeaderReplacedSum(p: seq<byte>, at: nat, now: Addr, ihl: nat)
    requires |p| >= 20 && (at == 12 || at == 16) && 20 <= ihl <= |p| && ihl % 4 == 0
    ensures var was: Addr := U32(p, at);
      var r := Adjusted(U16(p, 10), Hi(was), Lo(was), Hi(now), Lo(now));
      && WordSum(HeaderReplaced(p, at, now)[0..ihl]) ==
           WordSum(p[0..ihl]) - Hi(was) - Lo(was) + Hi(now) + Lo(now) - U16(p, 10) + r
      && WordSum(HeaderReplaced(p, at, now)[ihl..|p|]) == WordSum(p[ihl..|p|])
  {
    assert ihl % 2 == 0;
    hide *;
    var p1, p2, r := ThreeWords(p, at, now);
    SliceSumSet(p, 0, ihl, at, Hi(now));
    SliceSumSet(p1, 0, ihl, at + 2, Lo(now));
    SliceSumSet(p2, 0, ihl, 10, r);
    SliceSumSet(p, ihl, |p|, at, Hi(now));
    SliceSumSet(p1, ihl, |p|, at + 2, Lo(now));
    SliceSumSet(p2, ihl, |p|, 10, r);
  }

  /** The header is rewritten word by word: the two of the address, then the checksum. */
  lemma {:induction false} ThreeWords(p: seq<byte>, at: nat, now: Addr) returns (p1: seq<byte>, p2: seq<byte>, r: nat)
    requires |p| >= 20 && (at == 12 || at == 16)
    ensures var was: Addr := U32(p, at);
      && r == Adjusted(U16(p, 10), Hi(was), Lo(was), Hi(now), Lo(now))
      && Hi(was) == U16(p, at) && Lo(was) == U16(p, at + 2)
    ensures Hi(now) < 65536 && Lo(now) < 65536
    ensures p1 == SetU16(p, at, Hi(now)) && p2 == SetU16(p1, at + 2, Lo(now)) && HeaderReplaced(p, at, now) == SetU16(p2, 10, r)
    ensures U16(p1, at + 2) == U16(p, at + 2) && U16(p2, 10) == U16(p, 10)
  {
    hide Adjusted;
    var was: Addr := U32(p, at);
    r := Adjusted(U16(p, 10), Hi(was), Lo(was), Hi(now), Lo(now));
    p1 := SetU16(p, at, Hi(now));
    p2 := SetU16(p1, at + 2, Lo(now));
    assert p2 == SetU32(p, at, now) && U16(p2, 10) == U16(p, 10);
    Halves(p, at);
  }

  /** The words that do not change still make a header sum positive. */
  lemma {:induction false} RestOfHeader(p: seq<byte>, at: nat)
    requires WellFormed(p) && (at == 12 || at == 16)
    ensures HeaderSum(p) - U16(p, at) - U16(p, at + 2) - U16(p, 10) > 0
  {
    hide WordSum, SetU16;
    var ihl := HeaderLength(p);
    assert ihl % 4 == 0 && p[0] > 0;
    hide HeaderLength;
    var p1 := SetU16(p, at, 0);
    var p2 := SetU16(p1, at + 2, 0);
    var p3 := SetU16(p2, 10, 0);
    SliceSumSet(p, 0, ihl, at, 0);
    SliceSumSet(p1, 0, ihl, at + 2, 0);
    SliceSumSet(p2, 0, ihl, 10, 0);
    assert U16(p1, at + 2) == U16(p, at + 2) && U16(p2, 10) == U16(p, 10);
    SliceSumSet(p3, 0, ihl, 0, 0);
    assert U16(p3, 0) == U16(p, 0);
  }

  /** The transport checksum field lies behind the header. */
  lemma {:induction false} FieldBehindHeader(p: seq<byte>)
    requires WellFormed(p) && TransportField(p).Some?
    ensures var field := TransportField(p).value;
      20 <= HeaderLength(p) <= field && field % 2 == 0 && field + 2 <= |p| && p[9] > 0
  {
  }

  /** What translation leaves in place, and how it moves the header sum. */
  lemma {:induction false} ReplacedSums(p: seq<byte>, at: nat, now: Addr)
    requires WellFormed(p) && (at == 12 || at == 16)
    ensures var q, was := Replaced(p, at, now), U32(p, at);
      var r := Adjusted(U16(p, 10), Hi(was), Lo(was), Hi(now), Lo(now));
      && WellFormed(q) && HeaderLength(q) == HeaderLength(p)
      && HeaderSum(q) == HeaderSum(p) - Hi(was) - Lo(was) + Hi(now) + Lo(now) - U16(p, 10) + r
  {
    hide Adjusted, WordSum, Hi, Lo, TransportField;
    var header := HeaderReplaced(p, at, now);
    HeaderUntouchedParts(p, at, now);
    HeaderReplacedSum(p, at, now, HeaderLength(p));
    var field := TransportField(header);
    if field.Some? {
      FieldBehindHeader(header);
      FieldKeepsHeader(header, field.value, U32(p, at), now);
    }
  }

  lemma {:induction false} FieldKeepsHeader(p: seq<byte>, field: nat, was: Addr, now: Addr)
    requires WellFormed(p) && HeaderLength(p) <= field && field % 2 == 0 && field + 2 <= |p|
    ensures var q := Adjust(p, field, was, now);
      WellFormed(q) && HeaderLength(q) == HeaderLength(p) && HeaderSum(q) == HeaderSum(p)
  {
    var q := Adjust(p, field, was, now);
    assert q[0] == p[0];
    assert q[0..HeaderLength(p)] == p[0..HeaderLength(p)];
  }

  /** The header checksum verifies after translation exactly when it did before. */
  lemma {:induction false} HeaderChecksumKept(p: seq<byte>, at: nat, now: Addr)
    requires WellFormed(p) && (at == 12 || at == 16)
    ensures WellFormed(Replaced(p, at, now))
    ensures Verifies(HeaderSum(Replaced(p, at, now))) <==> Verifies(HeaderSum(p))
  {
    hide Adjusted, Replaced, HeaderSum, Verifies, Hi, Lo;
    var was: Addr := U32(p, at);
    ReplacedSums(p, at, now);
    RestOfHeader(p, at);
    Halves(p, at);
    ChangeCancels(HeaderSum(p) - U16(p, at) - U16(p, at + 2) - U16(p, 10), U16(p, 10), was, now);
  }

  /** The transport sum moves by the address change and the adjustment of its own field. */
  lemma {:induction false} TransportMoves(p: seq<byte>, at: nat, now: Addr, length: nat)
    requires WellFormed(p) && (at == 12 || at == 16) && TransportField(p).Some?
    ensures var was: Addr := U32(p, at);
      var f := U16(p, TransportField(p).value);
      var r := Adjusted(f, Hi(was), Lo(was), Hi(now), Lo(now));
      && WellFormed(Replaced(p, at, now))
      && TransportSum(Replaced(p, at, now), length) ==
           TransportSum(p, length) - Hi(was) - Lo(was) + Hi(now) + Lo(now) - f + r
  {
    hide Adjusted, WordSum;
    var was: Addr := U32(p, at);
    var header, ihl, field := HeaderReplaced(p, at, now), HeaderLength(p), TransportField(p).value;
    HeaderUntouchedParts(p, at, now);
    FieldBehindHeader(p);
    HeaderReplacedSum(p, at, now, ihl);
    assert U16(header, field) == U16(p, field);
    var r := Adjusted(U16(p, field), Hi(was), Lo(was), Hi(now), Lo(now));
    var q := SetU16(header, field, r);
    assert q == Replaced(p, at, now);
    SliceSumSet(header, ihl, |p|, field, r);
    AddressWords(p, at, now, q, header);
  }

  lemma {:induction false} AddressWords(p: seq<byte>, at: nat, now: Addr, q: seq<byte>, header: seq<byte>)
    requires |p| >= 20 && (at == 12 || at == 16) && header == HeaderReplaced(p, at, now)
    requires |q| == |p| && forall i :: 0 <= i < 20 ==> q[i] == header[i]
    ensures U16(q, 12) + U16(q, 14) + U16(q, 16) + U16(q, 18) ==
      U16(p, 12) + U16(p, 14) + U16(p, 16) + U16(p, 18)
        - Hi(U32(p, at)) - Lo(U32(p, at)) + Hi(now) + Lo(now)
  {
    hide Adjusted;
    Halves(p, at);
    Halves(SetU32(p, at, now), at);
    assert forall i :: at <= i < at + 4 ==> header[i] == SetU32(p, at, now)[i];
    assert U16(q, at) == Hi(now) && U16(q, at + 2) == Lo(now);
    assert U16(q, 28 - at) == U16(p, 28 - at) && U16(q, 30 - at) == U16(p, 30 - at);
  }

  lemma {:induction false} RestOfTransport(p: seq<byte>, at: nat, length: nat)
    requires WellFormed(p) && (at == 12 || at == 16) && TransportField(p).Some?
    ensures TransportSum(p, length) - U16(p, at) - U16(p, at + 2) - U16(p, TransportField(p).value) > 0
  {
    var field := TransportField(p).value;
    FieldBehindHeader(p);
    SliceSumSet(p, HeaderLength(p), |p|, field, 0);
  }

  /** A complete transport checksum verifies after translation exactly when it did before. */
  lemma {:induction false} TransportChecksumKept(p: seq<byte>, at: nat, now: Addr, length: nat)
    requires WellFormed(p) && (at == 12 || at == 16) && (CarriesTcp(p) || CarriesUdp(p))
    ensures WellFormed(Replaced(p, at, now))
    ensures Verifies(TransportSum(Replaced(p, at, now), length)) <==> Verifies(TransportSum(p, length))
  {
    FieldIs(p);
    hide *;
    RepairedKeepsSum(p, at, now, length);
  }

  lemma {:induction false} RepairedKeepsSum(p: seq<byte>, at: nat, now: Addr, length: nat)
    requires WellFormed(p) && (at == 12 || at == 16) && TransportField(p).Some?
    ensures WellFormed(Replaced(p, at, now))
    ensures Verifies(TransportSum(Replaced(p, at, now), length)) <==> Verifies(TransportSum(p, length))
  {
    hide Adjusted, Replaced, TransportSum, Verifies, Hi, Lo, TransportField;
    var was, field := U32(p, at), TransportField(p).value;
    Halves(p, at);
    RestOfTransport(p, at, length);
    TransportMoves(p, at, now, length);
    ChangeCancels(TransportSum(p, length) - Hi(was) - Lo(was) - U16(p, field), U16(p, field), was, now);
  }

  /**
   * Prefix translation keeps checksums valid: for every well-formed packet the
   * header checksum, and in a first fragment the checksum of a TCP segment or of
   * a UDP datagram that carries one, verify after it exactly when they did before.
   */
  lemma {:induction false} TranslationKeepsChecksums(p: seq<byte>, source: bool, routes: seq<SubnetRoute>, self: NodeId,
                                                     length: nat)
    requires WellFormed(p)
    ensures var q := Translated(p, source, routes, self).0;
      && WellFormed(q)
      && (Verifies(HeaderSum(q)) <==> Verifies(HeaderSum(p)))
      && (CarriesTcp(p) || CarriesUdp(p) ==> (Verifies(TransportSum(q, length)) <==> Verifies(TransportSum(p, length))))
  {
    hide Replaced, HeaderSum, TransportSum, Verifies, CarriesTcp, CarriesUdp;
    var at := AddressOffset(source);
    var now := LocalAddress(routes, self, U32(p, at), source);
    if now.Some? {
      HeaderChecksumKept(p, at, now.value);
      if CarriesTcp(p) || CarriesUdp(p) {
        TransportChecksumKept(p, at, now.value, length);
      }
    }
  }

  /** The bytes of the address, the header checksum and the transport checksum. */
  predicate Rewritten(p: seq<byte>, at: nat, i: nat)
    requires |p| >= 20
  {
    || at <= i < at + 4
    || i == 10 || i == 11
    || (TransportField(p).Some? && TransportField(p).value <= i < TransportField(p).value + 2)
  }

  /** Translation writes the new address and its checksums, and nothing else. */
  lemma {:induction false} OnlyAddressChanges(p: seq<byte>, at: nat, now: Addr)
    requires WellFormed(p) && (at == 12 || at == 16)
    ensures U32(Replaced(p, at, now), at) == now
    ensures U32(Replaced(p, at, now), 28 - at) == U32(p, 28 - at)
    ensures forall i :: 0 <= i < |p| && !Rewritten(p, at, i) ==> Replaced(p, at, now)[i] == p[i]
  {
    hide Adjusted, TransportField, HeaderLength;
    var header := HeaderReplaced(p, at, now);
    HeaderUntouchedParts(p, at, now);
    var field := TransportField(header);
    if field.Some? {
      FieldBehindHeader(header);
    }
    assert U32(header, at) == now;
  }

  /**
   * The bytes that translation may change: the source or destination address,
   * the header checksum, and the checksum of TCP at 16 or of UDP at 6 behind the
   * header. All others stay, in particular with other protocols and in later fragments.
   */
  lemma {:induction false} ChangedBytes(p: seq<byte>, source: bool, routes: seq<SubnetRoute>, self: NodeId, i: nat)
    requires WellFormed(p) && i < |p|
    ensures var (q, ihl) := (Translated(p, source, routes, self).0, p[0] % 16 * 4);
      || (|q| == |p| && q[i] == p[i])
      || (if source then 12 <= i < 16 else 16 <= i < 20) || i == 10 || i == 11
      || (CarriesTcp(p) && ihl + 16 <= i < ihl + 18)
      || (CarriesUdp(p) && ihl + 6 <= i < ihl + 8)
  {
    hide Replaced, LocalAddress, CarriesTcp, CarriesUdp, TransportField;
    var at := AddressOffset(source);
    var now := LocalAddress(routes, self, U32(p, at), source);
    if now.Some? {
      FieldIs(p);
      OnlyAddressChanges(p, at, now.value);
    }
  }

  // ----- When a UDP checksum turns into zero -----

  /** The update of checksum field `f` for the new address comes out as zero, the UDP mark for "no checksum". */
  predicate BecomesZero(f: nat, was: Addr, now: Addr) {
    && (f + Hi(was) + Lo(was)) % 65535 == (Hi(now) + Lo(now)) % 65535
    && !(f == 0xffff && was == 0xffff_ffff && now == 0)
  }

  lemma {:induction false} FieldAfter(p: seq<byte>, at: nat, now: Addr)
    requires WellFormed(p) && (at == 12 || at == 16) && TransportField(p).Some?
    ensures var field, was := TransportField(p).value, U32(p, at);
      U16(Replaced(p, at, now), field) == Adjusted(U16(p, field), Hi(was), Lo(was), Hi(now), Lo(now))
  {
    hide Adjusted, TransportField;
    var header, field := HeaderReplaced(p, at, now), TransportField(p).value;
    HeaderUntouchedParts(p, at, now);
    FieldBehindHeader(p);
    assert U16(header, field) == U16(p, field);
  }

  /**
   * There is no substitution of 0xffff for zero: a UDP checksum is lost in
   * translation exactly when it and the old address are congruent to the new
   * one, and the datagram then counts as one without a checksum.
   */
  lemma {:induction false} UdpZeroIff(p: seq<byte>, at: nat, now: Addr)
    requires WellFormed(p) && (at == 12 || at == 16) && CarriesUdp(p)
    ensures var (q, field) := (Replaced(p, at, now), p[0] % 16 * 4 + 6);
      && WellFormed(q)
      && (U16(q, field) == 0 <==> BecomesZero(U16(p, field), U32(p, at), now))
      && (!CarriesUdp(q) <==> BecomesZero(U16(p, field), U32(p, at), now))
  {
    FieldIs(p);
    hide Adjusted, Replaced, TransportField, BecomesZero;
    var field := p[0] % 16 * 4 + 6;
    NewUdpField(p, at, now, field);
    OnlyAddressChanges(p, at, now);
    SameUdp(p, Replaced(p, at, now), at);
  }

  lemma {:induction false} NewUdpField(p: seq<byte>, at: nat, now: Addr, field: nat)
    requires WellFormed(p) && (at == 12 || at == 16) && TransportField(p) == Some(field) && U16(p, field) > 0
    ensures U16(Replaced(p, at, now), field) == 0 <==> BecomesZero(U16(p, field), U32(p, at), now)
  {
    FieldAfter(p, at, now);
    hide *;
    ZeroIff(U16(p, field), U32(p, at), now);
  }

  lemma {:induction false} ZeroIff(f: nat, was: Addr, now: Addr)
    requires 0 < f < 65536
    ensures Hi(was) < 65536 && Lo(was) < 65536 && Hi(now) < 65536 && Lo(now) < 65536
    ensures Adjusted(f, Hi(was), Lo(was), Hi(now), Lo(now)) == 0 <==> BecomesZero(f, was, now)
  {
    HalvesOfAddress(was);
    HalvesOfAddress(now);
    hide Hi, Lo, Adjusted;
    AdjustedZeroIff(f, Hi(was), Lo(was), Hi(now), Lo(now));
  }

  /** The two words of an address determine it. */
  lemma HalvesOfAddress(a: Addr)
    ensures Hi(a) < 65536 && Lo(a) < 65536
    ensures Hi(a) == 0xffff && Lo(a) == 0xffff <==> a == 0xffff_ffff
    ensures Hi(a) == 0 && Lo(a) == 0 <==> a == 0
  {
  }

  /** Apart from the checksum itself, translation leaves a UDP datagram what it was. */
  lemma {:induction false} SameUdp(p: seq<byte>, q: seq<byte>, at: nat)
    requires WellFormed(p) && CarriesUdp(p) && |q| == |p| && (at == 12 || at == 16)
    requires TransportField(p) == Some(p[0] % 16 * 4 + 6)
    requires forall i :: 0 <= i < |p| && !Rewritten(p, at, i) ==> q[i] == p[i]
    ensures WellFormed(q) && q[0] == p[0]
    ensures CarriesUdp(q) <==> U16(q, p[0] % 16 * 4 + 6) != 0
  {
    assert q[0] == p[0] && q[6] == p[6] && q[7] == p[7] && q[9] == p[9];
  }

  /** The same for the whole translation: also a datagram that no route covers keeps its checksum. */
  lemma {:induction false} TranslatedZeroIff(p: seq<byte>, source: bool, routes: seq<SubnetRoute>, self: NodeId)
    requires WellFormed(p) && CarriesUdp(p)
    ensures var at, field := if source then 12 else 16, p[0] % 16 * 4 + 6;
      var now := LocalAddress(routes, self, U32(p, at), source);
      U16(Translated(p, source, routes, self).0, field) == 0 <==>
        now.Some? && BecomesZero(U16(p, field), U32(p, at), now.value)
  {
    hide Replaced, LocalAddress, BecomesZero;
    var at := AddressOffset(source);
    var now := LocalAddress(routes, self, U32(p, at), source);
    if now.Some? {
      UdpZeroIff(p, at, now.value);
    }
  }

  /** A DNS query from 10.0.0.2 to 10.77.0.1 with valid checksums, the one of UDP being 1. */
  function Query(): seq<byte> {
    [0x45, 0, 0, 28, 0, 0, 0, 0, 64, 17, 0x66, 0x82, 10, 0, 0, 2, 10, 77, 0, 1, 0xEB, 0x58, 0, 0x35, 0, 8, 0, 1]
  }

  /** A gateway whose LAN 10.78.0.0/24 is published as 10.77.0.0/24 turns that valid checksum into zero. */
  lemma {:induction false} ChecksumLost(self: NodeId)
    ensures var routes := [SubnetRoute(Prefix(0x0A4D_0000, 24), Prefix(0x0A4E_0000, 24), self)];
      var (q, ok) := Translated(Query(), false, routes, self);
      && WellFormed(Query()) && Verifies(HeaderSum(Query())) && Verifies(TransportSum(Query(), 8)) && U16(Query(), 26) == 1
      && ok && U32(q, 16) == 0x0A4E_0001 && U16(q, 26) == 0
  {
    hide *;
    QuerySum();
    QueryHeader();
    QueryFields();
    QueryRoute(self);
    ZeroExample();
    TranslatedQuery(Query(), [SubnetRoute(Prefix(0x0A4D_0000, 24), Prefix(0x0A4E_0000, 24), self)], self);
  }

  lemma {:induction false} TranslatedQuery(p: seq<byte>, routes: seq<SubnetRoute>, self: NodeId)
    requires |p| == 28 && p[0] == 0x45 && WellFormed(p) && CarriesUdp(p)
    requires U32(p, 16) == 0x0A4D_0001 && U16(p, 26) == 1 && BecomesZero(1, 0x0A4D_0001, 0x0A4E_0001)
    requires LocalAddress(routes, self, 0x0A4D_0001, false) == Some(0x0A4E_0001)
    ensures var (q, ok) := Translated(p, false, routes, self);
      |q| == 28 && ok && U32(q, 16) == 0x0A4E_0001 && U16(q, 26) == 0
  {
    hide BecomesZero, LocalAddress, Replaced, CarriesUdp, U16, U32;
    TranslatedZeroIff(p, false, routes, self);
    OnlyAddressChanges(p, 16, 0x0A4E_0001);
  }

  lemma {:induction false} ZeroExample()
    ensures BecomesZero(1, 0x0A4D_0001, 0x0A4E_0001)
  {
    assert Hi(0x0A4D_0001) == 0x0A4D && Lo(0x0A4D_0001) == 1;
    assert Hi(0x0A4E_0001) == 0x0A4E && Lo(0x0A4E_0001) == 1;
  }

  lemma {:induction false} QueryRoute(self: NodeId)
    ensures var routes := [SubnetRoute(Prefix(0x0A4D_0000, 24), Prefix(0x0A4E_0000, 24), self)];
      LocalAddress(routes, self, 0x0A4D_0001, false) == Some(0x0A4E_0001)
  {
    assert ShiftRight(0x0A4D_0001, 8) == 0x0A4D00 && ShiftRight(0x0A4D_0000, 8) == 0x0A4D00;
    assert Shifted(0x0A4D_0001, Prefix(0x0A4D_0000, 24), Prefix(0x0A4E_0000, 24)) == 0x0A4E_0001;
  }

  lemma {:induction false} QueryFields()
    ensures |Query()| == 28 && U32(Query(), 16) == 0x0A4D_0001 && U16(Query(), 26) == 1
    ensures WellFormed(Query()) && Query()[0] == 0x45 && CarriesUdp(Query())
  {
    var p := Query();
    assert p[0] == 0x45 && p[6] == 0 && p[7] == 0 && p[26] == 0 && p[27] == 1;
    assert HeaderLength(p) == 20 && FragmentOffset(p) == 0;
  }

  lemma {:induction false} QueryWords()
    ensures var p := Query();
      && |p| == 28 && HeaderLength(p) == 20
      && U16(p, 0) == 0x4500 && U16(p, 2) == 28 && U16(p, 4) == 0 && U16(p, 6) == 0 && U16(p, 8) == 0x4011
      && U16(p, 10) == 0x6682 && U16(p, 12) == 0x0A00 && U16(p, 14) == 2 && U16(p, 16) == 0x0A4D && U16(p, 18) == 1
  {
  }

  /** The sum of the ten words of a plain header. */
  lemma {:induction false} TenWords(p: seq<byte>)
    requires |p| >= 20
    ensures WordSum(p[0..20]) == U16(p, 0) + U16(p, 2) + U16(p, 4) + U16(p, 6) + U16(p, 8)
      + U16(p, 10) + U16(p, 12) + U16(p, 14) + U16(p, 16) + U16(p, 18)
  {
    assert WordSum(p[..0]) == 0;
    hide WordSum, U16;
    NextWord(p, 0);
    NextWord(p, 2);
    NextWord(p, 4);
    NextWord(p, 6);
    NextWord(p, 8);
    NextWord(p, 10);
    NextWord(p, 12);
    NextWord(p, 14);
    NextWord(p, 16);
    NextWord(p, 18);
    assert p[0..20] == p[..20];
  }

  lemma {:induction false} QueryHeader()
    ensures WellFormed(Query()) && Verifies(HeaderSum(Query()))
  {
    QueryWords();
    TenWords(Query());
    hide Query, U16, WordSum;
    assert HeaderSum(Query()) == 0xffff;
  }

  lemma {:induction false} QuerySum()
    ensures WellFormed(Query()) && Verifies(TransportSum(Query(), 8))
  {
    var p := Query();
    assert |p| == 28 && p[0] == 0x45;
    assert HeaderLength(p) == 20;
    var b := p[20..28];
    assert b == [0xEB, 0x58, 0, 0x35, 0, 8, 0, 1];
    assert b[2..] == [0, 0x35, 0, 8, 0, 1] && b[2..][2..] == [0, 8, 0, 1] && b[2..][2..][2..] == [0, 1];
    assert WordSum(b[2..][2..][2..]) == 1;
    assert WordSum(b[2..][2..]) == 9;
    assert WordSum(b[2..]) == 0x35 + 9;
    assert WordSum(b) == 0xEB58 + 0x35 + 9;
    assert TransportSum(p, 8) == 0xffff;
  }

  /**
   * End to end across both programs: a packet sent to the address that the
   * coordinator publishes for a LAN host leaves the gateway addressed to that
   * host, with checksums as valid as before.
   */
  lemma {:induction false} GatewayDelivers(mesh: Prefix, t: Table, directory: seq<Entry>, id: NodeId, ip: Addr,
                                           p: seq<byte>, length: nat)
    requires Invariant(mesh, t) && Publishes(directory, t) && Entry(id, Row(t, id)) in directory
    requires WellFormed(p) && TranslatedIP(ip, Row(t, id), true) == Some(U32(p, 16))
    ensures var (q, ok) := Translated(p, false, SubnetRoutes(directory), id);
      && ok && WellFormed(q) && U32(q, 16) == ip && U32(q, 12) == U32(p, 12)
      && (Verifies(HeaderSum(q)) <==> Verifies(HeaderSum(p)))
      && (CarriesTcp(p) || CarriesUdp(p) ==> (Verifies(TransportSum(q, length)) <==> Verifies(TransportSum(p, length))))
  {
    hide SubnetRoutes, Replaced, HeaderSum, TransportSum, Verifies, LocalAddress, TranslatedIP, Invariant, Publishes,
      Rewritten, U16, CarriesTcp, CarriesUdp;
    RoundTrip(mesh, t, directory, id, ip, U32(p, 16));
    TranslationKeepsChecksums(p, false, SubnetRoutes(directory), id, length);
    OnlyAddressChanges(p, 16, ip);
  }

  /**
   * The way back: a packet from a LAN host leaves the gateway under the address
   * that the coordinator publishes for the host, and is refused when there is none.
   */
  lemma {:induction false} GatewayPublishes(mesh: Prefix, t: Table, directory: seq<Entry>, id: NodeId, p: seq<byte>, length: nat)
    requires Invariant(mesh, t) && Publishes(directory, t) && Entry(id, Row(t, id)) in directory && WellFormed(p)
    ensures var (q, ok) := Translated(p, true, SubnetRoutes(directory), id);
      var published := TranslatedIP(U32(p, 12), Row(t, id), true);
      && WellFormed(q) && (ok <==> published.Some?) && (!ok ==> q == p)
      && (ok ==> U32(q, 12) == published.value && U32(q, 16) == U32(p, 16))
      && (Verifies(HeaderSum(q)) <==> Verifies(HeaderSum(p)))
      && (CarriesTcp(p) || CarriesUdp(p) ==> (Verifies(TransportSum(q, length)) <==> Verifies(TransportSum(p, length))))
  {
    hide SubnetRoutes, Replaced, HeaderSum, TransportSum, Verifies, LocalAddress, TranslatedIP, Invariant, Publishes,
      Rewritten, U16, CarriesTcp, CarriesUdp;
    GatewayAgrees(mesh, t, directory, id, U32(p, 12), true);
    TranslationKeepsChecksums(p, true, SubnetRoutes(directory), id, length);
    var published := TranslatedIP(U32(p, 12), Row(t, id), true);
    if published.Some? {
      OnlyAddressChanges(p, 12, published.value);
    }
  }
}
