/** IPv4 prefixes as the program uses them (`netip.Prefix`). */
module Prefixes {

  /** An IPv4 address as a 32-bit number. */
  type Addr = x: int | 0 <= x < 0x1_0000_0000

  datatype Prefix = Prefix(addr: Addr, bits: nat)

  // ----- Shifts -----

  /** `x >> n`. */
  function ShiftRight(x: nat, n: nat): nat
    decreases n
  {
    if n == 0 then x else ShiftRight(x / 2, n - 1)
  }

  /** `y << n`, without a width. */
  function ShiftLeft(y: nat, n: nat): nat {
    if n == 0 then y else 2 * ShiftLeft(y, n - 1)
  }

  function Pow2(n: nat): (p: nat)
    ensures p >= 1
  {
    if n == 0 then 1 else 2 * Pow2(n - 1)
  }

  /** Shifting right by `n` gives `y` exactly on one block of `2^n` numbers. */
  lemma ShiftInterval(x: nat, n: nat, y: nat)
    ensures ShiftRight(x, n) == y <==> ShiftLeft(y, n) <= x < ShiftLeft(y, n) + Pow2(n)
    decreases n
  {
    if n > 0 {
      ShiftInterval(x / 2, n - 1, y);
    }
  }

  lemma ShiftRightTwice(x: nat, a: nat, b: nat)
    ensures ShiftRight(ShiftRight(x, a), b) == ShiftRight(x, a + b)
    decreases a
  {
    if a > 0 {
      ShiftRightTwice(x / 2, a - 1, b);
    }
  }

  lemma ShiftLeftTwice(y: nat, a: nat, b: nat)
    ensures ShiftLeft(ShiftLeft(y, a), b) == ShiftLeft(y, a + b)
  {
    if b > 0 {
      ShiftLeftTwice(y, a, b - 1);
    }
  }

  lemma ShiftLeftNext(y: nat, n: nat)
    ensures ShiftLeft(y + 1, n) == ShiftLeft(y, n) + Pow2(n)
  {
    if n > 0 {
      ShiftLeftNext(y, n - 1);
    }
  }

  lemma ShiftBack(y: nat, n: nat)
    ensures ShiftRight(ShiftLeft(y, n), n) == y
  {
    ShiftInterval(ShiftLeft(y, n), n, y);
  }

  // ----- Prefixes -----

  predicate Valid(p: Prefix) {
    p.bits <= 32
  }

  function Host(p: Prefix): nat
    requires Valid(p)
  {
    32 - p.bits
  }

  /** The number of addresses of a prefix. */
  function Size(bits: nat): (s: nat)
    requires bits <= 32
    ensures s >= 1
  {
    Pow2(32 - bits)
  }

  /** All host bits are zero. */
  predicate IsMasked(p: Prefix) {
    Valid(p) && p.addr == ShiftLeft(ShiftRight(p.addr, Host(p)), Host(p))
  }

  predicate Contains(p: Prefix, ip: Addr) {
    Valid(p) && ShiftRight(ip, Host(p)) == ShiftRight(p.addr, Host(p))
  }

  /** Compares the two addresses on the shorter of the two lengths. */
  predicate Overlaps(p: Prefix, q: Prefix) {
    var bits := if p.bits < q.bits then p.bits else q.bits;
    bits <= 32 && ShiftRight(p.addr, 32 - bits) == ShiftRight(q.addr, 32 - bits)
  }

  /** Clears the host bits. */
  function Mask(p: Prefix): (m: Prefix)
    requires Valid(p)
    ensures IsMasked(m) && m.bits == p.bits
    ensures forall ip :: Contains(m, ip) <==> Contains(p, ip)
  {
    var y := ShiftRight(p.addr, Host(p));
    ShiftInterval(p.addr, Host(p), y);
    ShiftBack(y, Host(p));
    Prefix(ShiftLeft(y, Host(p)), p.bits)
  }

  /** A masked prefix is an interval of addresses. */
  lemma MaskedInterval(p: Prefix, ip: nat)
    requires IsMasked(p)
    ensures ShiftRight(ip, Host(p)) == ShiftRight(p.addr, Host(p)) <==> p.addr <= ip < p.addr + Size(p.bits)
  {
    ShiftInterval(ip, Host(p), ShiftRight(p.addr, Host(p)));
  }

  /** The last address of a masked prefix still fits 32 bits. */
  lemma MaskedFits(p: Prefix)
    requires IsMasked(p)
    ensures p.addr + Size(p.bits) <= 0x1_0000_0000
  {
    var n, y := Host(p), ShiftRight(p.addr, Host(p));
    assert ShiftLeft(1, 32) == 0x1_0000_0000 by { Full(); }
    ShiftLeftTwice(1, 32 - n, n);
    if y >= ShiftLeft(1, 32 - n) {
      ShiftLeftMonotone(ShiftLeft(1, 32 - n), y, n);
      assert false;
    }
    ShiftLeftMonotone(y + 1, ShiftLeft(1, 32 - n), n);
    ShiftLeftNext(y, n);
  }

  lemma ShiftLeftMonotone(a: nat, b: nat, n: nat)
    requires a <= b
    ensures ShiftLeft(a, n) <= ShiftLeft(b, n)
  {
  }

  lemma Full()
    ensures ShiftLeft(1, 32) == 0x1_0000_0000
  {
    ShiftLeftTwice(1, 4, 4);
    ShiftLeftTwice(1, 8, 8);
    ShiftLeftTwice(1, 16, 16);
    assert ShiftLeft(1, 4) == 16;
    assert ShiftLeft(16, 4) == 256;
    Bytes();
  }

  lemma Bytes()
    ensures ShiftLeft(256, 8) == 65536
    ensures ShiftLeft(65536, 16) == 0x1_0000_0000
  {
    ShiftLeftTwice(256, 4, 4);
    assert ShiftLeft(256, 4) == 4096;
    assert ShiftLeft(4096, 4) == 65536;
    ShiftLeftTwice(65536, 8, 8);
    ShiftLeftTwice(65536, 4, 4);
    assert ShiftLeft(65536, 4) == 1048576;
    assert ShiftLeft(1048576, 4) == 16777216;
    ShiftLeftTwice(16777216, 4, 4);
    assert ShiftLeft(16777216, 4) == 268435456;
    assert ShiftLeft(268435456, 4) == 0x1_0000_0000;
  }

  /** Two prefixes overlap exactly when some address lies in both. */
  lemma OverlapsMeaning(p: Prefix, q: Prefix)
    requires Valid(p) && Valid(q)
    ensures Overlaps(p, q) <==> exists ip :: Contains(p, ip) && Contains(q, ip)
  {
    if Overlaps(p, q) {
      assert if p.bits < q.bits then Contains(p, q.addr) && Contains(q, q.addr)
             else Contains(p, p.addr) && Contains(q, p.addr);
    }
    if ip :| Contains(p, ip) && Contains(q, ip) {
      SharedAddress(p, q, ip);
    }
  }

  lemma SharedAddress(p: Prefix, q: Prefix, ip: Addr)
    requires Contains(p, ip) && Contains(q, ip)
    ensures Overlaps(p, q)
  {
    var bits := if p.bits < q.bits then p.bits else q.bits;
    ShiftRightTwice(ip, Host(p), p.bits - bits);
    ShiftRightTwice(p.addr, Host(p), p.bits - bits);
    ShiftRightTwice(ip, Host(q), q.bits - bits);
    ShiftRightTwice(q.addr, Host(q), q.bits - bits);
  }
}
