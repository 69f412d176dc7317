/** First-fit allocation of virtual prefixes from 10.77.0.0/16. */
module VirtualPool {
  import opened Wrappers
  import opened Prefixes

  /** 10.77.0.0 */
  const POOL: Addr := 0x0A4D_0000
  const POOL_LAST: Addr := 0x0A4D_FFFF

  function Elements(s: seq<Prefix>): set<Prefix> {
    set u | u in s
  }

  predicate OverlapsAny(p: Prefix, used: set<Prefix>) {
    exists u :: u in used && Overlaps(p, u)
  }

  method PrefixOverlapsAny(p: Prefix, used: seq<Prefix>) returns (r: bool)
    ensures r <==> OverlapsAny(p, Elements(used))
  {
    for i := 0 to |used|
      invariant forall j :: 0 <= j < i ==> !Overlaps(p, used[j])
    {
      if Overlaps(p, used[i]) {
        return true;
      }
    }
    return false;
  }

  /** A block of the pool: aligned to its own size and wholly inside. */
  ghost predicate PoolBlock(p: Prefix) {
    IsMasked(p) && POOL <= p.addr && p.addr + Size(p.bits) - 1 <= POOL_LAST
  }

  lemma PoolIsAligned(bits: nat)
    requires 16 <= bits <= 32
    ensures IsMasked(Prefix(POOL, bits))
  {
    var n := 32 - bits;
    PoolValue();
    ShiftLeftTwice(0x0A4D, 16 - n, n);
    ShiftBack(ShiftLeft(0x0A4D, 16 - n), n);
  }

  lemma PoolValue()
    ensures ShiftLeft(0x0A4D, 16) == POOL
  {
    ShiftLeftTwice(0x0A4D, 8, 8);
    ShiftLeftTwice(0x0A4D, 4, 4);
    assert ShiftLeft(0x0A4D, 4) == 0xA4D0;
    assert ShiftLeft(0xA4D0, 4) == 0xA4D00;
    ShiftLeftTwice(0xA4D00, 4, 4);
    assert ShiftLeft(0xA4D00, 4) == 0xA4D000;
    assert ShiftLeft(0xA4D000, 4) == 0xA4D0000;
  }

  /** The next aligned block starts one block size further, and none starts in between. */
  lemma NextBlock(p: Prefix, q: Prefix)
    requires IsMasked(p) && IsMasked(q) && p.bits == q.bits
    requires p.addr <= q.addr < p.addr + Size(p.bits)
    ensures q == p
  {
    hide ShiftRight, ShiftLeft, Pow2;
    MaskedInterval(p, q.addr);
  }

  lemma StepIsAligned(p: Prefix)
    requires IsMasked(p) && p.addr + Size(p.bits) < 0x1_0000_0000
    ensures IsMasked(Prefix(p.addr + Size(p.bits), p.bits))
  {
    hide ShiftRight, ShiftLeft, Pow2;
    var y := ShiftRight(p.addr, Host(p));
    ShiftLeftNext(y, Host(p));
    ShiftBack(y + 1, Host(p));
  }

  lemma {:induction false} SixteenBits()
    ensures Size(16) == 65536 && ShiftLeft(1, 16) == 65536
  {
    PowerIsShift(16);
    ShiftLeftTwice(1, 8, 8);
    ShiftLeftTwice(1, 4, 4);
    assert ShiftLeft(1, 4) == 16;
    assert ShiftLeft(16, 4) == 256;
    Bytes();
  }

  lemma LargeBlocks(bits: nat)
    requires bits < 16
    ensures Size(bits) > 65536
  {
    SixteenBits();
    PowerIsShift(32 - bits);
    ShiftLeftTwice(1, 16, 16 - bits);
    Grows(65536, 16 - bits);
  }

  lemma PowerIsShift(n: nat)
    ensures Pow2(n) == ShiftLeft(1, n)
  {
  }

  lemma Grows(y: nat, n: nat)
    requires y > 0 && n > 0
    ensures ShiftLeft(y, n) > y
  {
    if n > 1 {
      Grows(y, n - 1);
    }
  }

  /** The pool is 10.77.0.0/16: its blocks hold addresses of it only, and it is a block itself. */
  lemma {:induction false} PoolIs(p: Prefix, ip: Addr)
    ensures PoolBlock(p) && Contains(p, ip) ==> 0x0A4D_0000 <= ip <= 0x0A4D_FFFF
    ensures PoolBlock(Prefix(0x0A4D_0000, 16)) && Size(16) == 65536
  {
    PoolIsAligned(16);
    SixteenBits();
    if PoolBlock(p) {
      MaskedInterval(p, ip);
    }
    hide ShiftLeft, ShiftRight, Pow2;
  }

  /** What first fit promises: the lowest free block, or none only when every block is taken. */
  ghost predicate IsFirstFit(bits: nat, used: set<Prefix>, r: Option<Prefix>) {
    && (r.Some? ==>
          && PoolBlock(r.value) && r.value.bits == bits && !OverlapsAny(r.value, used)
          && forall p :: PoolBlock(p) && p.bits == bits && p.addr < r.value.addr ==> OverlapsAny(p, used))
    && (r.None? ==> forall p :: PoolBlock(p) && p.bits == bits ==> OverlapsAny(p, used))
  }

  /**
   * `allocateVirtual`. Callers pass lengths from 16 to 30; a length of 0 would
   * make the 32-bit step vanish, so it is excluded here.
   */
  method AllocateVirtual(bits: nat, used: seq<Prefix>) returns (r: Option<Prefix>)
    requires 1 <= bits <= 32
    ensures IsFirstFit(bits, Elements(used), r)
  {
    var step := Size(bits);
    var value: nat := POOL;
    ghost var taken := Elements(used);
    if bits < 16 {
      LargeBlocks(bits);
    } else {
      PoolIsAligned(bits);
    }
    while value + step - 1 <= POOL_LAST
      invariant POOL <= value < 0x1_0000_0000
      invariant bits >= 16 ==> IsMasked(Prefix(value, bits))
      invariant forall p :: PoolBlock(p) && p.bits == bits && p.addr < value ==> OverlapsAny(p, taken)
      decreases POOL_LAST + step - value
    {
      var p := Prefix(value, bits);
      var overlaps := PrefixOverlapsAny(p, used);
      if !overlaps {
        return Some(p);
      }
      forall q | PoolBlock(q) && q.bits == bits && q.addr < value + step
        ensures OverlapsAny(q, taken)
      {
        if q.addr >= value {
          NextBlock(p, q);
        }
      }
      StepIsAligned(p);
      value := value + step;
    }
    return None;
  }

  /** First fit as a recursive search, for a caller to evaluate. */
  function FirstFitFrom(value: nat, bits: nat, used: set<Prefix>): Option<Prefix>
    requires bits <= 32
    decreases POOL_LAST + Size(bits) - value
  {
    if value + Size(bits) - 1 > POOL_LAST then None
    else if OverlapsAny(Prefix(value, bits), used) then FirstFitFrom(value + Size(bits), bits, used)
    else Some(Prefix(value, bits))
  }

  function FirstFit(bits: nat, used: set<Prefix>): Option<Prefix>
    requires bits <= 32
  {
    FirstFitFrom(POOL, bits, used)
  }

  lemma {:induction false} FirstFitFromIs(value: Addr, bits: nat, used: set<Prefix>)
    requires bits <= 32 && IsMasked(Prefix(value, bits)) && POOL <= value <= POOL_LAST + 1
    requires forall p :: PoolBlock(p) && p.bits == bits && p.addr < value ==> OverlapsAny(p, used)
    ensures IsFirstFit(bits, used, FirstFitFrom(value, bits, used))
    decreases POOL_LAST + Size(bits) - value
  {
    hide ShiftRight, ShiftLeft, Pow2, OverlapsAny, IsMasked;
    var block := Prefix(value, bits);
    if value + Size(bits) - 1 <= POOL_LAST && OverlapsAny(block, used) {
      forall q | PoolBlock(q) && q.bits == bits && q.addr < value + Size(bits)
        ensures OverlapsAny(q, used)
      {
        if q.addr >= value {
          NextBlock(block, q);
        }
      }
      StepIsAligned(block);
      FirstFitFromIs(value + Size(bits), bits, used);
    }
  }

  /** The search finds the first fit. */
  lemma {:induction false} FirstFitIs(bits: nat, used: set<Prefix>)
    requires 16 <= bits <= 32
    ensures IsFirstFit(bits, used, FirstFit(bits, used))
  {
    PoolIsAligned(bits);
    FirstFitFromIs(POOL, bits, used);
  }

  /** The result is determined: first fit is a function of the set of used prefixes. */
  lemma FirstFitUnique(bits: nat, used: set<Prefix>, r: Option<Prefix>, t: Option<Prefix>)
    requires IsFirstFit(bits, used, r) && IsFirstFit(bits, used, t)
    ensures r == t
  {
  }
}
