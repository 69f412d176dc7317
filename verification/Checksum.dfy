/** The Internet checksum, from scratch and by increment (RFC 1624, section 3, equation 3). */
module Checksum {
  import opened Bytes

  /** The sum of the big-endian words; an odd last byte is padded with zero. */
  function WordSum(b: seq<byte>): nat {
    if b == [] then 0
    else if |b| == 1 then b[0] as int * 256
    else b[0] as int * 256 + b[1] + WordSum(b[2..])
  }

  /** One's-complement equality of sums: congruent, and zero together. */
  predicate Same(x: nat, y: nat) {
    x % 65535 == y % 65535 && (x == 0 <==> y == 0)
  }

  /** `(sum & 0xffff) + (sum >> 16)`. */
  function FoldOnce(sum: nat): (r: nat)
    ensures Same(r, sum)
    ensures sum >= 65536 ==> r < sum
  {
    sum % 65536 + sum / 65536
  }

  /** The one's-complement value of a sum. */
  function Fold(sum: nat): (r: nat)
    ensures r < 65536 && Same(r, sum)
  {
    if sum == 0 then 0 else 1 + (sum - 1) % 65535
  }

  lemma FoldUnique(r: nat, sum: nat)
    requires r < 65536 && Same(r, sum)
    ensures r == Fold(sum)
  {
  }

  lemma SameAdd(x: nat, y: nat, w: nat)
    requires Same(x, y)
    ensures Same(x + w, y + w)
  {
  }

  lemma {:induction false} WordSumAppend(a: seq<byte>, b: seq<byte>)
    requires |a| % 2 == 0
    ensures WordSum(a + b) == WordSum(a) + WordSum(b)
  {
    if a == [] {
      assert a + b == b;
    } else {
      assert (a + b)[2..] == a[2..] + b;
      WordSumAppend(a[2..], b);
    }
  }

  lemma {:induction false} NextWord(b: seq<byte>, i: nat)
    requires i % 2 == 0 && i + 2 <= |b|
    ensures WordSum(b[..i + 2]) == WordSum(b[..i]) + U16(b, i)
  {
    assert b[..i + 2] == b[..i] + b[i..i + 2];
    WordSumAppend(b[..i], b[i..i + 2]);
    assert b[i..i + 2][2..] == [];
  }

  lemma {:induction false} LastByte(b: seq<byte>)
    requires |b| % 2 == 1
    ensures WordSum(b) == WordSum(b[..|b| - 1]) + b[|b| - 1] as int * 256
  {
    var i := |b| - 1;
    assert b == b[..i] + b[i..];
    WordSumAppend(b[..i], b[i..]);
  }

  /** `packetChecksum`: the complement of the folded word sum. */
  method PacketChecksum(b: seq<byte>) returns (c: nat)
    ensures c == 0xffff - Fold(WordSum(b))
  {
    var sum: nat := 0;
    var i := 0;
    NothingSummed(b);
    hide *;
    while i + 1 < |b|
      invariant 0 <= i <= |b| && i % 2 == 0
      invariant sum < 65536 && Same(sum, WordSum(b[..i]))
    {
      NextWord(b, i);
      var word := U16(b, i);
      SameAdd(sum, WordSum(b[..i]), word);
      var folded := FoldFully(sum + word);
      SameTrans(folded, sum + word, WordSum(b[..i + 2]));
      sum := folded;
      i := i + 2;
    }
    if |b| % 2 != 0 {
      LastByte(b);
      SameAdd(sum, WordSum(b[..i]), b[|b| - 1] as int * 256);
      sum := sum + b[|b| - 1] as int * 256;
    } else {
      assert b == b[..i];
    }
    var folded := FoldFully(sum);
    SameTrans(folded, sum, WordSum(b));
    FoldUnique(folded, WordSum(b));
    c := 0xffff - folded;
  }

  lemma NothingSummed(b: seq<byte>)
    ensures Same(0, WordSum(b[..0]))
  {
  }

  lemma SameTrans(x: nat, y: nat, z: nat)
    requires Same(x, y) && Same(y, z)
    ensures Same(x, z)
  {
  }

  /** `for sum>>16 != 0 { ... }` */
  method FoldFully(sum0: nat) returns (sum: nat)
    ensures sum < 65536 && Same(sum, sum0)
  {
    sum := sum0;
    while sum >= 65536
      invariant Same(sum, sum0)
    {
      sum := FoldOnce(sum);
    }
  }

  /** A checksummed region is valid when its checksum comes out as zero. */
  predicate Verifies(sum: nat) {
    Fold(sum) == 0xffff
  }

  lemma VerifiesMeans(sum: nat)
    ensures Verifies(sum) <==> sum > 0 && sum % 65535 == 0
  {
  }

  // ----- Incremental update -----

  /** The arithmetic of `adjustAddressChecksum` on a field and two old and new address words. */
  function Adjusted(field: nat, old1: nat, old2: nat, new1: nat, new2: nat): (r: nat)
    requires field < 65536 && old1 < 65536 && old2 < 65536 && new1 < 65536 && new2 < 65536
    ensures r < 65536
  {
    var s0 := 0xffff - field;
    var s1 := FoldOnce(s0 + (0xffff - old1) + new1);
    assert s1 <= 0x10000;
    var s2 := FoldOnce(s1 + (0xffff - old2) + new2);
    assert s2 <= 0x10000;
    0xffff - FoldOnce(s2)
  }

  /** The single folds suffice, and field plus address keep their one's-complement sum. */
  lemma {:induction false} AdjustedKeepsSum(field: nat, old1: nat, old2: nat, new1: nat, new2: nat)
    requires field < 65536 && old1 < 65536 && old2 < 65536 && new1 < 65536 && new2 < 65536
    ensures (Adjusted(field, old1, old2, new1, new2) + new1 + new2) % 65535 == (field + old1 + old2) % 65535
    ensures field < 0xffff ==> Adjusted(field, old1, old2, new1, new2) < 0xffff
  {
    hide Same, FoldOnce;
    var a := 0xffff - field + (0xffff - old1) + new1;
    var s1 := FoldOnce(a);
    var b := s1 + (0xffff - old2) + new2;
    var s2 := FoldOnce(b);
    var i := FoldDrops(a);
    var j := FoldDrops(b);
    var k := FoldDrops(s2);
    FoldZero(a);
    FoldZero(b);
    FoldZero(s2);
    var r := Adjusted(field, old1, old2, new1, new2);
    assert r == 0xffff - FoldOnce(s2);
    TurnsCancel(field, old1, old2, new1, new2, s1, s2, r, i, j, k);
  }

  lemma {:induction false} TurnsCancel(field: int, old1: int, old2: int, new1: int, new2: int, s1: int, s2: int, r: int,
                                       i: int, j: int, k: int)
    requires s1 == 0xffff - field + (0xffff - old1) + new1 - 65535 * i
    requires s2 == s1 + (0xffff - old2) + new2 - 65535 * j
    requires r == 0xffff - (s2 - 65535 * k)
    requires r + new1 + new2 >= 0 && field + old1 + old2 >= 0
    ensures (r + new1 + new2) % 65535 == (field + old1 + old2) % 65535
  {
    WholeTurns(r + new1 + new2, field + old1 + old2, i + j + k - 2);
  }

  /**
   * The update turns a non-zero field into zero exactly when field and old
   * address together are congruent to the new address; the one exception is the
   * field 0xffff over an all-ones address that becomes all zeros.
   */
  lemma {:induction false} AdjustedZeroIff(field: nat, old1: nat, old2: nat, new1: nat, new2: nat)
    requires 0 < field < 65536 && old1 < 65536 && old2 < 65536 && new1 < 65536 && new2 < 65536
    ensures Adjusted(field, old1, old2, new1, new2) == 0 <==>
      && (field + old1 + old2) % 65535 == (new1 + new2) % 65535
      && !(field == 0xffff && old1 == 0xffff && old2 == 0xffff && new1 == 0 && new2 == 0)
  {
    hide Adjusted;
    var r := Adjusted(field, old1, old2, new1, new2);
    AdjustedKeepsSum(field, old1, old2, new1, new2);
    MultipleOrZero(r, new1, new2);
    if field == 0xffff {
      AdjustedFullIff(old1, old2, new1, new2);
    }
  }

  lemma {:induction false} MultipleOrZero(r: nat, x: nat, y: nat)
    requires r < 65536
    ensures (r + x + y) % 65535 == (x + y) % 65535 <==> r == 0 || r == 0xffff
  {
    var d := (r + x + y) / 65535 - (x + y) / 65535;
    assert (r + x + y) % 65535 == (x + y) % 65535 ==> r == 65535 * d;
    assert r == 0xffff ==> r + x + y == x + y + 65535;
  }

  /** From 0xffff the update stays at 0xffff only when it adds nothing at all. */
  lemma {:induction false} AdjustedFullIff(old1: nat, old2: nat, new1: nat, new2: nat)
    requires old1 < 65536 && old2 < 65536 && new1 < 65536 && new2 < 65536
    ensures Adjusted(0xffff, old1, old2, new1, new2) == 0xffff <==> old1 == 0xffff && old2 == 0xffff && new1 == 0 && new2 == 0
  {
    var a := (0xffff - old1) + new1;
    var s1 := FoldOnce(a);
    var b := s1 + (0xffff - old2) + new2;
    FoldZero(a);
    FoldZero(b);
    FoldZero(FoldOnce(b));
  }

  lemma FoldZero(sum: nat)
    ensures FoldOnce(sum) == 0 <==> sum == 0
  {
  }

  /** One fold drops whole multiples of 65535. */
  lemma FoldDrops(sum: nat) returns (turns: nat)
    ensures FoldOnce(sum) == sum - 65535 * turns
  {
    turns := sum / 65536;
  }

  lemma WholeTurns(x: nat, y: nat, m: int)
    requires x == y + 65535 * m
    ensures x % 65535 == y % 65535
  {
  }

  /** Updating by increment gives exactly the checksum computed from scratch. */
  lemma {:induction false} IncrementalIsScratch(rest: nat, old1: nat, old2: nat, new1: nat, new2: nat)
    requires old1 < 65536 && old2 < 65536 && new1 < 65536 && new2 < 65536
    requires rest + old1 + old2 > 0 && rest + new1 + new2 > 0
    ensures Adjusted(0xffff - Fold(rest + old1 + old2), old1, old2, new1, new2) == 0xffff - Fold(rest + new1 + new2)
  {
    hide Adjusted;
    var field := 0xffff - Fold(rest + old1 + old2);
    var r := Adjusted(field, old1, old2, new1, new2);
    AdjustedKeepsSum(field, old1, old2, new1, new2);
    SumZero(field, rest, old1 + old2, r, new1 + new2);
    FoldUnique(0xffff - r, rest + new1 + new2);
  }

  lemma SumZero(field: nat, rest: nat, was: nat, r: nat, now: nat)
    requires field < 0xffff && r < 0xffff && rest + was > 0 && rest + now > 0
    requires (0xffff - field) % 65535 == (rest + was) % 65535
    requires (r + now) % 65535 == (field + was) % 65535
    ensures (0xffff - r) % 65535 == (rest + now) % 65535
  {
    var i := Turns(0xffff - field, rest + was);
    var j := Turns(r + now, field + was);
    WholeTurns(0xffff - r, rest + now, i - j);
  }

  lemma Turns(x: nat, y: nat) returns (m: int)
    requires x % 65535 == y % 65535
    ensures x == y + 65535 * m
  {
    m := x / 65535 - y / 65535;
  }
}
