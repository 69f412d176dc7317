/** Hexadecimal text. */
module Hex {
  import opened Wrappers
  import opened Bytes

  const DIGITS: string := "0123456789abcdef"

  function Digit(n: nat): (c: char)
    requires n < 16
    ensures Value(c) == Some(n)
  {
    DIGITS[n]
  }

  /** The value of a digit; capital letters are accepted on input. */
  function Value(c: char): (v: Option<nat>)
    ensures v.Some? ==> v.value < 16
  {
    if '0' <= c <= '9' then Some(c as int - '0' as int)
    else if 'a' <= c <= 'f' then Some(c as int - 'a' as int + 10)
    else if 'A' <= c <= 'F' then Some(c as int - 'A' as int + 10)
    else None
  }

  predicate LowerDigit(c: char) {
    '0' <= c <= '9' || 'a' <= c <= 'f'
  }

  ghost predicate LowerHex(s: string) {
    forall i :: 0 <= i < |s| ==> LowerDigit(s[i])
  }

  function Encode(b: seq<byte>): (s: string)
    ensures |s| == 2 * |b|
  {
    if b == [] then [] else [Digit(b[0] / 16), Digit(b[0] % 16)] + Encode(b[1..])
  }

  /** `hex.DecodeString`: fails on an odd length or a foreign character. */
  function Decode(s: string): (b: Option<seq<byte>>)
    ensures b.Some? ==> |s| == 2 * |b.value|
  {
    if s == [] then Some([])
    else if |s| == 1 then None
    else
      var hi, lo, rest := Value(s[0]), Value(s[1]), Decode(s[2..]);
      if hi.None? || lo.None? || rest.None? then None
      else
        var v: byte := hi.value * 16 + lo.value;
        Some([v] + rest.value)
  }

  /** One byte of text. */
  lemma {:induction false} DecodePair(hi: nat, lo: nat, s: string)
    requires hi < 16 && lo < 16 && Decode(s).Some?
    ensures Decode([Digit(hi), Digit(lo)] + s) == Some([(hi * 16 + lo) as byte] + Decode(s).value)
  {
    hide Digit, Value;
    assert ([Digit(hi), Digit(lo)] + s)[2..] == s;
  }

  lemma {:induction false} DecodeEncode(b: seq<byte>)
    ensures Decode(Encode(b)) == Some(b)
  {
    hide Digit, Value, Decode;
    if b == [] {
      DecodeNone();
    } else {
      DecodeEncode(b[1..]);
      DecodePair(b[0] / 16, b[0] % 16, Encode(b[1..]));
      assert b == [b[0]] + b[1..];
    }
  }

  lemma DecodeNone()
    ensures Decode("") == Some([])
  {
  }

  lemma LowerDigits(n: nat)
    requires n < 16
    ensures LowerDigit(Digit(n))
  {
    assert DIGITS[0] == '0' && DIGITS[9] == '9' && DIGITS[10] == 'a' && DIGITS[15] == 'f';
  }

  lemma DigitOfValue(c: char)
    requires LowerDigit(c)
    ensures Value(c).Some? && Digit(Value(c).value) == c
  {
  }

  /** Decoding and encoding again returns the text exactly when it was lower case. */
  lemma {:induction false} EncodeDecode(s: string)
    requires Decode(s).Some?
    ensures Encode(Decode(s).value) == s <==> LowerHex(s)
  {
    hide Digit, Value, Decode, Encode, LowerDigit;
    if s == [] {
      DecodeNone();
      EncodeNone();
    } else {
      var tail := s[2..];
      var hi, lo := DecodeHead(s);
      EncodeDecode(tail);
      EncodeHead(hi, lo, Decode(tail).value);
      SamePair(s[0]);
      SamePair(s[1]);
      HeadAndTail(s);
      assert s == [s[0], s[1]] + tail;
      PairsEqual(Digit(hi), Digit(lo), Encode(Decode(tail).value), s[0], s[1], tail);
    }
  }

  lemma EncodeNone()
    ensures Encode([]) == ""
  {
  }

  /** Two digits and the rest. */
  lemma {:induction false} DecodeHead(s: string) returns (hi: nat, lo: nat)
    requires s != [] && Decode(s).Some?
    ensures |s| >= 2 && hi < 16 && lo < 16 && Value(s[0]) == Some(hi) && Value(s[1]) == Some(lo) && Decode(s[2..]).Some?
    ensures Decode(s).value == [(hi * 16 + lo) as byte] + Decode(s[2..]).value
  {
    hide Value;
    hi, lo := Value(s[0]).value, Value(s[1]).value;
  }

  lemma {:induction false} EncodeHead(hi: nat, lo: nat, rest: seq<byte>)
    requires hi < 16 && lo < 16
    ensures Encode([(hi * 16 + lo) as byte] + rest) == [Digit(hi), Digit(lo)] + Encode(rest)
  {
    hide Digit;
    var v: byte := hi * 16 + lo;
    assert v / 16 == hi && v % 16 == lo;
    assert ([v] + rest)[1..] == rest;
  }

  /** A digit is the canonical one of its value exactly when it is lower case. */
  lemma {:induction false} SamePair(c: char)
    requires Value(c).Some?
    ensures Digit(Value(c).value) == c <==> LowerDigit(c)
  {
    LowerDigits(Value(c).value);
    if LowerDigit(c) {
      DigitOfValue(c);
    }
  }

  lemma {:induction false} PairsEqual(a: char, b: char, s: string, a': char, b': char, s': string)
    ensures [a, b] + s == [a', b'] + s' <==> a == a' && b == b' && s == s'
  {
    var x, y := [a, b] + s, [a', b'] + s';
    assert x[0] == a && x[1] == b && x[2..] == s;
    assert y[0] == a' && y[1] == b' && y[2..] == s';
  }

  /** Exactly the texts of an even number of hex digits decode, two digits to a byte. */
  lemma {:induction false} DecodesIff(s: string)
    ensures Decode(s).Some? <==> |s| % 2 == 0 && forall i :: 0 <= i < |s| ==> IsDigit(s[i])
  {
    if |s| >= 2 {
      var tail := s[2..];
      DecodesIff(tail);
      assert forall i :: 2 <= i < |s| ==> s[i] == tail[i - 2];
      assert (forall i :: 0 <= i < |s| ==> IsDigit(s[i])) <==>
        IsDigit(s[0]) && IsDigit(s[1]) && forall i :: 0 <= i < |tail| ==> IsDigit(tail[i]) by {
        assert forall i :: 0 <= i < |tail| ==> tail[i] == s[i + 2];
      }
    }
  }

  predicate IsDigit(c: char) {
    '0' <= c <= '9' || 'a' <= c <= 'f' || 'A' <= c <= 'F'
  }

  lemma {:induction false} HeadAndTail(s: string)
    requires |s| >= 2
    ensures LowerHex(s) <==> LowerDigit(s[0]) && LowerDigit(s[1]) && LowerHex(s[2..])
  {
    if LowerDigit(s[0]) && LowerDigit(s[1]) && LowerHex(s[2..]) {
      forall i | 0 <= i < |s|
        ensures LowerDigit(s[i])
      {
        if i >= 2 {
          assert s[i] == s[2..][i - 2];
        }
      }
    }
  }
}
