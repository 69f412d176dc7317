/** The order in which a symmetric-NAT scan tries ports. */
module PortScan {
  import opened Wrappers

  // ----- Residues by repeated subtraction -----

  function Rem(x: nat, step: nat): nat
    requires step >= 1
    decreases x
  {
    if x < step then x else Rem(x - step, step)
  }

  lemma RemBound(x: nat, step: nat)
    requires step >= 1
    ensures Rem(x, step) < step && Rem(x, step) <= x
    decreases x
  {
    if x >= step {
      RemBound(x - step, step);
    }
  }

  /** Within one step of `x`, only `x` itself has its residue. */
  lemma RemSeparates(x: nat, y: nat, step: nat)
    requires step >= 1 && x <= y < x + step && Rem(x, step) == Rem(y, step)
    ensures x == y
    decreases x
  {
    if x >= step {
      RemSeparates(x - step, y - step, step);
    }
  }

  lemma RemCancels(y: nat, z: nat, step: nat)
    requires step >= 1
    ensures Rem(z, step) <= z && Rem(y + (z - Rem(z, step)), step) == Rem(y, step)
    decreases z
  {
    RemBound(z, step);
    if z >= step {
      RemCancels(y, z - step, step);
      RemBound(z - step, step);
      assert Rem(y + (z - Rem(z, step)), step) == Rem(y + (z - Rem(z, step)) - step, step);
    }
  }

  lemma RemIsMod(x: nat, step: nat)
    requires step >= 1
    ensures x % step == Rem(x, step)
    decreases x
  {
    if x >= step {
      RemIsMod(x - step, step);
      ModStep(x, step);
    }
  }

  lemma ModStep(x: nat, step: nat)
    requires step >= 1 && x >= step
    ensures x % step == (x - step) % step
  {
    var q, p := x / step, (x - step) / step;
    assert x == q * step + x % step;
    assert x - step == p * step + (x - step) % step;
    SmallMultiple(q - p - 1, step, (x - step) % step - x % step);
  }

  lemma SmallMultiple(d: int, step: int, r: int)
    requires step >= 1 && d * step == r && -step < r < step
    ensures r == 0
  {
  }

  lemma RemAdds(x: nat, k: nat, step: nat)
    requires step >= 1
    ensures Rem(x + k * step, step) == Rem(x, step)
    decreases k
  {
    if k > 0 {
      RemAdds(x, k - 1, step);
      assert x + k * step == x + (k - 1) * step + step;
    }
  }

  // ----- Arithmetic progressions -----

  /** `from`, `from + step`, ... up to `limit`. */
  function Steps(from: int, step: nat, limit: int): seq<int>
    requires from >= 0 && step >= 1
    decreases limit - from
  {
    if from > limit then [] else [from] + Steps(from + step, step, limit)
  }

  lemma StepsAre(from: int, step: nat, limit: int, x: nat)
    requires from >= 0 && step >= 1
    ensures x in Steps(from, step, limit) <==> from <= x <= limit && Rem(x, step) == Rem(from, step)
    decreases limit - from
  {
    if from <= limit {
      StepsAre(from + step, step, limit, x);
      if from <= x < from + step && Rem(x, step) == Rem(from, step) {
        RemSeparates(from, x, step);
      }
    }
  }

  lemma StepsAtLeast(from: int, step: nat, limit: int)
    requires from >= 0 && step >= 1
    ensures forall x :: x in Steps(from, step, limit) ==> from <= x
    decreases limit - from
  {
    if from <= limit {
      StepsAtLeast(from + step, step, limit);
    }
  }

  lemma {:induction false} JoinNoRepeat(a: seq<int>, b: seq<int>)
    requires NoRepeat(a) && NoRepeat(b) && forall x :: x in a ==> x !in b
    ensures NoRepeat(a + b)
  {
    forall i, j | 0 <= i < j < |a + b|
      ensures (a + b)[i] != (a + b)[j]
    {
      if i < |a| <= j {
        assert a[i] in a && b[j - |a|] in b;
      }
    }
  }

  lemma StepsNoRepeat(from: int, step: nat, limit: int)
    requires from >= 0 && step >= 1
    ensures NoRepeat(Steps(from, step, limit))
    decreases limit - from
  {
    if from <= limit {
      StepsNoRepeat(from + step, step, limit);
      StepsAtLeast(from + step, step, limit);
      JoinNoRepeat([from], Steps(from + step, step, limit));
    }
  }

  // ----- One pass -----

  /** Go's remainder, which takes the sign of the dividend. */
  function GoMod(a: int, b: int): int
    requires b >= 1
  {
    if a >= 0 then a % b else -((-a) % b)
  }

  /** The lowest port of a pass. */
  function First(center: int, step: nat): int
    requires step >= 1
  {
    var r := GoMod(center, step);
    var f := if r < 0 then r + step else r;
    if f == 0 then step else f
  }

  /** The highest port of a pass. */
  function Last(center: int, step: nat, max: nat): int
    requires step >= 1
  {
    var first := First(center, step);
    first + (max - first) / step * step
  }

  /** The residue class of a pass centre, which may lie below zero by less than a step. */
  function Class(center: int, step: nat): nat
    requires step >= 1 && center + step >= 0
  {
    Rem(center + step, step)
  }

  lemma {:induction false} FirstIs(center: int, step: nat)
    requires step >= 1 && center + step > 0
    ensures 1 <= First(center, step) <= step && Rem(First(center, step), step) == Class(center, step)
  {
    if center >= 0 {
      RemIsMod(center, step);
      RemBound(center, step);
      RemBound(Rem(center, step), step);
      RemTwice(center, step);
    } else {
      RemIsMod(-center, step);
    }
  }

  lemma RemTwice(x: nat, step: nat)
    requires step >= 1
    ensures Rem(x, step) < step && Rem(Rem(x, step), step) == Rem(x, step) && Rem(x + step, step) == Rem(x, step)
    ensures Rem(step, step) == 0
  {
    RemBound(x, step);
  }

  lemma {:induction false} LastIs(center: int, step: nat, max: nat)
    requires 1 <= step <= max && center + step > 0
    ensures First(center, step) <= Last(center, step, max) <= max < Last(center, step, max) + step
    ensures Rem(Last(center, step, max), step) == Class(center, step)
  {
    FirstIs(center, step);
    var first := First(center, step);
    Quotient(max - first, step);
    RemAdds(first, (max - first) / step, step);
  }

  lemma Quotient(x: nat, step: nat)
    requires step >= 1
    ensures 0 <= x / step * step <= x < x / step * step + step
  {
  }

  /** The ports of one pass, in the order they are tried. */
  function PassOrder(center: int, step: nat, max: nat): seq<int>
    requires 1 <= step <= max && center + step > 0 && center <= max
  {
    LastIs(center, step, max);
    FirstIs(center, step);
    var first, last := First(center, step), Last(center, step, max);
    if center < 1 then Steps(first, step, last)
    else
      var before := center - step;
      (if before >= first then [before] else []) + Steps(center + step, step, last)
        + Steps(first, step, before - 1) + [center]
  }

  ghost predicate InPass(center: int, step: nat, max: nat, x: int)
    requires step >= 1 && center + step > 0
  {
    1 <= x <= max && Rem(x, step) == Class(center, step)
  }

  /** No port of the class lies above the last one. */
  lemma {:induction false} LastIsHighest(center: int, step: nat, max: nat, x: int)
    requires 1 <= step <= max && center + step > 0 && InPass(center, step, max, x)
    ensures First(center, step) <= x <= Last(center, step, max)
  {
    LastIs(center, step, max);
    FirstIs(center, step);
    var first, last := First(center, step), Last(center, step, max);
    if last <= x {
      RemSeparates(last, x, step);
    }
  }

  /** A pass tries exactly the ports of its residue class. */
  lemma {:induction false} PassMembers(center: int, step: nat, max: nat, x: int)
    requires 1 <= step <= max && center + step > 0 && center <= max
    ensures x in PassOrder(center, step, max) <==> InPass(center, step, max, x)
  {
    hide First, Last, Rem, Steps;
    LastIs(center, step, max);
    FirstIs(center, step);
    var first, last := First(center, step), Last(center, step, max);
    if InPass(center, step, max, x) {
      LastIsHighest(center, step, max, x);
    }
    StepsAtLeast(first, step, last);
    if x >= 1 {
      StepsAre(first, step, last, x);
    }
    if center >= 1 {
      CenterInPass(center, step, max);
      StepsAtLeast(center + step, step, last);
      StepsAtLeast(first, step, center - step - 1);
      if x >= 1 {
        StepsAre(center + step, step, last, x);
        StepsAre(first, step, center - step - 1, x);
        NearCenter(center, step, x);
      }
    }
  }

  lemma {:induction false} CenterInPass(center: int, step: nat, max: nat)
    requires 1 <= step <= max && 1 <= center <= max
    ensures InPass(center, step, max, center) && Rem(center + step, step) == Class(center, step)
    ensures center - step >= First(center, step) ==> InPass(center, step, max, center - step)
  {
    FirstIs(center, step);
    RemTwice(center, step);
  }

  /** Ports of the class around the centre: itself, or at least a step away. */
  lemma {:induction false} NearCenter(center: int, step: nat, x: int)
    requires step >= 1 && center >= 1 && x >= 1
    ensures Rem(x, step) == Rem(center, step) ==>
      x == center || x >= center + step || x == center - step || x < center - step
  {
    if Rem(x, step) == Rem(center, step) {
      if center <= x < center + step {
        RemSeparates(center, x, step);
      }
      if x <= center < x + step {
        RemSeparates(x, center, step);
      }
    }
  }

  lemma {:induction false} PassNoRepeat(center: int, step: nat, max: nat)
    requires 1 <= step <= max && center + step > 0 && center <= max
    ensures NoRepeat(PassOrder(center, step, max))
  {
    hide First, Last, Rem, Steps;
    LastIs(center, step, max);
    FirstIs(center, step);
    var first, last := First(center, step), Last(center, step, max);
    if center < 1 {
      StepsNoRepeat(first, step, last);
    } else {
      var before := center - step;
      var a := if before >= first then [before] else [];
      var b, c := Steps(center + step, step, last), Steps(first, step, before - 1);
      StepsNoRepeat(center + step, step, last);
      StepsNoRepeat(first, step, before - 1);
      StepsAtLeast(center + step, step, last);
      StepsAtMost(first, step, before - 1);
      JoinNoRepeat(a, b);
      JoinNoRepeat(a + b, c);
      JoinNoRepeat(a + b + c, [center]);
    }
  }

  lemma StepsAtMost(from: int, step: nat, limit: int)
    requires from >= 0 && step >= 1
    ensures forall x :: x in Steps(from, step, limit) ==> x <= limit
    decreases limit - from
  {
    if from <= limit {
      StepsAtMost(from + step, step, limit);
    }
  }

  // ----- The order within a pass -----

  /** The port a step below the centre comes first, then those above, then the rest below, and the centre last. */
  function Part(center: int, step: nat, x: int): nat {
    if x == center - step then 0 else if x > center then 1 else if x < center then 2 else 3
  }

  /** In a pass around `center`, port `x` is tried before port `y`: by part, and upwards within a part. */
  predicate Sooner(center: int, step: nat, x: int, y: int) {
    if center < 1 then x < y
    else Part(center, step, x) < Part(center, step, y) || (Part(center, step, x) == Part(center, step, y) && x < y)
  }

  ghost predicate InOrder(center: int, step: nat, s: seq<int>) {
    forall i, j :: 0 <= i < j < |s| ==> Sooner(center, step, s[i], s[j])
  }

  lemma {:induction false} JoinInOrder(center: int, step: nat, a: seq<int>, b: seq<int>)
    requires InOrder(center, step, a) && InOrder(center, step, b)
    requires forall x, y :: x in a && y in b ==> Sooner(center, step, x, y)
    ensures InOrder(center, step, a + b)
  {
    hide Sooner;
    var s := a + b;
    forall i, j | 0 <= i < j < |s|
      ensures Sooner(center, step, s[i], s[j])
    {
      if j < |a| {
        assert s[i] == a[i] && s[j] == a[j];
      } else if i >= |a| {
        assert s[i] == b[i - |a|] && s[j] == b[j - |a|];
      } else {
        assert s[i] in a && s[j] in b;
      }
    }
  }

  /** Ports of one part in steps are in order. */
  lemma StepsInOrder(center: int, step: nat, from: int, stride: nat, limit: int)
    requires from >= 0 && stride >= 1
    requires center < 1 || from > center || limit < center - step
    ensures InOrder(center, step, Steps(from, stride, limit))
    decreases limit - from
  {
    if from <= limit {
      StepsInOrder(center, step, from + stride, stride, limit);
      StepsAtLeast(from + stride, stride, limit);
      StepsAtMost(from + stride, stride, limit);
      JoinInOrder(center, step, [from], Steps(from + stride, stride, limit));
    }
  }

  /** The order of a pass, which together with its members determines it. */
  lemma {:induction false} PassInOrder(center: int, step: nat, max: nat)
    requires 1 <= step <= max && center + step > 0 && center <= max
    ensures InOrder(center, step, PassOrder(center, step, max))
  {
    hide First, Last, Rem, Steps, InOrder;
    LastIs(center, step, max);
    FirstIs(center, step);
    var first, last := First(center, step), Last(center, step, max);
    if center < 1 {
      StepsInOrder(center, step, first, step, last);
    } else {
      var before := center - step;
      var a := if before >= first then [before] else [];
      var b, c := Steps(center + step, step, last), Steps(first, step, before - 1);
      OneInOrder(center, step, before);
      OneInOrder(center, step, center);
      StepsInOrder(center, step, center + step, step, last);
      StepsInOrder(center, step, first, step, before - 1);
      StepsAtLeast(center + step, step, last);
      StepsAtMost(first, step, before - 1);
      JoinInOrder(center, step, a, b);
      JoinInOrder(center, step, a + b, c);
      JoinInOrder(center, step, a + b + c, [center]);
    }
  }

  lemma {:induction false} OneInOrder(center: int, step: nat, x: int)
    ensures InOrder(center, step, [x]) && InOrder(center, step, [])
  {
  }

  // ----- The whole scan -----

  /** The passes from offset `k` on. */
  function ScanFrom(center: int, step: nat, max: nat, k: nat): seq<int>
    requires 1 <= step <= max && 1 <= center <= max && k <= step
    decreases step - k
  {
    if k == step then [] else PassOrder(center - k, step, max) + ScanFrom(center, step, max, k + 1)
  }

  function ScanOrder(center: int, step: nat, max: nat): seq<int> {
    if 1 <= center <= max && 1 <= step <= max then ScanFrom(center, step, max, 0) else []
  }

  /** `x` is tried in the pass at offset `j`. */
  ghost predicate AtOffset(center: int, step: nat, max: nat, j: int, x: int)
    requires 0 <= j < step && center >= 1
  {
    InPass(center - j, step, max, x)
  }

  ghost predicate InLaterPass(center: int, step: nat, max: nat, k: nat, x: int)
    requires step >= 1 && center >= 1
  {
    exists j :: k <= j < step && AtOffset(center, step, max, j, x)
  }

  /** Different offsets have different residue classes. */
  lemma {:induction false} ClassesDiffer(center: int, step: nat, i: nat, j: nat)
    requires step >= 1 && center >= 1 && i < j < step
    ensures Class(center - i, step) != Class(center - j, step)
  {
    if Class(center - i, step) == Class(center - j, step) {
      RemSeparates(center - j + step, center - i + step, step);
    }
  }

  lemma {:induction false} ScanFromMembers(center: int, step: nat, max: nat, k: nat, x: int)
    requires 1 <= step <= max && 1 <= center <= max && k <= step
    ensures x in ScanFrom(center, step, max, k) <==> InLaterPass(center, step, max, k, x)
    decreases step - k
  {
    hide PassOrder, InPass;
    if k < step {
      PassMembers(center - k, step, max, x);
      ScanFromMembers(center, step, max, k + 1, x);
      assert x in ScanFrom(center, step, max, k) <==>
        x in PassOrder(center - k, step, max) || x in ScanFrom(center, step, max, k + 1);
      assert AtOffset(center, step, max, k, x) <==> x in PassOrder(center - k, step, max);
      LaterSplits(center, step, max, k, x);
    }
  }

  lemma {:induction false} LaterSplits(center: int, step: nat, max: nat, k: nat, x: int)
    requires center >= 1 && k < step
    ensures InLaterPass(center, step, max, k, x) <==>
      AtOffset(center, step, max, k, x) || InLaterPass(center, step, max, k + 1, x)
  {
    hide AtOffset;
  }

  lemma {:induction false} ScanFromNoRepeat(center: int, step: nat, max: nat, k: nat)
    requires 1 <= step <= max && 1 <= center <= max && k <= step
    ensures NoRepeat(ScanFrom(center, step, max, k))
    decreases step - k
  {
    hide PassOrder, InPass, NoRepeat;
    if k < step {
      PassNoRepeat(center - k, step, max);
      ScanFromNoRepeat(center, step, max, k + 1);
      var pass, rest := PassOrder(center - k, step, max), ScanFrom(center, step, max, k + 1);
      forall x | x in pass
        ensures x !in rest
      {
        OncePerScan(center, step, max, k, x);
      }
      JoinNoRepeat(pass, rest);
    } else {
      NothingRepeats();
    }
  }

  lemma NothingRepeats()
    ensures NoRepeat<int>([])
  {
  }

  lemma {:induction false} OncePerScan(center: int, step: nat, max: nat, k: nat, x: int)
    requires 1 <= step <= max && 1 <= center <= max && k < step && x in PassOrder(center - k, step, max)
    ensures x !in ScanFrom(center, step, max, k + 1)
  {
    hide PassOrder, ScanFrom, Rem;
    PassMembers(center - k, step, max, x);
    ScanFromMembers(center, step, max, k + 1, x);
    forall j | k + 1 <= j < step
      ensures !AtOffset(center, step, max, j, x)
    {
      ClassesDiffer(center, step, k, j);
    }
  }

  /** Every port belongs to some pass. */
  lemma {:induction false} SomePass(center: int, step: nat, max: nat, x: int)
    requires 1 <= step <= max && 1 <= center <= max && 1 <= x <= max
    ensures InLaterPass(center, step, max, 0, x)
  {
    var y := Rem(x, step);
    RemBound(x, step);
    var z := center + step - y;
    var k := Rem(z, step);
    RemBound(z, step);
    RemCancels(y, z, step);
    RemTwice(x, step);
    assert AtOffset(center, step, max, k, x);
  }

  /** `x` is tried before `y`: in an earlier pass, or sooner in the same one. Pass `k` is that of the ports `k` below the centre, by steps. */
  ghost predicate Precedes(center: int, step: nat, max: nat, x: int, y: int)
    requires step >= 1 && center >= 1
  {
    exists k, l :: 0 <= k <= l < step && AtOffset(center, step, max, k, x) && AtOffset(center, step, max, l, y)
      && (k == l ==> Sooner(center - k, step, x, y))
  }

  /** The order of the whole scan, which together with its members determines it. */
  lemma {:induction false} ScanInOrder(center: int, step: nat, max: nat, k: nat, i: nat, j: nat)
    requires 1 <= step <= max && 1 <= center <= max && k <= step && i < j < |ScanFrom(center, step, max, k)|
    ensures Precedes(center, step, max, ScanFrom(center, step, max, k)[i], ScanFrom(center, step, max, k)[j])
    decreases step - k
  {
    hide PassOrder, InPass, Sooner;
    var pass, rest := PassOrder(center - k, step, max), ScanFrom(center, step, max, k + 1);
    var x, y := ScanFrom(center, step, max, k)[i], ScanFrom(center, step, max, k)[j];
    PassMembers(center - k, step, max, x);
    PassMembers(center - k, step, max, y);
    if j < |pass| {
      PassInOrder(center - k, step, max);
      assert x == pass[i] && y == pass[j] && Sooner(center - k, step, x, y);
      assert AtOffset(center, step, max, k, x) && AtOffset(center, step, max, k, y);
    } else if i >= |pass| {
      ScanInOrder(center, step, max, k + 1, i - |pass|, j - |pass|);
    } else {
      assert x in pass && y == rest[j - |pass|] && y in rest;
      ScanFromMembers(center, step, max, k + 1, y);
      var l :| k + 1 <= l < step && AtOffset(center, step, max, l, y);
      assert AtOffset(center, step, max, k, x);
    }
  }

  /** The scan tries every port from 1 to the maximum exactly once. */
  lemma {:induction false} ScanIsPermutation(center: int, step: nat, max: nat)
    requires 1 <= step <= max && 1 <= center <= max
    ensures NoRepeat(ScanOrder(center, step, max))
    ensures forall x :: x in ScanOrder(center, step, max) <==> 1 <= x <= max
  {
    hide ScanFrom, InLaterPass, NoRepeat;
    ScanFromNoRepeat(center, step, max, 0);
    forall x
      ensures x in ScanOrder(center, step, max) <==> 1 <= x <= max
    {
      ScanFromMembers(center, step, max, 0, x);
      if 1 <= x <= max {
        SomePass(center, step, max, x);
      } else {
        NoPass(center, step, max, x);
      }
    }
  }

  lemma NoPass(center: int, step: nat, max: nat, x: int)
    requires 1 <= step <= max && 1 <= center <= max && !(1 <= x <= max)
    ensures !InLaterPass(center, step, max, 0, x)
  {
  }

  /** The advertised port comes last in its own, the first, pass. */
  lemma {:induction false} CenterEndsFirstPass(center: int, step: nat, max: nat)
    requires 1 <= step <= max && 1 <= center <= max
    ensures var n := |PassOrder(center, step, max)|;
      && 1 <= n <= |ScanOrder(center, step, max)|
      && ScanOrder(center, step, max)[..n] == PassOrder(center, step, max)
      && ScanOrder(center, step, max)[n - 1] == center
  {
    var pass, rest := PassOrder(center, step, max), ScanFrom(center, step, max, 1);
    assert ScanOrder(center, step, max) == pass + rest;
    assert pass[|pass| - 1] == center;
  }

  // ----- The visitor -----

  /** Calls the visitor on each port until it declines to go on. */
  function Visit(order: seq<int>, visit: (seq<int>, int) -> bool, done: seq<int>): (seq<int>, bool) {
    if order == [] then (done, true)
    else if !visit(done, order[0]) then (done + [order[0]], false)
    else Visit(order[1..], visit, done + [order[0]])
  }

  lemma {:induction false} VisitAppend(a: seq<int>, b: seq<int>, visit: (seq<int>, int) -> bool, done: seq<int>)
    ensures var (d, ok) := Visit(a, visit, done);
      Visit(a + b, visit, done) == if ok then Visit(b, visit, d) else (d, false)
  {
    if a == [] {
      assert a + b == b;
    } else {
      assert (a + b)[1..] == a[1..] + b;
      VisitAppend(a[1..], b, visit, done + [a[0]]);
    }
  }

  /** The visitor accepts every port it sees but the last, and that one too unless the walk stops there. */
  lemma {:induction false} VisitStops(order: seq<int>, visit: (seq<int>, int) -> bool, done: seq<int>, i: nat)
    requires var (d, ok) := Visit(order, visit, done); |done| <= i < |d|
    ensures var (d, ok) := Visit(order, visit, done);
      && |done| <= |d| && d[..|done|] == done
      && (visit(d[..i], d[i]) <==> ok || i < |d| - 1)
  {
    VisitIsPrefix(order, visit, done);
    if order != [] && visit(done, order[0]) {
      var more := done + [order[0]];
      VisitIsPrefix(order[1..], visit, more);
      var (d, ok) := Visit(order, visit, done);
      if i > |done| {
        VisitStops(order[1..], visit, more, i);
      } else {
        assert d[..i] == done && d[i] == more[i];
      }
    }
  }

  /** What a visitor sees is a prefix of the order, the whole of it when it never stops. */
  lemma {:induction false} VisitIsPrefix(order: seq<int>, visit: (seq<int>, int) -> bool, done: seq<int>)
    ensures var (d, ok) := Visit(order, visit, done);
      && d <= done + order
      && (ok ==> d == done + order)
      && (!ok ==> |d| > |done|)
  {
    if order != [] {
      if visit(done, order[0]) {
        VisitIsPrefix(order[1..], visit, done + [order[0]]);
        assert done + [order[0]] + order[1..] == done + order;
      } else {
        assert (done + order)[..|done| + 1] == done + [order[0]];
      }
    }
  }

  method VisitSteps(from: int, step: nat, limit: int, visit: (seq<int>, int) -> bool, done: seq<int>)
    returns (visited: seq<int>, ok: bool)
    requires from >= 0 && step >= 1
    ensures (visited, ok) == Visit(Steps(from, step, limit), visit, done)
  {
    visited := done;
    var port := from;
    while port <= limit
      invariant port >= 0
      invariant Visit(Steps(from, step, limit), visit, done) == Visit(Steps(port, step, limit), visit, visited)
      decreases limit - port
    {
      var more := visit(visited, port);
      visited := visited + [port];
      if !more {
        return visited, false;
      }
      port := port + step;
    }
    ok := true;
  }

  /** `symmetricScanPortPass`. */
  method SymmetricScanPortPass(center: int, step: nat, max: nat, visit: (seq<int>, int) -> bool, done: seq<int>)
    returns (visited: seq<int>, ok: bool)
    requires 1 <= step <= max && center + step > 0 && center <= max
    ensures (visited, ok) == Visit(PassOrder(center, step, max), visit, done)
  {
    LastIs(center, step, max);
    FirstIs(center, step);
    var first, last := First(center, step), Last(center, step, max);
    if center < 1 {
      visited, ok := VisitSteps(first, step, last, visit, done);
      return;
    }
    var before := center - step;
    ghost var a := if before >= first then [before] else [];
    ghost var b, c := Steps(center + step, step, last), Steps(first, step, before - 1);
    VisitAppend(a, b, visit, done);
    VisitAppend(a + b, c, visit, done);
    VisitAppend(a + b + c, [center], visit, done);
    visited := done;
    if before >= first {
      var more := visit(visited, before);
      visited := visited + [before];
      if !more {
        return visited, false;
      }
    }
    visited, ok := VisitSteps(center + step, step, last, visit, visited);
    if !ok {
      return;
    }
    visited, ok := VisitSteps(first, step, before - 1, visit, visited);
    if !ok {
      return;
    }
    ok := visit(visited, center);
    visited := visited + [center];
  }

  lemma {:induction false} NextPass(center: int, step: nat, max: nat, k: nat, visit: (seq<int>, int) -> bool, done: seq<int>)
    requires 1 <= step <= max && 1 <= center <= max && k < step
    ensures var (visited, ok) := Visit(PassOrder(center - k, step, max), visit, done);
      Visit(ScanFrom(center, step, max, k), visit, done) ==
        if ok then Visit(ScanFrom(center, step, max, k + 1), visit, visited) else (visited, false)
  {
    VisitAppend(PassOrder(center - k, step, max), ScanFrom(center, step, max, k + 1), visit, done);
  }

  lemma {:induction false} LastPass(center: int, step: nat, max: nat, visit: (seq<int>, int) -> bool, done: seq<int>)
    requires 1 <= step <= max && 1 <= center <= max
    ensures Visit(ScanFrom(center, step, max, step), visit, done) == (done, true)
  {
  }

  /** The loop over the offsets. */
  method ScanPasses(center: int, step: nat, max: nat, visit: (seq<int>, int) -> bool) returns (visited: seq<int>)
    requires 1 <= step <= max && 1 <= center <= max
    ensures visited == Visit(ScanFrom(center, step, max, 0), visit, []).0
  {
    hide Visit, PassOrder, ScanFrom;
    visited := [];
    var ok := true;
    ghost var whole := Visit(ScanFrom(center, step, max, 0), visit, []);
    for offset := 0 to step
      invariant whole == Visit(ScanFrom(center, step, max, offset), visit, visited)
    {
      NextPass(center, step, max, offset, visit, visited);
      visited, ok := SymmetricScanPortPass(center - offset, step, max, visit, visited);
      if !ok {
        return;
      }
    }
    LastPass(center, step, max, visit, visited);
  }

  /** `symmetricScanPorts`, for any maximum port. */
  method SymmetricScanPorts(center: int, step: int, max: nat, visit: (seq<int>, int) -> bool) returns (visited: seq<int>)
    ensures !(1 <= center <= max && 1 <= step <= max) ==> visited == []
    ensures step >= 0 ==> visited == Visit(ScanOrder(center, step, max), visit, []).0
  {
    hide PassOrder, ScanFrom;
    if center < 1 || center > max || step < 1 || step > max {
      return [];
    }
    visited := ScanPasses(center, step, max, visit);
  }
}
