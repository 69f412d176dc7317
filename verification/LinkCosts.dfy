/** Turning configured weights into measured link costs. */
module LinkCosts {
  import opened Wrappers
  import opened Overlay

  const RTT_COST_REFERENCE_MS := 100.0
  const MAX_RTT_COST_FACTOR := 6.0
  const MAX_LOSS_COST_FACTOR := 5.0
  const LAN_COST_FACTOR := 0.5
  const METRIC_LIFETIME := 45

  /** One direction of a link as last reported; `seen` in seconds. */
  datatype Metric = Metric(rttMs: real, loss: real, up: bool, viaLan: bool, seen: int)

  type Metrics = map<(NodeId, NodeId), Metric>

  /** The report from `a` about `b`, if it is recent enough to count. */
  function FreshMetric(metrics: Metrics, a: NodeId, b: NodeId, now: int): Option<Metric> {
    if (a, b) in metrics && now - metrics[(a, b)].seen < METRIC_LIFETIME then Some(metrics[(a, b)]) else None
  }

  function MinReal(a: real, b: real): real {
    if a < b then a else b
  }

  function MergedRtt(forward: Option<Metric>, reverse: Option<Metric>): real {
    var rtt := if forward.Some? then forward.value.rttMs else 0.0;
    if reverse.None? then rtt
    else if rtt == 0.0 then reverse.value.rttMs
    else if reverse.value.rttMs > 0.0 then (rtt + reverse.value.rttMs) / 2.0
    else rtt
  }

  function MergedLoss(forward: Option<Metric>, reverse: Option<Metric>): real {
    var loss := if forward.Some? then forward.value.loss else 0.0;
    if reverse.Some? && reverse.value.loss > loss then reverse.value.loss else loss
  }

  function RttFactor(rtt: real): real {
    if rtt > 0.0 then MinReal(1.0 + rtt / RTT_COST_REFERENCE_MS, MAX_RTT_COST_FACTOR) else 1.0
  }

  function LossFactor(loss: real): real {
    if loss > 0.0 then MinReal(1.0 / (1.0 - MinReal(loss, 0.95)), MAX_LOSS_COST_FACTOR) else 1.0
  }

  /** New nodes are slightly less attractive; `uptime` in seconds, if known for both ends. */
  function UptimeFactor(uptime: Option<nat>): real {
    if uptime.Some? then 1.0 + 1.0 / (1.0 + uptime.value as real / 3600.0) else 1.0
  }

  function StatusFactor(forward: Option<Metric>, reverse: Option<Metric>): real {
    if forward.Some? && reverse.Some? && forward.value.up && reverse.value.up then 1.0
    else if (forward.Some? && !forward.value.up) || (reverse.Some? && !reverse.value.up) then 4.0
    else 2.0
  }

  function LanFactor(forward: Option<Metric>, reverse: Option<Metric>): real {
    if forward.Some? && reverse.Some? && forward.value.viaLan && reverse.value.viaLan then LAN_COST_FACTOR else 1.0
  }

  function BaseCost(cost: real): real {
    if cost <= 0.0 then 1.0 else cost
  }

  function Scale(cost: real, factor: real): real {
    cost * factor
  }

  function DecoratedCost(cost: real, forward: Option<Metric>, reverse: Option<Metric>, uptime: Option<nat>): real {
    var measured := Scale(Scale(BaseCost(cost), RttFactor(MergedRtt(forward, reverse))),
                          LossFactor(MergedLoss(forward, reverse)));
    Scale(Scale(Scale(measured, UptimeFactor(uptime)), StatusFactor(forward, reverse)), LanFactor(forward, reverse))
  }

  lemma FactorBounds(c: real, f: real, lo: real, hi: real)
    requires c >= 0.0 && lo <= f <= hi
    ensures c * lo <= Scale(c, f) <= c * hi
  {
  }

  lemma LossFactorBounds(loss: real)
    ensures 1.0 <= LossFactor(loss) <= 5.0
  {
    if loss > 0.0 {
      var d := 1.0 - MinReal(loss, 0.95);
      assert 0.0 < d < 1.0;
      assert d * (1.0 / d) == 1.0;
    }
  }

  lemma UptimeFactorBounds(uptime: Option<nat>)
    ensures 1.0 <= UptimeFactor(uptime) <= 2.0
  {
    if uptime.Some? {
      var d := 1.0 + uptime.value as real / 3600.0;
      assert d >= 1.0;
      assert d * (1.0 / d) == 1.0;
    }
  }

  /** A decorated cost stays within half and 240 times its base, so it is positive. */
  lemma DecoratedCostBounds(cost: real, forward: Option<Metric>, reverse: Option<Metric>, uptime: Option<nat>)
    ensures 0.5 * BaseCost(cost) <= DecoratedCost(cost, forward, reverse, uptime) <= 240.0 * BaseCost(cost)
    ensures DecoratedCost(cost, forward, reverse, uptime) > 0.0
  {
    hide Scale, RttFactor, LossFactor, UptimeFactor, StatusFactor, LanFactor, BaseCost;
    LossFactorBounds(MergedLoss(forward, reverse));
    UptimeFactorBounds(uptime);
    OtherFactorBounds(cost, forward, reverse);
    ProductBounds(BaseCost(cost), RttFactor(MergedRtt(forward, reverse)), LossFactor(MergedLoss(forward, reverse)),
      UptimeFactor(uptime), StatusFactor(forward, reverse), LanFactor(forward, reverse));
  }

  lemma OtherFactorBounds(cost: real, forward: Option<Metric>, reverse: Option<Metric>)
    ensures BaseCost(cost) > 0.0
    ensures 1.0 <= RttFactor(MergedRtt(forward, reverse)) <= 6.0
    ensures 1.0 <= StatusFactor(forward, reverse) <= 4.0
    ensures 0.5 <= LanFactor(forward, reverse) <= 1.0
  {
  }

  lemma ProductBounds(b: real, rtt: real, loss: real, up: real, status: real, lan: real)
    requires b > 0.0 && 1.0 <= rtt <= 6.0 && 1.0 <= loss <= 5.0
    requires 1.0 <= up <= 2.0 && 1.0 <= status <= 4.0 && 0.5 <= lan <= 1.0
    ensures 0.5 * b <= Scale(Scale(Scale(Scale(Scale(b, rtt), loss), up), status), lan) <= 240.0 * b
  {
    hide Scale;
    var c1 := Scale(b, rtt);
    FactorBounds(b, rtt, 1.0, 6.0);
    var c2 := Scale(c1, loss);
    FactorBounds(c1, loss, 1.0, 5.0);
    var c3 := Scale(c2, up);
    FactorBounds(c2, up, 1.0, 2.0);
    var c4 := Scale(c3, status);
    FactorBounds(c3, status, 1.0, 4.0);
    FactorBounds(c4, lan, 0.5, 1.0);
  }

  /** The smaller uptime of the two ends, when both are known. */
  function PairUptime(uptimes: map<NodeId, nat>, l: Link): Option<nat> {
    if l.a !in uptimes || l.b !in uptimes then None
    else Some(if uptimes[l.a] < uptimes[l.b] then uptimes[l.a] else uptimes[l.b])
  }

  /** The cost of a link by the fresh reports of both ends and their uptime. */
  function MeasuredCost(l: Link, metrics: Metrics, uptimes: map<NodeId, nat>, now: int): real {
    DecoratedCost(l.cost, FreshMetric(metrics, l.a, l.b, now), FreshMetric(metrics, l.b, l.a, now), PairUptime(uptimes, l))
  }

  // ----- What the cost means -----

  /** The product that makes a decorated cost. */
  function Product(b: real, rtt: real, loss: real, up: real, status: real, lan: real): real {
    Scale(Scale(Scale(Scale(Scale(b, rtt), loss), up), status), lan)
  }

  lemma ScaleOut(k: real, c: real, f: real)
    ensures Scale(Scale(c, k), f) == Scale(Scale(c, f), k) && Scale(c, Scale(f, k)) == Scale(Scale(c, f), k)
  {
  }

  /** A multiple of one factor is the same multiple of the product. */
  lemma {:induction false} ProductOut(k: real, b: real, rtt: real, loss: real, up: real, status: real, lan: real)
    ensures Product(b, Scale(rtt, k), loss, up, status, lan) == Scale(Product(b, rtt, loss, up, status, lan), k)
    ensures Product(b, rtt, Scale(loss, k), up, status, lan) == Scale(Product(b, rtt, loss, up, status, lan), k)
    ensures Product(b, rtt, loss, Scale(up, k), status, lan) == Scale(Product(b, rtt, loss, up, status, lan), k)
    ensures Product(b, rtt, loss, up, Scale(status, k), lan) == Scale(Product(b, rtt, loss, up, status, lan), k)
    ensures Product(b, rtt, loss, up, status, Scale(lan, k)) == Scale(Product(b, rtt, loss, up, status, lan), k)
  {
    hide Scale;
    var c1 := Scale(b, rtt);
    var c2 := Scale(c1, loss);
    var c3 := Scale(c2, up);
    var c4 := Scale(c3, status);
    ScaleOut(k, b, rtt);
    ScaleOut(k, c1, loss);
    ScaleOut(k, c2, up);
    ScaleOut(k, c3, status);
    ScaleOut(k, c4, lan);
  }

  /** One factor changed by `k` changes the product by `k`. */
  lemma {:induction false} FactorOut(k: real, b: real, rtt: real, loss: real, up: real, status: real, lan: real)
    ensures Product(b, k * rtt, loss, up, status, lan) == k * Product(b, rtt, loss, up, status, lan)
    ensures Product(b, rtt, k * loss, up, status, lan) == k * Product(b, rtt, loss, up, status, lan)
    ensures Product(b, rtt, loss, k * up, status, lan) == k * Product(b, rtt, loss, up, status, lan)
    ensures Product(b, rtt, loss, up, k * status, lan) == k * Product(b, rtt, loss, up, status, lan)
    ensures Product(b, rtt, loss, up, status, k * lan) == k * Product(b, rtt, loss, up, status, lan)
  {
    ProductOut(k, b, rtt, loss, up, status, lan);
    ScaleIs(k, rtt);
    ScaleIs(k, loss);
    ScaleIs(k, up);
    ScaleIs(k, status);
    ScaleIs(k, lan);
    ScaleIs(k, Product(b, rtt, loss, up, status, lan));
    hide Scale, Product;
  }

  lemma ScaleIs(k: real, c: real)
    ensures Scale(c, k) == k * c
  {
  }

  /** The factors of a decorated cost, with reports of both ends. */
  lemma {:induction false} CostIsProduct(cost: real, f: Option<Metric>, g: Option<Metric>, uptime: Option<nat>)
    ensures DecoratedCost(cost, f, g, uptime) ==
      Product(BaseCost(cost), RttFactor(MergedRtt(f, g)), LossFactor(MergedLoss(f, g)), UptimeFactor(uptime), StatusFactor(f, g), LanFactor(f, g))
  {
  }

  /** The cost of a link that both ends report with these values. */
  function Reported(cost: real, rtt: real, loss: real, up: bool, lan: bool, uptime: Option<nat>): real {
    DecoratedCost(cost, Some(Metric(rtt, loss, up, lan, 0)), Some(Metric(rtt, loss, up, lan, 0)), uptime)
  }

  /** A link that works perfectly costs its base, which is at least its configured weight and 1 without one. */
  lemma {:induction false} PerfectCostsBase(cost: real)
    ensures Reported(cost, 0.0, 0.0, true, false, None) == if cost > 0.0 then cost else 1.0
  {
  }

  /** Two reports count as their mean round-trip time, worse loss, and the state and path that both confirm. */
  lemma {:induction false} TwoReports(cost: real, m: Metric, n: Metric, uptime: Option<nat>)
    requires m.rttMs >= 0.0 && n.rttMs >= 0.0
    ensures DecoratedCost(cost, Some(m), Some(n), uptime) ==
      Reported(cost,
               if m.rttMs == 0.0 then n.rttMs else if n.rttMs == 0.0 then m.rttMs else (m.rttMs + n.rttMs) / 2.0,
               if m.loss < n.loss then n.loss else m.loss,
               m.up && n.up, m.viaLan && n.viaLan, uptime)
  {
    hide Scale, UptimeFactor;
  }

  /** One report alone leaves the state unknown: it costs twice what two like it cost when up, and the same as two when down. */
  lemma {:induction false} OneReport(cost: real, m: Metric, uptime: Option<nat>)
    requires m.rttMs >= 0.0 && m.loss >= 0.0
    ensures var both := Reported(cost, m.rttMs, m.loss, m.up, false, uptime);
      && DecoratedCost(cost, Some(m), None, uptime) == (if m.up then 2.0 * both else both)
      && DecoratedCost(cost, None, Some(m), uptime) == (if m.up then 2.0 * both else both)
  {
    var t := Some(Metric(m.rttMs, m.loss, m.up, false, 0));
    CostIsProduct(cost, t, t, uptime);
    CostIsProduct(cost, Some(m), None, uptime);
    CostIsProduct(cost, None, Some(m), uptime);
    FactorOut(2.0, BaseCost(cost), RttFactor(m.rttMs), LossFactor(m.loss), UptimeFactor(uptime), 1.0, 1.0);
    hide Scale, Product, DecoratedCost, RttFactor, LossFactor, UptimeFactor, BaseCost;
  }

  /** Without a report a link costs twice what it costs when perfect. */
  lemma {:induction false} NoReport(cost: real, uptime: Option<nat>)
    ensures DecoratedCost(cost, None, None, uptime) == 2.0 * Reported(cost, 0.0, 0.0, true, false, uptime)
  {
    var t := Some(Metric(0.0, 0.0, true, false, 0));
    CostIsProduct(cost, t, t, uptime);
    CostIsProduct(cost, None, None, uptime);
    FactorOut(2.0, BaseCost(cost), 1.0, 1.0, UptimeFactor(uptime), 1.0, 1.0);
    hide Scale, Product, DecoratedCost, UptimeFactor, BaseCost;
  }

  /** Down costs four times as much as up, and a local path half as much as another. */
  lemma {:induction false} StatusAndPath(cost: real, rtt: real, loss: real, up: bool, lan: bool, uptime: Option<nat>)
    ensures Reported(cost, rtt, loss, false, lan, uptime) == 4.0 * Reported(cost, rtt, loss, true, lan, uptime)
    ensures Reported(cost, rtt, loss, up, true, uptime) == 0.5 * Reported(cost, rtt, loss, up, false, uptime)
  {
    var b, x, y, z := BaseCost(cost), RttOf(rtt), LossOf(loss), UptimeFactor(uptime);
    ReportedIs(cost, rtt, loss, false, lan, uptime);
    ReportedIs(cost, rtt, loss, true, lan, uptime);
    ReportedIs(cost, rtt, loss, up, true, uptime);
    ReportedIs(cost, rtt, loss, up, false, uptime);
    FactorOut(4.0, b, x, y, z, 1.0, if lan then 0.5 else 1.0);
    FactorOut(0.5, b, x, y, z, if up then 1.0 else 4.0, 1.0);
    hide Reported, Product, RttOf, LossOf, UptimeFactor, BaseCost;
  }

  function RttOf(rtt: real): real {
    RttFactor(MergedRtt(Some(Metric(rtt, 0.0, true, false, 0)), Some(Metric(rtt, 0.0, true, false, 0))))
  }

  function LossOf(loss: real): real {
    LossFactor(MergedLoss(Some(Metric(0.0, loss, true, false, 0)), Some(Metric(0.0, loss, true, false, 0))))
  }

  lemma {:induction false} ReportedIs(cost: real, rtt: real, loss: real, up: bool, lan: bool, uptime: Option<nat>)
    ensures Reported(cost, rtt, loss, up, lan, uptime) ==
      Product(BaseCost(cost), RttOf(rtt), LossOf(loss), UptimeFactor(uptime), if up then 1.0 else 4.0, if lan then 0.5 else 1.0)
  {
    hide Scale, RttFactor, LossFactor, UptimeFactor, BaseCost;
  }

  /** What latency does to a factor of one. */
  function Latency(rtt: real): real {
    if rtt <= 500.0 then 1.0 + rtt / 100.0 else 6.0
  }

  lemma {:induction false} LatencyScales(cost: real, rtt: real, loss: real, up: bool, lan: bool, uptime: Option<nat>)
    requires rtt >= 0.0
    ensures Reported(cost, rtt, loss, up, lan, uptime) == Scale(Reported(cost, 0.0, loss, up, lan, uptime), Latency(rtt))
  {
    var k := Latency(rtt);
    ReportedIs(cost, rtt, loss, up, lan, uptime);
    ReportedIs(cost, 0.0, loss, up, lan, uptime);
    RttOfIs(rtt, k);
    RttOfIs(0.0, 1.0);
    ScaleIs(k, 1.0);
    hide *;
    ProductOut(k, BaseCost(cost), 1.0, LossOf(loss), UptimeFactor(uptime), if up then 1.0 else 4.0, if lan then 0.5 else 1.0);
  }

  /** Latency adds its hundredths of milliseconds to a factor of one, up to six: 100 ms double the cost. */
  lemma {:induction false} LatencyCosts(cost: real, rtt: real, loss: real, up: bool, lan: bool, uptime: Option<nat>)
    requires rtt >= 0.0
    ensures rtt <= 500.0 ==>
      Reported(cost, rtt, loss, up, lan, uptime) == (1.0 + rtt / 100.0) * Reported(cost, 0.0, loss, up, lan, uptime)
    ensures rtt > 500.0 ==> Reported(cost, rtt, loss, up, lan, uptime) == 6.0 * Reported(cost, 0.0, loss, up, lan, uptime)
  {
    hide *;
    LatencyScales(cost, rtt, loss, up, lan, uptime);
    LatencyIs(rtt);
    var k, y := Latency(rtt), Reported(cost, 0.0, loss, up, lan, uptime);
    if rtt <= 500.0 {
      ScaleBy(y, k, 1.0 + rtt / 100.0);
    } else {
      ScaleBy(y, k, 6.0);
    }
  }

  lemma LatencyIs(rtt: real)
    ensures Latency(rtt) == if rtt <= 500.0 then 1.0 + rtt / 100.0 else 6.0
  {
  }

  lemma ScaleBy(x: real, k: real, l: real)
    requires k == l
    ensures Scale(x, k) == l * x
  {
  }

  lemma RttOfIs(rtt: real, k: real)
    requires rtt >= 0.0 && k == if rtt <= 500.0 then 1.0 + rtt / 100.0 else 6.0
    ensures RttOf(rtt) == k && k * 1.0 == k
  {
  }

  lemma {:induction false} LossScales(cost: real, rtt: real, loss: real, up: bool, lan: bool, uptime: Option<nat>)
    requires 0.0 <= loss
    ensures loss <= 0.8 ==> Scale(Reported(cost, rtt, loss, up, lan, uptime), 1.0 - loss) == Reported(cost, rtt, 0.0, up, lan, uptime)
    ensures loss > 0.8 ==> Reported(cost, rtt, loss, up, lan, uptime) == Scale(Reported(cost, rtt, 0.0, up, lan, uptime), 5.0)
  {
    ReportedIs(cost, rtt, loss, up, lan, uptime);
    ReportedIs(cost, rtt, 0.0, up, lan, uptime);
    LossOfIs(loss);
    LossOfIs(0.0);
    ScaleIs(1.0 - loss, LossOf(loss));
    ScaleIs(5.0, 1.0);
    assert loss > 0.8 ==> LossOf(loss) == Scale(1.0, 5.0);
    assert loss <= 0.8 ==> Scale(LossOf(loss), 1.0 - loss) == 1.0;
    hide *;
    var status, path := if up then 1.0 else 4.0, if lan then 0.5 else 1.0;
    ProductOut(1.0 - loss, BaseCost(cost), RttOf(rtt), LossOf(loss), UptimeFactor(uptime), status, path);
    ProductOut(5.0, BaseCost(cost), RttOf(rtt), 1.0, UptimeFactor(uptime), status, path);
  }

  /** Loss costs the expected transmissions per delivery, up to five of them. */
  lemma {:induction false} LossCosts(cost: real, rtt: real, loss: real, up: bool, lan: bool, uptime: Option<nat>)
    requires 0.0 <= loss
    ensures if loss <= 0.8 then (1.0 - loss) * Reported(cost, rtt, loss, up, lan, uptime) == Reported(cost, rtt, 0.0, up, lan, uptime)
      else Reported(cost, rtt, loss, up, lan, uptime) == 5.0 * Reported(cost, rtt, 0.0, up, lan, uptime)
  {
    LossScales(cost, rtt, loss, up, lan, uptime);
    ScaleIs(1.0 - loss, Reported(cost, rtt, loss, up, lan, uptime));
    ScaleIs(5.0, Reported(cost, rtt, 0.0, up, lan, uptime));
    hide Reported, Scale;
  }

  lemma LossOfIs(loss: real)
    requires loss >= 0.0
    ensures loss <= 0.8 ==> (1.0 - loss) * LossOf(loss) == 1.0
    ensures loss > 0.8 ==> LossOf(loss) == 5.0 * 1.0
    ensures loss == 0.0 ==> LossOf(loss) == 1.0
  {
    var l := MinReal(loss, 0.95);
    if loss > 0.0 {
      var d := 1.0 - l;
      assert d > 0.0 && d * (1.0 / d) == 1.0;
      if loss <= 0.8 {
        AtMostFive(d);
      } else {
        AtLeastFive(d);
      }
    }
  }

  lemma AtMostFive(d: real)
    requires 0.2 <= d <= 1.0
    ensures 1.0 / d <= 5.0
  {
    assert d * (1.0 / d) == 1.0;
  }

  lemma AtLeastFive(d: real)
    requires 0.0 < d < 0.2
    ensures 1.0 / d >= 5.0
  {
    assert d * (1.0 / d) == 1.0;
  }

  lemma {:induction false} LatencyGrows(cost: real, rtt: real, rtt': real, loss: real, up: bool, lan: bool, uptime: Option<nat>)
    requires 0.0 <= rtt <= rtt'
    ensures Reported(cost, rtt, loss, up, lan, uptime) <= Reported(cost, rtt', loss, up, lan, uptime)
  {
    var y := Reported(cost, 0.0, loss, up, lan, uptime);
    LatencyScales(cost, rtt, loss, up, lan, uptime);
    LatencyScales(cost, rtt', loss, up, lan, uptime);
    ReportedPositive(cost, 0.0, loss, up, lan, uptime);
    assert 0.0 < Latency(rtt) <= Latency(rtt');
    hide *;
    ScaleGrows(Latency(rtt), Latency(rtt'), y);
  }

  lemma {:induction false} LossGrows(cost: real, rtt: real, loss: real, loss': real, up: bool, lan: bool, uptime: Option<nat>)
    requires 0.0 <= loss <= loss'
    ensures Reported(cost, rtt, loss, up, lan, uptime) <= Reported(cost, rtt, loss', up, lan, uptime)
  {
    hide *;
    LossScales(cost, rtt, loss, up, lan, uptime);
    LossScales(cost, rtt, loss', up, lan, uptime);
    ReportedPositive(cost, rtt, 0.0, up, lan, uptime);
    ReportedPositive(cost, rtt, loss, up, lan, uptime);
    ReportedPositive(cost, rtt, loss', up, lan, uptime);
    TransmissionsGrow(Reported(cost, rtt, 0.0, up, lan, uptime), Reported(cost, rtt, loss, up, lan, uptime),
      Reported(cost, rtt, loss', up, lan, uptime), loss, loss');
  }

  /** Worse latency or loss never lowers the cost. */
  lemma {:induction false} WorseCostsMore(cost: real, rtt: real, loss: real, rtt': real, loss': real, up: bool, lan: bool, uptime: Option<nat>)
    requires 0.0 <= rtt <= rtt' && 0.0 <= loss <= loss'
    ensures Reported(cost, rtt, loss, up, lan, uptime) <= Reported(cost, rtt', loss', up, lan, uptime)
  {
    hide *;
    LatencyGrows(cost, rtt, rtt', loss, up, lan, uptime);
    LossGrows(cost, rtt', loss, loss', up, lan, uptime);
  }

  lemma ScaleGrows(k: real, k': real, y: real)
    requires 0.0 < k <= k' && 0.0 < y
    ensures Scale(y, k) <= Scale(y, k')
  {
  }

  lemma TransmissionsGrow(x: real, y: real, z: real, loss: real, loss': real)
    requires x > 0.0 && y > 0.0 && z > 0.0 && 0.0 <= loss <= loss'
    requires if loss <= 0.8 then Scale(y, 1.0 - loss) == x else y == Scale(x, 5.0)
    requires if loss' <= 0.8 then Scale(z, 1.0 - loss') == x else z == Scale(x, 5.0)
    ensures y <= z
  {
    hide Scale;
    if loss' <= 0.8 {
      ScaleShrinks(1.0 - loss, 1.0 - loss', y, z);
    } else if loss <= 0.8 {
      ScaleByFive(1.0 - loss, x, y);
    }
  }

  lemma ScaleShrinks(a: real, b: real, y: real, z: real)
    requires 0.0 < b <= a && y > 0.0 && Scale(y, a) == Scale(z, b)
    ensures y <= z
  {
    assert (a - b) * y >= 0.0;
    assert (z - y) * b == (a - b) * y;
  }

  lemma ScaleByFive(a: real, x: real, y: real)
    requires a >= 0.2 && y > 0.0 && Scale(y, a) == x
    ensures y <= Scale(x, 5.0)
  {
    assert (a - 0.2) * y >= 0.0;
  }

  lemma ReportedPositive(cost: real, rtt: real, loss: real, up: bool, lan: bool, uptime: Option<nat>)
    ensures Reported(cost, rtt, loss, up, lan, uptime) > 0.0
  {
    DecoratedCostBounds(cost, Some(Metric(rtt, loss, up, lan, 0)), Some(Metric(rtt, loss, up, lan, 0)), uptime);
  }

  lemma {:induction false} UptimeScales(cost: real, f: Option<Metric>, g: Option<Metric>, uptime: nat)
    ensures DecoratedCost(cost, f, g, Some(uptime)) == Scale(DecoratedCost(cost, f, g, None), UptimeFactor(Some(uptime)))
  {
    CostIsProduct(cost, f, g, Some(uptime));
    CostIsProduct(cost, f, g, None);
    var k := UptimeFactor(Some(uptime));
    assert UptimeFactor(None) == 1.0;
    ScaleIs(k, 1.0);
    hide *;
    ProductOut(k, BaseCost(cost), RttFactor(MergedRtt(f, g)), LossFactor(MergedLoss(f, g)), 1.0, StatusFactor(f, g), LanFactor(f, g));
  }

  /** A node that has just started doubles the cost, and the surcharge falls with the hours: after one hour it is a half. */
  lemma {:induction false} UptimeCosts(cost: real, f: Option<Metric>, g: Option<Metric>, seconds: nat)
    ensures (3600 + seconds) as real * DecoratedCost(cost, f, g, Some(seconds)) == (7200 + seconds) as real * DecoratedCost(cost, f, g, None)
  {
    UptimeScales(cost, f, g, seconds);
    UptimeFactorIs(seconds);
    ScaleIs(UptimeFactor(Some(seconds)), DecoratedCost(cost, f, g, None));
    hide *;
    Regroup((3600 + seconds) as real, UptimeFactor(Some(seconds)), (7200 + seconds) as real, DecoratedCost(cost, f, g, None));
  }

  lemma Regroup(a: real, k: real, c: real, p: real)
    requires a * k == c
    ensures a * (k * p) == c * p
  {
  }

  lemma UptimeFactorIs(seconds: nat)
    ensures (3600 + seconds) as real * UptimeFactor(Some(seconds)) == (7200 + seconds) as real
  {
    var h := seconds as real / 3600.0;
    var d := 1.0 + h;
    assert d * (1.0 / d) == 1.0;
    assert (3600 + seconds) as real == 3600.0 * d;
  }

  /** A report of 45 seconds or more counts for nothing; fresh ones and the shorter uptime count as they stand. */
  lemma {:induction false} FreshCounts(l: Link, metrics: Metrics, uptimes: map<NodeId, nat>, now: int)
    ensures (l.a, l.b) in metrics && now - metrics[(l.a, l.b)].seen >= 45 ==>
      MeasuredCost(l, metrics, uptimes, now) == MeasuredCost(l, metrics - {(l.a, l.b)}, uptimes, now)
    ensures (l.b, l.a) in metrics && now - metrics[(l.b, l.a)].seen >= 45 ==>
      MeasuredCost(l, metrics, uptimes, now) == MeasuredCost(l, metrics - {(l.b, l.a)}, uptimes, now)
    ensures forall f, g: Option<Metric>, u: Option<nat> ::
      && (if (l.a, l.b) in metrics && now - metrics[(l.a, l.b)].seen < 45 then f == Some(metrics[(l.a, l.b)]) else f == None)
      && (if (l.b, l.a) in metrics && now - metrics[(l.b, l.a)].seen < 45 then g == Some(metrics[(l.b, l.a)]) else g == None)
      && (if l.a in uptimes && l.b in uptimes
          then u.Some? && u.value <= uptimes[l.a] && u.value <= uptimes[l.b] && (u.value == uptimes[l.a] || u.value == uptimes[l.b])
          else u == None)
      ==> MeasuredCost(l, metrics, uptimes, now) == DecoratedCost(l.cost, f, g, u)
  {
    hide DecoratedCost;
  }

  /** `decorateLinks`: rewrites the cost of every link in place and nothing else that routing reads. */
  method DecorateLinks(links: seq<Link>, metrics: Metrics, uptimes: map<NodeId, nat>, now: int)
    returns (out: seq<Link>)
    ensures |out| == |links|
    ensures forall i :: 0 <= i < |links| ==> out[i] == links[i].(cost := MeasuredCost(links[i], metrics, uptimes, now))
    ensures forall i :: 0 <= i < |links| ==>
      0.5 * BaseCost(links[i].cost) <= out[i].cost <= 240.0 * BaseCost(links[i].cost)
    ensures Positive(out)
  {
    hide DecoratedCost;
    out := [];
    for i := 0 to |links|
      invariant |out| == i
      invariant forall j :: 0 <= j < i ==>
        && out[j] == links[j].(cost := MeasuredCost(links[j], metrics, uptimes, now)) && out[j].cost > 0.0
        && 0.5 * BaseCost(links[j].cost) <= out[j].cost <= 240.0 * BaseCost(links[j].cost)
    {
      var l := links[i];
      var forward, reverse := FreshMetric(metrics, l.a, l.b, now), FreshMetric(metrics, l.b, l.a, now);
      var uptime := if l.a in uptimes && l.b in uptimes
        then Some(if uptimes[l.a] < uptimes[l.b] then uptimes[l.a] else uptimes[l.b]) else None;
      DecoratedCostBounds(l.cost, forward, reverse, uptime);
      out := out + [l.(cost := DecoratedCost(l.cost, forward, reverse, uptime))];
    }
  }
}
