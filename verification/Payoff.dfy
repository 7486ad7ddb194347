/** Expiration payoff of a list of option legs: trading/ai_options_research/payoff.py. */
module Payoff {
  import opened Prelude
  import opened PiecewiseLinear

  datatype Side = Buy | Sell

  datatype OptionType = Call | Put

  datatype ResolvedLeg = ResolvedLeg(side: Side, optionType: OptionType, strike: real, price: Option<real>)

  datatype PayoffResult = PayoffResult(
    netPremium: Option<real>,
    maxProfit: Option<real>, maxProfitUnbounded: bool,
    maxLoss: Option<real>, maxLossUnbounded: bool,
    breakevens: seq<real>, priced: bool)

  const FAR_MULTIPLE := 4.0
  const EPS := 0.000000001
  const UNPRICED := PayoffResult(None, None, false, None, false, [], false)

  // ----- the curve -----

  function LegPayoff(leg: ResolvedLeg, s: real): real {
    var intrinsic := if leg.optionType.Call? then Max(s - leg.strike, 0.0) else Max(leg.strike - s, 0.0);
    var sign := if leg.side.Buy? then 1.0 else -1.0;
    var premium := if leg.side.Buy? then -leg.price.GetOr(0.0) else leg.price.GetOr(0.0);
    sign * intrinsic + premium
  }

  function Pnl(legs: seq<ResolvedLeg>, s: real): real {
    if legs == [] then 0.0 else Pnl(legs[..|legs| - 1], s) + LegPayoff(legs[|legs| - 1], s)
  }

  predicate AllPriced(legs: seq<ResolvedLeg>) {
    forall i :: 0 <= i < |legs| ==> legs[i].price.Some?
  }

  function LegPremium(leg: ResolvedLeg): real {
    if leg.side.Sell? then leg.price.GetOr(0.0) else -leg.price.GetOr(0.0)
  }

  /** Positive for a net credit, negative for a net debit. */
  function NetPremium(legs: seq<ResolvedLeg>): real {
    if legs == [] then 0.0 else NetPremium(legs[..|legs| - 1]) + LegPremium(legs[|legs| - 1])
  }

  function Strikes(legs: seq<ResolvedLeg>): seq<real> {
    seq(|legs|, i requires 0 <= i < |legs| => legs[i].strike)
  }

  /** The sorted set of strikes. */
  function Breakpoints(legs: seq<ResolvedLeg>): (r: seq<real>)
    ensures Increasing(r)
    ensures forall x :: x in r <==> exists i :: 0 <= i < |legs| && legs[i].strike == x
    ensures legs != [] ==> r != []
  {
    var strikes := Strikes(legs);
    assert forall i :: 0 <= i < |legs| ==> strikes[i] == legs[i].strike;
    Sort(Distinct(strikes))
  }

  /** What one leg adds to the slope beyond every strike. */
  function CallSign(side: Side, optionType: OptionType): int {
    if optionType.Put? then 0 else if side.Buy? then 1 else -1
  }

  /** Long calls minus short calls. */
  function TailSlope(legs: seq<ResolvedLeg>): int {
    if legs == [] then 0
    else
      var last := legs[|legs| - 1];
      TailSlope(legs[..|legs| - 1]) + CallSign(last.side, last.optionType)
  }

  function Flip(side: Side): Side { if side.Buy? then Sell else Buy }

  /** The counterparty's legs: every side flipped. */
  function Mirror(legs: seq<ResolvedLeg>): seq<ResolvedLeg> {
    seq(|legs|, i requires 0 <= i < |legs| => legs[i].(side := Flip(legs[i].side)))
  }

  /** What the holder of the legs makes, the counterparty loses, at every price. */
  lemma {:induction false} ZeroSum(legs: seq<ResolvedLeg>, s: real)
    ensures Pnl(Mirror(legs), s) == -Pnl(legs, s)
    ensures NetPremium(Mirror(legs)) == -NetPremium(legs) && TailSlope(Mirror(legs)) == -TailSlope(legs)
  {
    if legs != [] {
      ZeroSum(legs[..|legs| - 1], s);
      assert Mirror(legs)[..|legs| - 1] == Mirror(legs[..|legs| - 1]);
    }
  }

  /** `back` are the same contracts on the other side, each at a price no better than that of `legs`. */
  ghost predicate Reverses(back: seq<ResolvedLeg>, legs: seq<ResolvedLeg>) {
    |back| == |legs| && forall i :: 0 <= i < |legs| ==>
      && back[i].(price := legs[i].price) == Mirror(legs)[i]
      && LegPremium(back[i]) <= LegPremium(Mirror(legs)[i])
  }

  lemma {:induction false} ReversesBelow(back: seq<ResolvedLeg>, legs: seq<ResolvedLeg>, s: real)
    requires Reverses(back, legs)
    ensures Pnl(back, s) <= Pnl(Mirror(legs), s)
  {
    if legs != [] {
      var n := |legs| - 1;
      assert Mirror(legs)[..n] == Mirror(legs[..n]);
      ReversesBelow(back[..n], legs[..n], s);
    }
  }

  /** Taking legs and reversing them at no better prices never gains, wherever the price ends. */
  lemma ReversingNeverGains(back: seq<ResolvedLeg>, legs: seq<ResolvedLeg>, s: real)
    requires Reverses(back, legs)
    ensures Pnl(legs, s) + Pnl(back, s) <= 0.0
  {
    hide Pnl;
    ReversesBelow(back, legs, s);
    ZeroSum(legs, s);
  }

  // ----- the curve as a hinge sum -----

  function LegHinge(leg: ResolvedLeg): Hinge {
    Hinge(leg.optionType.Call?, leg.strike, if leg.side.Buy? then 1 else -1)
  }

  function Hinges(legs: seq<ResolvedLeg>): seq<Hinge> {
    seq(|legs|, i requires 0 <= i < |legs| => LegHinge(legs[i]))
  }

  lemma {:induction false} PnlSplits(legs: seq<ResolvedLeg>, s: real)
    ensures Pnl(legs, s) == Total(Hinges(legs), s) + NetPremium(legs)
  {
    if legs != [] {
      PnlSplits(legs[..|legs| - 1], s);
      assert Hinges(legs)[..|legs| - 1] == Hinges(legs[..|legs| - 1]);
    }
  }

  lemma {:induction false} TailSlopeIsCallWeight(legs: seq<ResolvedLeg>)
    ensures CallWeight(Hinges(legs)) == TailSlope(legs)
  {
    if legs != [] {
      TailSlopeIsCallWeight(legs[..|legs| - 1]);
      assert Hinges(legs)[..|legs| - 1] == Hinges(legs[..|legs| - 1]);
    }
  }

  /** Beyond the strikes the P&L is a line of slope TailSlope. */
  lemma PnlTail(legs: seq<ResolvedLeg>, a: real, x: real)
    requires a <= x && forall i :: 0 <= i < |legs| ==> legs[i].strike <= a
    ensures Pnl(legs, x) == Pnl(legs, a) + Times(TailSlope(legs), x - a)
  {
    hide Times, Total, CallWeight, TailSlope, Pnl, NetPremium;
    PnlSplits(legs, x);
    PnlSplits(legs, a);
    TailSlopeIsCallWeight(legs);
    RightTail(Hinges(legs), a, x);
  }

  ghost predicate StrikeFree(legs: seq<ResolvedLeg>, a: real, b: real) {
    forall i :: 0 <= i < |legs| ==> !(a < legs[i].strike < b)
  }

  /** Between neighbouring breakpoints the P&L is a line; `k` is its slope. */
  lemma PnlSegment(legs: seq<ResolvedLeg>, a: real, b: real) returns (k: int)
    requires StrikeFree(legs, a, b)
    ensures forall x :: a <= x <= b ==> Pnl(legs, x) == Pnl(legs, a) + Times(k, x - a)
  {
    hide Times, Total, Slope, Pnl, NetPremium;
    k := Slope(Hinges(legs), a);
    forall x | a <= x <= b ensures Pnl(legs, x) == Pnl(legs, a) + Times(k, x - a) {
      PnlSplits(legs, x);
      PnlSplits(legs, a);
      Affine(Hinges(legs), a, x);
    }
  }

  // ----- what max profit, max loss and the flags mean -----

  ghost predicate RisesAbove(legs: seq<ResolvedLeg>, m: real) {
    exists s :: 0.0 <= s && m < Pnl(legs, s)
  }

  ghost predicate FallsBelow(legs: seq<ResolvedLeg>, m: real) {
    exists s :: 0.0 <= s && Pnl(legs, s) < m
  }

  ghost predicate UnboundedAbove(legs: seq<ResolvedLeg>) {
    forall m: real :: RisesAbove(legs, m)
  }

  ghost predicate UnboundedBelow(legs: seq<ResolvedLeg>) {
    forall m: real :: FallsBelow(legs, m)
  }

  /** `v` is attained and is the greatest P&L over prices of at least `floor`. */
  ghost predicate IsMaximum(legs: seq<ResolvedLeg>, floor: real, v: real) {
    && (exists s :: floor <= s && Pnl(legs, s) == v)
    && (forall s :: floor <= s ==> Pnl(legs, s) <= v)
  }

  ghost predicate IsMinimum(legs: seq<ResolvedLeg>, floor: real, v: real) {
    && (exists s :: floor <= s && Pnl(legs, s) == v)
    && (forall s :: floor <= s ==> v <= Pnl(legs, s))
  }

  /** The lowest price examined: zero, unless a strike is negative. */
  ghost function PriceFloor(legs: seq<ResolvedLeg>): (f: real)
    requires legs != []
  {
    Min(0.0, Breakpoints(legs)[0])
  }

  lemma FloorBelowStrikes(legs: seq<ResolvedLeg>, i: int)
    requires 0 <= i < |legs|
    ensures PriceFloor(legs) <= legs[i].strike
  {
    hide Breakpoints;
    StrikeInRange(legs, i);
  }

  /** With no negative strike the extremes are over every price from zero up. */
  lemma PriceFloorIsZero(legs: seq<ResolvedLeg>)
    requires legs != [] && forall i :: 0 <= i < |legs| ==> 0.0 <= legs[i].strike
    ensures PriceFloor(legs) == 0.0
  {
    assert Breakpoints(legs)[0] in Breakpoints(legs);
  }

  /**
    Every price from the floor up has its P&L between two evaluated values, or lies on the tail
    of an evaluated point.
  */
  lemma PnlLocate(legs: seq<ResolvedLeg>, points: seq<real>, x: real) returns (a: real, b: real, tail: bool)
    requires forall i :: 0 <= i < |legs| ==> legs[i].strike in points
    requires exists p :: p in points && p <= x
    ensures a in points && a <= x
    ensures !tail ==> b in points && Min(Pnl(legs, a), Pnl(legs, b)) <= Pnl(legs, x) <= Max(Pnl(legs, a), Pnl(legs, b))
    ensures tail ==> Pnl(legs, x) == Pnl(legs, a) + Times(TailSlope(legs), x - a)
  {
    hide Times, Total, CallWeight, TailSlope, Pnl, NetPremium;
    a, b, tail := Locate(Hinges(legs), points, x);
    PnlSplits(legs, a);
    PnlSplits(legs, b);
    PnlSplits(legs, x);
    TailSlopeIsCallWeight(legs);
  }

  /** With no upward tail, a bound at zero and at every strike is a bound everywhere. */
  lemma BoundedAbove(legs: seq<ResolvedLeg>, points: seq<real>, m: real, x: real)
    requires TailSlope(legs) <= 0
    requires forall i :: 0 <= i < |legs| ==> legs[i].strike in points
    requires exists p :: p in points && p <= x
    requires forall p :: p in points ==> Pnl(legs, p) <= m
    ensures Pnl(legs, x) <= m
  {
    hide Times, TailSlope, Pnl;
    var a, b, tail := PnlLocate(legs, points, x);
    if tail { TimesSign(TailSlope(legs), x - a); }
  }

  lemma BoundedBelow(legs: seq<ResolvedLeg>, points: seq<real>, m: real, x: real)
    requires TailSlope(legs) >= 0
    requires forall i :: 0 <= i < |legs| ==> legs[i].strike in points
    requires exists p :: p in points && p <= x
    requires forall p :: p in points ==> m <= Pnl(legs, p)
    ensures m <= Pnl(legs, x)
  {
    hide Times, TailSlope, Pnl;
    var a, b, tail := PnlLocate(legs, points, x);
    if tail { TimesSign(TailSlope(legs), x - a); }
  }

  /** A price past zero and past every strike. */
  function PastStrikes(legs: seq<ResolvedLeg>): (p: real)
    ensures 0.0 <= p && forall i :: 0 <= i < |legs| ==> legs[i].strike <= p
  {
    if legs == [] then 0.0
    else Max(PastStrikes(legs[..|legs| - 1]), legs[|legs| - 1].strike)
  }

  /** A sloped tail moves by at least one unit of P&L per unit of price. */
  lemma TailMoves(legs: seq<ResolvedLeg>, a: real, s: real)
    requires a <= s && forall i :: 0 <= i < |legs| ==> legs[i].strike <= a
    ensures TailSlope(legs) > 0 ==> Pnl(legs, s) >= Pnl(legs, a) + (s - a)
    ensures TailSlope(legs) < 0 ==> Pnl(legs, s) <= Pnl(legs, a) - (s - a)
    ensures TailSlope(legs) == 0 ==> Pnl(legs, s) == Pnl(legs, a)
  {
    hide Times, TailSlope, Pnl;
    PnlTail(legs, a, s);
    TimesSign(TailSlope(legs), s - a);
  }

  /** The tail slope alone decides whether profit or loss is unbounded over all prices. */
  lemma UnboundedIffTailSlope(legs: seq<ResolvedLeg>)
    ensures UnboundedAbove(legs) <==> TailSlope(legs) > 0
    ensures UnboundedBelow(legs) <==> TailSlope(legs) < 0
  {
    hide Times, TailSlope, Pnl;
    var a := PastStrikes(legs);
    var k := TailSlope(legs);
    forall m: real | k > 0 ensures RisesAbove(legs, m) {
      var s := a + Max(m - Pnl(legs, a), 0.0) + 1.0;
      TailMoves(legs, a, s);
    }
    forall m: real | k < 0 ensures FallsBelow(legs, m) {
      var s := a + Max(Pnl(legs, a) - m, 0.0) + 1.0;
      TailMoves(legs, a, s);
    }
    var points := [0.0] + Breakpoints(legs);
    assert 0.0 in points;
    var values := Values(legs, points);
    if k <= 0 && UnboundedAbove(legs) {
      assert RisesAbove(legs, MaxOf(values));
      var s :| 0.0 <= s && MaxOf(values) < Pnl(legs, s);
      BoundedAbove(legs, points, MaxOf(values), s);
    }
    if k >= 0 && UnboundedBelow(legs) {
      assert FallsBelow(legs, MinOf(values));
      var s :| 0.0 <= s && Pnl(legs, s) < MinOf(values);
      BoundedBelow(legs, points, MinOf(values), s);
    }
  }

  // ----- evaluation at finitely many points -----

  function Values(legs: seq<ResolvedLeg>, points: seq<real>): (v: seq<real>)
    ensures |v| == |points|
    ensures forall i :: 0 <= i < |v| ==> v[i] == Pnl(legs, points[i])
    ensures forall p :: p in points ==> Pnl(legs, p) in v
  {
    var v := seq(|points|, i requires 0 <= i < |points| => Pnl(legs, points[i]));
    assert forall i :: 0 <= i < |points| ==> v[i] == Pnl(legs, points[i]);
    v
  }

  function MaxOf(s: seq<real>): (m: real)
    requires s != []
    ensures m in s && forall x :: x in s ==> x <= m
  {
    if |s| == 1 then s[0] else
      var rest := MaxOf(s[1..]);
      assert s == [s[0]] + s[1..];
      Max(s[0], rest)
  }

  function MinOf(s: seq<real>): (m: real)
    requires s != []
    ensures m in s && forall x :: x in s ==> m <= x
  {
    if |s| == 1 then s[0] else
      var rest := MinOf(s[1..]);
      assert s == [s[0]] + s[1..];
      Min(s[0], rest)
  }

  // ----- the engine -----

  function FarPoint(strikes: seq<real>): (far: real)
    requires Increasing(strikes) && strikes != []
    ensures strikes[|strikes| - 1] < far
  {
    var lo, hi := strikes[0], strikes[|strikes| - 1];
    hi + Max(Max(FAR_MULTIPLE * (hi - lo), FAR_MULTIPLE * hi), 1000.0)
  }

  /** Two probes past the strikes recover the tail slope exactly, so the EPS test reads its sign. */
  lemma ProbedSlope(legs: seq<ResolvedLeg>, far: real)
    requires legs != [] && Breakpoints(legs)[|Breakpoints(legs)| - 1] < far
    ensures var hi := Breakpoints(legs)[|Breakpoints(legs)| - 1];
            (Pnl(legs, far) - Pnl(legs, hi)) / (far - hi) == TailSlope(legs) as real
  {
    hide Pnl, Breakpoints, TailSlope, Times;
    var hi := Breakpoints(legs)[|Breakpoints(legs)| - 1];
    forall i | 0 <= i < |legs| ensures legs[i].strike <= hi { StrikeInRange(legs, i); }
    PnlTail(legs, hi, far);
    Quotient(TailSlope(legs), far - hi);
  }

  lemma Quotient(k: int, d: real)
    requires d != 0.0
    ensures Times(k, d) / d == k as real
  {}

  /** What a payoff result promises about its legs. */
  ghost predicate Describes(r: PayoffResult, legs: seq<ResolvedLeg>) {
    && (r.priced <==> legs != [] && AllPriced(legs))
    && (!r.priced ==> r.netPremium.None? && r.maxProfit.None? && r.maxLoss.None?
                      && !r.maxProfitUnbounded && !r.maxLossUnbounded && r.breakevens == [])
    && (r.priced ==>
      && r.netPremium == Some(NetPremium(legs))
      && (r.maxProfitUnbounded <==> UnboundedAbove(legs))
      && (r.maxLossUnbounded <==> UnboundedBelow(legs))
      && (r.maxProfit.Some? <==> !r.maxProfitUnbounded)
      && (r.maxLoss.Some? <==> !r.maxLossUnbounded)
      && (r.maxProfit.Some? ==> IsMaximum(legs, PriceFloor(legs), r.maxProfit.value))
      && (r.maxLoss.Some? ==> exists m :: IsMinimum(legs, PriceFloor(legs), m) && r.maxLoss.value == Max(-m, 0.0))
      && Increasing(r.breakevens)
      && (0.0 <= PriceFloor(legs) ==> ExactBreakevens(legs, r.breakevens) && FindsZeros(legs, r.breakevens)))
  }

  /** Five times some strike, or 1000 past it. */
  ghost predicate WithinReach(legs: seq<ResolvedLeg>, z: real) {
    exists i :: 0 <= i < |legs| && (z <= 5.0 * legs[i].strike || z <= legs[i].strike + 1000.0)
  }

  /** The zeros within reach, all of them and nothing else; a flat stretch is named by where it starts. */
  ghost predicate FindsZeros(legs: seq<ResolvedLeg>, breakevens: seq<real>) {
    && (forall b :: b in breakevens ==> 0.0 <= b && Pnl(legs, b) == 0.0 && WithinReach(legs, b))
    && (forall z :: 0.0 <= z && Pnl(legs, z) == 0.0 && WithinReach(legs, z) ==> Reported(legs, breakevens, z))
  }

  method ComputePayoff(legs: seq<ResolvedLeg>) returns (r: PayoffResult)
    ensures Describes(r, legs)
  {
    hide Times, Pnl, TailSlope, NetPremium, Breakpoints, FarPoint, Values, MaxOf, MinOf, PriceFloor;
    hide UnboundedAbove, UnboundedBelow, IsMaximum, IsMinimum, IsBreakeven, SegmentEnds, EvaluationPoints, FindsZeros;
    if legs == [] || !AllPriced(legs) { return UNPRICED; }

    var strikes := Breakpoints(legs);
    var lo, hi := strikes[0], strikes[|strikes| - 1];
    var far := FarPoint(strikes);

    var slopeRight := (Pnl(legs, far) - Pnl(legs, hi)) / (far - hi);
    ProbedSlope(legs, far);
    UnboundedIffTailSlope(legs);
    var profitUnbounded := slopeRight > EPS;
    var lossUnbounded := slopeRight < -EPS;

    var evalPoints := [0.0] + strikes;
    if !profitUnbounded && !lossUnbounded { evalPoints := evalPoints + [far]; }
    EvaluatedEnough(legs);
    var values := Values(legs, evalPoints);
    var maxProfit := if profitUnbounded then None else Some(MaxOf(values));
    var maxLoss := if lossUnbounded then None else Some(Max(-MinOf(values), 0.0));
    if !profitUnbounded { ExtremeProfit(legs, evalPoints); }
    if !lossUnbounded { ExtremeLoss(legs, evalPoints); }

    var breakevens := FindBreakevens(legs, strikes, far);
    FloorSign(legs);
    if 0.0 <= lo { ZerosFound(legs, breakevens); }
    r := PayoffResult(Some(NetPremium(legs)), maxProfit, profitUnbounded, maxLoss, lossUnbounded, breakevens, true);
  }

  lemma FloorSign(legs: seq<ResolvedLeg>)
    requires legs != []
    ensures 0.0 <= PriceFloor(legs) <==> 0.0 <= Breakpoints(legs)[0]
  {}

  lemma EvaluatedEnough(legs: seq<ResolvedLeg>)
    requires legs != []
    ensures EvaluationPoints(legs, [0.0] + Breakpoints(legs))
    ensures EvaluationPoints(legs, [0.0] + Breakpoints(legs) + [FarPoint(Breakpoints(legs))])
  {
    var strikes := Breakpoints(legs);
    assert strikes[0] in strikes;
    forall p | p in strikes ensures strikes[0] <= p {
      var j :| 0 <= j < |strikes| && strikes[j] == p;
    }
  }

  lemma StrikeInRange(legs: seq<ResolvedLeg>, i: int)
    requires 0 <= i < |legs|
    ensures Breakpoints(legs) != []
    ensures Breakpoints(legs)[0] <= legs[i].strike <= Breakpoints(legs)[|Breakpoints(legs)| - 1]
  {
    var strikes := Breakpoints(legs);
    assert legs[i].strike in strikes;
    var j :| 0 <= j < |strikes| && strikes[j] == legs[i].strike;
  }

  ghost predicate EvaluationPoints(legs: seq<ResolvedLeg>, points: seq<real>)
    requires legs != []
  {
    && points != []
    && 0.0 in points
    && (forall i :: 0 <= i < |legs| ==> legs[i].strike in points)
    && Breakpoints(legs)[0] in points
    && (forall p :: p in points ==> PriceFloor(legs) <= p)
  }

  lemma ExtremeProfit(legs: seq<ResolvedLeg>, points: seq<real>)
    requires legs != [] && EvaluationPoints(legs, points) && TailSlope(legs) <= 0
    ensures IsMaximum(legs, PriceFloor(legs), MaxOf(Values(legs, points)))
  {
    var m := MaxOf(Values(legs, points));
    forall s | PriceFloor(legs) <= s ensures Pnl(legs, s) <= m { BoundedAbove(legs, points, m, s); }
    var i :| 0 <= i < |points| && Values(legs, points)[i] == m;
    assert points[i] in points && Pnl(legs, points[i]) == m;
  }

  lemma ExtremeLoss(legs: seq<ResolvedLeg>, points: seq<real>)
    requires legs != [] && EvaluationPoints(legs, points) && TailSlope(legs) >= 0
    ensures IsMinimum(legs, PriceFloor(legs), MinOf(Values(legs, points)))
  {
    var m := MinOf(Values(legs, points));
    forall s | PriceFloor(legs) <= s ensures m <= Pnl(legs, s) { BoundedBelow(legs, points, m, s); }
    var i :| 0 <= i < |points| && Values(legs, points)[i] == m;
    assert points[i] in points && Pnl(legs, points[i]) == m;
  }

  // ----- breakevens -----

  /** Zero, the strikes, and the far probe: the ends of the segments searched. */
  function SegmentEnds(legs: seq<ResolvedLeg>): (points: seq<real>)
    requires legs != []
    ensures |points| == |Breakpoints(legs)| + 2
  {
    [0.0] + Breakpoints(legs) + [FarPoint(Breakpoints(legs))]
  }

  /** A zero of the P&L at a segment end, or strictly inside a segment that is not zero throughout. */
  ghost predicate IsBreakeven(legs: seq<ResolvedLeg>, points: seq<real>, b: real) {
    && Pnl(legs, b) == 0.0
    && (b in points || exists i :: 0 <= i < |points| - 1 && InsideSegment(points, i, b) && Pnl(legs, points[i]) != 0.0)
  }

  predicate InsideSegment(points: seq<real>, i: int, b: real)
    requires 0 <= i < |points| - 1
  {
    points[i] < b < points[i + 1]
  }

  function Crossing(p0: real, p1: real, v0: real, v1: real): real
    requires v1 != v0
  {
    p0 + (0.0 - v0) * (p1 - p0) / (v1 - v0)
  }

  /** The ends and segments before `i` have given up all their breakevens, and nothing else. */
  ghost predicate Found(legs: seq<ResolvedLeg>, i: int, breakevens: seq<real>)
    requires legs != [] && 0 <= i < |SegmentEnds(legs)|
  {
    var points := SegmentEnds(legs);
    && (forall b :: b in breakevens ==> IsBreakeven(legs, points, b))
    && (forall j :: 0 <= j < i && Pnl(legs, points[j]) == 0.0 ==> points[j] in breakevens)
    && (forall j :: 0 <= j < i && Pnl(legs, points[j]) != 0.0 ==> HoldsZerosInside(legs, j, breakevens))
  }

  ghost predicate HoldsZerosInside(legs: seq<ResolvedLeg>, j: int, breakevens: seq<real>)
    requires legs != [] && 0 <= j < |SegmentEnds(legs)| - 1
  {
    forall b :: InsideSegment(SegmentEnds(legs), j, b) && Pnl(legs, b) == 0.0 ==> b in breakevens
  }

  method FindBreakevens(legs: seq<ResolvedLeg>, strikes: seq<real>, far: real) returns (r: seq<real>)
    requires legs != [] && strikes == Breakpoints(legs) && far == FarPoint(strikes)
    ensures Increasing(r)
    ensures 0.0 <= strikes[0] ==> forall b :: b in r <==> IsBreakeven(legs, SegmentEnds(legs), b)
  {
    hide Times, Pnl, Found, IsBreakeven, Breakpoints, FarPoint, Crossing, Values, Sort;
    var points := [0.0] + strikes + [far];
    var values := Values(legs, points);
    var breakevens := [];
    var i := 0;
    FoundNothing(legs);
    while i < |points| - 1
      invariant 0 <= i <= |points| - 1
      invariant 0.0 <= strikes[0] ==> Found(legs, i, breakevens)
    {
      ghost var before := breakevens;
      var p0, p1 := points[i], points[i + 1];
      var v0, v1 := values[i], values[i + 1];
      if v0 == 0.0 {
        breakevens := breakevens + [p0];
      } else if (v0 < 0.0) != (v1 < 0.0) && v1 != v0 {
        breakevens := breakevens + [Crossing(p0, p1, v0, v1)];
      }
      if 0.0 <= strikes[0] { FoundSegment(legs, i, before); }
      i := i + 1;
    }
    ghost var searched := breakevens;
    if values[|values| - 1] == 0.0 && (breakevens == [] || breakevens[|breakevens| - 1] != points[|points| - 1]) {
      breakevens := breakevens + [points[|points| - 1]];
    }
    if 0.0 <= strikes[0] { FoundAll(legs, searched); }

    var seen: set<real> := {};
    var result: seq<real> := [];
    i := 0;
    while i < |breakevens|
      invariant 0 <= i <= |breakevens|
      invariant NoDuplicates(result) && seen == set x | x in result
      invariant forall x :: x in result <==> x in breakevens[..i]
    {
      if breakevens[i] !in seen {
        seen := seen + {breakevens[i]};
        result := result + [breakevens[i]];
      }
      i := i + 1;
    }
    r := Sort(result);
  }

  lemma FoundNothing(legs: seq<ResolvedLeg>)
    requires legs != []
    ensures Found(legs, 0, [])
  {}

  lemma FoundSegment(legs: seq<ResolvedLeg>, i: int, found: seq<real>)
    requires legs != [] && 0.0 <= Breakpoints(legs)[0] && 0 <= i < |SegmentEnds(legs)| - 1
    requires Found(legs, i, found)
    ensures var p0, p1 := SegmentEnds(legs)[i], SegmentEnds(legs)[i + 1];
            var v0, v1 := Pnl(legs, p0), Pnl(legs, p1);
            Found(legs, i + 1,
                  if v0 == 0.0 then found + [p0]
                  else if (v0 < 0.0) != (v1 < 0.0) && v1 != v0 then found + [Crossing(p0, p1, v0, v1)]
                  else found)
  {
    hide Pnl, Crossing, SegmentEnds, StrikeFree, Breakpoints, Found;
    SegmentStrikeFree(legs, i);
    var points := SegmentEnds(legs);
    var p0, p1 := points[i], points[i + 1];
    var v0, v1 := Pnl(legs, p0), Pnl(legs, p1);
    if v0 == 0.0 {
      FoundMore(legs, i, found, p0);
      FoundNext(legs, i, found + [p0]);
    } else {
      SegmentZeros(legs, p0, p1);
      if (v0 < 0.0) != (v1 < 0.0) && v1 != v0 {
        var c := Crossing(p0, p1, v0, v1);
        assert c in points || InsideSegment(points, i, c);
        FoundMore(legs, i, found, c);
        FoundNext(legs, i, found + [c]);
      } else {
        FoundNext(legs, i, found);
      }
    }
  }

  lemma FoundNext(legs: seq<ResolvedLeg>, i: int, found: seq<real>)
    requires legs != [] && 0 <= i < |SegmentEnds(legs)| - 1 && Found(legs, i, found)
    requires var v := Pnl(legs, SegmentEnds(legs)[i]);
             if v == 0.0 then SegmentEnds(legs)[i] in found else HoldsZerosInside(legs, i, found)
    ensures Found(legs, i + 1, found)
  {
    hide Pnl, SegmentEnds, IsBreakeven, HoldsZerosInside;
  }

  /** Adding one true breakeven keeps what was found. */
  lemma FoundMore(legs: seq<ResolvedLeg>, i: int, found: seq<real>, b: real)
    requires legs != [] && 0 <= i < |SegmentEnds(legs)|
    requires Found(legs, i, found) && IsBreakeven(legs, SegmentEnds(legs), b)
    ensures Found(legs, i, found + [b])
  {
    hide Pnl, SegmentEnds;
    forall j | 0 <= j < i && Pnl(legs, SegmentEnds(legs)[j]) != 0.0
      ensures HoldsZerosInside(legs, j, found + [b])
    {
      assert HoldsZerosInside(legs, j, found);
    }
  }

  lemma FoundAll(legs: seq<ResolvedLeg>, found: seq<real>)
    requires legs != [] && Found(legs, |SegmentEnds(legs)| - 1, found)
    ensures var points := SegmentEnds(legs);
            var last := points[|points| - 1];
            var all := if Pnl(legs, last) == 0.0
                && (found == [] || found[|found| - 1] != last) then found + [last] else found;
            forall b :: b in all <==> IsBreakeven(legs, points, b)
  {
    hide Pnl, SegmentEnds;
    var points := SegmentEnds(legs);
    var last := points[|points| - 1];
    forall b | IsBreakeven(legs, points, b) ensures b in found || (b == last && Pnl(legs, last) == 0.0) {
      if b in points {
        var j :| 0 <= j < |points| && points[j] == b;
      } else {
        var j :| 0 <= j < |points| - 1 && InsideSegment(points, j, b) && Pnl(legs, points[j]) != 0.0;
        assert HoldsZerosInside(legs, j, found);
      }
    }
  }

  /** Segment ends ascend when no strike is negative, and no strike falls inside a segment. */
  lemma SegmentStrikeFree(legs: seq<ResolvedLeg>, i: int)
    requires legs != [] && 0.0 <= Breakpoints(legs)[0] && 0 <= i < |SegmentEnds(legs)| - 1
    ensures SegmentEnds(legs)[i] <= SegmentEnds(legs)[i + 1]
    ensures StrikeFree(legs, SegmentEnds(legs)[i], SegmentEnds(legs)[i + 1])
  {
    hide Breakpoints, FarPoint;
    var points := SegmentEnds(legs);
    var strikes := Breakpoints(legs);
    EndsAscend(strikes, FarPoint(strikes));
    assert points == [0.0] + strikes + [FarPoint(strikes)];
    forall j | 0 <= j < |legs| ensures !(points[i] < legs[j].strike < points[i + 1]) {
      assert legs[j].strike in strikes;
      var n :| 0 <= n < |strikes| && strikes[n] == legs[j].strike;
      assert points[n + 1] == strikes[n];
      if n + 1 <= i { assert points[n + 1] <= points[i]; } else { assert points[i + 1] <= points[n + 1]; }
    }
  }

  lemma EndsAscend(strikes: seq<real>, far: real)
    requires Increasing(strikes) && strikes != [] && 0.0 <= strikes[0] && strikes[|strikes| - 1] < far
    ensures Nondecreasing([0.0] + strikes + [far])
  {
    var points := [0.0] + strikes + [far];
    assert forall n :: 0 <= n < |strikes| ==> points[n + 1] == strikes[n] && 0.0 <= strikes[n] <= far;
    forall m, n | 0 <= m < n < |points| ensures points[m] <= points[n] {
      if 0 < m && n < |points| - 1 { assert strikes[m - 1] < strikes[n - 1]; }
    }
  }

  /** What one segment with a nonzero left end contributes. */
  lemma SegmentZeros(legs: seq<ResolvedLeg>, p0: real, p1: real)
    requires p0 <= p1 && StrikeFree(legs, p0, p1) && Pnl(legs, p0) != 0.0
    ensures var v0, v1 := Pnl(legs, p0), Pnl(legs, p1);
            if (v0 < 0.0) != (v1 < 0.0) && v1 != v0 then
              var c := Crossing(p0, p1, v0, v1);
              p0 < c <= p1 && Pnl(legs, c) == 0.0 && forall b :: p0 < b < p1 && Pnl(legs, b) == 0.0 ==> b == c
            else
              forall b :: p0 < b < p1 ==> Pnl(legs, b) != 0.0
  {
    hide Times, Pnl, StrikeFree, Crossing;
    var k := PnlSegment(legs, p0, p1);
    var v0, v1 := Pnl(legs, p0), Pnl(legs, p1);
    if (v0 < 0.0) != (v1 < 0.0) && v1 != v0 {
      CrossingIsZero(p0, p1, v0, v1, k);
      var c := Crossing(p0, p1, v0, v1);
      forall b | p0 < b < p1 && Pnl(legs, b) == 0.0 ensures b == c { OneZero(v0, k, b - p0, c - p0); }
    } else {
      forall b | p0 < b < p1 ensures Pnl(legs, b) != 0.0 {
        if Pnl(legs, b) == 0.0 { ZeroInside(v0, k, b - p0, p1 - p0); }
      }
    }
  }

  lemma CrossingIsZero(p0: real, p1: real, v0: real, v1: real, k: int)
    requires p0 <= p1 && v1 == v0 + Times(k, p1 - p0) && v0 != 0.0
    requires (v0 < 0.0) != (v1 < 0.0) && v1 != v0
    ensures p0 < Crossing(p0, p1, v0, v1) <= p1
    ensures v0 + Times(k, Crossing(p0, p1, v0, v1) - p0) == 0.0
  {
    var d := p1 - p0;
    var q := Crossing(p0, p1, v0, v1) - p0;
    assert k != 0 && d != 0.0;
    CancelFactor(-v0, k, d);
    SlopeReaches(v0, v1, k, q, d);
  }

  lemma CancelFactor(n: real, k: int, d: real)
    requires k != 0 && d != 0.0 && Times(k, d) != 0.0
    ensures Times(k, n * d / Times(k, d)) == n
  {
    var t := n / k as real;
    assert (t * k as real) * d == t * (k as real * d);
    assert n * d / Times(k, d) == t;
  }

  /** A line of slope `k` from `v0` at 0 to `v1` at `d` that is zero at `q` and changes sign has `q` in (0, d]. */
  lemma SlopeReaches(v0: real, v1: real, k: int, q: real, d: real)
    requires 0.0 <= d && v0 != 0.0 && v1 == v0 + Times(k, d) && v0 + Times(k, q) == 0.0
    requires (v0 < 0.0) != (v1 < 0.0) && v1 != v0
    ensures 0.0 < q <= d
  {
    TimesSign(k, d);
    if q < 0.0 { TimesSign(k, -q); }
    if q > d { TimesSign(k, q - d); }
    assert Times(k, -q) == v0;
    assert Times(k, q - d) == -v1;
    assert Times(k, 0.0) == 0.0;
  }

  lemma OneZero(v: real, k: int, u: real, w: real)
    requires v != 0.0 && v + Times(k, u) == 0.0 && v + Times(k, w) == 0.0
    ensures u == w
  {
    assert Times(k, u - w) == 0.0;
  }

  lemma ZeroInside(v: real, k: int, u: real, w: real)
    requires 0.0 < u < w && v != 0.0 && v + Times(k, u) == 0.0
    ensures (v < 0.0) != (v + Times(k, w) < 0.0) && Times(k, w) != 0.0
  {
    TimesSign(k, u);
    TimesSign(k, w - u);
    assert Times(k, w) == Times(k, u) + Times(k, w - u);
  }

  // ----- which zeros the search reports -----

  ghost predicate ZeroThroughout(legs: seq<ResolvedLeg>, a: real, b: real) {
    forall y :: a <= y <= b ==> Pnl(legs, y) == 0.0
  }

  /** A zero is reported itself, or the P&L is zero all the way to it from a reported breakeven. */
  ghost predicate Reported(legs: seq<ResolvedLeg>, breakevens: seq<real>, z: real) {
    z in breakevens || exists a :: a in breakevens && a < z && ZeroThroughout(legs, a, z)
  }

  ghost predicate ExactBreakevens(legs: seq<ResolvedLeg>, breakevens: seq<real>)
    requires legs != []
  {
    forall b :: b in breakevens <==> IsBreakeven(legs, SegmentEnds(legs), b)
  }

  lemma LocateSegment(points: seq<real>, z: real, n: int) returns (i: int)
    requires 0 < n < |points| && points[0] <= z <= points[n]
    ensures z in points || (0 <= i < |points| - 1 && InsideSegment(points, i, z))
  {
    i := n - 1;
    if points[i] > z {
      if i > 0 { i := LocateSegment(points, z, i); }
    } else if points[i] == z || points[n] == z {
      assert z in points;
    }
  }

  lemma FlatSegment(legs: seq<ResolvedLeg>, p0: real, p1: real, z: real)
    requires p0 < z < p1 && StrikeFree(legs, p0, p1) && Pnl(legs, p0) == 0.0 == Pnl(legs, z)
    ensures ZeroThroughout(legs, p0, p1)
  {
    hide Times, Pnl, StrikeFree;
    var k := PnlSegment(legs, p0, p1);
    TimesSign(k, z - p0);
    forall y | p0 <= y <= p1 ensures Pnl(legs, y) == 0.0 { TimesSign(k, y - p0); }
  }

  ghost predicate OnListedFlat(legs: seq<ResolvedLeg>, breakevens: seq<real>, i: int, z: real)
    requires legs != [] && 0 <= i < |SegmentEnds(legs)| - 1
  {
    var p0, p1 := SegmentEnds(legs)[i], SegmentEnds(legs)[i + 1];
    p0 < z < p1 && p0 in breakevens && p1 in breakevens && ZeroThroughout(legs, p0, p1)
  }

  /** Up to the far probe, a zero not listed lies on a segment that is zero throughout with both ends listed. */
  lemma BreakevensComplete(legs: seq<ResolvedLeg>, breakevens: seq<real>, z: real)
    requires legs != [] && 0.0 <= Breakpoints(legs)[0] && ExactBreakevens(legs, breakevens)
    requires 0.0 <= z <= FarPoint(Breakpoints(legs)) && Pnl(legs, z) == 0.0
    ensures z in breakevens ||
            exists i :: 0 <= i < |SegmentEnds(legs)| - 1 && OnListedFlat(legs, breakevens, i, z)
  {
    hide Pnl, StrikeFree, Breakpoints, FarPoint;
    var points := SegmentEnds(legs);
    var i := LocateSegment(points, z, |points| - 1);
    if z !in breakevens {
      assert Pnl(legs, points[i]) == 0.0;
      SegmentStrikeFree(legs, i);
      FlatSegment(legs, points[i], points[i + 1], z);
      assert OnListedFlat(legs, breakevens, i, z);
    }
  }

  lemma BreakevensReported(legs: seq<ResolvedLeg>, breakevens: seq<real>, z: real)
    requires legs != [] && 0.0 <= Breakpoints(legs)[0] && ExactBreakevens(legs, breakevens)
    requires 0.0 <= z <= FarPoint(Breakpoints(legs)) && Pnl(legs, z) == 0.0
    ensures Reported(legs, breakevens, z)
  {
    hide Pnl, SegmentEnds, FarPoint, ExactBreakevens, Breakpoints;
    BreakevensComplete(legs, breakevens, z);
    if z !in breakevens {
      var i :| 0 <= i < |SegmentEnds(legs)| - 1 && OnListedFlat(legs, breakevens, i, z);
      var p0, p1 := SegmentEnds(legs)[i], SegmentEnds(legs)[i + 1];
      assert p0 < z < p1 && ZeroThroughout(legs, p0, p1);
      assert ZeroThroughout(legs, p0, z);
    }
  }

  /** The far probe in numbers. */
  lemma FarInNumbers(legs: seq<ResolvedLeg>, z: real)
    requires legs != [] && 0.0 <= Breakpoints(legs)[0]
    ensures z <= FarPoint(Breakpoints(legs)) <==> WithinReach(legs, z)
  {
    hide Breakpoints;
    var strikes := Breakpoints(legs);
    var hi := strikes[|strikes| - 1];
    forall i | 0 <= i < |legs| ensures strikes[0] <= legs[i].strike <= hi { StrikeInRange(legs, i); }
    assert hi in strikes;
    var i :| 0 <= i < |legs| && legs[i].strike == hi;
    assert strikes[0] <= hi;
  }

  lemma ZerosFound(legs: seq<ResolvedLeg>, breakevens: seq<real>)
    requires legs != [] && 0.0 <= Breakpoints(legs)[0] && ExactBreakevens(legs, breakevens)
    ensures FindsZeros(legs, breakevens)
  {
    hide Pnl, Breakpoints, FarPoint, SegmentEnds, Reported, WithinReach, IsBreakeven;
    forall b | b in breakevens ensures 0.0 <= b && Pnl(legs, b) == 0.0 && WithinReach(legs, b) {
      BreakevensBelowFar(legs, b);
      FarInNumbers(legs, b);
      BreakevenIsZero(legs, b);
    }
    forall z | 0.0 <= z && Pnl(legs, z) == 0.0 && WithinReach(legs, z) ensures Reported(legs, breakevens, z) {
      FarInNumbers(legs, z);
      BreakevensReported(legs, breakevens, z);
    }
  }

  lemma BreakevenIsZero(legs: seq<ResolvedLeg>, b: real)
    requires legs != [] && 0.0 <= Breakpoints(legs)[0] && IsBreakeven(legs, SegmentEnds(legs), b)
    ensures 0.0 <= b && Pnl(legs, b) == 0.0
  {
    hide Pnl, Breakpoints, FarPoint;
    var strikes := Breakpoints(legs);
    EndsAscend(strikes, FarPoint(strikes));
    var points := SegmentEnds(legs);
    assert forall i :: 0 <= i < |points| ==> points[0] <= points[i];
  }

  /** The P&L at the far probe still has the sign opposite to the way the tail is heading. */
  predicate TailCrossesLate(legs: seq<ResolvedLeg>)
    requires legs != []
  {
    var far := FarPoint(Breakpoints(legs));
    (TailSlope(legs) > 0 && Pnl(legs, far) < 0.0) || (TailSlope(legs) < 0 && Pnl(legs, far) > 0.0)
  }

  lemma BreakevensBelowFar(legs: seq<ResolvedLeg>, b: real)
    requires legs != [] && 0.0 <= Breakpoints(legs)[0] && IsBreakeven(legs, SegmentEnds(legs), b)
    ensures b <= FarPoint(Breakpoints(legs))
  {
    hide Pnl;
    var points := SegmentEnds(legs);
    forall i | 0 <= i < |points| ensures points[i] <= FarPoint(Breakpoints(legs)) {
      SegmentEndsBelowFar(legs, i);
    }
  }

  lemma SegmentEndsBelowFar(legs: seq<ResolvedLeg>, i: int)
    requires legs != [] && 0.0 <= Breakpoints(legs)[0] && 0 <= i < |SegmentEnds(legs)|
    ensures SegmentEnds(legs)[i] <= FarPoint(Breakpoints(legs))
    decreases |SegmentEnds(legs)| - i
  {
    if i + 1 < |SegmentEnds(legs)| {
      SegmentStrikeFree(legs, i);
      SegmentEndsBelowFar(legs, i + 1);
    }
  }

  /** Where a tail that is still on the wrong side at `far` finally crosses zero. */
  lemma LateCrossing(legs: seq<ResolvedLeg>, far: real) returns (z: real)
    requires forall i :: 0 <= i < |legs| ==> legs[i].strike <= far
    requires (TailSlope(legs) > 0 && Pnl(legs, far) < 0.0) || (TailSlope(legs) < 0 && Pnl(legs, far) > 0.0)
    ensures far < z && Pnl(legs, z) == 0.0
  {
    hide Pnl, TailSlope;
    var k, v := TailSlope(legs), Pnl(legs, far);
    var d := -v / k as real;
    assert Times(k, d) == -v;
    assert Times(k, -d) == v;
    TimesSign(k, Abs(d));
    z := far + d;
    PnlTail(legs, far, z);
    assert z - far == d;
  }

  lemma FarPastStrikes(legs: seq<ResolvedLeg>)
    requires legs != []
    ensures forall i :: 0 <= i < |legs| ==> legs[i].strike <= FarPoint(Breakpoints(legs))
  {
    forall i | 0 <= i < |legs| ensures legs[i].strike <= FarPoint(Breakpoints(legs)) { StrikeInRange(legs, i); }
  }

  /** Every zero over all prices is reported exactly when the tail has no crossing left beyond the far probe. */
  lemma BreakevensReportedIff(legs: seq<ResolvedLeg>, breakevens: seq<real>)
    requires legs != [] && 0.0 <= Breakpoints(legs)[0] && ExactBreakevens(legs, breakevens)
    ensures (forall z :: 0.0 <= z && Pnl(legs, z) == 0.0 ==> Reported(legs, breakevens, z)) <==> !TailCrossesLate(legs)
  {
    hide Times, Pnl, TailSlope, SegmentEnds, FarPoint, Breakpoints, IsBreakeven;
    var far := FarPoint(Breakpoints(legs));
    FarPastStrikes(legs);
    if TailCrossesLate(legs) {
      var z := LateCrossing(legs, far);
      forall b | b in breakevens ensures b <= far { BreakevensBelowFar(legs, b); }
      assert !Reported(legs, breakevens, z);
      assert 0.0 <= z by { FarPositive(legs); }
    } else {
      forall z | 0.0 <= z && Pnl(legs, z) == 0.0 ensures Reported(legs, breakevens, z) {
        if z <= far {
          BreakevensReported(legs, breakevens, z);
        } else {
          TailMoves(legs, far, z);
          assert ZeroThroughout(legs, far, z) by {
            forall y | far <= y <= z ensures Pnl(legs, y) == 0.0 { TailMoves(legs, far, y); }
          }
          FarIsBreakeven(legs);
        }
      }
    }
  }

  lemma FarPositive(legs: seq<ResolvedLeg>)
    requires legs != [] && 0.0 <= Breakpoints(legs)[0]
    ensures 0.0 < FarPoint(Breakpoints(legs))
  {}

  lemma FarIsBreakeven(legs: seq<ResolvedLeg>)
    requires legs != [] && Pnl(legs, FarPoint(Breakpoints(legs))) == 0.0
    ensures IsBreakeven(legs, SegmentEnds(legs), FarPoint(Breakpoints(legs)))
  {
    var points := SegmentEnds(legs);
    assert points[|points| - 1] in points;
  }

  /** A call bought for more than the probe distance: its breakeven exists and is not reported. */
  lemma LateBreakevenMissed()
    ensures var legs := [ResolvedLeg(Buy, Call, 100.0, Some(2000.0))];
            && TailCrossesLate(legs)
            && Pnl(legs, 2100.0) == 0.0
            && !IsBreakeven(legs, SegmentEnds(legs), 2100.0)
  {
    var leg := ResolvedLeg(Buy, Call, 100.0, Some(2000.0));
    var legs := [leg];
    OneLegEnds(leg);
    OneLegCurve(leg, 1100.0);
    OneLegCurve(leg, 2100.0);
    hide Pnl, TailSlope, SegmentEnds, Breakpoints, FarPoint;
  }

  lemma OneLegEnds(leg: ResolvedLeg)
    requires leg.strike == 100.0
    ensures Breakpoints([leg]) == [100.0] && FarPoint(Breakpoints([leg])) == 1100.0
    ensures SegmentEnds([leg]) == [0.0, 100.0, 1100.0]
  {
    hide Breakpoints;
    var r := Breakpoints([leg]);
    forall i | 0 <= i < |r| ensures r[i] == 100.0 { assert r[i] in r; }
    assert |r| == 1 && r == [100.0];
    assert SegmentEnds([leg]) == [0.0] + [100.0] + [1100.0];
  }

  /** All zeros are reported exactly when the P&L at five times the top strike, or 1000 past it, is on course. */
  lemma AllReportedIff(r: PayoffResult, legs: seq<ResolvedLeg>, top: real)
    requires Describes(r, legs) && r.priced && forall i :: 0 <= i < |legs| ==> 0.0 <= legs[i].strike <= top
    requires exists i :: 0 <= i < |legs| && legs[i].strike == top
    ensures (forall z :: 0.0 <= z && Pnl(legs, z) == 0.0 ==> Reported(legs, r.breakevens, z)) <==>
            var far := Max(5.0 * top, top + 1000.0);
            !(TailSlope(legs) > 0 && Pnl(legs, far) < 0.0) && !(TailSlope(legs) < 0 && Pnl(legs, far) > 0.0)
  {
    hide Pnl, TailSlope, Breakpoints, Reported, IsMaximum, IsMinimum, UnboundedAbove, UnboundedBelow, NetPremium;
    hide FindsZeros, ExactBreakevens;
    PriceFloorIsZero(legs);
    FloorSign(legs);
    BreakevensReportedIff(legs, r.breakevens);
    FarIs(legs, top);
  }

  lemma FarIs(legs: seq<ResolvedLeg>, top: real)
    requires legs != [] && forall i :: 0 <= i < |legs| ==> 0.0 <= legs[i].strike <= top
    requires exists i :: 0 <= i < |legs| && legs[i].strike == top
    ensures FarPoint(Breakpoints(legs)) == Max(5.0 * top, top + 1000.0)
  {
    hide Breakpoints;
    var strikes := Breakpoints(legs);
    assert strikes[0] in strikes && strikes[|strikes| - 1] in strikes;
    var i :| 0 <= i < |legs| && legs[i].strike == top;
    StrikeInRange(legs, i);
  }

  /** A bought call reports its one breakeven, strike plus price, as long as the price is within reach. */
  lemma BoughtCallBreakeven(r: PayoffResult, strike: real, price: real)
    requires strike >= 0.0 && price > 0.0 && Describes(r, [ResolvedLeg(Buy, Call, strike, Some(price))])
    ensures r.priced && r.netPremium == Some(-price) && r.maxProfitUnbounded && r.maxLoss == Some(price)
    ensures r.breakevens == if price <= Max(4.0 * strike, 1000.0) then [strike + price] else []
  {
    var legs := [ResolvedLeg(Buy, Call, strike, Some(price))];
    CallCurve(strike, price);
    PriceFloorIsZero(legs);
    UnboundedIffTailSlope(legs);
    hide Pnl, TailSlope, Breakpoints, PriceFloor, UnboundedAbove, UnboundedBelow, ExactBreakevens, NetPremium;
    hide FindsZeros, IsMaximum;
    var m :| IsMinimum(legs, PriceFloor(legs), m) && r.maxLoss.value == Max(-m, 0.0);
    assert m <= Pnl(legs, 0.0);
    hide IsMinimum;
    CallZero(legs, r.breakevens, strike, price);
  }

  lemma CallCurve(strike: real, price: real)
    ensures var legs := [ResolvedLeg(Buy, Call, strike, Some(price))];
            && (forall s :: Pnl(legs, s) == Max(s - strike, 0.0) - price)
            && NetPremium(legs) == -price && TailSlope(legs) == 1
  {
    var leg := ResolvedLeg(Buy, Call, strike, Some(price));
    assert [leg][..0] == [] && NetPremium([]) == 0.0;
    forall s ensures Pnl([leg], s) == Max(s - strike, 0.0) - price { OneLegCurve(leg, s); }
    OneLegCurve(leg, 0.0);
  }

  lemma CallZero(legs: seq<ResolvedLeg>, breakevens: seq<real>, strike: real, price: real)
    requires |legs| == 1 && legs[0].strike == strike >= 0.0 && price > 0.0
    requires forall s :: Pnl(legs, s) == Max(s - strike, 0.0) - price
    requires Increasing(breakevens) && FindsZeros(legs, breakevens)
    ensures breakevens == if price <= Max(4.0 * strike, 1000.0) then [strike + price] else []
  {
    hide Pnl;
    var z := strike + price;
    assert WithinReach(legs, z) <==> price <= Max(4.0 * strike, 1000.0);
    assert Pnl(legs, z) == 0.0;
    OneZeroList(breakevens, z, WithinReach(legs, z));
  }

  lemma OneZeroList(s: seq<real>, z: real, there: bool)
    requires Increasing(s) && (forall b :: b in s ==> b == z) && (there <==> z in s)
    ensures s == if there then [z] else []
  {
    Apart(s);
    if there {
      var i :| 0 <= i < |s| && s[i] == z;
      assert s[0] in s;
    }
    assert |s| > 0 ==> s[0] in s;
  }

  lemma Apart(s: seq<real>)
    requires Increasing(s)
    ensures |s| <= 1 || exists x, y :: x in s && y in s && x < y
  {
    if |s| > 1 { assert s[0] in s && s[1] in s && s[0] < s[1]; }
  }

  lemma OneLegCurve(leg: ResolvedLeg, s: real)
    ensures Pnl([leg], s) == LegPayoff(leg, s)
    ensures TailSlope([leg]) == CallSign(leg.side, leg.optionType)
  {
    assert [leg][..0] == [] && Pnl([], s) == 0.0 && TailSlope([]) == 0;
  }
}
