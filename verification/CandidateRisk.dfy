/** Where the generator puts wings, and what that guarantees about a candidate's worst loss. */
module CandidateRisk {
  import opened Prelude
  import opened Payoff
  import opened Strategies
  import opened Candidates

  /** The widths of the strategy's wings, of those it has, are positive. */
  ghost predicate WidthsPositive(strategy: StrategyType, config: Config) {
    var templates := Templates(strategy).GetOr([]);
    forall i :: 0 <= i < |templates| && templates[i].selector.Wing? ==> WingWidth(templates[i].selector, config) > 0.0
  }

  // ----- wing placement -----

  /** A put wing is never above its reference, and strictly below it exactly when a strike in reach is. */
  lemma PutWing(ref: real, width: real, strikes: seq<real>)
    requires ref in strikes && width > 0.0
    ensures ref - 2.0 * width <= NearestStrike(ref - width, strikes) <= ref
    ensures NearestStrike(ref - width, strikes) < ref <==> exists s :: s in strikes && ref - 2.0 * width <= s < ref
  {
    var k := NearestStrike(ref - width, strikes);
    assert Abs(k - (ref - width)) <= Abs(ref - (ref - width)) == width;
  }

  /** A call wing is never below its reference; the tie at twice the width goes to the reference. */
  lemma CallWing(ref: real, width: real, strikes: seq<real>)
    requires ref in strikes && width > 0.0
    ensures ref <= NearestStrike(ref + width, strikes) <= ref + 2.0 * width
    ensures NearestStrike(ref + width, strikes) > ref <==> exists s :: s in strikes && ref < s < ref + 2.0 * width
  {
    var k := NearestStrike(ref + width, strikes);
    assert Abs(k - (ref + width)) <= Abs(ref - (ref + width)) == width;
  }

  /** Put wings at or below their reference, call wings at or above it. */
  ghost predicate WingsPlaced(legs: seq<ResolvedLeg>, templates: seq<LegTemplate>)
    requires |legs| == |templates| && WingsLookBack(templates)
  {
    forall i :: 0 <= i < |legs| && templates[i].selector.Wing? ==>
      if templates[i].optionType.Put? then legs[i].strike <= legs[templates[i].selector.of].strike
      else legs[templates[i].selector.of].strike <= legs[i].strike
  }

  /** Distance of a protective (bought) wing from its reference; zero for any other leg. */
  function WingDistance(legs: seq<ResolvedLeg>, templates: seq<LegTemplate>, i: nat): (d: real)
    requires |legs| == |templates| && WingsLookBack(templates) && i < |legs|
    ensures d >= 0.0
  {
    var t := templates[i];
    if t.selector.Wing? && t.side.Buy? then Abs(legs[i].strike - legs[t.selector.of].strike) else 0.0
  }

  /** Distances of the protective wings among the first `n` legs, summed. */
  function WingRisk(legs: seq<ResolvedLeg>, templates: seq<LegTemplate>, n: nat): real
    requires |legs| == |templates| && WingsLookBack(templates) && n <= |legs|
  {
    if n == 0 then 0.0 else WingRisk(legs, templates, n - 1) + WingDistance(legs, templates, n - 1)
  }

  lemma {:induction false} UnfoldRisk(legs: seq<ResolvedLeg>, templates: seq<LegTemplate>, n: nat)
    requires |legs| == |templates| && WingsLookBack(templates) && 1 <= n <= 4 && n <= |legs|
    ensures WingRisk(legs, templates, n) == WingDistance(legs, templates, 0)
              + (if n > 1 then WingDistance(legs, templates, 1) else 0.0)
              + (if n > 2 then WingDistance(legs, templates, 2) else 0.0)
              + (if n > 3 then WingDistance(legs, templates, 3) else 0.0)
  {
    hide WingDistance;
    if n > 1 {
      UnfoldRisk(legs, templates, n - 1);
    } else {
      assert WingRisk(legs, templates, 0) == 0.0;
    }
  }

  /** Every strike of a candidate is some row's, except that an ATM leg takes the chain's ATM strike as it is. */
  lemma StrikeOfCandidate(c: Candidate, strategy: StrategyType, summary: Summary, config: Config, i: int)
    requires Generated(c, strategy, summary, config) && 0 <= i < |c.legs|
    ensures if Templates(strategy).value[i].selector.Atm? then summary.atmStrike == Some(c.legs[i].strike)
            else c.legs[i].strike in ListedStrikes(summary.rows)
  {
    hide Templates, ListedStrikes, NearestStrike, Describes, ResolveDeltaTarget;
    var leg, strikes := Templates(strategy).value[i], StrikesOf(c.legs);
    assert ResolveLeg(leg, strikes[..i], summary, config) == Some(strikes[i]);
    if leg.selector.DeltaTarget? {
      var row := ResolveDeltaTarget(leg.optionType, summary.rows, config).value;
      RowStrikeListed(summary.rows, row);
    }
  }

  lemma RowStrikeListed(rows: seq<Row>, row: Row)
    requires row in rows
    ensures row.strike in ListedStrikes(rows)
  {
    var i :| 0 <= i < |rows| && rows[i] == row;
  }

  lemma RowListed(rows: seq<Row>, strike: real, optionType: OptionType)
    ensures var row := RowFor(rows, strike, optionType);
            row.Some? ==> row.value in rows && row.value.strike == strike && row.value.optionType == optionType
  {
    hide RowFor;
  }

  /** A leg with a price sits at a strike some row lists, whatever selected it. */
  lemma PricedLegListed(c: Candidate, strategy: StrategyType, summary: Summary, config: Config, i: int)
    requires Generated(c, strategy, summary, config) && 0 <= i < |c.legs| && c.legs[i].price.Some?
    ensures c.legs[i].strike in ListedStrikes(summary.rows)
  {
    hide Templates, ListedStrikes, Describes, Resolution, CheckLiquidity, RowFor;
    var template := Templates(strategy).value[i];
    assert c.legs[i] == BuildLeg(template, StrikesOf(c.legs)[i], summary, config);
    var strike := c.legs[i].strike;
    RowListed(summary.rows, strike, template.optionType);
    RowStrikeListed(summary.rows, RowFor(summary.rows, strike, template.optionType).value);
  }

  /**
    One wing of a candidate, its reference listed and its width positive: on the protective side, at
    most twice its width away, and off its reference exactly when a listed strike is within reach.
  */
  lemma WingOfCandidate(c: Candidate, strategy: StrategyType, summary: Summary, config: Config, i: int)
    requires Generated(c, strategy, summary, config) && 0 <= i < |c.legs|
    requires Templates(strategy).value[i].selector.Wing?
    requires WingWidth(Templates(strategy).value[i].selector, config) > 0.0
    requires c.legs[Templates(strategy).value[i].selector.of].strike in ListedStrikes(summary.rows)
    ensures var t := Templates(strategy).value[i];
            var ref, wing := c.legs[t.selector.of].strike, c.legs[i].strike;
            var reach := 2.0 * WingWidth(t.selector, config);
            if t.optionType.Put? then
              && ref - reach <= wing <= ref
              && (wing < ref <==> exists s :: s in ListedStrikes(summary.rows) && ref - reach <= s < ref)
            else
              && ref <= wing <= ref + reach
              && (ref < wing <==> exists s :: s in ListedStrikes(summary.rows) && ref < s < ref + reach)
  {
    hide Templates, ListedStrikes, NearestStrike, Describes;
    var t := Templates(strategy).value[i];
    var strikes := StrikesOf(c.legs);
    assert ResolveLeg(t, strikes[..i], summary, config) == Some(strikes[i]);
    var width := WingWidth(t.selector, config);
    if t.optionType.Put? {
      PutWing(strikes[t.selector.of], width, ListedStrikes(summary.rows));
    } else {
      CallWing(strikes[t.selector.of], width, ListedStrikes(summary.rows));
    }
  }

  lemma PricedLegs(c: Candidate, strategy: StrategyType, summary: Summary, config: Config)
    requires Generated(c, strategy, summary, config) && c.payoff.value.priced
    ensures forall i :: 0 <= i < |c.legs| ==> c.legs[i].price.Some?
  {
    hide Templates, Resolution, Built, UnboundedAbove, UnboundedBelow, IsMaximum, IsMinimum, ExactBreakevens;
    forall i | 0 <= i < |c.legs| ensures c.legs[i].price.Some? { assert PayoffLegs(c.legs)[i].price.Some?; }
  }

  lemma CandidateWingsPlaced(c: Candidate, strategy: StrategyType, summary: Summary, config: Config)
    requires Generated(c, strategy, summary, config) && c.payoff.value.priced && WidthsPositive(strategy, config)
    ensures Follows(PayoffLegs(c.legs), Templates(strategy).value)
    ensures WingsPlaced(PayoffLegs(c.legs), Templates(strategy).value)
  {
    hide Templates, ListedStrikes, Describes, Resolution, BuildLeg;
    var templates := Templates(strategy).value;
    BuiltFollows(c.legs, templates, StrikesOf(c.legs), summary, config);
    PricedLegs(c, strategy, summary, config);
    forall i | 0 <= i < |templates| && templates[i].selector.Wing?
      ensures if templates[i].optionType.Put? then c.legs[i].strike <= c.legs[templates[i].selector.of].strike
              else c.legs[templates[i].selector.of].strike <= c.legs[i].strike
    {
      PricedLegListed(c, strategy, summary, config, templates[i].selector.of);
      WingOfCandidate(c, strategy, summary, config, i);
    }
  }

  /**
    Where a candidate's strikes are, by strategy and in the configuration's own terms: wings within
    twice their width of a leg of their type and the opposite side, other legs at the money or at a
    best delta.
  */
  lemma StrikesByStrategy(c: Candidate, strategy: StrategyType, summary: Summary, config: Config, i: int)
    requires Generated(c, strategy, summary, config) && c.payoff.value.priced && WidthsPositive(strategy, config)
    requires 0 <= i < |c.legs|
    ensures var leg := c.legs[i];
            if Templates(strategy).value[i].selector.Wing? then
              exists j :: 0 <= j < i && c.legs[j].optionType == leg.optionType && c.legs[j].side == Flip(leg.side) &&
                var reach := 2.0 * (if IsHedged(strategy) then config.hedgeWingWidth else config.wingWidth);
                if leg.optionType.Put? then c.legs[j].strike - reach <= leg.strike <= c.legs[j].strike
                else c.legs[j].strike <= leg.strike <= c.legs[j].strike + reach
            else if UsesDelta(strategy) then
              exists n :: BestDelta(summary.rows, n, leg.optionType, config) && summary.rows[n].strike == leg.strike
            else summary.atmStrike == Some(leg.strike)
  {
    hide Templates, ListedStrikes, NearestStrike, Describes, BestDelta, ResolveDeltaTarget;
    var templates, strikes := Templates(strategy).value, StrikesOf(c.legs);
    SelectorsByStrategy(strategy, i);
    assert forall j :: 0 <= j < |c.legs| ==> c.legs[j] == BuildLeg(templates[j], strikes[j], summary, config);
    assert ResolveLeg(templates[i], strikes[..i], summary, config) == Some(strikes[i]);
    if templates[i].selector.Wing? {
      var j := templates[i].selector.of;
      PricedLegs(c, strategy, summary, config);
      PricedLegListed(c, strategy, summary, config, j);
      WingOfCandidate(c, strategy, summary, config, i);
      assert c.legs[j].optionType == c.legs[i].optionType && c.legs[j].side == Flip(c.legs[i].side);
    }
  }

  // ----- what a placed wing buys -----

  /** A short leg with its protective wing loses at most the distance between them, beyond its premium. */
  lemma CreditPair(short: ResolvedLeg, long: ResolvedLeg, s: real)
    requires short.side.Sell? && long.side.Buy? && short.optionType == long.optionType
    requires if short.optionType.Put? then long.strike <= short.strike else short.strike <= long.strike
    ensures LegPayoff(short, s) + LegPayoff(long, s)
            >= LegPremium(short) + LegPremium(long) - Abs(long.strike - short.strike)
    ensures LegPayoff(short, s) + LegPayoff(long, s) <= LegPremium(short) + LegPremium(long)
  {}

  /** A long leg financed by a short wing never loses more than the premium paid. */
  lemma DebitPair(long: ResolvedLeg, short: ResolvedLeg, s: real)
    requires long.side.Buy? && short.side.Sell? && short.optionType == long.optionType
    requires if short.optionType.Put? then short.strike <= long.strike else long.strike <= short.strike
    ensures LegPayoff(long, s) + LegPayoff(short, s) >= LegPremium(long) + LegPremium(short)
  {}

  lemma LongLeg(leg: ResolvedLeg, s: real)
    requires leg.side.Buy?
    ensures LegPayoff(leg, s) >= LegPremium(leg)
  {}

  lemma {:induction false} Unfold(legs: seq<ResolvedLeg>, s: real)
    requires 1 <= |legs| <= 4
    ensures Pnl(legs, s) == LegPayoff(legs[0], s) + (if |legs| > 1 then LegPayoff(legs[1], s) else 0.0)
              + (if |legs| > 2 then LegPayoff(legs[2], s)
                  else 0.0) + (if |legs| > 3 then LegPayoff(legs[3], s) else 0.0)
    ensures NetPremium(legs) == LegPremium(legs[0]) + (if |legs| > 1 then LegPremium(legs[1]) else 0.0)
              + (if |legs| > 2 then LegPremium(legs[2]) else 0.0) + (if |legs| > 3 then LegPremium(legs[3]) else 0.0)
  {
    hide LegPayoff, LegPremium;
    if |legs| > 1 {
      Unfold(legs[..|legs| - 1], s);
    } else {
      assert Pnl(legs[..0], s) == 0.0 && NetPremium(legs[..0]) == 0.0;
    }
  }

  predicate Naked(strategy: StrategyType) { strategy.ShortStraddle? || strategy.ShortStrangle? }

  /** Every strategy but the two naked ones: at any price, at least the net premium less the wing distances. */
  lemma PnlFloor(strategy: StrategyType, legs: seq<ResolvedLeg>, s: real)
    requires Templates(strategy).Some? && Follows(legs, Templates(strategy).value)
    requires WingsLookBack(Templates(strategy).value) && WingsPlaced(legs, Templates(strategy).value)
    requires !Naked(strategy)
    ensures Pnl(legs, s) >= NetPremium(legs) - WingRisk(legs, Templates(strategy).value, |legs|)
  {
    hide LegPayoff, LegPremium, Pnl, NetPremium, WingRisk;
    Unfold(legs, s);
    UnfoldRisk(legs, Templates(strategy).value, |legs|);
    match strategy
    case BullPutCreditSpread => CreditPair(legs[0], legs[1], s);
    case BearCallCreditSpread => CreditPair(legs[0], legs[1], s);
    case IronCondor => CreditPair(legs[0], legs[1], s); CreditPair(legs[2], legs[3], s);
    case IronFly => CreditPair(legs[0], legs[2], s); CreditPair(legs[1], legs[3], s);
    case HedgedShortStraddle => CreditPair(legs[0], legs[2], s); CreditPair(legs[1], legs[3], s);
    case HedgedShortStrangle => CreditPair(legs[0], legs[2], s); CreditPair(legs[1], legs[3], s);
    case LongCall => LongLeg(legs[0], s);
    case LongPut => LongLeg(legs[0], s);
    case BullCallDebitSpread => DebitPair(legs[0], legs[1], s);
    case BearPutDebitSpread => DebitPair(legs[0], legs[1], s);
    case LongStraddle => LongLeg(legs[0], s); LongLeg(legs[1], s);
    case LongStrangle => LongLeg(legs[0], s); LongLeg(legs[1], s);
  }

  /** At every price the P&L is at least the net premium less the wing distances, and max_loss says no more. */
  ghost predicate LossCovered(c: Candidate, strategy: StrategyType) {
    && c.payoff.Some? && c.payoff.value.maxLoss.Some?
    && Templates(strategy).Some? && |c.legs| == |Templates(strategy).value| && WingsLookBack(Templates(strategy).value)
    && var legs := PayoffLegs(c.legs);
       var risk := WingRisk(legs, Templates(strategy).value, |legs|);
       && (forall s :: NetPremium(legs) - risk <= Pnl(legs, s))
       && c.payoff.value.maxLoss.value <= Max(risk - NetPremium(legs), 0.0)
  }

  /** What a priced result with bounded loss reports: the attained minimum, as a loss. */
  lemma ReportedMinimum(r: PayoffResult, legs: seq<ResolvedLeg>) returns (m: real)
    requires Describes(r, legs) && r.priced && !UnboundedBelow(legs)
    ensures legs != [] && IsMinimum(legs, PriceFloor(legs), m) && r.maxLoss == Some(Max(-m, 0.0))
  {
    hide UnboundedAbove, UnboundedBelow, IsMaximum, IsMinimum, ExactBreakevens, NetPremium, PriceFloor;
    m :| IsMinimum(legs, PriceFloor(legs), m) && r.maxLoss.value == Max(-m, 0.0);
  }

  /** The reported maximum loss of a priced candidate is covered by its wing distances net of premium. */
  lemma MaxLossCovered(c: Candidate, strategy: StrategyType, summary: Summary, config: Config)
    requires Generated(c, strategy, summary, config) && c.payoff.value.priced && WidthsPositive(strategy, config)
    requires !Naked(strategy)
    ensures LossCovered(c, strategy)
  {
    hide Templates, Resolution, Built, Describes, Pnl, NetPremium, WingRisk, UnboundedBelow, UnboundedAbove, Follows;
    hide WidthsPositive, WingsPlaced, PriceFloor;
    CandidateWingsPlaced(c, strategy, summary, config);
    var legs := PayoffLegs(c.legs);
    forall s ensures NetPremium(legs) - WingRisk(legs, Templates(strategy).value, |legs|) <= Pnl(legs, s) {
      PnlFloor(strategy, legs, s);
    }
    UnboundedByStrategy(strategy, legs);
    var m := ReportedMinimum(c.payoff.value, legs);
    var s :| PriceFloor(legs) <= s && Pnl(legs, s) == m;
  }

  // ----- the exact worst loss of the credit structures -----

  /**
    The depth of a short put and a short call, each with its wing: the deeper wing distance, or, when
    the short strikes cross, as far as they cross, up to both distances together.
  */
  function Depth(longPut: real, shortPut: real, shortCall: real, longCall: real): real {
    var put, call := shortPut - longPut, longCall - shortCall;
    Max(Max(put, call), Min(shortPut - shortCall, put + call))
  }

  /** The four legs of a short put and a short call with their wings. */
  ghost predicate Winged(shortPut: ResolvedLeg, longPut: ResolvedLeg, shortCall: ResolvedLeg, longCall: ResolvedLeg) {
    && shortPut.side.Sell? && longPut.side.Buy? && shortCall.side.Sell? && longCall.side.Buy?
    && shortPut.optionType.Put? && longPut.optionType.Put? && shortCall.optionType.Call? && longCall.optionType.Call?
    && longPut.strike <= shortPut.strike && shortCall.strike <= longCall.strike
  }

  function Together(a: ResolvedLeg, b: ResolvedLeg, c: ResolvedLeg, d: ResolvedLeg, s: real): real {
    LegPayoff(a, s) + LegPayoff(b, s) + LegPayoff(c, s) + LegPayoff(d, s)
  }

  function Premiums(a: ResolvedLeg, b: ResolvedLeg, c: ResolvedLeg, d: ResolvedLeg): real {
    LegPremium(a) + LegPremium(b) + LegPremium(c) + LegPremium(d)
  }

  lemma FourLegWorst(shortPut: ResolvedLeg, longPut: ResolvedLeg, shortCall: ResolvedLeg, longCall: ResolvedLeg,
      s: real)
    requires Winged(shortPut, longPut, shortCall, longCall)
    ensures Together(shortPut, longPut, shortCall, longCall, s)
            >= Premiums(shortPut, longPut, shortCall, longCall)
               - Depth(longPut.strike, shortPut.strike, shortCall.strike, longCall.strike)
  {}

  lemma FourLegAttained(shortPut: ResolvedLeg, longPut: ResolvedLeg, shortCall: ResolvedLeg, longCall: ResolvedLeg)
    returns (at: real)
    requires Winged(shortPut, longPut, shortCall, longCall)
    ensures at == longPut.strike || at == shortPut.strike || at == shortCall.strike || at == longCall.strike
    ensures Together(shortPut, longPut, shortCall, longCall, at)
            == Premiums(shortPut, longPut, shortCall, longCall)
               - Depth(longPut.strike, shortPut.strike, shortCall.strike, longCall.strike)
  {
    var p, k, c, l := longPut.strike, shortPut.strike, shortCall.strike, longCall.strike;
    var depth := Depth(p, k, c, l);
    at := if depth == k - p then p else if depth == l - c then l
        else if k - c <= (k - p) + (l - c) then Max(p, c) else p;
  }

  predicate FourLegged(strategy: StrategyType) {
    strategy.IronCondor? || strategy.IronFly? || strategy.HedgedShortStraddle? || strategy.HedgedShortStrangle?
  }

  /**
    How far below its net premium a strategy can end, its legs in template order. Negative when two
    long legs overlap: then something is always in the money.
  */
  function WorstDepth(strategy: StrategyType, legs: seq<ResolvedLeg>): real
    requires Templates(strategy).Some? && |legs| == |Templates(strategy).value|
  {
    match strategy
    case BullPutCreditSpread => legs[0].strike - legs[1].strike
    case BearCallCreditSpread => legs[1].strike - legs[0].strike
    case IronCondor => Depth(legs[1].strike, legs[0].strike, legs[2].strike, legs[3].strike)
    case IronFly => Depth(legs[2].strike, legs[0].strike, legs[1].strike, legs[3].strike)
    case HedgedShortStraddle => Depth(legs[2].strike, legs[0].strike, legs[1].strike, legs[3].strike)
    case HedgedShortStrangle => Depth(legs[2].strike, legs[0].strike, legs[1].strike, legs[3].strike)
    case LongStraddle => -Max(legs[0].strike - legs[1].strike, 0.0)
    case LongStrangle => -Max(legs[0].strike - legs[1].strike, 0.0)
    case _ => 0.0
  }

  /** The four-legged credit strategies, whether the short legs cross or not. */
  lemma {:induction false} FourLegMinimum(strategy: StrategyType, legs: seq<ResolvedLeg>)
    requires Templates(strategy).Some? && Follows(legs, Templates(strategy).value) && FourLegged(strategy)
    requires WingsLookBack(Templates(strategy).value) && WingsPlaced(legs, Templates(strategy).value)
    ensures IsMinimum(legs, PriceFloor(legs), NetPremium(legs) - WorstDepth(strategy, legs))
  {
    hide LegPayoff, LegPremium, Pnl, NetPremium, PriceFloor, Depth;
    var p, c := if strategy.IronCondor? then 1 else 2, if strategy.IronCondor? then 2 else 1;
    forall s ensures NetPremium(legs) - WorstDepth(strategy, legs) <= Pnl(legs, s) {
      FourLegWorst(legs[0], legs[p], legs[c], legs[3], s);
      Unfold(legs, s);
    }
    var at := FourLegAttained(legs[0], legs[p], legs[c], legs[3]);
    Unfold(legs, at);
    forall i | 0 <= i < 4 ensures PriceFloor(legs) <= legs[i].strike { FloorBelowStrikes(legs, i); }
    assert PriceFloor(legs) <= at && Pnl(legs, at) == NetPremium(legs) - WorstDepth(strategy, legs);
  }

  /** A credit spread loses the distance, and no more, at its wing. */
  lemma CreditPairAttained(short: ResolvedLeg, long: ResolvedLeg)
    requires short.side.Sell? && long.side.Buy? && short.optionType == long.optionType
    requires if short.optionType.Put? then long.strike <= short.strike else short.strike <= long.strike
    ensures LegPayoff(short, long.strike) + LegPayoff(long, long.strike)
            == LegPremium(short) + LegPremium(long) - Abs(long.strike - short.strike)
  {}

  /** A debit spread is worth nothing at its long strike. */
  lemma DebitPairAttained(long: ResolvedLeg, short: ResolvedLeg)
    requires long.side.Buy? && short.side.Sell? && short.optionType == long.optionType
    requires if short.optionType.Put? then short.strike <= long.strike else long.strike <= short.strike
    ensures LegPayoff(long, long.strike) + LegPayoff(short, long.strike) == LegPremium(long) + LegPremium(short)
  {}

  lemma LongLegAttained(leg: ResolvedLeg)
    requires leg.side.Buy?
    ensures LegPayoff(leg, leg.strike) == LegPremium(leg)
  {}

  /** A long put and a long call: where they overlap, one of them is always in the money by at least the overlap. */
  lemma LongPair(put: ResolvedLeg, call: ResolvedLeg, s: real)
    requires put.side.Buy? && call.side.Buy? && put.optionType.Put? && call.optionType.Call?
    ensures var worst := LegPremium(put) + LegPremium(call) + Max(put.strike - call.strike, 0.0);
            && LegPayoff(put, s) + LegPayoff(call, s) >= worst
            && LegPayoff(put, put.strike) + LegPayoff(call, put.strike) == worst
  {}

  /** One and two legs: the price at which the least P&L is reached is the strike of a bought leg. */
  lemma FewLegsMinimum(strategy: StrategyType, legs: seq<ResolvedLeg>)
    requires Templates(strategy).Some? && Follows(legs, Templates(strategy).value)
    requires !FourLegged(strategy) && !Naked(strategy)
    requires WingsLookBack(Templates(strategy).value) && WingsPlaced(legs, Templates(strategy).value)
    ensures IsMinimum(legs, PriceFloor(legs), NetPremium(legs) - WorstDepth(strategy, legs))
  {
    hide LegPayoff, LegPremium, Pnl, NetPremium, PriceFloor;
    forall s ensures NetPremium(legs) - WorstDepth(strategy, legs) <= Pnl(legs, s) { FewLegsWorst(strategy, legs, s); }
    var i := if strategy.BullPutCreditSpread? || strategy.BearCallCreditSpread? then 1 else 0;
    FloorBelowStrikes(legs, i);
    Unfold(legs, legs[i].strike);
    match strategy
    case BullPutCreditSpread => CreditPairAttained(legs[0], legs[1]);
    case BearCallCreditSpread => CreditPairAttained(legs[0], legs[1]);
    case LongCall => LongLegAttained(legs[0]);
    case LongPut => LongLegAttained(legs[0]);
    case BullCallDebitSpread => DebitPairAttained(legs[0], legs[1]);
    case BearPutDebitSpread => DebitPairAttained(legs[0], legs[1]);
    case LongStraddle => LongPair(legs[0], legs[1], 0.0);
    case LongStrangle => LongPair(legs[0], legs[1], 0.0);
  }

  lemma FewLegsWorst(strategy: StrategyType, legs: seq<ResolvedLeg>, s: real)
    requires Templates(strategy).Some? && Follows(legs, Templates(strategy).value)
    requires !FourLegged(strategy) && !Naked(strategy)
    requires WingsLookBack(Templates(strategy).value) && WingsPlaced(legs, Templates(strategy).value)
    ensures NetPremium(legs) - WorstDepth(strategy, legs) <= Pnl(legs, s)
  {
    hide LegPayoff, LegPremium, Pnl, NetPremium;
    Unfold(legs, s);
    match strategy
    case BullPutCreditSpread => CreditPair(legs[0], legs[1], s);
    case BearCallCreditSpread => CreditPair(legs[0], legs[1], s);
    case LongCall => LongLeg(legs[0], s);
    case LongPut => LongLeg(legs[0], s);
    case BullCallDebitSpread => DebitPair(legs[0], legs[1], s);
    case BearPutDebitSpread => DebitPair(legs[0], legs[1], s);
    case LongStraddle => LongPair(legs[0], legs[1], s);
    case LongStrangle => LongPair(legs[0], legs[1], s);
  }

  // ----- which way a spread is headed -----

  predicate IsBullish(strategy: StrategyType) { strategy.BullPutCreditSpread? || strategy.BullCallDebitSpread? }

  predicate IsBearish(strategy: StrategyType) { strategy.BearCallCreditSpread? || strategy.BearPutDebitSpread? }

  /** A bull spread never does worse at a higher price, a bear spread never better. */
  lemma SpreadDirection(strategy: StrategyType, legs: seq<ResolvedLeg>, s: real, t: real)
    requires Templates(strategy).Some? && Follows(legs, Templates(strategy).value) && s <= t
    requires WingsLookBack(Templates(strategy).value) && WingsPlaced(legs, Templates(strategy).value)
    ensures IsBullish(strategy) ==> Pnl(legs, s) <= Pnl(legs, t)
    ensures IsBearish(strategy) ==> Pnl(legs, s) >= Pnl(legs, t)
  {
    hide Pnl, NetPremium, LegPayoff;
    if IsBullish(strategy) || IsBearish(strategy) {
      Unfold(legs, s);
      Unfold(legs, t);
      if strategy.BullPutCreditSpread? || strategy.BearCallCreditSpread? {
        PairDirection(legs[1], legs[0], s, t);
      } else {
        PairDirection(legs[0], legs[1], s, t);
      }
    }
  }

  /** A long and a short leg of one type: rising in price exactly when the long strike is the lower. */
  lemma PairDirection(long: ResolvedLeg, short: ResolvedLeg, s: real, t: real)
    requires long.side.Buy? && short.side.Sell? && long.optionType == short.optionType && s <= t
    ensures var before, after := LegPayoff(long, s) + LegPayoff(short, s), LegPayoff(long, t) + LegPayoff(short, t);
            (long.strike <= short.strike ==> before <= after) && (long.strike >= short.strike ==> before >= after)
  {}

  lemma MinimumUnique(legs: seq<ResolvedLeg>, floor: real, m: real, n: real)
    requires IsMinimum(legs, floor, m) && IsMinimum(legs, floor, n)
    ensures m == n
  {
    hide Pnl;
    var s :| floor <= s && Pnl(legs, s) == m;
    var t :| floor <= t && Pnl(legs, t) == n;
  }

  /** A priced candidate of any strategy but the two naked ones reports exactly its depth less its net premium. */
  lemma ExactMaxLoss(c: Candidate, strategy: StrategyType, summary: Summary, config: Config)
    requires Generated(c, strategy, summary, config) && c.payoff.value.priced && WidthsPositive(strategy, config)
    requires !Naked(strategy)
    ensures var legs := PayoffLegs(c.legs);
            c.payoff.value.maxLoss == Some(Max(WorstDepth(strategy, legs) - NetPremium(legs), 0.0))
  {
    hide Templates, Resolution, Built, Describes, NetPremium, UnboundedBelow, UnboundedAbove, IsMinimum;
    hide WorstDepth, WidthsPositive, Follows, WingsPlaced, PriceFloor;
    var legs := PayoffLegs(c.legs);
    CandidateWingsPlaced(c, strategy, summary, config);
    UnboundedByStrategy(strategy, legs);
    if FourLegged(strategy) { FourLegMinimum(strategy, legs); } else { FewLegsMinimum(strategy, legs); }
    var m := ReportedMinimum(c.payoff.value, legs);
    MinimumUnique(legs, PriceFloor(legs), m, NetPremium(legs) - WorstDepth(strategy, legs));
  }

  // ----- taking a candidate and its reverse -----

  ghost predicate OrderlyChain(rows: seq<Row>) {
    forall x :: x in rows && x.quote.Some? ==> Orderly(x.quote.value)
  }

  /** One leg and its reverse, priced off the same row. */
  lemma LegReverses(template: LegTemplate, strike: real, summary: Summary, config: Config)
    requires OrderlyChain(summary.rows)
    ensures var leg, back := PayoffLeg(BuildLeg(template, strike, summary, config)),
                             PayoffLeg(BuildLeg(template.(side := Flip(template.side)), strike, summary, config));
            && back.side == Flip(leg.side) && back.optionType == leg.optionType && back.strike == leg.strike
            && (leg.price.Some? && back.price.Some? ==>
                  if leg.side.Sell? then leg.price.value <= back.price.value else back.price.value <= leg.price.value)
  {
    hide CheckLiquidity, RowFor;
    RowListed(summary.rows, strike, template.optionType);
    var row := RowFor(summary.rows, strike, template.optionType);
    if row.Some? && row.value.quote.Some? {
      var q := row.value.quote;
      var bought := PriceLeg(Buy, q).0;
      PriceIsQuoted(Buy, q);
      if bought.Some? { PricesAreConservative(q.value, bought.value); }
    }
  }

  // ----- the premium of a candidate -----

  /** A price the row offers that side: its bid or last trade to a seller, its ask or last trade to a buyer. */
  ghost predicate Offered(side: Side, row: Option<Row>, p: real) {
    row.Some? && row.value.quote.Some? &&
      var q := row.value.quote.value;
      q.ltp == Some(p) || (if side.Sell? then q.bid == Some(p) else q.ask == Some(p))
  }

  /** The same contracts, each at some price the last row listed for it offers. */
  ghost predicate AtOfferedPrices(other: seq<ResolvedLeg>, legs: seq<ResolvedLeg>, rows: seq<Row>) {
    |other| == |legs| && forall i :: 0 <= i < |legs| ==>
      && other[i].(price := legs[i].price) == legs[i]
      && other[i].price.Some?
      && Offered(legs[i].side, RowFor(rows, legs[i].strike, legs[i].optionType), other[i].price.value)
  }

  /** A leg is priced and checked off the last row listed for its contract; all legs liquid make a liquid candidate. */
  lemma LegPriced(c: Candidate, strategy: StrategyType, summary: Summary, config: Config, i: int)
    requires Generated(c, strategy, summary, config) && 0 <= i < |c.legs|
    ensures var leg := c.legs[i];
            var row := RowFor(summary.rows, leg.strike, leg.optionType);
            && (leg.price, leg.source) == PriceLeg(leg.side, if row.Some? then row.value.quote else None)
            && (leg.liquidityOk <==> CheckLiquidity(row, config))
            && (c.liquidityOk ==> leg.liquidityOk)
    ensures !c.liquidityOk ==> exists j :: 0 <= j < |c.legs| && !c.legs[j].liquidityOk
  {
    hide Templates, ListedStrikes, Describes, Resolution, CheckLiquidity, RowFor, PriceLeg;
    assert c.legs[i] == BuildLeg(Templates(strategy).value[i], StrikesOf(c.legs)[i], summary, config);
  }

  /** A priced candidate is at offered prices. */
  lemma PremiumIsOffered(c: Candidate, strategy: StrategyType, summary: Summary, config: Config)
    requires Generated(c, strategy, summary, config) && c.payoff.value.priced
    ensures AtOfferedPrices(PayoffLegs(c.legs), PayoffLegs(c.legs), summary.rows)
  {
    hide Templates, Describes, Resolution, Built, RowFor, PriceLeg;
    PricedLegs(c, strategy, summary, config);
    var legs := c.legs;
    forall i | 0 <= i < |legs|
      ensures Offered(legs[i].side, RowFor(summary.rows, legs[i].strike, legs[i].optionType), legs[i].price.value)
    {
      LegPriced(c, strategy, summary, config, i);
      var row := RowFor(summary.rows, legs[i].strike, legs[i].optionType);
      PriceIsQuoted(legs[i].side, if row.Some? then row.value.quote else None);
    }
  }

  /** And on an orderly chain no other offered prices give less, in premium or in P&L at any price. */
  lemma PremiumIsLeast(c: Candidate, strategy: StrategyType, summary: Summary, config: Config,
                       other: seq<ResolvedLeg>, s: real)
    requires Generated(c, strategy, summary, config) && c.payoff.value.priced && OrderlyChain(summary.rows)
    requires AtOfferedPrices(other, PayoffLegs(c.legs), summary.rows)
    ensures NetPremium(PayoffLegs(c.legs)) <= NetPremium(other)
    ensures Pnl(PayoffLegs(c.legs), s) <= Pnl(other, s)
  {
    hide Templates, Describes, Resolution, Built, RowFor, PriceLeg, Pnl, NetPremium, LegPayoff;
    PricedLegs(c, strategy, summary, config);
    var legs := PayoffLegs(c.legs);
    forall i | 0 <= i < |legs|
      ensures legs[i].(price := other[i].price) == other[i] && LegPremium(legs[i]) <= LegPremium(other[i])
    {
      LegPriced(c, strategy, summary, config, i);
      RowListed(summary.rows, legs[i].strike, legs[i].optionType);
      var row := RowFor(summary.rows, legs[i].strike, legs[i].optionType);
      PricesAreConservative(row.value.quote.value, other[i].price.value);
    }
    CheaperLegs(legs, other, s);
  }

  lemma {:induction false} CheaperLegs(legs: seq<ResolvedLeg>, other: seq<ResolvedLeg>, s: real)
    requires |legs| == |other| && forall i :: 0 <= i < |legs| ==>
               legs[i].(price := other[i].price) == other[i] && LegPremium(legs[i]) <= LegPremium(other[i])
    ensures NetPremium(legs) <= NetPremium(other) && Pnl(legs, s) <= Pnl(other, s)
  {
    if legs != [] { CheaperLegs(legs[..|legs| - 1], other[..|other| - 1], s); }
  }

  /** On an orderly chain, a priced candidate and its reverse never gain together, at any price. */
  lemma NoFreeRoundTrip(legs: seq<CandidateLeg>, back: seq<CandidateLeg>, templates: seq<LegTemplate>,
      strikes: seq<real>,
                        summary: Summary, config: Config, s: real)
    requires |legs| == |templates| && Built(legs, templates, strikes, summary, config)
    requires |back| == |templates| && Built(back, Flipped(templates), strikes, summary, config)
    requires OrderlyChain(summary.rows) && AllPriced(PayoffLegs(legs)) && AllPriced(PayoffLegs(back))
    ensures Pnl(PayoffLegs(legs), s) + Pnl(PayoffLegs(back), s) <= 0.0
  {
    hide Pnl, BuildLeg;
    var out, home := PayoffLegs(legs), PayoffLegs(back);
    forall i | 0 <= i < |out|
      ensures home[i].(price := out[i].price) == Mirror(out)[i] && LegPremium(home[i]) <= LegPremium(Mirror(out)[i])
    {
      LegReverses(templates[i], strikes[i], summary, config);
      assert legs[i] == BuildLeg(templates[i], strikes[i], summary, config);
      assert back[i] == BuildLeg(Flipped(templates)[i], strikes[i], summary, config);
    }
    ReversingNeverGains(home, out, s);
  }
}
