/**
  generate_candidate of trading/ai_options_research/candidates.py: from a strategy and a chain to a
  priced candidate.
*/
module CandidateGenerator {
  import opened Prelude
  import opened Payoff
  import opened Strategies
  import opened Candidates
  import opened CandidateRisk

  method GenerateCandidate(strategy: StrategyType, summary: Summary, config: Config) returns (c: Candidate)
    ensures !c.supported ==> c.legs == [] && c.payoff.None? && !c.liquidityOk
    ensures c.supported <==>
            && !strategy.CalendarSpread? && !strategy.DoubleCalendar?
            && summary.rows != [] && summary.atmStrike.Some?
            && !DeltaMissing(Templates(strategy).GetOr([]), summary.rows)
    ensures c.supported ==> Generated(c, strategy, summary, config)
    ensures c.supported && c.payoff.value.priced ==>
              && (c.payoff.value.maxLossUnbounded <==> strategy.ShortStraddle? || strategy.ShortStrangle?)
              && (c.payoff.value.maxProfitUnbounded <==>
                  strategy.LongCall? || strategy.LongStraddle? || strategy.LongStrangle?)
    ensures c.supported && c.payoff.value.priced && WidthsPositive(strategy, config) && !Naked(strategy) ==>
              && LossCovered(c, strategy)
              && var legs := PayoffLegs(c.legs);
                 c.payoff.value.maxLoss == Some(Max(WorstDepth(strategy, legs) - NetPremium(legs), 0.0))
  {
    hide Templates, Describes, Resolution, Built, UnboundedAbove, UnboundedBelow, ListedStrikes, DeltaMissing;
    hide LossCovered, WidthsPositive, WorstDepth, NetPremium, StrikesOf;
    TemplatesWellFormed(strategy);
    if !IsSupported(strategy) { return UNSUPPORTED; }
    var found := Templates(strategy);
    if found.None? { return UNSUPPORTED; }
    var templates := found.value;
    if !Usable(summary) { return UNSUPPORTED; }

    var resolved := ResolveStrikes(templates, summary, config);
    if resolved.None? { return UNSUPPORTED; }
    var legs := BuildLegs(templates, resolved.value, summary, config);
    var payoff := ComputePayoff(PayoffLegs(legs));
    var liquidityOk := forall k :: 0 <= k < |legs| ==> legs[k].liquidityOk;
    c := Candidate(true, legs, Some(payoff), liquidityOk);
    FlagsByStrategy(c, strategy, summary, config);
    if payoff.priced && WidthsPositive(strategy, config) && !Naked(strategy) {
      MaxLossCovered(c, strategy, summary, config);
      ExactMaxLoss(c, strategy, summary, config);
    }
  }

  /** The first loop: each leg's strike from its selector and the strikes before it; None when a delta is missing. */
  method ResolveStrikes(templates: seq<LegTemplate>, summary: Summary, config: Config) returns (r: Option<seq<real>>)
    requires Usable(summary) && WingsLookBack(templates)
    ensures r.None? <==> DeltaMissing(templates, summary.rows)
    ensures r.Some? ==> |r.value| == |templates| && Resolution(r.value, templates, summary, config)
  {
    hide ResolveLeg, ListedStrikes;
    var strikes := [];
    var i := 0;
    while i < |templates|
      invariant 0 <= i <= |templates| && |strikes| == i
      invariant Resolution(strikes, templates, summary, config)
      invariant forall j :: 0 <= j < i && templates[j].selector.DeltaTarget? ==>
                  ResolveDeltaTarget(templates[j].optionType, summary.rows, config).Some?
    {
      var strike := ResolveLeg(templates[i], strikes, summary, config);
      ResolveLegFails(templates[i], strikes, summary, config);
      if strike.None? { return None; }
      assert forall j :: 0 <= j < i ==> (strikes + [strike.value])[..j] == strikes[..j];
      assert (strikes + [strike.value])[..i] == strikes;
      strikes := strikes + [strike.value];
      i := i + 1;
    }
    return Some(strikes);
  }

  /** The second loop: each leg priced and checked against the row listed at its strike. */
  method BuildLegs(templates: seq<LegTemplate>, strikes: seq<real>, summary: Summary, config: Config)
      returns (legs: seq<CandidateLeg>)
    requires |strikes| == |templates|
    ensures |legs| == |templates| && StrikesOf(legs) == strikes
    ensures Built(legs, templates, strikes, summary, config)
  {
    legs := [];
    var i := 0;
    while i < |templates|
      invariant 0 <= i <= |templates| && |legs| == i
      invariant Built(legs, templates, strikes, summary, config)
    {
      legs := legs + [BuildLeg(templates[i], strikes[i], summary, config)];
      i := i + 1;
    }
    BuiltStrikes(legs, templates, strikes, summary, config);
  }

  lemma FlagsByStrategy(c: Candidate, strategy: StrategyType, summary: Summary, config: Config)
    requires Generated(c, strategy, summary, config)
    ensures c.payoff.value.priced ==>
              && (c.payoff.value.maxLossUnbounded <==> strategy.ShortStraddle? || strategy.ShortStrangle?)
              && (c.payoff.value.maxProfitUnbounded <==>
                  strategy.LongCall? || strategy.LongStraddle? || strategy.LongStrangle?)
  {
    hide Templates, Describes, Resolution, Built, UnboundedAbove, UnboundedBelow;
    BuiltFollows(c.legs, Templates(strategy).value, StrikesOf(c.legs), summary, config);
    UnboundedByStrategy(strategy, PayoffLegs(c.legs));
    DescribesFlags(c.payoff.value, PayoffLegs(c.legs));
  }

  lemma ResolveLegFails(leg: LegTemplate, resolved: seq<real>, summary: Summary, config: Config)
    requires Usable(summary) && (leg.selector.Wing? ==> leg.selector.of < |resolved|)
    ensures ResolveLeg(leg, resolved, summary, config).None? <==>
            leg.selector.DeltaTarget? && ResolveDeltaTarget(leg.optionType, summary.rows, config).None?
  {}

  lemma DescribesFlags(r: PayoffResult, legs: seq<ResolvedLeg>)
    requires Describes(r, legs)
    ensures r.priced ==> (r.maxProfitUnbounded <==> UnboundedAbove(legs)) && (r.maxLossUnbounded <==>
            UnboundedBelow(legs))
  {}

  lemma BuiltStrikes(legs: seq<CandidateLeg>, templates: seq<LegTemplate>, strikes: seq<real>, summary: Summary,
      config: Config)
    requires Built(legs, templates, strikes, summary, config) && |legs| == |templates|
    ensures StrikesOf(legs) == strikes
  {
    assert forall i :: 0 <= i < |legs| ==> legs[i].strike == strikes[i];
  }
}
