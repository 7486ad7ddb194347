/** The fixed leg templates of trading/ai_options_research/strategy_templates.py. */
module Strategies {
  import opened Prelude
  import opened Payoff

  datatype StrategyType =
    | BullPutCreditSpread | BearCallCreditSpread | IronCondor | IronFly
    | ShortStraddle | HedgedShortStraddle | ShortStrangle | HedgedShortStrangle
    | LongCall | LongPut | BullCallDebitSpread | BearPutDebitSpread
    | LongStraddle | LongStrangle | CalendarSpread | DoubleCalendar

  /** A wing is offset from the strike of an earlier leg. */
  datatype StrikeSelector = Atm | DeltaTarget | Wing(of: nat, useHedgeWidth: bool)

  datatype LegTemplate = LegTemplate(side: Side, optionType: OptionType, selector: StrikeSelector)

  predicate IsSupported(strategy: StrategyType) {
    !strategy.CalendarSpread? && !strategy.DoubleCalendar?
  }

  /** The default research universe of trading/ai_options_research/schemas.py. */
  predicate IsDefinedRisk(strategy: StrategyType) {
    !strategy.ShortStraddle? && !strategy.ShortStrangle? && !strategy.LongCall?
  }

  function Templates(strategy: StrategyType): Option<seq<LegTemplate>> {
    match strategy
    case BullPutCreditSpread => Some([
      LegTemplate(Sell, Put, DeltaTarget),
      LegTemplate(Buy, Put, Wing(0, false))])
    case BearCallCreditSpread => Some([
      LegTemplate(Sell, Call, DeltaTarget),
      LegTemplate(Buy, Call, Wing(0, false))])
    case IronCondor => Some([
      LegTemplate(Sell, Put, DeltaTarget),
      LegTemplate(Buy, Put, Wing(0, false)),
      LegTemplate(Sell, Call, DeltaTarget),
      LegTemplate(Buy, Call, Wing(2, false))])
    case IronFly => Some([
      LegTemplate(Sell, Put, Atm),
      LegTemplate(Sell, Call, Atm),
      LegTemplate(Buy, Put, Wing(0, false)),
      LegTemplate(Buy, Call, Wing(1, false))])
    case ShortStraddle => Some([
      LegTemplate(Sell, Put, Atm),
      LegTemplate(Sell, Call, Atm)])
    case HedgedShortStraddle => Some([
      LegTemplate(Sell, Put, Atm),
      LegTemplate(Sell, Call, Atm),
      LegTemplate(Buy, Put, Wing(0, true)),
      LegTemplate(Buy, Call, Wing(1, true))])
    case ShortStrangle => Some([
      LegTemplate(Sell, Put, DeltaTarget),
      LegTemplate(Sell, Call, DeltaTarget)])
    case HedgedShortStrangle => Some([
      LegTemplate(Sell, Put, DeltaTarget),
      LegTemplate(Sell, Call, DeltaTarget),
      LegTemplate(Buy, Put, Wing(0, true)),
      LegTemplate(Buy, Call, Wing(1, true))])
    case LongCall => Some([LegTemplate(Buy, Call, Atm)])
    case LongPut => Some([LegTemplate(Buy, Put, Atm)])
    case BullCallDebitSpread => Some([
      LegTemplate(Buy, Call, Atm),
      LegTemplate(Sell, Call, Wing(0, false))])
    case BearPutDebitSpread => Some([
      LegTemplate(Buy, Put, Atm),
      LegTemplate(Sell, Put, Wing(0, false))])
    case LongStraddle => Some([
      LegTemplate(Buy, Put, Atm),
      LegTemplate(Buy, Call, Atm)])
    case LongStrangle => Some([
      LegTemplate(Buy, Put, DeltaTarget),
      LegTemplate(Buy, Call, DeltaTarget)])
    case CalendarSpread => None
    case DoubleCalendar => None
  }

  predicate WingsLookBack(templates: seq<LegTemplate>) {
    forall i :: 0 <= i < |templates| && templates[i].selector.Wing? ==> templates[i].selector.of < i
  }

  lemma TemplatesWellFormed(strategy: StrategyType)
    ensures Templates(strategy).Some? <==> IsSupported(strategy)
    ensures Templates(strategy).Some? ==> Templates(strategy).value != [] && WingsLookBack(Templates(strategy).value)
  {}

  /** The legs have the templates' sides and option types, at whatever strikes and prices. */
  ghost predicate Follows(legs: seq<ResolvedLeg>, templates: seq<LegTemplate>) {
    && |legs| == |templates|
    && forall i :: 0 <= i < |legs| ==>
         legs[i].side == templates[i].side && legs[i].optionType == templates[i].optionType
  }

  /** Long calls minus short calls of a template. */
  function TemplateSlope(templates: seq<LegTemplate>): int {
    if templates == [] then 0
    else
      var last := templates[|templates| - 1];
      TemplateSlope(templates[..|templates| - 1]) + CallSign(last.side, last.optionType)
  }

  lemma {:induction false} SlopeFromTemplate(legs: seq<ResolvedLeg>, templates: seq<LegTemplate>)
    requires Follows(legs, templates)
    ensures TailSlope(legs) == TemplateSlope(templates)
  {
    if legs != [] { SlopeFromTemplate(legs[..|legs| - 1], templates[..|templates| - 1]); }
  }

  lemma SlopeTable(strategy: StrategyType)
    requires Templates(strategy).Some?
    ensures TemplateSlope(Templates(strategy).value) < 0 <==> strategy.ShortStraddle? || strategy.ShortStrangle?
    ensures TemplateSlope(Templates(strategy).value) > 0 <==>
            strategy.LongCall? || strategy.LongStraddle? || strategy.LongStrangle?
  {
    var t := Templates(strategy).value;
    Unroll(t);
  }

  lemma Unroll(t: seq<LegTemplate>)
    requires 1 <= |t| <= 4
    ensures TemplateSlope(t) == LegSlope(t[0]) + (if |t| > 1 then LegSlope(t[1]) else 0)
                              + (if |t| > 2 then LegSlope(t[2]) else 0) + (if |t| > 3 then LegSlope(t[3]) else 0)
  {
    if |t| > 1 {
      Unroll(t[..|t| - 1]);
    } else {
      assert TemplateSlope(t[..0]) == 0;
    }
  }

  function LegSlope(l: LegTemplate): int { CallSign(l.side, l.optionType) }

  /**
    Whatever strikes a template is resolved to, only the naked short straddle and strangle have
    unbounded loss, and only the strategies with a spare long call have unbounded profit.
  */
  lemma UnboundedByStrategy(strategy: StrategyType, legs: seq<ResolvedLeg>)
    requires Templates(strategy).Some? && Follows(legs, Templates(strategy).value)
    ensures UnboundedBelow(legs) <==> strategy.ShortStraddle? || strategy.ShortStrangle?
    ensures UnboundedAbove(legs) <==> strategy.LongCall? || strategy.LongStraddle? || strategy.LongStrangle?
    ensures IsDefinedRisk(strategy) <==> !UnboundedBelow(legs) && !strategy.LongCall?
  {
    hide TailSlope, TemplateSlope, Templates, UnboundedAbove, UnboundedBelow, Follows;
    SlopeFromTemplate(legs, Templates(strategy).value);
    SlopeTable(strategy);
    UnboundedIffTailSlope(legs);
  }

  // ----- how the templates are related -----

  function Flipped(templates: seq<LegTemplate>): seq<LegTemplate> {
    seq(|templates|, i requires 0 <= i < |templates| => templates[i].(side := Flip(templates[i].side)))
  }

  /** The same legs after `n` others. */
  function Shifted(templates: seq<LegTemplate>, n: nat): seq<LegTemplate> {
    seq(|templates|, i requires 0 <= i < |templates| =>
      if templates[i].selector.Wing? then
        templates[i].(selector := Wing(templates[i].selector.of + n, templates[i].selector.useHedgeWidth))
      else templates[i])
  }

  function TemplatesOf(strategy: StrategyType): seq<LegTemplate> { Templates(strategy).GetOr([]) }

  /** Straddles sold, bought and hedged share their first two legs; the long one is the short one flipped. */
  lemma StraddlesShareLegs()
    ensures TemplatesOf(LongStraddle) == TemplatesOf(LongPut) + TemplatesOf(LongCall)
    ensures TemplatesOf(ShortStraddle) == Flipped(TemplatesOf(LongStraddle))
    ensures |TemplatesOf(IronFly)| == |TemplatesOf(HedgedShortStraddle)| == 4
    ensures TemplatesOf(IronFly)[..2] == TemplatesOf(HedgedShortStraddle)[..2] == TemplatesOf(ShortStraddle)
  {}

  /** Strangles likewise; and a condor is a put credit spread and a call credit spread. */
  lemma StranglesShareLegs()
    ensures TemplatesOf(ShortStrangle) == Flipped(TemplatesOf(LongStrangle))
    ensures |TemplatesOf(HedgedShortStrangle)| == 4
    ensures TemplatesOf(HedgedShortStrangle)[..2] == TemplatesOf(ShortStrangle)
    ensures TemplatesOf(IronCondor) == TemplatesOf(BullPutCreditSpread) + Shifted(TemplatesOf(BearCallCreditSpread), 2)
    ensures |TemplatesOf(IronCondor)| == 4
    ensures [TemplatesOf(IronCondor)[0], TemplatesOf(IronCondor)[2]] == TemplatesOf(ShortStrangle)
  {}

  /** A debit spread finances a single long leg. */
  lemma DebitSpreadsExtend()
    ensures |TemplatesOf(BullCallDebitSpread)| == 2 && TemplatesOf(BullCallDebitSpread)[..1] == TemplatesOf(LongCall)
    ensures |TemplatesOf(BearPutDebitSpread)| == 2 && TemplatesOf(BearPutDebitSpread)[..1] == TemplatesOf(LongPut)
  {}

  predicate IsHedged(strategy: StrategyType) { strategy.HedgedShortStraddle? || strategy.HedgedShortStrangle? }

  predicate UsesDelta(strategy: StrategyType) {
    || strategy.BullPutCreditSpread? || strategy.BearCallCreditSpread? || strategy.IronCondor?
    || strategy.ShortStrangle? || strategy.HedgedShortStrangle? || strategy.LongStrangle?
  }

  /**
    A wing is of its reference's type and the opposite side, one wing to a reference, at the hedge
    width exactly in the hedged strategies; the other legs are delta-targeted or at the money.
  */
  lemma SelectorsByStrategy(strategy: StrategyType, i: int)
    requires 0 <= i < |TemplatesOf(strategy)|
    ensures var t := TemplatesOf(strategy);
            match t[i].selector
            case Wing(of, hedge) =>
              && of < i && !t[of].selector.Wing? && t[of].optionType == t[i].optionType && t[of].side == Flip(t[i].side)
              && (hedge <==> IsHedged(strategy))
              && forall j :: 0 <= j < |t| && j != i && t[j].selector.Wing? ==> t[j].selector.of != of
            case DeltaTarget => UsesDelta(strategy)
            case Atm => !UsesDelta(strategy)
  {}
}
