/** Candidate generation against a listed chain: trading/ai_options_research/candidates.py. */
module Candidates {
  import opened Prelude
  import opened Payoff
  import opened Strategies

  datatype Quote = Quote(bid: Option<real>, ask: Option<real>, ltp: Option<real>, volume: Option<int>, oi: Option<int>)

  /** `delta` is None when the row has no Greeks, or Greeks without a delta. */
  datatype Row = Row(strike: real, optionType: OptionType, quote: Option<Quote>, delta: Option<real>)

  datatype Summary = Summary(rows: seq<Row>, atmStrike: Option<real>)

  datatype Config = Config(
    minDelta: real, maxDelta: real, minimumVolume: int, minimumOi: int, maximumSpread: Option<real>,
    wingWidth: real, hedgeWingWidth: real)

  datatype PriceSource = FromBid | FromAsk | FromLtp | Unavailable

  datatype CandidateLeg = CandidateLeg(
    side: Side, optionType: OptionType, strike: real, price: Option<real>, source: PriceSource, liquidityOk: bool)

  datatype Candidate = Candidate(
    supported: bool, legs: seq<CandidateLeg>, payoff: Option<PayoffResult>, liquidityOk: bool)

  const UNSUPPORTED := Candidate(false, [], None, false)

  // ----- prices and liquidity -----

  /** Sell at the bid, buy at the ask, fall back to the last trade, never invent a price. */
  function PriceLeg(side: Side, quote: Option<Quote>): (Option<real>, PriceSource) {
    if quote.None? then (None, Unavailable)
    else if side.Sell? && quote.value.bid.Some? then (quote.value.bid, FromBid)
    else if side.Buy? && quote.value.ask.Some? then (quote.value.ask, FromAsk)
    else if quote.value.ltp.Some? then (quote.value.ltp, FromLtp)
    else (None, Unavailable)
  }

  /** The bid does not exceed the last trade, nor the last trade the ask, where they are quoted. */
  ghost predicate Orderly(q: Quote) {
    && (q.bid.Some? && q.ltp.Some? ==> q.bid.value <= q.ltp.value)
    && (q.ltp.Some? && q.ask.Some? ==> q.ltp.value <= q.ask.value)
    && (q.bid.Some? && q.ask.Some? ==> q.bid.value <= q.ask.value)
  }

  /** On an orderly quote a sale fetches no more than any quoted price, and a purchase costs no less. */
  lemma PricesAreConservative(q: Quote, p: real)
    requires Orderly(q) && (q.bid == Some(p) || q.ask == Some(p) || q.ltp == Some(p))
    ensures var sold, bought := PriceLeg(Sell, Some(q)).0, PriceLeg(Buy, Some(q)).0;
            (sold.Some? ==> sold.value <= p) && (bought.Some? ==> p <= bought.value)
  {}

  /**
    A price is the quoted one its source names. The last trade stands in exactly for a missing bid or
    ask, and nothing is invented.
  */
  lemma PriceIsQuoted(side: Side, quote: Option<Quote>)
    ensures var (price, source) := PriceLeg(side, quote);
            match source
            case FromBid => side.Sell? && quote.Some? && price.Some? && price == quote.value.bid
            case FromAsk => side.Buy? && quote.Some? && price.Some? && price == quote.value.ask
            case FromLtp =>
              && quote.Some? && price.Some? && price == quote.value.ltp
              && (if side.Sell? then quote.value.bid.None? else quote.value.ask.None?)
            case Unavailable =>
              && price.None?
              && (quote.Some? ==>
                    quote.value.ltp.None? && (if side.Sell? then quote.value.bid.None? else quote.value.ask.None?))
  {}

  predicate CheckLiquidity(row: Option<Row>, config: Config) {
    && row.Some? && row.value.quote.Some?
    && var q := row.value.quote.value;
       && (config.minimumVolume != 0 ==> q.volume.Some? && q.volume.value >= config.minimumVolume)
       && (config.minimumOi != 0 ==> q.oi.Some? && q.oi.value >= config.minimumOi)
       && (config.maximumSpread.Some? ==>
             q.bid.Some? && q.ask.Some? && q.ask.value - q.bid.value <= config.maximumSpread.value)
  }

  /** What each threshold asks of a quoted row with the others off; the three are asked independently. */
  lemma LiquidityThresholds(row: Row, config: Config)
    requires row.quote.Some?
    ensures var q, off := row.quote.value, config.(minimumVolume := 0, minimumOi := 0, maximumSpread := None);
            var volume, oi := off.(minimumVolume := config.minimumVolume), off.(minimumOi := config.minimumOi);
            var spread := off.(maximumSpread := config.maximumSpread);
            && CheckLiquidity(Some(row), off)
            && (CheckLiquidity(Some(row), volume) <==>
                  config.minimumVolume == 0 || (q.volume.Some? && config.minimumVolume <= q.volume.value))
            && (CheckLiquidity(Some(row), oi) <==>
                  config.minimumOi == 0 || (q.oi.Some? && config.minimumOi <= q.oi.value))
            && (CheckLiquidity(Some(row), spread) <==>
                  config.maximumSpread.None?
                  || (q.bid.Some? && q.ask.Some? && q.ask.value <= q.bid.value + config.maximumSpread.value))
            && (CheckLiquidity(Some(row), config) <==>
                  && CheckLiquidity(Some(row), volume) && CheckLiquidity(Some(row), oi)
                  && CheckLiquidity(Some(row), spread))
  {}

  lemma NoQuoteNoLiquidity(row: Option<Row>, config: Config)
    requires row.None? || row.value.quote.None?
    ensures !CheckLiquidity(row, config)
  {}

  ghost predicate IsRow(row: Row, strike: real, optionType: OptionType) {
    row.strike == strike && row.optionType == optionType
  }

  ghost predicate IsLastRow(rows: seq<Row>, i: int, strike: real, optionType: OptionType) {
    && 0 <= i < |rows| && IsRow(rows[i], strike, optionType)
    && forall j :: i < j < |rows| ==> !IsRow(rows[j], strike, optionType)
  }

  /** The row a (strike, type) dictionary holds: the last one with that key. */
  function RowFor(rows: seq<Row>, strike: real, optionType: OptionType): (r: Option<Row>)
    ensures r.None? <==> forall i :: 0 <= i < |rows| ==> !IsRow(rows[i], strike, optionType)
    ensures r.Some? ==> exists i :: IsLastRow(rows, i, strike, optionType) && rows[i] == r.value
  {
    if rows == [] then None
    else
      var front, last := rows[..|rows| - 1], rows[|rows| - 1];
      if last.strike == strike && last.optionType == optionType then
        assert IsLastRow(rows, |rows| - 1, strike, optionType);
        Some(last)
      else
        assert forall i :: IsLastRow(front, i, strike, optionType) ==> IsLastRow(rows, i, strike, optionType);
        RowFor(front, strike, optionType)
  }

  // ----- strike selection -----

  /** The sorted set of listed strikes. */
  function ListedStrikes(rows: seq<Row>): (r: seq<real>)
    ensures Increasing(r)
    ensures forall s :: s in r <==> exists i :: 0 <= i < |rows| && rows[i].strike == s
    ensures rows != [] ==> r != []
  {
    var strikes := seq(|rows|, i requires 0 <= i < |rows| => rows[i].strike);
    assert forall i :: 0 <= i < |rows| ==> strikes[i] == rows[i].strike;
    Sort(Distinct(strikes))
  }

  /** Nearest to the target; of two equally near, the lower. */
  function NearestStrike(target: real, strikes: seq<real>): (r: real)
    requires strikes != []
    ensures r in strikes
    ensures forall s :: s in strikes ==>
            Abs(r - target) < Abs(s - target) || (Abs(r - target) == Abs(s - target) && r <= s)
  {
    if |strikes| == 1 then strikes[0]
    else
      var best, last := NearestStrike(target, strikes[..|strikes| - 1]), strikes[|strikes| - 1];
      assert forall s :: s in strikes <==> s in strikes[..|strikes| - 1] || s == last;
      if Abs(last - target) < Abs(best - target) || (Abs(last - target) == Abs(best - target) && last < best)
      then last else best
  }

  predicate HasDelta(row: Row, optionType: OptionType) {
    row.optionType == optionType && row.quote.Some? && row.delta.Some?
  }

  predicate InBand(row: Row, config: Config) {
    row.delta.Some? && config.minDelta <= Abs(row.delta.value) <= config.maxDelta
  }

  function MidDistance(row: Row, config: Config): real {
    Abs(Abs(row.delta.GetOr(0.0)) - (config.minDelta + config.maxDelta) / 2.0)
  }

  function EdgeDistance(row: Row, config: Config): real {
    var d := Abs(row.delta.GetOr(0.0));
    Min(Abs(d - config.minDelta), Abs(d - config.maxDelta))
  }

  ghost predicate IsFirstBest(rows: seq<Row>, keep: Row -> bool, key: Row -> real, i: int) {
    && 0 <= i < |rows| && keep(rows[i])
    && (forall j :: 0 <= j < |rows| && keep(rows[j]) ==> key(rows[i]) <= key(rows[j]))
    && (forall j :: 0 <= j < i && keep(rows[j]) ==> key(rows[i]) < key(rows[j]))
  }

  /** Of the rows kept, the index of the first with the least key; -1 if none is kept. */
  function FirstBest(rows: seq<Row>, keep: Row -> bool, key: Row -> real): (r: int)
    ensures -1 <= r < |rows|
    ensures r == -1 <==> forall i :: 0 <= i < |rows| ==> !keep(rows[i])
    ensures r >= 0 ==> IsFirstBest(rows, keep, key, r)
  {
    if rows == [] then -1
    else
      var n := |rows| - 1;
      var best := FirstBest(rows[..n], keep, key);
      if keep(rows[n]) && (best < 0 || key(rows[n]) < key(rows[best])) then n else best
  }

  /** Some row of the type has its delta inside the band. */
  ghost predicate BandOccupied(rows: seq<Row>, optionType: OptionType, config: Config) {
    exists x :: x in rows && HasDelta(x, optionType) && config.minDelta <= Abs(x.delta.value) <= config.maxDelta
  }

  ghost predicate Eligible(x: Row, optionType: OptionType, config: Config, occupied: bool) {
    HasDelta(x, optionType) && (occupied ==> config.minDelta <= Abs(x.delta.value) <= config.maxDelta)
  }

  /** Distance from the middle of an occupied band, doubled; from the nearer edge of an empty one. */
  ghost function Off(x: Row, config: Config, occupied: bool): real {
    var d := Abs(x.delta.GetOr(0.0));
    if occupied then Abs(2.0 * d - config.minDelta - config.maxDelta)
    else Min(Abs(config.minDelta - d), Abs(config.maxDelta - d))
  }

  /** Of the eligible rows, the first of the chain that is least off. */
  ghost predicate BestDelta(rows: seq<Row>, i: int, optionType: OptionType, config: Config) {
    var occupied := BandOccupied(rows, optionType, config);
    && 0 <= i < |rows| && Eligible(rows[i], optionType, config, occupied)
    && (forall j :: 0 <= j < |rows| && Eligible(rows[j], optionType, config, occupied) ==>
          Off(rows[i], config, occupied) <= Off(rows[j], config, occupied))
    && (forall j :: 0 <= j < i && Eligible(rows[j], optionType, config, occupied) ==>
          Off(rows[i], config, occupied) < Off(rows[j], config, occupied))
  }

  function FirstInBand(optionType: OptionType, rows: seq<Row>, config: Config): int {
    FirstBest(rows, (x: Row) => HasDelta(x, optionType) && InBand(x, config), (x: Row) => MidDistance(x, config))
  }

  function FirstNearBand(optionType: OptionType, rows: seq<Row>, config: Config): int {
    FirstBest(rows, (x: Row) => HasDelta(x, optionType), (x: Row) => EdgeDistance(x, config))
  }

  function ResolveDeltaTarget(optionType: OptionType, rows: seq<Row>, config: Config): (r: Option<Row>)
    ensures r.None? <==> forall x :: x in rows ==> x.optionType != optionType || x.quote.None? || x.delta.None?
    ensures r.Some? ==> exists i :: BestDelta(rows, i, optionType, config) && rows[i] == r.value
  {
    BandChoice(optionType, rows, config);
    EdgeChoice(optionType, rows, config);
    var inBand, nearBand := FirstInBand(optionType, rows, config), FirstNearBand(optionType, rows, config);
    if inBand >= 0 then Some(rows[inBand]) else if nearBand >= 0 then Some(rows[nearBand]) else None
  }

  lemma OffByDistance(x: Row, config: Config)
    ensures Off(x, config, true) == 2.0 * MidDistance(x, config) && Off(x, config, false) == EdgeDistance(x, config)
  {}

  lemma BandChoice(optionType: OptionType, rows: seq<Row>, config: Config)
    ensures var r := FirstInBand(optionType, rows, config);
            && -1 <= r < |rows| && (r >= 0 <==> BandOccupied(rows, optionType, config))
            && (r >= 0 ==> BestDelta(rows, r, optionType, config))
  {
    hide FirstBest, Off, MidDistance, Abs;
    var keep, key := (x: Row) => HasDelta(x, optionType) && InBand(x, config), (x: Row) => MidDistance(x, config);
    var r := FirstBest(rows, keep, key);
    forall x | x in rows && keep(x) ensures r >= 0 {
      var j :| 0 <= j < |rows| && rows[j] == x;
    }
    if r >= 0 {
      assert keep(rows[r]) && rows[r] in rows && BandOccupied(rows, optionType, config);
      forall j | 0 <= j < |rows| ensures Off(rows[j], config, true) == 2.0 * key(rows[j]) {
        OffByDistance(rows[j], config);
      }
      assert forall j :: 0 <= j < |rows| ==> (keep(rows[j]) <==> Eligible(rows[j], optionType, config, true));
    }
  }

  lemma EdgeChoice(optionType: OptionType, rows: seq<Row>, config: Config)
    ensures var r := FirstNearBand(optionType, rows, config);
            && -1 <= r < |rows|
            && (r == -1 <==> forall x :: x in rows ==> x.optionType != optionType || x.quote.None? || x.delta.None?)
            && (r >= 0 && !BandOccupied(rows, optionType, config) ==> BestDelta(rows, r, optionType, config))
            && (r == -1 ==> !BandOccupied(rows, optionType, config))
  {
    hide FirstBest, Off, EdgeDistance, Abs;
    var keep, key := (x: Row) => HasDelta(x, optionType), (x: Row) => EdgeDistance(x, config);
    var r := FirstBest(rows, keep, key);
    forall x | x in rows && keep(x) ensures r >= 0 {
      var j :| 0 <= j < |rows| && rows[j] == x;
    }
    if r >= 0 {
      assert keep(rows[r]) && rows[r] in rows;
      forall j | 0 <= j < |rows| ensures Off(rows[j], config, false) == key(rows[j]) { OffByDistance(rows[j], config); }
      assert forall j :: 0 <= j < |rows| ==> (keep(rows[j]) <==> Eligible(rows[j], optionType, config, false));
    }
  }

  // ----- resolving a template -----

  function WingWidth(selector: StrikeSelector, config: Config): real
    requires selector.Wing?
  {
    if selector.useHedgeWidth then config.hedgeWingWidth else config.wingWidth
  }

  predicate Usable(summary: Summary) {
    summary.rows != [] && summary.atmStrike.Some?
  }

  /** The strike of one leg, given the strikes of the legs before it. */
  function ResolveLeg(leg: LegTemplate, resolved: seq<real>, summary: Summary, config: Config): Option<real>
    requires Usable(summary) && (leg.selector.Wing? ==> leg.selector.of < |resolved|)
  {
    match leg.selector
    case Atm => summary.atmStrike
    case DeltaTarget =>
      var row := ResolveDeltaTarget(leg.optionType, summary.rows, config);
      if row.Some? then Some(row.value.strike) else None
    case Wing(of, _) =>
      var width := WingWidth(leg.selector, config);
      var target := if leg.optionType.Put? then resolved[of] - width else resolved[of] + width;
      Some(NearestStrike(target, ListedStrikes(summary.rows)))
  }

  /** Every strike is the resolution of its template against the strikes before it. */
  ghost predicate Resolution(strikes: seq<real>, templates: seq<LegTemplate>, summary: Summary, config: Config)
    requires Usable(summary) && WingsLookBack(templates)
  {
    && |strikes| <= |templates|
    && forall i :: 0 <= i < |strikes| ==> ResolveLeg(templates[i], strikes[..i], summary, config) == Some(strikes[i])
  }

  /** No row of the chain carries a delta for some delta-targeted leg of the strategy. */
  ghost predicate DeltaMissing(templates: seq<LegTemplate>, rows: seq<Row>) {
    exists i :: 0 <= i < |templates| && templates[i].selector.DeltaTarget?
             && forall x :: x in rows ==> !HasDelta(x, templates[i].optionType)
  }

  function PayoffLeg(leg: CandidateLeg): ResolvedLeg {
    ResolvedLeg(leg.side, leg.optionType, leg.strike, leg.price)
  }

  function PayoffLegs(legs: seq<CandidateLeg>): seq<ResolvedLeg> {
    seq(|legs|, i requires 0 <= i < |legs| => PayoffLeg(legs[i]))
  }

  function StrikesOf(legs: seq<CandidateLeg>): seq<real> {
    seq(|legs|, i requires 0 <= i < |legs| => legs[i].strike)
  }

  /** A leg built from its template, its resolved strike and the row listed there. */
  function BuildLeg(template: LegTemplate, strike: real, summary: Summary, config: Config): CandidateLeg {
    var row := RowFor(summary.rows, strike, template.optionType);
    var (price, source) := PriceLeg(template.side, if row.Some? then row.value.quote else None);
    CandidateLeg(template.side, template.optionType, strike, price, source, CheckLiquidity(row, config))
  }

  ghost predicate Built(legs: seq<CandidateLeg>, templates: seq<LegTemplate>, strikes: seq<real>, summary: Summary,
      config: Config) {
    && |legs| <= |templates| == |strikes|
    && forall i :: 0 <= i < |legs| ==> legs[i] == BuildLeg(templates[i], strikes[i], summary, config)
  }

  /** A supported candidate: every template leg resolved, built and priced, and the payoff of those legs. */
  ghost predicate Generated(c: Candidate, strategy: StrategyType, summary: Summary, config: Config) {
    var templates := Templates(strategy).GetOr([]);
    && Usable(summary) && Templates(strategy).Some? && WingsLookBack(templates)
    && |c.legs| == |templates|
    && Resolution(StrikesOf(c.legs), templates, summary, config)
    && Built(c.legs, templates, StrikesOf(c.legs), summary, config)
    && (c.liquidityOk <==> forall i :: 0 <= i < |c.legs| ==> c.legs[i].liquidityOk)
    && c.payoff.Some? && Describes(c.payoff.value, PayoffLegs(c.legs))
  }

  lemma BuiltFollows(legs: seq<CandidateLeg>, templates: seq<LegTemplate>, strikes: seq<real>, summary: Summary,
      config: Config)
    requires Built(legs, templates, strikes, summary, config) && |legs| == |templates|
    ensures Follows(PayoffLegs(legs), templates)
  {}
}
