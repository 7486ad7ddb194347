# Verified model of the centralized algo-trading system

This project models the parts of the trading system whose behaviour is hardest to see from the
code, and proves what they promise: the option payoff engine and the candidate generator built on
it, max pain and implied volatility, the tick-to-candle aggregator with its storage step, the
process-control protocol of the trading agent, the Straddle Pulse engine, AI research runs, option
symbols with the instrument master, the feed scheduler, and the API rate limiter.

`dafny verify dfyconfig.toml` checks everything. Floats are exact `real` numbers, times and dates
are integers, database tables are maps whose keys are the tables' unique keys. Clocks, prices
coming from outside, other writers and other processes are parameters or separate steps.

## How the pieces fit

| files | what they hold |
|---|---|
| `Prelude`, `PiecewiseLinear` | ordered lists; sums of call- and put-shaped hinges, their segments and tails |
| `Payoff`, `Strategies`, `Candidates`, `CandidateRisk`, `CandidateGenerator` | expiration P&L, templates, strike resolution, wing placement and worst loss, generation |
| `MaxPain`, `ImpliedVolatility` | chain analytics |
| `CandleSeries`, `CandleRuns`, `Aggregator`, `CandleStore` | one series as a value, all its runs, the mutable aggregator, the insert-only writes |
| `AgentProtocol` | START and RESTART callers interleaved with the processes they launch |
| `StraddlePulse`, `StraddleRuns` | the idempotent step over cycle, session and open-interest rows, and its runs |
| `ResearchRun`, `ResearchRuns` | the run row and its checklist, streams of completions, how a job ends |
| `Decimals`, `Symbols`, `Instruments` | "%g" text, option symbols, the master's two indexes |
| `MarketHours`, `Scheduler`, `RateLimiter` | trading sessions, feed start and stop, fixed-window limits |

Where the source updates things in place the model does too (`Aggregator`, `CandleStore`,
`ResearchRun.RunRow`, `StraddlePulse.PulseEngine`, `Instruments.InstrumentMaster`,
`Scheduler.MarketDataScheduler`, `RateLimiter.Limiter`); each method is proved against a function
on values, and the theorems about runs are about that function.

## Results that are not what the documentation says

- The payoff module's description says breakevens are extrapolated on the unbounded segment. The
  search stops at the far probe. `Payoff.LateBreakevenMissed` gives legs whose breakeven is not
  reported, and `Payoff.BreakevensReportedIff` states exactly when every zero is reported.
- An option symbol keeps six significant digits of the strike, and does not parse if the underlying
  holds the separator. `Symbols.RoundTripIff` and `Symbols.SymbolsCollideIff` state exactly when the
  parse inverts the print and when two contracts share a symbol, `Symbols.SevenDigitsLost` gives a
  strike, and `Instruments.AgreeIff`, `FoundIffDistinguishable` and `CountsMatchIff` state what that
  does to the instrument master.
- A process launched by START that is given up on before it registers or exits, by the two-second
  deadline or because the caller is killed, can lead to two live processes
  (`AgentProtocol.AbandonmentIsUnsafe`, and a run from an idle box in `TwoProcesses`). Without that,
  `AgentProtocol.AtMostOneProcess` holds.
- START reports "process exited immediately after launch" also when the deadline passes with the
  process alive. `AgentProtocol.OutcomeIsTrue` and `RunReportsTruly` state exactly when the report is
  false, and `DeadlineMisreports` gives a run.
- A stage completing out of plan order breaks the checklist's shape at once:
  `ResearchRuns.ShapedIffInOrder`, with a stream in `OutOfOrderBreaksShape`.
- The end-of-day close takes its lock twice, and a tick in between can make minutes come out twice or
  out of order: `CandleRuns.ForceCloseGapIff` states exactly when, `ForceCloseRace` gives a tick. A
  flush in the middle of a minute drops the minute's later ticks: `CandleRuns.LosslessIff`, `SplitMinuteDrops`.
- An expiry cycle created while no earlier expiry is listed starts at its own expiry, after the days
  whose sessions belong to it: `StraddleRuns.SpanIff`, `CycleStartsLate`. An expiry listed late makes
  the step raise: `StraddleRuns.RaisesIff`, `NeverRaisesIff`, `EarlierListingRaises`.
- With a limit below one the limiter still lets the first request of each window through:
  `RateLimiter.GrantsMinIff`, `ZeroLimitGrantsOne`.
- A shutdown that cancels a startup leaves the feed's state at CONNECTING and runs no stop hook:
  `Scheduler.MarketDataScheduler.Shutdown`, `ShutdownDuringStartup`.

## Assumptions of the agent protocol

A process removes its PID file only as it exits; SIGKILL ends a process before the wait after it
does; PIDs are not reused; the host is POSIX, so the lock file excludes; a killed caller loses its
lock. The stop flag only makes an exit likelier: a process may exit at any time. A plain STOP_ALGO
or STATUS beside START takes no lock and is outside the theorem.

## Model

| member | source | states |
|---|---|---|
| PiecewiseLinear.Affine | trading/ai_options_research/payoff.py:87-95 | between neighbouring strikes a sum of option intrinsics is a straight line with an integer slope |
| PiecewiseLinear.RightTail | trading/ai_options_research/payoff.py:122-126 | beyond every strike the slope is the net call weight, from any starting point |
| PiecewiseLinear.Locate | trading/ai_options_research/payoff.py:131-137 | every price is bracketed by two evaluation points between whose values its value lies, or is on the tail of one |
| Payoff.ZeroSum | trading/ai_options_research/payoff.py:87-95 | flipping every side negates P&L, premium and tail slope at every price |
| Payoff.ReversingNeverGains | trading/ai_options_research/payoff.py:87-95 | taking legs and reversing them at prices no better never gains, at any price |
| Payoff.PnlSplits | trading/ai_options_research/payoff.py:87-109 | P&L is the sum of signed intrinsics plus the net premium |
| Payoff.ProbedSlope | trading/ai_options_research/payoff.py:120-126 | the two probes recover exactly long calls minus short calls, so the epsilon test reads its sign |
| Payoff.UnboundedIffTailSlope | trading/ai_options_research/payoff.py:122-129 | P&L is unbounded above (below) over all prices if and only if the tail slope is positive (negative) |
| Payoff.ExtremeProfit | trading/ai_options_research/payoff.py:131-139 | with no rising tail, the greatest evaluated value is the attained maximum over every price |
| Payoff.ExtremeLoss | trading/ai_options_research/payoff.py:131-140 | with no falling tail, the least evaluated value is the attained minimum over every price |
| Payoff.PriceFloorIsZero | trading/ai_options_research/payoff.py:131-137 | with no negative strike the extremes are over every price from zero up |
| Payoff.ComputePayoff | trading/ai_options_research/payoff.py:98-154 | for any legs: unpriced exactly when empty or a price is missing; otherwise flags if and only if unbounded, attained extremes, and for nonnegative strikes exactly the zeros up to five times a strike or 1000 past it |
| Payoff.FindBreakevens | trading/ai_options_research/payoff.py:157-180 | strictly increasing, and a value is listed if and only if it is a zero at a segment end or strictly inside a segment whose left end is not zero |
| Payoff.SegmentZeros | trading/ai_options_research/payoff.py:161-170 | a segment with a nonzero left end has exactly the interpolated crossing inside, or no zero inside |
| Payoff.BreakevensComplete | trading/ai_options_research/payoff.py:157-172 | up to the far probe a zero not listed lies on a segment zero throughout with both ends listed |
| Payoff.BreakevensReportedIff | trading/ai_options_research/payoff.py:157-172 | every zero over all prices is reported if and only if the P&L at the far probe is not still on the wrong side of its tail |
| Payoff.AllReportedIff | trading/ai_options_research/payoff.py:33-172 | the same in numbers: every zero is reported if and only if the P&L at five times the highest strike, or 1000 past it, is not on the wrong side of its tail |
| Payoff.BoughtCallBreakeven | trading/ai_options_research/payoff.py:98-172 | a bought call reports strike plus price as its breakeven if and only if the price is at most four strikes or 1000, and its price as maximum loss |
| Payoff.LateBreakevenMissed | trading/ai_options_research/payoff.py:157-172 | a call bought for more than the probe distance has a breakeven that is not reported |
| Strategies.TemplatesWellFormed | trading/ai_options_research/strategy_templates.py:81-148 | exactly the supported strategies have templates, and wings refer to earlier legs |
| Strategies.SlopeFromTemplate | trading/ai_options_research/strategy_templates.py:81-144 | whatever strikes and prices are resolved, the tail slope is the template's long calls minus short calls |
| Strategies.StraddlesShareLegs | trading/ai_options_research/strategy_templates.py:96-139 | straddles sold, bought, hedged and as iron flies share their legs, the long one flipped |
| Strategies.StranglesShareLegs | trading/ai_options_research/strategy_templates.py:81-144 | strangles likewise, and a condor is a put credit spread and a call credit spread |
| Strategies.DebitSpreadsExtend | trading/ai_options_research/strategy_templates.py:122-135 | a debit spread starts with the single long leg it finances |
| Strategies.SelectorsByStrategy | trading/ai_options_research/strategy_templates.py:61-144 | a wing has its reference's type and the opposite side, one wing a reference, the hedge width exactly in hedged strategies; other legs are delta-targeted or at the money by strategy |
| Strategies.UnboundedByStrategy | trading/ai_options_research/strategy_templates.py:51-144 | loss is unbounded only for the short straddle and strangle, profit only for long call, long straddle and long strangle; the default universe is the strategies of bounded loss but the long call |
| Candidates.PricesAreConservative | trading/ai_options_research/payoff.py:71-84 | on an orderly quote a sale fetches at most, and a purchase costs at least, any quoted price |
| Candidates.PriceIsQuoted | trading/ai_options_research/payoff.py:71-84 | the source names the quoted field the price is, and the last trade stands in exactly for a missing bid or ask |
| Candidates.LiquidityThresholds | trading/ai_options_research/candidates.py:82-96 | each threshold passes exactly at the quoted figure, off when zero or unset, and the three are asked independently |
| Candidates.NoQuoteNoLiquidity | trading/ai_options_research/candidates.py:84-85 | a strike without a quote never passes |
| Candidates.RowFor | trading/ai_options_research/candidates.py:78-79 | the last row with that strike and type, none only if there is none |
| Candidates.NearestStrike | trading/ai_options_research/candidates.py:121-122 | listed, nearest to the target, and the lower of two equally near |
| Candidates.ResolveDeltaTarget | trading/ai_options_research/candidates.py:99-118 | no row only if none of the type has a quote and a delta; otherwise the first of the rows nearest the middle of the band if any is inside, nearest its edges if none |
| CandidateGenerator.GenerateCandidate | trading/ai_options_research/candidates.py:125-205 | supported exactly when templated, charted and delta-resolvable; legs resolve their templates; loss unbounded exactly for the two naked strategies; for every other priced candidate with positive widths the worst loss is covered by the wings and reported exactly |
| CandidateGenerator.ResolveStrikes | trading/ai_options_research/candidates.py:155-173 | every leg resolved against the strikes before it, and nothing exactly when a delta-targeted leg has no row with a delta |
| CandidateGenerator.BuildLegs | trading/ai_options_research/candidates.py:175-197 | each leg priced and checked from the row at its strike |
| CandidateRisk.PutWing | trading/ai_options_research/candidates.py:169-173 | a put wing is within twice the width below its listed reference, and strictly below if and only if some strike there is |
| CandidateRisk.CallWing | trading/ai_options_research/candidates.py:169-173 | a call wing is within twice the width above, strictly above if and only if a strike lies strictly between, the tie going to the reference |
| CandidateRisk.StrikeOfCandidate | trading/ai_options_research/candidates.py:155-173 | every strike of a candidate is some row's, except that an ATM leg takes the chain's ATM strike as it is |
| CandidateRisk.PricedLegListed | trading/ai_options_research/candidates.py:175-197 | a leg with a price sits at a strike some row lists, whatever selected it |
| CandidateRisk.WingOfCandidate | trading/ai_options_research/candidates.py:155-173 | with its own reference listed and its own width positive, a wing is on its protective side, at most twice its width away, and off its reference if and only if a listed strike is within reach |
| CandidateRisk.StrikesByStrategy | trading/ai_options_research/candidates.py:99-173 | by strategy and in the configuration's terms: wings within twice the wing or hedge width of a leg of their type and the opposite side, other legs at the ATM strike or a best-delta row |
| CandidateRisk.PnlFloor | trading/ai_options_research/candidates.py:155-197 | for every strategy but the two naked ones, P&L at any price is at least the net premium less the protective wing distances |
| CandidateRisk.MaxLossCovered | trading/ai_options_research/candidates.py:155-197 | so the reported maximum loss of a priced candidate with positive widths is at most the wing distances less the net premium, or zero if that is negative |
| CandidateRisk.FourLegMinimum | trading/ai_options_research/candidates.py:155-197 | the attained minimum over every price of a four-legged strategy is the net premium less the depth: the deeper wing distance, or as far as the short strikes cross, up to both distances |
| CandidateRisk.FewLegsMinimum | trading/ai_options_research/candidates.py:155-197 | the attained minimum of one and two legs: net premium less the wing distance for a credit spread, net premium for a debit spread or a single long leg, net premium plus the overlap for a long put and call |
| CandidateRisk.ExactMaxLoss | trading/ai_options_research/candidates.py:155-197 | every priced candidate but the two naked strategies with positive widths reports exactly its depth less its net premium |
| CandidateRisk.SpreadDirection | trading/ai_options_research/strategy_templates.py:82-135 | a bull spread never does worse at a higher price, a bear spread never better |
| CandidateRisk.PremiumIsOffered | trading/ai_options_research/payoff.py:71-84 | a priced candidate is at prices its rows offer each side |
| CandidateRisk.LegPriced | trading/ai_options_research/candidates.py:78-96 | a leg is priced and checked off the last row listed for its contract, and the candidate is liquid if and only if all legs are |
| CandidateRisk.PremiumIsLeast | trading/ai_options_research/payoff.py:71-95 | on an orderly chain no other offered prices give less net premium, or less P&L at any price |
| CandidateRisk.NoFreeRoundTrip | trading/ai_options_research/payoff.py:71-95 | on an orderly chain a priced candidate and its reverse, priced off the same rows, never gain together at any price |
| MaxPain.CalculateMaxPain | trading/market_data/options_intelligence.py:361-387 | none only on an empty chain; the lowest listed strike of least payout, which no real settlement price undercuts |
| MaxPain.PayoutFloor | trading/market_data/options_intelligence.py:377-386 | with no negative open interest, a bound at the listed strikes is a bound at every real settlement price |
| MaxPain.TableIsChain | trading/market_data/options_intelligence.py:371-375 | with distinct strikes the keyed table is the chain itself |
| MaxPain.PayoutAdds | trading/market_data/options_intelligence.py:371-383 | a row at a new strike adds its call and put open interest times what each is in the money by; an empty chain owes nothing |
| MaxPain.PayoutReplaces | trading/market_data/options_intelligence.py:371-375 | a row at a strike already there takes its place |
| ImpliedVolatility.Solve | trading/market_data/options_intelligence.py:414-443 | rejects exactly nonpositive inputs, prices below intrinsic value and unreachable prices, each up to the tolerance; otherwise inside the bracket, repricing within the tolerance plus slope bound times half the final width, and for a nondecreasing price near every exact solution |
| ImpliedVolatility.RootsStay | trading/market_data/options_intelligence.py:434-442 | halving never discards a solution of a nondecreasing price |
| ImpliedVolatility.MidpointError | trading/market_data/options_intelligence.py:434-443 | the midpoint of any bracket reprices within the tolerance plus the slope bound times half its width |
| ImpliedVolatility.HalvedTenTimes | trading/market_data/options_intelligence.py:434-442 | ten iterations divide the width by 1024 |
| ImpliedVolatility.RejectionIsRight | trading/market_data/options_intelligence.py:429-432 | for a nondecreasing price, no volatility in the range comes within the tolerance of a rejected price |
| CandleSeries.UpdateSummarises | trading/market_data/aggregator.py:43-50 | updating a bucket keeps it the summary of its ticks: first, last, attained extremes, last reported volume and open interest |
| CandleSeries.GroupedAscends | trading/market_data/aggregator.py:60-72 | grouping ordered ticks by minute gives strictly increasing minutes |
| CandleSeries.GroupedMinutes | trading/market_data/aggregator.py:60-72 | the minutes with a group are exactly the minutes with a tick |
| CandleSeries.GroupedSummarises | trading/market_data/aggregator.py:43-72 | each group is the candle of exactly the ticks of its minute |
| CandleRuns.RunConsistent | trading/market_data/aggregator.py:60-133 | in every run, candles emitted plus buckets held are the accepted ticks grouped by minute |
| CandleRuns.EmittedCandles | trading/market_data/aggregator.py:60-133 | every run emits strictly increasing minutes, each candle summarising exactly its minute's accepted ticks |
| CandleRuns.CandlesInTime | trading/market_data/aggregator.py:28-72 | every candle, emitted or held, starts on a whole 60-second minute and summarises exactly the accepted ticks of those 60 seconds |
| CandleRuns.TicksInTime | trading/market_data/aggregator.py:28-72 | every accepted tick is in exactly one candle, that of its 60 seconds |
| CandleRuns.FlushInTime | trading/market_data/aggregator.py:74-83 | a flush emits every held candle but the last, and the last if and only if its 60 seconds are over |
| CandleRuns.NoTickLost | trading/market_data/aggregator.py:60-133 | a minute is emitted or held if and only if a tick of it was accepted |
| CandleRuns.AcceptanceRule | trading/market_data/aggregator.py:60-72 | a tick is accepted if and only if no later minute was accepted before and its minute was not emitted yet |
| CandleRuns.EmittedIffClosed | trading/market_data/aggregator.py:74-83 | while no later minute is seen, a minute is emitted if and only if a closing event followed a tick of it |
| CandleRuns.LosslessIff | trading/market_data/aggregator.py:60-133 | for ticks in order of minute, none is dropped if and only if no flush or force close splits a minute |
| CandleRuns.DroppedIffSplit | trading/market_data/aggregator.py:60-133 | the same in clock time: a tick is dropped if and only if some close, or a flush after the minute was over, falls between two ticks of it |
| CandleRuns.ScheduleIndependent | trading/market_data/aggregator.py:110-133 | then, after the end-of-day close, the candles are the whole stream grouped by minute, whatever the schedule |
| CandleRuns.PatientClock | trading/market_data/aggregator.py:110-124 | flushes whose clock never passes a later tick's minute split no minute |
| CandleRuns.SplitMinuteDrops | trading/market_data/aggregator.py:60-83 | a flush between two ticks of one minute drops the second |
| CandleRuns.ForceCloseGapIff | trading/market_data/aggregator.py:126-133 | after any run and for any ticks, flushes and closes between the two locked halves of a force close, the candles out and held ascend if and only if the first event with an effect is no tick, or a tick of a later minute than those put away |
| CandleRuns.ForceCloseRace | trading/market_data/aggregator.py:126-133 | one tick of the same minute in that gap makes the flush emit the minute twice |
| Aggregator.Bucket.constructor | trading/market_data/aggregator.py:33-41 | a new bucket is the opened candle of its first tick |
| Aggregator.Bucket.Update | trading/market_data/aggregator.py:43-50 | the bucket becomes the updated candle |
| Aggregator.LiveSeries.Add | trading/market_data/aggregator.py:60-72 | the series becomes the added one of the value model |
| Aggregator.LiveSeries.CloseThrough | trading/market_data/aggregator.py:74-83 | returns and removes exactly the closed buckets and raises the watermark |
| Aggregator.CandleAggregator.OnTick | trading/market_data/aggregator.py:94-107 | only the tick's series changes, created empty if new |
| Aggregator.CandleAggregator.Flush | trading/market_data/aggregator.py:110-124 | every series closes through the minute, and the output holds each one's closed candles in order |
| Aggregator.CandleAggregator.FinishAll | trading/market_data/aggregator.py:128-132 | every current bucket is put away, under a lock of its own |
| Aggregator.CandleAggregator.ForceCloseAll | trading/market_data/aggregator.py:126-133 | with nothing in between, every series emits all it holds, the current minute included |
| Aggregator.SeriesIndependent | trading/market_data/aggregator.py:86-124 | in a run of the whole aggregator each series lives through its own ticks and every flush, nothing else |
| Aggregator.SeriesEmits | trading/market_data/aggregator.py:110-133 | and emits exactly what its own run emits |
| CandleStore.CommitRows | trading/market_data/aggregator.py:185-202 | whatever other sessions insert in between: every key present, no row altered, the count is the number of this session's own inserts, which are exactly the keys it is first to claim |
| CandleStore.InsertEach | trading/market_data/aggregator.py:192-202 | the row-by-row fallback keeps all that, one transaction a row |
| CandleStore.Persist | trading/market_data/aggregator.py:147-182 | the same for a requested batch after its pre-check, and zero rows when all keys are there already |
| CandleStore.NewRowsAreMissing | trading/market_data/aggregator.py:205-233 | the range query of the pre-check leaves exactly the requested rows the table lacks |
| AgentProtocol.StepKeepsInv | trading/agent/trading_agent.py:124-316 | every step of every caller and process keeps the invariant, unless it abandons a starting process |
| AgentProtocol.AtMostOneProcess | trading/agent/trading_agent.py:124-316 | in every such interleaving at most one process is alive, and with the lock free the PID file names it |
| AgentProtocol.OutcomeIsTrue | trading/agent/trading_agent.py:163-244 | for every step that makes a report: a reported PID is alive, registered and in the PID file; a reported exit is true, nothing being alive, if and only if it is not a deadline with the child alive |
| AgentProtocol.RunReportsTruly | trading/agent/trading_agent.py:163-316 | the same for every report of every such run from an idle box |
| AgentProtocol.DeadlineMisreports | trading/agent/trading_agent.py:201-228 | a run in which the caller is told the process exited while it is alive, registered and in the PID file |
| AgentProtocol.RestartReplaces | trading/agent/trading_agent.py:247-316 | from invocation to report in every such run: a RESTART never reports a process as already running; every process there when it took the lock is dead, and one it reports running is new |
| AgentProtocol.KillsOnlyAfterGrace | trading/agent/trading_agent.py:268-284 | without its grace deadline a RESTART has ended nothing itself: whatever has died since it took the lock was gone by itself |
| AgentProtocol.StartRespects | trading/agent/trading_agent.py:156-244 | a START ends nothing: a process alive when it took the lock is reported already running unless it was gone by itself, and only such a one is so reported |
| AgentProtocol.LaunchesAlone | trading/agent/trading_agent.py:163-190 | whoever launches does so with nothing alive, a RESTART with the PID file gone |
| AgentProtocol.HolderCanStep | trading/agent/trading_agent.py:124-316 | whoever holds the lock can take a step of its own |
| AgentProtocol.PidFileExact | trading/common/utils.py:35-53 | with no crash and no killed caller, whenever the lock is free the PID file names exactly the live process |
| AgentProtocol.RestartRun | trading/agent/trading_agent.py:247-316 | a run of RESTART that kills a process ignoring its stop and reports the new one |
| AgentProtocol.AbandonmentIsUnsafe | trading/agent/trading_agent.py:201-228 | from any reachable state, abandoning a starting process can be continued to two live processes |
| AgentProtocol.TwoProcesses | trading/agent/trading_agent.py:163-228 | a run from an idle box to two live processes |
| ResearchRun.RunRow.Create | trading/ai_research/repository.py:109-147 | a queued run with every plan node pending |
| ResearchRun.RunRow.Start | trading/ai_research/repository.py:173-190 | the run is in progress with its first stage running |
| ResearchRun.RunRow.NodeComplete | trading/ai_research/repository.py:193-230 | the first open stage of that name completes and a pending successor starts running; otherwise nothing |
| ResearchRun.RunRow.Complete | trading/ai_research/repository.py:233-250 | every stage completed and the run done |
| ResearchRun.RunRow.Fail | trading/ai_research/repository.py:263-282 | only the first running stage fails, and the run is aborted |
| ResearchRun.RunRow.RecoverInterrupted | trading/ai_research/repository.py:323-359 | a queued or running run is aborted with every running stage failed; others are untouched |
| ResearchRuns.NodeOrderDistinct | trading/ai_research/trading_agents_adapter.py:135-148 | for every choice of analysts the plan is nonempty and its names distinct |
| ResearchRuns.InOrderRun | trading/ai_research/repository.py:173-230 | while first completions follow the plan, the run is exactly the checklist at its progress, current stage included |
| ResearchRuns.ShapedIffInOrder | trading/ai_research/repository.py:193-230 | the checklist is completed, at most one running, pending, at every moment if and only if first completions follow the plan |
| ResearchRuns.FailureMarksRunning | trading/ai_research/repository.py:263-282 | failure turns exactly the running stage into a failed one |
| ResearchRuns.FailureTouchesOne | trading/ai_research/repository.py:263-282 | on any run failure touches at most the first running stage |
| ResearchRuns.CompletionTouches | trading/ai_research/repository.py:193-230 | on any run in progress a completion completes the first open stage of its name, starts a pending successor and touches nothing else; on any other run it does nothing |
| ResearchRuns.RecoveryIsFailure | trading/ai_research/repository.py:323-359 | recovery leaves an in-order run as failure does, and a queued one aborted with every stage pending |
| ResearchRuns.NothingLeftRunning | trading/ai_research/repository.py:323-359 | recovery fails exactly the running stages of any queued or running run and leaves none running |
| ResearchRuns.TerminalIsFinal | trading/ai_research/service.py:185-239 | once a job has ended done or aborted, no later action changes its run |
| ResearchRuns.JobKeepsInv | trading/ai_research/service.py:127-270 | over any actions, a terminal status is reached only by ending, and done means every stage completed |
| ResearchRuns.LateCallbacksIgnored | trading/ai_research/service.py:185-223 | after a timeout the run stays as it failed, whatever the orphaned worker reports, for any plan and any earlier completions |
| ResearchRuns.JobStatus | trading/ai_research/service.py:127-270 | for every list of actions from the creation of a job, its status and phase are decided by the first action that ends it; an unstored result is aborted by a later restart |
| ResearchRuns.JobFrozen | trading/ai_research/service.py:185-270 | once a created job is done or aborted no later action changes it |
| ResearchRuns.JobRun | trading/ai_research/service.py:127-223 | until a created job ends, its run is exactly that of the nodes reported since it began |
| ResearchRuns.JobShapedIff | trading/ai_research/service.py:127-223 | a created job's checklist keeps its shape from beginning to end if and only if completions follow the plan |
| ResearchRuns.JobAborts | trading/ai_research/service.py:185-239 | a created job timing out or failing ends with the stage then running failed, whatever comes late |
| ResearchRuns.OutOfOrderBreaksShape | trading/ai_research/repository.py:193-230 | one completion ahead of the plan leaves a running stage before a completed one |
| StraddlePulse.LeastUpcoming | trading/market_data/expiry_cycle.py:37-40 | the least listed expiry on or after today, none if all are past |
| StraddlePulse.CycleSpan | trading/market_data/expiry_cycle.py:50-61 | a cycle starts the day after the last listed expiry before its own |
| StraddlePulse.NearestStrike | trading/market_data/option_chain.py:25-28 | listed and nearest the spot; on ascending strikes the lowest of those |
| StraddlePulse.WindowAroundAtm | trading/market_data/option_chain.py:38-46 | the window holds exactly the strikes at most n places from the centre |
| StraddlePulse.PulseEngine.CompletePastCycles | trading/market_data/expiry_cycle.py:79-93 | exactly the active cycles past their end are completed, and counted |
| StraddlePulse.PulseEngine.GetOrCreateActiveCycle | trading/market_data/expiry_cycle.py:33-77 | returns the least upcoming expiry, inserts its cycle if missing, and raises exactly when another is active |
| StraddlePulse.PulseEngine.GetOrCreateToday | trading/market_data/daily_session.py:23-62 | a session for the day exists afterwards if and only if it is a trading day, an existing one untouched |
| StraddlePulse.PulseEngine.SnapshotOi | trading/market_data/oi_pcr.py:33-103 | only for a locked session, totals over the window, at most one row a minute |
| StraddlePulse.PulseEngine.Step | trading/market_data/straddle_pulse.py:78-102 | the whole step equals its value model, outcome included |
| StraddleRuns.OneActiveAlways | trading/market_data/models.py:123-132 | whatever the inputs, at most one cycle is active after every run |
| StraddleRuns.RaisesIff | trading/market_data/expiry_cycle.py:33-93 | in every run with days in order, whatever raised before, a call raises if and only if another expiry worked on by a call that did not raise is still to come |
| StraddleRuns.NeverRaisesIff | trading/market_data/expiry_cycle.py:33-93 | with days in order, no call of a run raises if and only if the listings keep the expiry worked on until it is past |
| StraddleRuns.WorksOnTheActiveCycle | trading/market_data/expiry_cycle.py:33-93 | in every run with days in order, a call that does not raise leaves the least listed expiry on or after today the only active cycle |
| StraddleRuns.LockedForever | trading/market_data/atm_lock.py:43-44 | a locked session never changes again, whatever the inputs |
| StraddleRuns.LockChoosesAtm | trading/market_data/atm_lock.py:46-91 | in every run, a locked session holds what the one call that locked it fixed: at or after 09:16 of its day, on a listed strike nearest the 09:15 close, the lowest such when the strikes ascend as the master lists them |
| StraddleRuns.SessionOrigin | trading/market_data/daily_session.py:23-62 | in every run, a session was opened by a call of its own trading day on that call's least upcoming expiry |
| StraddleRuns.SessionIff | trading/market_data/straddle_pulse.py:78-102 | a day has a session if and only if some call of it, on a trading day, found an expiry and did not raise |
| StraddleRuns.LockedIff | trading/market_data/atm_lock.py:35-91 | a day's session is locked if and only if some such call came at or after 09:16 with the 09:15 close known and strikes listed |
| StraddleRuns.SnapshotIff | trading/market_data/oi_pcr.py:33-103 | a minute has a snapshot if and only if some such call of it left its session locked |
| StraddleRuns.Idempotent | trading/market_data/straddle_pulse.py:78-102 | from any rows, a second call in the same minute changes nothing, whatever open interest it sees |
| StraddleRuns.ChangesMeasured | trading/market_data/oi_pcr.py:56-88 | in any run whose clock never goes back, every row's change is its total less the day's first total |
| StraddleRuns.FirstExists | trading/market_data/oi_pcr.py:65-75 | a day with a snapshot has a first one, so the measured changes speak of every row |
| StraddleRuns.SnapshotOrigin | trading/market_data/oi_pcr.py:33-103 | in every run, each row is what one call of its minute saw: running totals of the call and of the put open interest over the strikes around the locked one, or around the nearest if it is no longer listed, and their ratio |
| StraddleRuns.SpanIff | trading/market_data/expiry_cycle.py:50-61 | with days in order, a session's day lies within its cycle's dates if and only if the call that inserted the cycle saw an earlier expiry listed or the day is the expiry |
| StraddleRuns.CycleStartsLate | trading/market_data/expiry_cycle.py:50-61 | a cycle created with no earlier expiry listed starts after the day of its session |
| StraddleRuns.EarlierListingRaises | trading/market_data/expiry_cycle.py:33-77 | an expiry listed late, before the one worked on, makes the next call raise |
| StraddleRuns.AlwaysLinked | trading/market_data/models.py:147-208 | sessions keep pointing at an existing cycle not past on their day, snapshots at a locked session of their expiry |
| Decimals.Round6Facts | trading/market_data/symbols.py:147-149 | rounding keeps at most six digits and changes nothing if and only if there were no more |
| Decimals.FormatParse | trading/market_data/symbols.py:147-169 | printing a strike and reading it back gives the strike rounded to six significant digits, in fixed and exponent form |
| Decimals.PrintedStrikes | trading/market_data/symbols.py:147-149 | the printed text of whole, fractional, large and small strikes, letter by letter |
| Decimals.OtherForms | trading/market_data/symbols.py:161-169 | texts the printer does not write that read as strikes, and texts that do not read |
| Decimals.RoundsToNearest | trading/market_data/symbols.py:147-149 | rounding is to nearest, a tie to even |
| Symbols.IsoRoundTrip | trading/market_data/symbols.py:156-168 | an ISO date reads back as itself |
| Symbols.IsoOnly | trading/market_data/symbols.py:161-168 | only the ISO text of a date reads as that date |
| Symbols.CalendarFacts | trading/market_data/symbols.py:161-168 | exactly the dates of the Gregorian calendar from year 1 to 9999 are dates |
| Symbols.CleanFacts | trading/market_data/symbols.py:152-158 | cleaning ignores surrounding blanks and leaves nothing lower-case and no blank end |
| Symbols.SplitJoined | trading/market_data/symbols.py:156-166 | splitting two texts joined by the separator splits each of them |
| Symbols.SplitInjective | trading/market_data/symbols.py:161-166 | different texts split differently |
| Symbols.ParseMade | trading/market_data/symbols.py:152-174 | a made symbol parses to its cleaned contract with the strike rounded, or is rejected when the underlying holds the separator |
| Symbols.RoundTripIff | trading/market_data/symbols.py:152-174 | the round trip is exact if and only if the underlying has no separator and the strike at most six digits |
| Symbols.SymbolText | trading/market_data/symbols.py:152-158 | one symbol letter by letter |
| Symbols.SymbolsCollideIff | trading/market_data/symbols.py:152-158 | two contracts share a symbol if and only if they agree up to six digits of strike, separators or not |
| Symbols.SevenDigitsLost | trading/market_data/symbols.py:147-174 | strike 1234567 reads back as 1234570, and its symbol is also that of 1234568 |
| Instruments.LookupPut | trading/market_data/instruments.py:48-50 | the chain of nested defaults sets exactly one contract |
| Instruments.LastWithIs | trading/market_data/instruments.py:44-51 | what an index holds is the last complete call or put of its key |
| Instruments.LoadedCounts | trading/market_data/instruments.py:43-61 | each complete call or put is counted once, anything else not at all |
| Instruments.InstrumentMaster.Load | trading/market_data/instruments.py:37-61 | each index holds the last loadable instrument of its key; asking by symbol and by contract agree if and only if the contract is not shadowed; the refresh date and source are kept |
| Instruments.IndexesAgree | trading/market_data/instruments.py:95-107 | for instruments carrying their made symbol with at most six digits of strike, the last with a made symbol is the last with the contract |
| Instruments.AgreeIff | trading/market_data/instruments.py:95-107 | for any contract asked for, both indexes give the same answer if and only if no other contract with its symbol comes after the last of its own |
| Instruments.FoundIffDistinguishable | trading/market_data/instruments.py:37-107 | every loaded contract is found under its own symbol if and only if no two contracts clash |
| Instruments.InstrumentMaster.CountFor | trading/market_data/instruments.py:80-85 | the nested sum is the number of contracts in the tree of that underlying |
| Instruments.CountsByUnderlying | trading/market_data/instruments.py:80-85 | which after a load is the number of distinct loaded contracts of that underlying |
| Instruments.CountsMatchIff | trading/market_data/instruments.py:80-85 | for instruments carrying their made symbol, the symbol index never has more entries than the tree, and as many if and only if no two contracts clash |
| Instruments.PrintableDistinguishable | trading/market_data/instruments.py:80-85 | contracts with at most six digits of strike never clash |
| MarketHours.OpenIffInSession | trading/market_data/market_hours.py:71-84 | open if and only if inside the session of some trading day |
| MarketHours.WeekendsAreClosed | trading/market_data/market_hours.py:54-58 | closed exactly on Saturdays, Sundays and listed holidays |
| MarketHours.NextMarketStart | trading/market_data/market_hours.py:87-107 | the least session start at or after now among all trading days, none only if there is none within the lookahead |
| Scheduler.MarketDataScheduler.Tick | trading/market_data/scheduler.py:70-114 | starts and stops alternate; unless the task is cancelled in a hook the feed runs afterwards if and only if the market is open and a needed startup did not raise; state and last error follow the hook |
| Scheduler.MarketDataScheduler.Shutdown | trading/market_data/scheduler.py:141-151 | also after a cancellation inside a hook: the feed is stopped, every start has its stop, and the state is left connecting if and only if a startup was cut short |
| Scheduler.ShutdownDuringStartup | trading/market_data/scheduler.py:93-151 | a first startup cut short by a shutdown leaves the state connecting with no flow completed or undone |
| RateLimiter.Limiter.Consume | trading/api/deps.py:212-251 | allowed exactly below the limit, the window's count raised by one, losing the insert race to any number of rivals equals coming after them, and a refused caller's retry time is the first second of the next window |
| RateLimiter.RetryIsLater | trading/api/deps.py:246-247 | the retry delay leads to the next window, and a second less does not |
| RateLimiter.SameWindowIff | trading/api/deps.py:214-216 | requests are counted together if and only if no multiple of the window lies between them |
| RateLimiter.GrantsPerWindow | trading/api/deps.py:212-251 | in any run of calls a window grants exactly the lesser of its requests and the limit |
| RateLimiter.GrantsMinIff | trading/api/deps.py:212-251 | a window grants the lesser of its requests and the configured limit if and only if that limit is at least one or there are no requests |
| RateLimiter.ZeroLimitGrantsOne | trading/api/deps.py:212-251 | with a limit of zero a single request is granted |
| RateLimiter.GrantsFirst | trading/api/deps.py:212-251 | what a window grants is the beginning of what it is asked |
| RateLimiter.AtMostTwiceTheLimit | trading/api/deps.py:212-251 | no interval one window long sees more than twice the limit granted to a subject |

## Left out

- Floating-point rounding and `round(...)`: values are stated before rounding, over exact reals.
- Payoff curve points (`_build_curve`) and the shortlist of `generate_candidates`: they would only add easy members.
- FindBreakevens: its exact description assumes no negative strike, because with one the segment ends are not in order; the extremes of ComputePayoff need no such assumption.
- Candidate notes and liquidity reasons: only whether a leg passes the liquidity gate is kept.
- Solve: the Black-Scholes formula, the Greeks and the logarithms are not modelled; the price is any function of volatility.
- CandleAggregator: the two dictionaries are one keyed by the series' own tagged key.
- ForceCloseAll: the theorems on runs take it as one step; events between its two locks are covered by ForceCloseGapIff.
- Persist: index and option rows share one key shape; timestamps are UTC, so the naive-versus-aware normalisation is not modelled.
- AtMostOneProcess: plain STOP_ALGO and STATUS, Windows hosts, the stop flag and the state and log files are outside the protocol.
- Session: the option symbols and contract ids stored at the lock are not kept.
- PulseEngine: one underlying's rows, one writer; races between two engines on one table are not modelled.
- RunRow: timestamps, durations, the coarse stage bucket, the report and the error texts; each repository call is one transaction.
- The options-research twin's repository, whose completion has no status guard.
- ParseSymbol: dates only as YYYY-MM-DD and strikes only as unsigned decimals with an optional exponent, which is what the printer writes; strip and upper act on ASCII.
- InstrumentMaster: the sorted listings and the refresh from a provider are not modelled.
- Consume: increments are serialised; two concurrent transactions on one row can lose an update.
- Tick: the asyncio loop and its sleeping; the stop hook of a shutdown is not itself cancelled.
- Frontend, migrations, route plumbing, authentication, LLM agents, brokers and data providers.
