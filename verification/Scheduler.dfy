/** The feed scheduler: trading/market_data/scheduler.py. */
module Scheduler {
  import opened Prelude
  import opened MarketHours

  datatype SchedulerAction = Start | Stop | StayRunning | StayIdle

  datatype FeedState = NotStarted | Connecting | Faulted | FeedRunning | Stopping | FeedStopped

  datatype FeedError = StartupFailed | StopFlowFailed

  /** How a hook ends: it returns, it raises, or the poll task is cancelled while awaiting it. */
  datatype HookResult = Returned | HookRaised | Cancelled

  /** Completed flows: a startup that returned, and a stop. */
  datatype Flow = Started(at: int) | Stopped(at: int)

  function Decide(open: bool, feedRunning: bool): SchedulerAction {
    if open && !feedRunning then Start
    else if !open && feedRunning then Stop
    else if open then StayRunning else StayIdle
  }

  /** Starts and stops take turns, beginning with a start. */
  ghost predicate Alternates(flows: seq<Flow>) {
    forall i :: 0 <= i < |flows| ==> (flows[i].Started? <==> i % 2 == 0)
  }

  class MarketDataScheduler {
    const start: TimeOfDay
    const stop: TimeOfDay
    const holidays: set<int>
    var feedRunning: bool
    var feedState: FeedState
    var lastError: Option<FeedError>
    /** The poll task was cancelled inside a hook; only the rest of a shutdown follows. */
    var cancelled: bool
    ghost var flows: seq<Flow>

    /** The shared state shows a hook in progress only when the task was cancelled inside it. */
    ghost predicate Valid()
      reads this
    {
      && Alternates(flows)
      && (feedRunning <==> |flows| % 2 == 1)
      && (feedRunning <==> feedState.FeedRunning? || feedState.Stopping?)
      && (feedState.Connecting? || feedState.Stopping? ==> cancelled)
    }

    predicate IsOpen(now: int) { MarketIsOpen(now, start, stop, holidays) }

    constructor (start: TimeOfDay, stop: TimeOfDay, holidays: set<int>)
      ensures Valid() && !feedRunning && !cancelled && flows == []
      ensures this.start == start && this.stop == stop && this.holidays == holidays
    {
      this.start, this.stop, this.holidays := start, stop, holidays;
      feedRunning, feedState, lastError, cancelled, flows := false, NotStarted, None, false, [];
    }

    /** `hook` says how the startup or stop hook ends, if one is run. */
    method Tick(now: int, hook: HookResult) returns (action: SchedulerAction)
      requires Valid() && !cancelled
      modifies this
      ensures Valid()
      ensures action.Start? <==> MarketIsOpen(now, start, stop, holidays) && !old(feedRunning)
      ensures action.Stop? <==> !MarketIsOpen(now, start, stop, holidays) && old(feedRunning)
      ensures action.StayRunning? <==> MarketIsOpen(now, start, stop, holidays) && old(feedRunning)
      ensures cancelled <==> (action.Start? || action.Stop?) && hook.Cancelled?
      ensures !cancelled ==>
                (feedRunning <==> MarketIsOpen(now, start, stop, holidays) && !(action.Start? && hook.HookRaised?))
      ensures flows == old(flows) + (if action.Start? && hook.Returned? then [Started(now)]
                                     else if action.Stop? && !hook.Cancelled? then [Stopped(now)] else [])
      ensures cancelled ==> feedRunning == old(feedRunning)
      ensures action.Start? ==> AfterStart(hook, feedState, lastError)
      ensures action.Stop? ==> AfterStop(hook, feedState, lastError, old(lastError))
      ensures !action.Start? && !action.Stop? ==> feedState == old(feedState) && lastError == old(lastError)
    {
      action := Decide(IsOpen(now), feedRunning);
      if action.Start? {
        RunStart(now, hook);
      } else if action.Stop? {
        RunStop(now, hook);
      }
    }

    method RunStart(now: int, hook: HookResult)
      requires Valid() && !feedRunning && !cancelled
      modifies this
      ensures Valid() && feedRunning == hook.Returned? && cancelled == hook.Cancelled?
      ensures flows == old(flows) + (if hook.Returned? then [Started(now)] else [])
      ensures AfterStart(hook, feedState, lastError)
    {
      feedState, lastError := Connecting, None;
      match hook {
        case Cancelled =>
          cancelled := true;
        case HookRaised =>
          feedState, lastError := Faulted, Some(StartupFailed);
        case Returned =>
          feedRunning, feedState := true, FeedRunning;
          flows := flows + [Started(now)];
      }
    }

    method RunStop(now: int, hook: HookResult)
      requires Valid() && feedRunning
      modifies this
      ensures Valid() && feedRunning == hook.Cancelled? && cancelled == (old(cancelled) || hook.Cancelled?)
      ensures flows == old(flows) + (if hook.Cancelled? then [] else [Stopped(now)])
      ensures AfterStop(hook, feedState, lastError, old(lastError))
    {
      feedState := Stopping;
      if hook.Cancelled? {
        cancelled := true;
        return;
      }
      if hook.HookRaised? { lastError := Some(StopFlowFailed); }
      feedRunning, feedState := false, FeedStopped;
      flows := flows + [Stopped(now)];
    }

    /**
      After the poll task is gone, cancelled inside a hook or not. Every start gets its stop; the
      state is left at CONNECTING exactly when a startup was cut short, which nothing then stops.
    */
    method Shutdown(now: int, stopRaises: bool)
      requires Valid()
      modifies this
      ensures Valid() && !feedRunning && |flows| % 2 == 0
      ensures feedState == (if old(feedRunning) then FeedStopped else old(feedState))
      ensures feedState.Connecting? <==> old(feedState).Connecting?
      ensures flows == old(flows) + (if old(feedRunning) then [Stopped(now)] else [])
    {
      if feedRunning { RunStop(now, if stopRaises then HookRaised else Returned); }
    }
  }

  /** The shared status after a startup: a raised hook is an error, and any earlier error is cleared. */
  ghost predicate AfterStart(hook: HookResult, state: FeedState, error: Option<FeedError>) {
    && (state.FeedRunning? <==> hook.Returned?) && (state.Faulted? <==> hook.HookRaised?)
    && (state.Connecting? <==> hook.Cancelled?)
    && error == (if hook.HookRaised? then Some(StartupFailed) else None)
  }

  /** The shared status after a stop: a raised hook stops the feed all the same, and leaves its error. */
  ghost predicate AfterStop(hook: HookResult, state: FeedState, error: Option<FeedError>, before: Option<FeedError>) {
    && (state.Stopping? <==> hook.Cancelled?) && (state.FeedStopped? <==> !hook.Cancelled?)
    && error == (if hook.HookRaised? then Some(StopFlowFailed) else before)
  }

  /** A first startup cut short by a shutdown: the state says connecting, and no flow was completed or undone. */
  method ShutdownDuringStartup(start: TimeOfDay, stop: TimeOfDay, holidays: set<int>, now: int, later: int)
    returns (s: MarketDataScheduler)
    requires MarketIsOpen(now, start, stop, holidays)
    ensures fresh(s) && s.Valid() && s.feedState.Connecting? && !s.feedRunning && s.flows == []
  {
    s := new MarketDataScheduler(start, stop, holidays);
    var action := s.Tick(now, Cancelled);
    s.Shutdown(later, false);
  }
}
