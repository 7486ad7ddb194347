/** A research run and its stage checklist: trading/ai_research/repository.py and service.py. */
module ResearchRun {
  import opened Prelude

  datatype StageStatus = Pending | Running | Completed | Failed

  datatype RunStatus = Queued | InProgress | Done | Aborted

  datatype Stage = Stage(name: string, status: StageStatus)

  datatype Run = Run(status: RunStatus, stages: seq<Stage>, currentStage: Option<string>)

  // ----- the plan -----

  datatype Analyst = Market | Social | News | Fundamentals

  function AnalystNodes(selected: set<Analyst>): seq<string> {
    (if Market in selected then ["Market Analyst"] else []) +
    (if Social in selected then ["Sentiment Analyst"] else []) +
    (if News in selected then ["News Analyst"] else []) +
    (if Fundamentals in selected then ["Fundamentals Analyst"] else [])
  }

  const DOWNSTREAM := ["Bull Researcher", "Bear Researcher", "Research Manager", "Trader",
                       "Aggressive Analyst", "Conservative Analyst", "Neutral Analyst", "Portfolio Manager"]

  /** The order in which nodes first complete, for a choice of analysts. */
  function NodeOrder(selected: set<Analyst>): seq<string> {
    AnalystNodes(selected) + DOWNSTREAM
  }

  function Created(plan: seq<string>): Run {
    Run(Queued, seq(|plan|, i requires 0 <= i < |plan| => Stage(plan[i], Pending)), None)
  }

  // ----- the operations on one run, as values -----

  function MarkRunning(r: Run): Run {
    if r.stages == [] then r.(status := InProgress)
    else
      r.(status := InProgress,
         stages := r.stages[0 := r.stages[0].(status := Running)],
         currentStage := Some(r.stages[0].name))
  }

  predicate Open(s: Stage) { s.status.Pending? || s.status.Running? }

  /** Index of the first stage of that name still open, or the number of stages. */
  function FirstOpen(stages: seq<Stage>, name: string): (i: nat)
    ensures i <= |stages|
    ensures i < |stages| ==> stages[i].name == name && Open(stages[i])
    ensures forall j :: 0 <= j < i ==> !(stages[j].name == name && Open(stages[j]))
  {
    if stages == [] || (stages[0].name == name && Open(stages[0])) then 0
    else 1 + FirstOpen(stages[1..], name)
  }

  function MarkNodeComplete(r: Run, name: string): Run {
    if r.status != InProgress then r
    else
      var i := FirstOpen(r.stages, name);
      if i == |r.stages| then r
      else
        var stages := r.stages[i := r.stages[i].(status := Completed)];
        if i + 1 < |stages| && stages[i + 1].status.Pending? then
          r.(stages := stages[i + 1 := stages[i + 1].(status := Running)], currentStage := Some(stages[i + 1].name))
        else
          r.(stages := stages, currentStage := Some(name))
  }

  function MarkCompleted(r: Run): Run {
    r.(status := Done, stages := seq(|r.stages|, i requires 0 <= i < |r.stages| => r.stages[i].(status := Completed)))
  }

  function FirstRunning(stages: seq<Stage>): (i: nat)
    ensures i <= |stages|
    ensures i < |stages| ==> stages[i].status.Running?
    ensures forall j :: 0 <= j < i ==> !stages[j].status.Running?
  {
    if stages == [] || stages[0].status.Running? then 0 else 1 + FirstRunning(stages[1..])
  }

  function MarkFailed(r: Run): Run {
    var i := FirstRunning(r.stages);
    r.(status := Aborted,
       stages := if i < |r.stages| then r.stages[i := r.stages[i].(status := Failed)] else r.stages)
  }

  /** A fresh backend process fails whatever was queued or running, and every running stage of it. */
  function Recover(r: Run): Run {
    if r.status.Queued? || r.status.InProgress? then
      r.(status := Aborted,
         stages := seq(|r.stages|, i requires 0 <= i < |r.stages| =>
           if r.stages[i].status.Running? then r.stages[i].(status := Failed) else r.stages[i]))
    else r
  }

  // ----- the row, updated in place -----

  class RunRow {
    var status: RunStatus
    var stages: seq<Stage>
    var currentStage: Option<string>

    function Value(): Run
      reads this
    {
      Run(status, stages, currentStage)
    }

    constructor Create(plan: seq<string>)
      ensures Value() == Created(plan)
    {
      status, currentStage := Queued, None;
      stages := seq(|plan|, i requires 0 <= i < |plan| => Stage(plan[i], Pending));
    }

    method SetStatus(i: nat, s: StageStatus)
      requires i < |stages|
      modifies this`stages
      ensures stages == old(stages)[i := old(stages)[i].(status := s)]
    {
      stages := stages[i := stages[i].(status := s)];
    }

    method Start()
      modifies this
      ensures Value() == MarkRunning(old(Value()))
    {
      status := InProgress;
      if stages != [] {
        SetStatus(0, Running);
        currentStage := Some(stages[0].name);
      }
    }

    method NodeComplete(name: string)
      modifies this
      ensures Value() == MarkNodeComplete(old(Value()), name)
    {
      if status != InProgress { return; }
      var target := 0;
      while target < |stages| && !(stages[target].name == name && Open(stages[target]))
        invariant 0 <= target <= |stages|
        invariant forall j :: 0 <= j < target ==> !(stages[j].name == name && Open(stages[j]))
      {
        target := target + 1;
      }
      if target == |stages| { return; }
      SetStatus(target, Completed);
      var next := target + 1;
      currentStage := Some(name);
      if next < |stages| && stages[next].status.Pending? {
        SetStatus(next, Running);
        currentStage := Some(stages[next].name);
      }
    }

    method Complete()
      modifies this
      ensures Value() == MarkCompleted(old(Value()))
    {
      var i := 0;
      while i < |stages|
        invariant 0 <= i <= |stages| == |old(stages)|
        invariant currentStage == old(currentStage)
        invariant forall j :: 0 <= j < |stages| ==>
                    stages[j] == if j < i then old(stages)[j].(status := Completed) else old(stages)[j]
      {
        if stages[i].status != Completed { SetStatus(i, Completed); }
        i := i + 1;
      }
      status := Done;
    }

    method Fail()
      modifies this
      ensures Value() == MarkFailed(old(Value()))
    {
      var i := 0;
      while i < |stages| && !stages[i].status.Running?
        invariant 0 <= i <= |stages|
        invariant forall j :: 0 <= j < i ==> !stages[j].status.Running?
      {
        i := i + 1;
      }
      if i < |stages| { SetStatus(i, Failed); }
      status := Aborted;
    }

    method RecoverInterrupted() returns (stale: bool)
      modifies this
      ensures stale == (old(status).Queued? || old(status).InProgress?)
      ensures Value() == Recover(old(Value()))
    {
      stale := status.Queued? || status.InProgress?;
      if !stale { return; }
      var i := 0;
      while i < |stages|
        invariant 0 <= i <= |stages| == |old(stages)|
        invariant currentStage == old(currentStage)
        invariant forall j :: 0 <= j < |stages| ==>
                    stages[j] == if j < i
                        && old(stages)[j].status.Running? then old(stages)[j].(status := Failed) else old(stages)[j]
      {
        if stages[i].status.Running? { SetStatus(i, Failed); }
        i := i + 1;
      }
      status := Aborted;
    }
  }

  // ----- the checklist over a stream of completions -----

  /** The first `k` nodes completed, the next one running, the rest pending. */
  function Checklist(plan: seq<string>, k: nat): seq<Stage> {
    seq(|plan|, i requires 0 <= i < |plan| => Stage(plan[i], if i < k then Completed
        else if i == k then Running else Pending))
  }

  /** Completed, then at most one running, then pending. */
  ghost predicate WellShaped(stages: seq<Stage>) {
    exists k: nat :: k <= |stages| && ShapedAt(stages, k)
  }

  ghost predicate ShapedAt(stages: seq<Stage>, k: nat) {
    forall i :: 0 <= i < |stages| ==>
      stages[i].status == if i < k then Completed else if i == k then Running else Pending
  }

  function After(plan: seq<string>, events: seq<string>): Run {
    if events == [] then MarkRunning(Created(plan))
    else MarkNodeComplete(After(plan, events[..|events| - 1]), events[|events| - 1])
  }

  /** A plan node completes only after every earlier plan node has; repeats and unknown nodes are free. */
  ghost predicate FollowsPlan(plan: seq<string>, events: seq<string>) {
    forall i, j :: 0 <= i < |events| && 0 <= j < |plan| && events[i] == plan[j] ==> AllBefore(plan, j, events[..i])
  }

  ghost predicate AllBefore(plan: seq<string>, j: int, events: seq<string>)
    requires 0 <= j <= |plan|
  {
    forall n :: 0 <= n < j ==> plan[n] in events
  }

  /** How many plan nodes, from the first on, have completed. */
  function Progress(plan: seq<string>, events: seq<string>): (k: nat)
    ensures k <= |plan|
    ensures AllBefore(plan, k, events)
    ensures k < |plan| ==> plan[k] !in events
  {
    if plan == [] || plan[0] !in events then 0
    else
      var rest := Progress(plan[1..], events);
      assert forall n :: 0 < n <= rest ==> plan[n] == plan[1..][n - 1];
      1 + rest
  }
}
