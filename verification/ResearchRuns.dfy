/** What the checklist looks like over every stream of completions, and what ends a job for good. */
module ResearchRuns {
  import opened Prelude
  import opened ResearchRun

  /** Tells the node names apart by length and letters, in plan order. */
  function Position(s: string): int {
    if |s| == 14 then 0 else if |s| == 12 then 2
    else if |s| == 17 then (if s[0] == 'S' then 1 else 11)
    else if |s| == 20 then (if s[0] == 'F' then 3 else 9)
    else if |s| == 15 then (if s[0] == 'N' then 10 else if s[1] == 'u' then 4 else 5)
    else if |s| == 16 then 6 else if |s| == 6 then 7 else 8
  }

  ghost predicate Ascending(names: seq<string>, lo: int, hi: int) {
    && (forall i :: 0 <= i < |names| ==> lo <= Position(names[i]) < hi)
    && (forall i, j :: 0 <= i < j < |names| ==> Position(names[i]) < Position(names[j]))
  }

  lemma Join(a: seq<string>, b: seq<string>, lo: int, mid: int, hi: int)
    requires lo <= mid <= hi && Ascending(a, lo, mid) && Ascending(b, mid, hi)
    ensures Ascending(a + b, lo, hi)
  {
    hide Position;
  }

  lemma NodeOrderDistinct(selected: set<Analyst>)
    ensures NoDuplicates(NodeOrder(selected)) && NodeOrder(selected) != []
  {
    AnalystsAscend(selected);
    DownstreamAscends();
    hide Position, AnalystNodes;
    Join(AnalystNodes(selected), DOWNSTREAM, 0, 4, 12);
    AscendingDistinct(NodeOrder(selected), 0, 12);
  }

  lemma AscendingDistinct(names: seq<string>, lo: int, hi: int)
    requires Ascending(names, lo, hi)
    ensures NoDuplicates(names)
  {
    hide Position;
  }

  lemma One(name: string, selected: bool, at: int)
    requires Position(name) == at
    ensures Ascending(if selected then [name] else [], at, at + 1)
  {
    hide Position;
  }

  lemma AnalystsAscend(selected: set<Analyst>)
    ensures Ascending(AnalystNodes(selected), 0, 4)
  {
    var m := if Market in selected then ["Market Analyst"] else [];
    var s := if Social in selected then ["Sentiment Analyst"] else [];
    var n := if News in selected then ["News Analyst"] else [];
    var f := if Fundamentals in selected then ["Fundamentals Analyst"] else [];
    One("Market Analyst", Market in selected, 0);
    One("Sentiment Analyst", Social in selected, 1);
    One("News Analyst", News in selected, 2);
    One("Fundamentals Analyst", Fundamentals in selected, 3);
    hide Position, Ascending;
    Join(m, s, 0, 1, 2);
    Join(m + s, n, 0, 2, 3);
    Join(m + s + n, f, 0, 3, 4);
  }

  lemma DownstreamAscends()
    ensures Ascending(DOWNSTREAM, 4, 12)
  {
    var d := DOWNSTREAM;
    assert forall i :: 0 <= i < |d| ==> Position(d[i]) == i + 4 by {
      assert Position(d[0]) == 4 && Position(d[1]) == 5 && Position(d[2]) == 6 && Position(d[3]) == 7;
      assert Position(d[4]) == 8 && Position(d[5]) == 9 && Position(d[6]) == 10 && Position(d[7]) == 11;
    }
  }

  // ----- single completions on a checklist -----

  function Listed(plan: seq<string>, k: nat, current: Option<string>): Run {
    Run(InProgress, Checklist(plan, k), current)
  }

  lemma CompleteNext(plan: seq<string>, k: nat, current: Option<string>)
    requires NoDuplicates(plan) && k < |plan|
    ensures MarkNodeComplete(Listed(plan, k, current), plan[k])
         == Listed(plan, k + 1, Some(plan[if k + 1 < |plan| then k + 1 else k]))
  {
    var stages := Checklist(plan, k);
    assert stages[k].name == plan[k] && Open(stages[k]);
    assert FirstOpen(stages, plan[k]) == k;
    assert MarkNodeComplete(Listed(plan, k, current), plan[k]).stages == Checklist(plan, k + 1);
  }

  lemma IgnoreNode(plan: seq<string>, k: nat, current: Option<string>, name: string)
    requires forall j :: 0 <= j < |plan| && plan[j] == name ==> j < k
    ensures MarkNodeComplete(Listed(plan, k, current), name) == Listed(plan, k, current)
  {
    var stages := Checklist(plan, k);
    assert forall i :: 0 <= i < |stages| ==> stages[i].name == plan[i];
  }

  /** Completing a node ahead of the running one leaves a running stage before a completed one. */
  lemma SkipAhead(plan: seq<string>, k: nat, current: Option<string>, j: nat)
    requires NoDuplicates(plan) && k < j < |plan|
    ensures !WellShaped(MarkNodeComplete(Listed(plan, k, current), plan[j]).stages)
  {
    var stages := Checklist(plan, k);
    assert stages[j].name == plan[j] && Open(stages[j]);
    assert FirstOpen(stages, plan[j]) == j;
    var after := MarkNodeComplete(Listed(plan, k, current), plan[j]).stages;
    assert after[k].status == Running && after[j].status == Completed;
  }

  // ----- progress -----

  lemma {:induction false} ProgressUnique(plan: seq<string>, events: seq<string>, k: nat)
    requires k <= |plan| && AllBefore(plan, k, events) && (k < |plan| ==> plan[k] !in events)
    ensures Progress(plan, events) == k
  {
    hide Progress;
    var p := Progress(plan, events);
    assert forall n :: 0 <= n < p || 0 <= n < k ==> plan[n] in events;
  }

  lemma ProgressStep(plan: seq<string>, front: seq<string>, e: string)
    requires NoDuplicates(plan) && FollowsPlan(plan, front + [e])
    ensures FollowsPlan(plan, front)
    ensures var k := Progress(plan, front);
            if k < |plan| && e == plan[k] then Progress(plan, front + [e]) == k + 1
            else Progress(plan, front + [e]) == k && forall j :: 0 <= j < |plan| && plan[j] == e ==> j < k
  {
    hide Progress, FollowsPlan;
    var all, k := front + [e], Progress(plan, front);
    FollowsPrefix(plan, front, e);
    assert forall n :: n in front ==> n in all;
    if k < |plan| && e == plan[k] {
      NoneAhead(plan, front, k);
      assert AllBefore(plan, k + 1, all);
      ProgressUnique(plan, all, k + 1);
    } else {
      ProgressUnique(plan, all, k);
      forall j | 0 <= j < |plan| && plan[j] == e ensures j < k { NotAhead(plan, front, e, j); }
    }
  }

  lemma NotAhead(plan: seq<string>, front: seq<string>, e: string, j: int)
    requires FollowsPlan(plan, front + [e]) && 0 <= j < |plan| && plan[j] == e
    ensures forall n :: 0 <= n < j ==> plan[n] in front
  {
    var all := front + [e];
    assert all[|front|] == e && all[..|front|] == front;
    assert AllBefore(plan, j, front);
  }

  /** No node ahead of one that has not completed has completed either. */
  lemma NoneAhead(plan: seq<string>, events: seq<string>, k: int)
    requires FollowsPlan(plan, events) && 0 <= k < |plan| && plan[k] !in events
    ensures forall j :: k < j < |plan| ==> plan[j] !in events
  {
    forall i, j | 0 <= i < |events| && k < j < |plan| ensures events[i] != plan[j] {
      assert forall n :: 0 <= n < |events[..i]| ==> events[..i][n] == events[n];
      assert plan[k] !in events[..i];
    }
  }

  lemma FollowsPrefix(plan: seq<string>, front: seq<string>, e: string)
    requires FollowsPlan(plan, front + [e])
    ensures FollowsPlan(plan, front)
  {
    hide AllBefore;
    var all := front + [e];
    forall i, j | 0 <= i < |front| && 0 <= j < |plan| && front[i] == plan[j] ensures AllBefore(plan, j, front[..i]) {
      assert all[i] == front[i] && all[..i] == front[..i];
    }
  }

  /** While first completions follow the plan, the run is exactly the checklist at its progress. */
  lemma {:induction false} InOrderRun(plan: seq<string>, events: seq<string>)
    requires NoDuplicates(plan) && plan != [] && FollowsPlan(plan, events)
    ensures var k := Progress(plan, events);
            After(plan, events) == Listed(plan, k, Some(plan[if k < |plan| then k else |plan| - 1]))
  {
    hide Progress, FollowsPlan, Listed, MarkNodeComplete, AllBefore;
    if events == [] {
      StartOfRun(plan);
      ProgressUnique(plan, [], 0) by { assert AllBefore(plan, 0, []) by { EmptyBefore(plan); } }
    } else {
      var front, e := events[..|events| - 1], events[|events| - 1];
      assert events == front + [e];
      ProgressStep(plan, front, e);
      InOrderRun(plan, front);
      var k := Progress(plan, front);
      var current := Some(plan[if k < |plan| then k else |plan| - 1]);
      if k < |plan| && e == plan[k] { CompleteNext(plan, k, current); } else { IgnoreNode(plan, k, current, e); }
    }
  }

  lemma EmptyBefore(plan: seq<string>)
    ensures AllBefore(plan, 0, [])
  {}

  lemma StartOfRun(plan: seq<string>)
    requires plan != []
    ensures After(plan, []) == Listed(plan, 0, Some(plan[0]))
  {
    assert MarkRunning(Created(plan)).stages == Checklist(plan, 0);
  }

  lemma ChecklistShaped(plan: seq<string>, k: nat)
    requires k <= |plan|
    ensures WellShaped(Checklist(plan, k))
  {
    assert ShapedAt(Checklist(plan, k), k);
  }

  ghost predicate AlwaysShaped(plan: seq<string>, events: seq<string>) {
    forall n :: 0 <= n <= |events| ==> WellShaped(After(plan, events[..n]).stages)
  }

  /**
    The checklist is completed*, at most one running, pending* at every moment exactly when the
    first completions follow the plan, whatever repeats and unknown nodes are mixed in.
  */
  lemma {:induction false} ShapedIffInOrder(plan: seq<string>, events: seq<string>)
    requires NoDuplicates(plan) && plan != []
    ensures AlwaysShaped(plan, events) <==> FollowsPlan(plan, events)
  {
    hide WellShaped, After, Listed;
    assert events[..|events|] == events;
    if events != [] {
      var front, e := events[..|events| - 1], events[|events| - 1];
      assert events == front + [e];
      ShapedIffInOrder(plan, front);
      assert forall n :: 0 <= n <= |front| ==> front[..n] == events[..n];
      if AlwaysShaped(plan, events) {
        assert AlwaysShaped(plan, front);
        LastInOrder(plan, front, e);
      }
    }
    if FollowsPlan(plan, events) {
      if events != [] { FollowsPrefix(plan, events[..|events| - 1], events[|events| - 1]); }
      ShapedNow(plan, events);
    }
  }

  lemma ShapedNow(plan: seq<string>, events: seq<string>)
    requires NoDuplicates(plan) && plan != [] && FollowsPlan(plan, events)
    ensures WellShaped(After(plan, events).stages)
  {
    hide After, FollowsPlan, WellShaped, Progress;
    InOrderRun(plan, events);
    ChecklistShaped(plan, Progress(plan, events));
  }

  lemma LastInOrder(plan: seq<string>, front: seq<string>, e: string)
    requires NoDuplicates(plan) && plan != [] && FollowsPlan(plan, front) && WellShaped(After(plan, front + [e]).stages)
    ensures FollowsPlan(plan, front + [e])
  {
    hide WellShaped, After, Listed, Progress, MarkNodeComplete;
    var all, k := front + [e], Progress(plan, front);
    InOrderRun(plan, front);
    var current := Some(plan[if k < |plan| then k else |plan| - 1]);
    AfterOne(plan, front, e);
    forall i, j | 0 <= i < |all| && 0 <= j < |plan| && all[i] == plan[j] ensures AllBefore(plan, j, all[..i]) {
      if i < |front| {
        assert all[..i] == front[..i] && front[i] == plan[j];
      } else {
        assert all[..i] == front && plan[j] == e;
        if k < j { SkipAhead(plan, k, current, j); }
        assert AllBefore(plan, k, front);
      }
    }
  }

  lemma AfterOne(plan: seq<string>, front: seq<string>, e: string)
    ensures After(plan, front + [e]) == MarkNodeComplete(After(plan, front), e)
  {
    assert (front + [e])[..|front|] == front;
  }

  // ----- how a job ends -----

  /** Failure turns exactly the running stage into a failed one. */
  lemma FailureMarksRunning(plan: seq<string>, events: seq<string>)
    requires NoDuplicates(plan) && plan != [] && FollowsPlan(plan, events)
    ensures var k := Progress(plan, events);
            var failed := MarkFailed(After(plan, events));
            && failed.status == Aborted
            && failed.stages == (if k < |plan| then Checklist(plan, k)[k := Stage(plan[k], Failed)]
                else Checklist(plan, k))
  {
    hide After, Progress, FollowsPlan;
    InOrderRun(plan, events);
    var k := Progress(plan, events);
    var stages := Checklist(plan, k);
    var i := FirstRunning(stages);
    assert k < |plan| ==> stages[k].status == Running;
    assert i < |stages| ==> i == k;
  }

  /** On any run, in order or not, failure touches at most the first running stage. */
  lemma FailureTouchesOne(r: Run, i: int)
    requires 0 <= i < |r.stages|
    ensures var t := MarkFailed(r);
            && t.status.Aborted? && |t.stages| == |r.stages| && t.currentStage == r.currentStage
            && t.stages[i].name == r.stages[i].name
            && (if r.stages[i].status.Running? && forall j :: 0 <= j < i ==> !r.stages[j].status.Running?
                then t.stages[i].status.Failed? else t.stages[i] == r.stages[i])
  {}

  /** Stage `i` is the first still open of that name. */
  ghost predicate IsTarget(r: Run, name: string, i: int) {
    && 0 <= i < |r.stages| && r.stages[i].name == name
    && (r.stages[i].status.Pending? || r.stages[i].status.Running?)
    && forall j :: 0 <= j < i ==>
         r.stages[j].name != name || r.stages[j].status.Completed? || r.stages[j].status.Failed?
  }

  /**
    On any run in progress, a completion completes the first open stage of its name, starts the next
    if that is pending, and touches nothing else; on any other run it does nothing.
  */
  lemma CompletionTouches(r: Run, name: string, i: int)
    requires 0 <= i < |r.stages|
    ensures var t := MarkNodeComplete(r, name);
            && t.status == r.status && |t.stages| == |r.stages| && t.stages[i].name == r.stages[i].name
            && t.stages[i].status ==
                 (if r.status.InProgress? && IsTarget(r, name, i) then Completed
                  else if r.status.InProgress? && IsTarget(r, name, i - 1) && r.stages[i].status.Pending? then Running
                  else r.stages[i].status)
  {
    var k := FirstOpen(r.stages, name);
    if k < |r.stages| {
      assert IsTarget(r, name, k);
      assert forall j :: IsTarget(r, name, j) ==> j == k;
    } else {
      assert forall j :: !IsTarget(r, name, j);
    }
  }

  /** A backend restart leaves a run in order just as a failure does; and no run, in order or not, is left running. */
  lemma RecoveryIsFailure(plan: seq<string>, events: seq<string>)
    ensures NoDuplicates(plan) && plan != [] && FollowsPlan(plan, events) ==>
              Recover(After(plan, events)) == MarkFailed(After(plan, events))
    ensures Recover(Created(plan)) == Created(plan).(status := Aborted)
  {
    hide After, Progress, FollowsPlan;
    if NoDuplicates(plan) && plan != [] && FollowsPlan(plan, events) {
      InOrderRun(plan, events);
      FailureMarksRunning(plan, events);
      var k, run := Progress(plan, events), After(plan, events);
      assert Recover(run).stages == MarkFailed(run).stages;
    }
    assert Recover(Created(plan)).stages == Created(plan).stages;
  }

  lemma NothingLeftRunning(r: Run)
    requires r.status.Queued? || r.status.InProgress?
    ensures var t := Recover(r);
            && Terminal(t) && |t.stages| == |r.stages| && t.currentStage == r.currentStage
            && forall i :: 0 <= i < |r.stages| ==>
                 && t.stages[i].name == r.stages[i].name && !t.stages[i].status.Running?
                 && (t.stages[i] != r.stages[i] <==> r.stages[i].status.Running?)
                 && (r.stages[i].status.Running? ==> t.stages[i].status.Failed?)
  {}

  /** The coroutine of one job: not yet begun, awaiting its worker, or returned. */
  datatype Phase = Waiting | Working | Ended

  datatype Job = Job(run: Run, phase: Phase)

  datatype JobAction =
    | Begin
    | Callback(name: string)
    | Timeout
    | WorkerFailed
    | WorkerDone(persisted: bool)
    | BackendRestart

  /** Callbacks come from the worker thread, which outlives a timeout; the rest needs the coroutine. */
  function StepJob(j: Job, a: JobAction): Job {
    match a
    case Begin => if j.phase.Waiting? then Job(MarkRunning(j.run), Working) else j
    case Callback(name) => j.(run := MarkNodeComplete(j.run, name))
    case Timeout => if j.phase.Working? then Job(MarkFailed(j.run), Ended) else j
    case WorkerFailed => if j.phase.Working? then Job(MarkFailed(j.run), Ended) else j
    case WorkerDone(persisted) =>
      if j.phase.Working? then Job(if persisted then MarkCompleted(j.run) else j.run, Ended) else j
    case BackendRestart => Job(Recover(j.run), Ended)
  }

  function RunJob(j: Job, actions: seq<JobAction>): Job
    decreases |actions|
  {
    if actions == [] then j else RunJob(StepJob(j, actions[0]), actions[1..])
  }

  predicate Terminal(r: Run) { r.status.Done? || r.status.Aborted? }

  /** Once ended and terminal, nothing that can still happen changes the run. */
  lemma {:induction false} TerminalIsFinal(j: Job, actions: seq<JobAction>)
    requires j.phase.Ended? && Terminal(j.run)
    ensures RunJob(j, actions) == j
  {
    if actions != [] {
      assert StepJob(j, actions[0]) == j;
      TerminalIsFinal(j, actions[1..]);
    }
  }

  ghost predicate JobInv(j: Job) {
    && (j.phase.Waiting? ==> j.run.status.Queued?)
    && (j.phase.Working? ==> j.run.status.InProgress?)
    && (Terminal(j.run) ==> j.phase.Ended?)
    && (j.run.status.Done? ==> forall i :: 0 <= i < |j.run.stages| ==> j.run.stages[i].status == Completed)
    && (j.run.status.Queued? ==> forall i :: 0 <= i < |j.run.stages| ==> j.run.stages[i].status == Pending)
  }

  lemma StepKeepsJobInv(j: Job, a: JobAction)
    requires JobInv(j)
    ensures JobInv(StepJob(j, a))
    ensures |StepJob(j, a).run.stages| == |j.run.stages|
    ensures Terminal(j.run) ==> StepJob(j, a) == j
  {}

  /** Over a whole job: a terminal status is reached only by ending, and done means every stage completed. */
  lemma {:induction false} JobKeepsInv(j: Job, actions: seq<JobAction>)
    requires JobInv(j)
    ensures JobInv(RunJob(j, actions))
    decreases |actions|
  {
    hide JobInv, StepJob;
    if actions != [] {
      StepKeepsJobInv(j, actions[0]);
      JobKeepsInv(StepJob(j, actions[0]), actions[1..]);
    }
  }

  /** A timeout freezes the run: whatever the orphaned worker still reports, the run stays as it failed. */
  lemma LateCallbacksIgnored(plan: seq<string>, events: seq<string>, late: seq<JobAction>)
    ensures RunJob(Job(After(plan, events), Working), [Timeout] + late).run == MarkFailed(After(plan, events))
  {
    hide After;
    assert ([Timeout] + late)[1..] == late;
    TerminalIsFinal(Job(MarkFailed(After(plan, events)), Ended), late);
  }

  // ----- every job, from its creation -----

  function NewJob(plan: seq<string>): Job { Job(Created(plan), Waiting) }

  lemma {:induction false} RunJobOne(j: Job, actions: seq<JobAction>, a: JobAction)
    ensures RunJob(j, actions + [a]) == StepJob(RunJob(j, actions), a)
    decreases |actions|
  {
    hide StepJob;
    if actions == [] {
      assert [] + [a] == [a] && [a][1..] == [];
      assert RunJob(StepJob(j, a), []) == StepJob(j, a);
    } else {
      assert (actions + [a])[0] == actions[0] && (actions + [a])[1..] == actions[1..] + [a];
      RunJobOne(StepJob(j, actions[0]), actions[1..], a);
    }
  }

  lemma {:induction false} RunJobMore(j: Job, actions: seq<JobAction>, more: seq<JobAction>)
    ensures RunJob(j, actions + more) == RunJob(RunJob(j, actions), more)
    decreases |actions|
  {
    hide StepJob;
    if actions == [] {
      assert [] + more == more;
    } else {
      assert (actions + more)[0] == actions[0] && (actions + more)[1..] == actions[1..] + more;
      RunJobMore(StepJob(j, actions[0]), actions[1..], more);
    }
  }

  /** The action at `i` ends the job if nothing before it did: a backend restart, or the worker's end once begun. */
  ghost predicate Ends(actions: seq<JobAction>, i: int)
    requires 0 <= i < |actions|
  {
    || actions[i].BackendRestart?
    || ((actions[i].Timeout? || actions[i].WorkerFailed? || actions[i].WorkerDone?) && Begin in actions[..i])
  }

  ghost predicate FirstEnds(actions: seq<JobAction>, i: int)
    requires 0 <= i < |actions|
  {
    Ends(actions, i) && forall k :: 0 <= k < i ==> !Ends(actions, k)
  }

  /** The first ending is `end`. */
  ghost predicate EndsWith(actions: seq<JobAction>, end: JobAction) {
    exists i :: 0 <= i < |actions| && FirstEnds(actions, i) && actions[i] == end
  }

  /** The first ending is the worker's result, stored. */
  ghost predicate EndsStored(actions: seq<JobAction>) { EndsWith(actions, WorkerDone(true)) }

  /** The first ending is the worker's result, and storing it raised. */
  ghost predicate EndsUnstored(actions: seq<JobAction>) { EndsWith(actions, WorkerDone(false)) }

  ghost predicate HasEnded(actions: seq<JobAction>) {
    exists i :: 0 <= i < |actions| && Ends(actions, i)
  }

  /** The state of a job in terms of its actions alone. */
  ghost function StatusAfter(actions: seq<JobAction>): RunStatus {
    if EndsStored(actions) then Done
    else if EndsUnstored(actions) && BackendRestart !in actions then InProgress
    else if HasEnded(actions) then Aborted
    else if Begin in actions then InProgress
    else Queued
  }

  lemma EndsPrefix(front: seq<JobAction>, a: JobAction)
    ensures forall i :: 0 <= i < |front| ==>
              && (front + [a])[i] == front[i]
              && (Ends(front + [a], i) <==> Ends(front, i))
              && (FirstEnds(front + [a], i) <==> FirstEnds(front, i))
    ensures Ends(front + [a], |front|) <==>
            a.BackendRestart? || ((a.Timeout? || a.WorkerFailed? || a.WorkerDone?) && Begin in front)
    ensures (front + [a])[|front|] == a
  {
    var all := front + [a];
    assert all[..|front|] == front;
    forall i | 0 <= i < |front| ensures all[i] == front[i] && (Ends(all, i) <==> Ends(front, i)) {
      assert all[..i] == front[..i];
    }
  }

  lemma EndingStep(front: seq<JobAction>, a: JobAction)
    ensures var all, now := front + [a], a.BackendRestart? || ((a.Timeout? || a.WorkerFailed? || a.WorkerDone?)
            && Begin in front);
            && (HasEnded(all) <==> HasEnded(front) || now)
            && (EndsStored(all) <==> EndsStored(front) || (!HasEnded(front) && now && a == WorkerDone(true)))
            && (EndsUnstored(all) <==> EndsUnstored(front) || (!HasEnded(front) && now && a == WorkerDone(false)))
    ensures EndsStored(front) ==> HasEnded(front) && !EndsUnstored(front)
    ensures EndsUnstored(front) || BackendRestart in front ==> HasEnded(front)
  {
    EndedStep(front, a);
    FirstStep(front, a, WorkerDone(true));
    FirstStep(front, a, WorkerDone(false));
    hide Ends, FirstEnds;
    if EndsStored(front) && EndsUnstored(front) {
      var i :| 0 <= i < |front| && FirstEnds(front, i) && front[i] == WorkerDone(true);
      var j :| 0 <= j < |front| && FirstEnds(front, j) && front[j] == WorkerDone(false);
      FirstUnique(front, i, j);
    }
  }

  lemma FirstUnique(actions: seq<JobAction>, i: int, j: int)
    requires 0 <= i < |actions| && 0 <= j < |actions| && FirstEnds(actions, i) && FirstEnds(actions, j)
    ensures i == j
  {}

  lemma EndedStep(front: seq<JobAction>, a: JobAction)
    ensures HasEnded(front + [a]) <==>
            HasEnded(front) || a.BackendRestart? || ((a.Timeout? || a.WorkerFailed? || a.WorkerDone?) && Begin in front)
    ensures BackendRestart in front ==> HasEnded(front)
  {
    EndsPrefix(front, a);
    if BackendRestart in front {
      var i :| 0 <= i < |front| && front[i] == BackendRestart;
      assert Ends(front, i);
    }
    hide Ends;
    if HasEnded(front) {
      var i :| 0 <= i < |front| && Ends(front, i);
      assert Ends(front + [a], i);
    }
  }

  lemma FirstStep(front: seq<JobAction>, a: JobAction, end: JobAction)
    ensures EndsWith(front + [a], end) <==>
            EndsWith(front, end) || (!HasEnded(front) && Ends(front + [a], |front|) && a == end)
    ensures EndsWith(front, end) ==> HasEnded(front)
    ensures Ends(front + [a], |front|) <==>
            a.BackendRestart? || ((a.Timeout? || a.WorkerFailed? || a.WorkerDone?) && Begin in front)
  {
    EndsPrefix(front, a);
    hide Ends;
    var all := front + [a];
    assert FirstEnds(all, |front|) <==> Ends(all, |front|) && !HasEnded(front);
    if EndsWith(front, end) {
      var i :| 0 <= i < |front| && FirstEnds(front, i) && front[i] == end;
      assert FirstEnds(all, i) && all[i] == end;
    }
  }

  /**
    Every job from its creation, over every list of actions: its status is decided by its first
    ending, and what was unstored then waits for a backend restart to be aborted.
  */
  lemma {:induction false} JobStatus(plan: seq<string>, actions: seq<JobAction>)
    ensures var j := RunJob(NewJob(plan), actions);
            && JobInv(j)
            && j.run.status == StatusAfter(actions)
            && (j.phase.Ended? <==> HasEnded(actions))
            && (j.phase.Waiting? <==> !HasEnded(actions) && Begin !in actions)
  {
    hide JobInv, EndsStored, EndsUnstored, HasEnded;
    if actions == [] {
      NothingEnded(plan);
    } else {
      var front, a := actions[..|actions| - 1], actions[|actions| - 1];
      assert actions == front + [a];
      JobStatus(plan, front);
      RunJobOne(NewJob(plan), front, a);
      var j := RunJob(NewJob(plan), front);
      JobKeepsInv(NewJob(plan), actions) by { NothingEnded(plan); }
      EndingStep(front, a);
      StatusStep(j, a);
      assert (Begin in actions <==> Begin in front || a == Begin)
          && (BackendRestart in actions <==> BackendRestart in front || a == BackendRestart);
      hide StepJob, RunJob;
    }
  }

  lemma NothingEnded(plan: seq<string>)
    ensures JobInv(NewJob(plan)) && !HasEnded([]) && !EndsStored([]) && !EndsUnstored([])
  {}

  /** What one action does to the status and the phase. */
  lemma StatusStep(j: Job, a: JobAction)
    requires JobInv(j)
    ensures var t := StepJob(j, a);
            && (a.Callback? ==> t.run.status == j.run.status && t.phase == j.phase)
            && (a.Begin? ==> if j.phase.Waiting? then t.run.status.InProgress? && t.phase.Working? else t == j)
            && (a.BackendRestart? ==>
                t.phase.Ended? && t.run.status == (if Terminal(j.run) then j.run.status else Aborted))
            && (a.Timeout? || a.WorkerFailed? ==>
                if j.phase.Working? then t.run.status.Aborted? && t.phase.Ended? else t == j)
            && (a.WorkerDone? ==>
                  if j.phase.Working? then t.run.status == (if a.persisted then Done
                      else InProgress) && t.phase.Ended? else t == j)
  {}

  /** Once a created job is done or aborted, no later action, a late callback included, changes its run. */
  lemma JobFrozen(plan: seq<string>, actions: seq<JobAction>, late: seq<JobAction>)
    requires Terminal(RunJob(NewJob(plan), actions).run)
    ensures RunJob(NewJob(plan), actions + late) == RunJob(NewJob(plan), actions)
  {
    JobStatus(plan, actions);
    RunJobMore(NewJob(plan), actions, late);
    TerminalIsFinal(RunJob(NewJob(plan), actions), late);
  }

  /** The nodes reported complete since the job began. */
  function Completions(actions: seq<JobAction>): seq<string> {
    if actions == [] then []
    else
      var front, last := actions[..|actions| - 1], actions[|actions| - 1];
      if last.Callback? && Begin in front then Completions(front) + [last.name] else Completions(front)
  }

  /** Until a created job ends, its run is that of the nodes reported since it began, whatever else is tried. */
  lemma {:induction false} JobRun(plan: seq<string>, actions: seq<JobAction>)
    requires !HasEnded(actions)
    ensures RunJob(NewJob(plan), actions)
         == if Begin in actions then Job(After(plan, Completions(actions)), Working) else NewJob(plan)
  {
    hide HasEnded, After, MarkNodeComplete, MarkRunning, MarkFailed, MarkCompleted, Recover, Created;
    if actions != [] {
      var front, a := actions[..|actions| - 1], actions[|actions| - 1];
      assert actions == front + [a];
      EndedStep(front, a);
      JobRun(plan, front);
      RunJobOne(NewJob(plan), front, a);
      assert Begin in actions <==> Begin in front || a == Begin;
      if a.Callback? {
        if Begin in front { AfterOne(plan, Completions(front), a.name); } else { QueuedIgnores(plan, a.name); }
      } else if a.Begin? && Begin !in front {
        NoCompletions(front);
        AfterStart(plan);
      }
    }
  }

  lemma {:induction false} NoCompletions(actions: seq<JobAction>)
    requires Begin !in actions
    ensures Completions(actions) == []
  {
    if actions != [] { NoCompletions(actions[..|actions| - 1]); }
  }

  lemma QueuedIgnores(plan: seq<string>, name: string)
    ensures MarkNodeComplete(Created(plan), name) == Created(plan)
  {}

  lemma AfterStart(plan: seq<string>)
    ensures After(plan, []) == MarkRunning(Created(plan))
  {}

  /**
    So a created job's checklist keeps its shape from its beginning to its end exactly when completions
    follow the plan.
  */
  lemma JobShapedIff(plan: seq<string>, actions: seq<JobAction>)
    requires NoDuplicates(plan) && plan != [] && !HasEnded(actions) && Begin in actions
    ensures (forall n :: 0 <= n <= |actions| && Begin in actions[..n] ==>
               WellShaped(RunJob(NewJob(plan), actions[..n]).run.stages))
            <==> FollowsPlan(plan, Completions(actions))
  {
    hide HasEnded, WellShaped, After, FollowsPlan, RunJob;
    var events := Completions(actions);
    ShapedIffInOrder(plan, events);
    forall n | 0 <= n <= |actions| && Begin in actions[..n]
      ensures RunJob(NewJob(plan), actions[..n]).run == After(plan, Completions(actions[..n]))
      ensures Completions(actions[..n]) <= events
    {
      PrefixNotEnded(actions, n);
      JobRun(plan, actions[..n]);
      CompletionsPrefix(actions, n);
    }
    if AlwaysShaped(plan, events) {
      forall n | 0 <= n <= |actions| && Begin in actions[..n]
        ensures WellShaped(RunJob(NewJob(plan), actions[..n]).run.stages)
      {
        var done := Completions(actions[..n]);
        assert done == events[..|done|];
      }
    } else {
      var m :| 0 <= m <= |events| && !WellShaped(After(plan, events[..m]).stages);
      var n := MomentOf(actions, m);
      assert !WellShaped(RunJob(NewJob(plan), actions[..n]).run.stages);
    }
  }

  lemma PrefixNotEnded(actions: seq<JobAction>, n: int)
    requires !HasEnded(actions) && 0 <= n <= |actions|
    ensures !HasEnded(actions[..n])
  {
    forall i | 0 <= i < n ensures !Ends(actions[..n], i) {
      assert actions[..n][..i] == actions[..i] && actions[..n][i] == actions[i];
      assert !Ends(actions, i);
    }
  }

  lemma {:induction false} CompletionsPrefix(actions: seq<JobAction>, n: int)
    requires 0 <= n <= |actions|
    ensures Completions(actions[..n]) <= Completions(actions)
  {
    if n < |actions| {
      var front := actions[..|actions| - 1];
      assert front[..n] == actions[..n];
      CompletionsPrefix(front, n);
    } else {
      assert actions[..n] == actions;
    }
  }

  /** A moment, after the job began, at which exactly the first `m` completions are in. */
  lemma {:induction false} MomentOf(actions: seq<JobAction>, m: int) returns (n: int)
    requires Begin in actions && 0 <= m <= |Completions(actions)|
    ensures 0 <= n <= |actions| && Begin in actions[..n] && Completions(actions[..n]) == Completions(actions)[..m]
  {
    var front := actions[..|actions| - 1];
    if m == |Completions(actions)| {
      n := |actions|;
      assert actions[..n] == actions;
    } else {
      assert Begin in front by { if Begin !in front { NoCompletions(front); } }
      n := MomentOf(front, m);
      assert front[..n] == actions[..n];
    }
  }

  /** A created job cut short by a timeout or a failed worker: the stage running then fails, for good. */
  lemma JobAborts(plan: seq<string>, actions: seq<JobAction>, end: JobAction, late: seq<JobAction>)
    requires !HasEnded(actions) && Begin in actions && (end.Timeout? || end.WorkerFailed?)
    ensures RunJob(NewJob(plan), actions + [end] + late).run == MarkFailed(After(plan, Completions(actions)))
  {
    hide HasEnded, After, Completions;
    JobRun(plan, actions);
    RunJobOne(NewJob(plan), actions, end);
    RunJobMore(NewJob(plan), actions + [end], late);
    TerminalIsFinal(RunJob(NewJob(plan), actions + [end]), late);
  }

  // ----- a stream out of plan order -----

  /** Two nodes complete in the wrong order: the first is left running before a completed one. */
  lemma OutOfOrderBreaksShape()
    ensures var plan := NodeOrder({Market});
            && plan[..2] == ["Market Analyst", "Bull Researcher"]
            && After(plan, ["Bull Researcher"]).stages[..3]
                == [Stage("Market Analyst", Running), Stage("Bull Researcher", Completed), Stage("Bear Researcher",
                    Running)]
            && !WellShaped(After(plan, ["Bull Researcher"]).stages)
  {
    var plan := NodeOrder({Market});
    assert plan == ["Market Analyst"] + DOWNSTREAM;
    assert plan[0] == "Market Analyst" && plan[1] == "Bull Researcher" && plan[2] == "Bear Researcher";
    NodeOrderDistinct({Market});
    hide NodeOrder;
    StartOfRun(plan);
    AfterOne(plan, [], "Bull Researcher");
    assert [] + ["Bull Researcher"] == ["Bull Researcher"];
    SkipAhead(plan, 0, Some(plan[0]), 1);
    var stages := Checklist(plan, 0);
    assert stages[1].name == plan[1] && Open(stages[1]) && FirstOpen(stages, plan[1]) == 1;
  }
}
