/**
  START_ALGO and RESTART_ALGO of trading/agent/trading_agent.py as interleaved steps of any number
  of callers, with the algo processes they launch. One file-system or process operation is one step.
*/
module AgentProtocol {
  import opened Prelude

  type Pid = int

  type Caller = int

  datatype Command = StartAlgo | RestartAlgo

  /** A launched process has yet to write its PID file, has written it, or is gone. */
  datatype ProcessState = Starting | Registered | Dead

  datatype Outcome = AlreadyRunning(pid: Pid) | Running(pid: Pid) | LaunchFailed

  /** Where a caller is. Everything from StopRead on holds the start lock. */
  datatype Pc =
    | Idle
    | WaitLock(command: Command)
    | StopRead
    | StopCheck(read: Option<Pid>)
    | StopClear
    | StopGrace(pid: Pid)
    | StopRecheck(pid: Pid)
    | StopKill(pid: Pid)
    | StopRemove
    | CheckRead(restarted: bool)
    | CheckAlive(restarted: bool, read: Option<Pid>)
    | Launching
    | Poll(child: Pid)
    | PollAlive(child: Pid, read: Option<Pid>)
    | PollExit(child: Pid)
    | Done(outcome: Outcome)
  {
    predicate Critical() { !Idle? && !WaitLock? }

    /** The process this caller launched and is still waiting for. */
    function Awaited(): Option<Pid> {
      if Poll? || PollAlive? || PollExit? then Some(child) else None
    }
  }

  datatype State = State(
    lock: Option<Caller>, callers: map<Caller, Pc>,
    pidFile: Option<Pid>, processes: map<Pid, ProcessState>)
  {
    function PcOf(c: Caller): Pc { if c in callers then callers[c] else Idle }

    predicate Alive(p: Pid) { p in processes && !processes[p].Dead? }

    /** is_process_running on the content of the PID file. */
    predicate AliveIn(read: Option<Pid>) { read.Some? && Alive(read.value) }

    function Goto(c: Caller, pc: Pc): State { this.(callers := callers[c := pc]) }
  }

  datatype Action =
    | Invoke(caller: Caller, command: Command)
    | Acquire(caller: Caller)
    | Advance(caller: Caller)
    | Deadline(caller: Caller)
    | Launch(caller: Caller, pid: Pid)
    | Release(caller: Caller)
    | Die(caller: Caller)
    | Register(pid: Pid)
    | ExitCleanly(pid: Pid)
    | Crash(pid: Pid)

  /** One step of the program of a caller that holds the lock. */
  function Program(s: State, c: Caller): Option<State> {
    match s.PcOf(c)
    case StopRead => Some(s.Goto(c, StopCheck(s.pidFile)))
    case StopCheck(read) => Some(s.Goto(c, if s.AliveIn(read) then StopGrace(read.value) else StopClear))
    case StopClear => Some(s.Goto(c, CheckRead(true)).(pidFile := None))
    case StopGrace(p) => if s.Alive(p) then None else Some(s.Goto(c, StopRecheck(p)))
    case StopRecheck(p) => Some(s.Goto(c, if s.Alive(p) then StopKill(p) else StopRemove))
    case StopKill(p) =>
      Some(s.Goto(c, StopRemove).(processes := if s.Alive(p) then s.processes[p := Dead] else s.processes))
    case StopRemove => Some(s.Goto(c, CheckRead(true)).(pidFile := None))
    case CheckRead(restarted) => Some(s.Goto(c, CheckAlive(restarted, s.pidFile)))
    case CheckAlive(_, read) => Some(s.Goto(c, if s.AliveIn(read) then Done(AlreadyRunning(read.value)) else Launching))
    case Poll(child) => Some(s.Goto(c, PollAlive(child, s.pidFile)))
    case PollAlive(child, read) => Some(s.Goto(c, if s.AliveIn(read) then Done(Running(read.value))
        else PollExit(child)))
    case PollExit(child) => Some(s.Goto(c, if s.Alive(child) then Poll(child) else Done(LaunchFailed)))
    case _ => None
  }

  /** The next state, or None when the action is not enabled. */
  function Step(s: State, a: Action): Option<State> {
    match a
    case Invoke(c, command) =>
      if s.PcOf(c).Idle? then Some(s.Goto(c, WaitLock(command))) else None
    case Acquire(c) =>
      if s.PcOf(c).WaitLock? && s.lock.None? then
        Some(s.Goto(c, if s.PcOf(c).command.StartAlgo? then CheckRead(false) else StopRead).(lock := Some(c)))
      else None
    case Advance(c) => Program(s, c)
    case Deadline(c) =>
      (match s.PcOf(c)
       case StopGrace(p) => Some(s.Goto(c, StopRecheck(p)))
       case Poll(_) => Some(s.Goto(c, Done(LaunchFailed)))
       case _ => None)
    case Launch(c, pid) =>
      if s.PcOf(c).Launching? && pid !in s.processes && s.pidFile != Some(pid) then
        Some(s.Goto(c, Poll(pid)).(processes := s.processes[pid := Starting]))
      else None
    case Release(c) =>
      if s.PcOf(c).Done? then Some(s.Goto(c, Idle).(lock := None)) else None
    case Die(c) =>
      Some(s.Goto(c, Idle).(lock := if s.lock == Some(c) then None else s.lock))
    case Register(p) =>
      if p in s.processes && s.processes[p].Starting? then
        Some(s.(processes := s.processes[p := Registered], pidFile := Some(p)))
      else None
    case ExitCleanly(p) =>
      if p in s.processes && s.processes[p].Registered? then
        Some(s.(processes := s.processes[p := Dead], pidFile := None))
      else None
    case Crash(p) =>
      if s.Alive(p) then Some(s.(processes := s.processes[p := Dead])) else None
  }

  /** The caller stops waiting, by deadline or by dying, for a process that has neither registered nor exited. */
  predicate Abandons(s: State, a: Action) {
    && (a.Deadline? || a.Die?)
    && var child := s.PcOf(a.caller).Awaited();
       child.Some? && child.value in s.processes && s.processes[child.value].Starting?
  }

  // ----- runs -----

  ghost predicate Initial(s: State) {
    && s.lock.None?
    && (forall c :: s.PcOf(c).Idle?)
    && (forall p, q :: s.Alive(p) && s.Alive(q) ==> p == q)
    && (forall p :: s.Alive(p) ==> s.processes[p].Registered? && s.pidFile == Some(p))
  }

  function Run(s: State, actions: seq<Action>): Option<State> {
    if actions == [] then Some(s)
    else
      var before := Run(s, actions[..|actions| - 1]);
      if before.None? then None else Step(before.value, actions[|actions| - 1])
  }

  /** No action of the run abandons a process that is still starting. */
  ghost predicate Patient(s: State, actions: seq<Action>) {
    forall i :: 0 <= i < |actions| && Run(s, actions[..i]).Some? ==> !Abandons(Run(s, actions[..i]).value, actions[i])
  }

  /** At most one live process; and with the lock free, the PID file names it. */
  ghost predicate Safe(s: State) {
    && (forall p, q :: s.Alive(p) && s.Alive(q) ==> p == q)
    && (s.lock.None? ==> forall p :: s.Alive(p) ==> s.pidFile == Some(p))
  }

  // ----- the invariant -----

  /** The only live process, if any, is `p`. */
  ghost predicate OnlyAlive(s: State, p: Option<Pid>) {
    forall q :: s.Alive(q) ==> p == Some(q)
  }

  /** What the lock holder's position says about the live process. */
  ghost predicate HolderKnows(s: State, pc: Pc) {
    match pc
    case StopCheck(read) => OnlyAlive(s, read)
    case StopClear => OnlyAlive(s, None)
    case StopGrace(p) => OnlyAlive(s, Some(p))
    case StopRecheck(p) => OnlyAlive(s, Some(p))
    case StopKill(p) => OnlyAlive(s, Some(p))
    case StopRemove => OnlyAlive(s, None)
    case CheckRead(restarted) => restarted ==> OnlyAlive(s, None)
    case CheckAlive(restarted, read) => OnlyAlive(s, read) && (restarted ==> OnlyAlive(s, None))
    case Launching => OnlyAlive(s, None)
    case Poll(child) => OnlyAlive(s, Some(child)) && child in s.processes
    case PollAlive(child, read) =>
      OnlyAlive(s, Some(child)) && child in s.processes && (read == Some(child) ==> !s.processes[child].Starting?)
    case PollExit(child) => OnlyAlive(s, Some(child)) && child in s.processes
    case _ => true
  }

  ghost predicate Inv(s: State) {
    && (forall c :: s.PcOf(c).Critical() <==> s.lock == Some(c))
    && (forall p, q :: s.Alive(p) && s.Alive(q) ==> p == q)
    && (forall p :: p in s.processes && s.processes[p].Registered? ==> s.pidFile == Some(p))
    && (forall p :: p in s.processes && s.processes[p].Starting? ==>
          s.pidFile != Some(p) && s.lock.Some? && s.PcOf(s.lock.value).Awaited() == Some(p))
    && (s.lock.Some? ==> HolderKnows(s, s.PcOf(s.lock.value)))
  }

  lemma InitialInv(s: State)
    requires Initial(s)
    ensures Inv(s)
  {}

  lemma InvSafe(s: State)
    requires Inv(s)
    ensures Safe(s)
  {}

  lemma StopQueryKeepsInv(s: State, c: Caller)
    requires Inv(s) && Program(s, c).Some?
    requires var pc := s.PcOf(c); pc.StopRead? || pc.StopCheck? || pc.StopClear?
    ensures Inv(Program(s, c).value)
  {
    var t := Program(s, c).value;
    assert forall d :: d != c ==> t.PcOf(d) == s.PcOf(d);
  }

  lemma StopWaitKeepsInv(s: State, c: Caller)
    requires Inv(s) && Program(s, c).Some?
    requires var pc := s.PcOf(c); pc.StopGrace? || pc.StopRecheck?
    ensures Inv(Program(s, c).value)
  {
    var t := Program(s, c).value;
    assert forall d :: d != c ==> t.PcOf(d) == s.PcOf(d);
  }

  lemma StopEffectKeepsInv(s: State, c: Caller)
    requires Inv(s) && Program(s, c).Some?
    requires var pc := s.PcOf(c); pc.StopKill? || pc.StopRemove?
    ensures Inv(Program(s, c).value)
  {
    var t := Program(s, c).value;
    assert forall d :: d != c ==> t.PcOf(d) == s.PcOf(d);
  }

  lemma CheckKeepsInv(s: State, c: Caller)
    requires Inv(s) && Program(s, c).Some?
    requires var pc := s.PcOf(c); pc.CheckRead? || pc.CheckAlive?
    ensures Inv(Program(s, c).value)
  {
    var t := Program(s, c).value;
    assert forall d :: d != c ==> t.PcOf(d) == s.PcOf(d);
  }

  lemma PollKeepsInv(s: State, c: Caller)
    requires Inv(s) && Program(s, c).Some?
    requires var pc := s.PcOf(c); pc.Poll? || pc.PollAlive? || pc.PollExit?
    ensures Inv(Program(s, c).value)
  {
    var t := Program(s, c).value;
    assert forall d :: d != c ==> t.PcOf(d) == s.PcOf(d);
  }

  lemma ProgramKeepsInv(s: State, c: Caller)
    requires Inv(s) && Program(s, c).Some?
    ensures Inv(Program(s, c).value)
  {
    hide Inv;
    var pc := s.PcOf(c);
    if pc.StopRead? || pc.StopCheck? || pc.StopClear? {
      StopQueryKeepsInv(s, c);
    } else if pc.CheckRead? || pc.CheckAlive? {
      CheckKeepsInv(s, c);
    } else if pc.Poll? || pc.PollAlive? || pc.PollExit? {
      PollKeepsInv(s, c);
    } else if pc.StopKill? || pc.StopRemove? {
      StopEffectKeepsInv(s, c);
    } else {
      StopWaitKeepsInv(s, c);
    }
  }

  lemma InvokeKeepsInv(s: State, a: Action)
    requires Inv(s) && Step(s, a).Some? && a.Invoke?
    ensures Inv(Step(s, a).value)
  {
    var t := Step(s, a).value;
    assert forall d :: d != a.caller ==> t.PcOf(d) == s.PcOf(d);
  }

  lemma AcquireKeepsInv(s: State, a: Action)
    requires Inv(s) && Step(s, a).Some? && a.Acquire?
    ensures Inv(Step(s, a).value)
  {
    var t := Step(s, a).value;
    assert forall d :: d != a.caller ==> t.PcOf(d) == s.PcOf(d);
  }

  lemma DeadlineKeepsInv(s: State, a: Action)
    requires Inv(s) && Step(s, a).Some? && a.Deadline? && !Abandons(s, a)
    ensures Inv(Step(s, a).value)
  {
    var t := Step(s, a).value;
    assert forall d :: d != a.caller ==> t.PcOf(d) == s.PcOf(d);
  }

  lemma LaunchKeepsInv(s: State, a: Action)
    requires Inv(s) && Step(s, a).Some? && a.Launch?
    ensures Inv(Step(s, a).value)
  {
    var t := Step(s, a).value;
    assert forall d :: d != a.caller ==> t.PcOf(d) == s.PcOf(d);
  }

  lemma ReleaseKeepsInv(s: State, a: Action)
    requires Inv(s) && Step(s, a).Some? && a.Release?
    ensures Inv(Step(s, a).value)
  {
    var t := Step(s, a).value;
    assert forall d :: d != a.caller ==> t.PcOf(d) == s.PcOf(d);
  }

  lemma DieKeepsInv(s: State, a: Action)
    requires Inv(s) && Step(s, a).Some? && a.Die? && !Abandons(s, a)
    ensures Inv(Step(s, a).value)
  {
    var t := Step(s, a).value;
    assert forall d :: d != a.caller ==> t.PcOf(d) == s.PcOf(d);
  }

  lemma ProcessKeepsInv(s: State, a: Action)
    requires Inv(s) && Step(s, a).Some? && (a.Register? || a.ExitCleanly? || a.Crash?)
    ensures Inv(Step(s, a).value)
  {
    var t := Step(s, a).value;
    assert forall c :: t.PcOf(c) == s.PcOf(c);
    assert forall q :: t.Alive(q) ==> s.Alive(q);
  }

  lemma StepKeepsInv(s: State, a: Action)
    requires Inv(s) && Step(s, a).Some? && !Abandons(s, a)
    ensures Inv(Step(s, a).value)
  {
    hide Inv, Abandons;
    if a.Advance? {
      ProgramKeepsInv(s, a.caller);
    } else if a.Register? || a.ExitCleanly? || a.Crash? {
      ProcessKeepsInv(s, a);
    } else {
      match a
      case Invoke(_, _) => InvokeKeepsInv(s, a);
      case Acquire(_) => AcquireKeepsInv(s, a);
      case Deadline(_) => DeadlineKeepsInv(s, a);
      case Launch(_, _) => LaunchKeepsInv(s, a);
      case Release(_) => ReleaseKeepsInv(s, a);
      case Die(_) => DieKeepsInv(s, a);
    }
  }

  lemma {:induction false} RunKeepsInv(s: State, actions: seq<Action>)
    requires Initial(s) && Patient(s, actions) && Run(s, actions).Some?
    ensures Inv(Run(s, actions).value)
  {
    hide Inv, Abandons, Initial, Step;
    if actions == [] {
      InitialInv(s);
    } else {
      var front, a := actions[..|actions| - 1], actions[|actions| - 1];
      assert Patient(s, front) by {
        assert forall i :: 0 <= i < |front| ==> front[i] == actions[i] && front[..i] == actions[..i];
      }
      RunKeepsInv(s, front);
      assert !Abandons(Run(s, front).value, a);
      StepKeepsInv(Run(s, front).value, a);
    }
  }

  /** In every interleaving that abandons no starting process, at most one algo process is alive. */
  lemma AtMostOneProcess(s: State, actions: seq<Action>)
    requires Initial(s) && Patient(s, actions) && Run(s, actions).Some?
    ensures Safe(Run(s, actions).value)
  {
    RunKeepsInv(s, actions);
    InvSafe(Run(s, actions).value);
  }

  // ----- what a caller is told -----

  /** The action makes the caller's report. */
  ghost predicate Reports(s: State, a: Action, c: Caller) {
    Step(s, a).Some? && Step(s, a).value.PcOf(c).Done? && !s.PcOf(c).Done?
  }

  /** The two-second window runs out while the launched process is alive. */
  ghost predicate DeadlineWithChildAlive(s: State, a: Action, c: Caller) {
    a == Deadline(c) && s.PcOf(c).Poll? && s.Alive(s.PcOf(c).child)
  }

  /**
    What a caller is told. A reported PID is alive, registered and in the PID file. "The process
    exited" is true, nothing being alive, exactly unless the deadline passed with the child alive.
  */
  lemma OutcomeIsTrue(s: State, a: Action, c: Caller)
    requires Inv(s) && Reports(s, a, c)
    ensures var t := Step(s, a).value;
            match t.PcOf(c).outcome
            case AlreadyRunning(p) => p in t.processes && t.processes[p].Registered? && t.pidFile == Some(p)
            case Running(p) => p in t.processes && t.processes[p].Registered? && t.pidFile == Some(p)
                               && s.PcOf(c).Awaited() == Some(p)
            case LaunchFailed => OnlyAlive(t, None) <==> !DeadlineWithChildAlive(s, a, c)
  {
    assert s.PcOf(c).Critical() <==> s.lock == Some(c);
    if a.Deadline? && s.PcOf(c).Poll? { assert s.lock == Some(c); }
  }

  /** So in every patient run: a caller told its launch failed was misinformed exactly by such a deadline. */
  lemma RunReportsTruly(s: State, actions: seq<Action>, a: Action, c: Caller)
    requires Initial(s) && Patient(s, actions) && Run(s, actions).Some?
    requires Reports(Run(s, actions).value, a, c)
    ensures var u := Run(s, actions).value;
            var t := Step(u, a).value;
            match t.PcOf(c).outcome
            case LaunchFailed => OnlyAlive(t, None) <==> !DeadlineWithChildAlive(u, a, c)
            case reported =>
              t.Alive(reported.pid) && t.pidFile == Some(reported.pid) && OnlyAlive(t, Some(reported.pid))
  {
    RunKeepsInv(s, actions);
    hide Initial, Patient, Run, Inv, Step, Reports;
    var u := Run(s, actions).value;
    OutcomeIsTrue(u, a, c);
    ReportChangesNoProcess(u, a, c);
    var t := Step(u, a).value;
    if !t.PcOf(c).outcome.LaunchFailed? { OneAlive(u, t, t.PcOf(c).outcome.pid); }
  }

  lemma ReportChangesNoProcess(s: State, a: Action, c: Caller)
    requires Reports(s, a, c)
    ensures Step(s, a).Some? && Step(s, a).value.processes == s.processes && Step(s, a).value.PcOf(c).Done?
  {}

  lemma OneAlive(s: State, t: State, p: Pid)
    requires Inv(s) && t.processes == s.processes && t.Alive(p)
    ensures OnlyAlive(t, Some(p))
  {
    assert s.Alive(p) && forall q :: t.Alive(q) ==> s.Alive(q);
  }

  // ----- what a command does, from its invocation to its report -----

  /** The command invoked at `i` is still the caller's: it has neither returned nor been killed since. */
  ghost predicate InProgress(actions: seq<Action>, i: int, c: Caller, command: Command) {
    && 0 <= i < |actions| && actions[i] == Invoke(c, command)
    && forall k :: i < k < |actions| ==> actions[k] != Release(c) && actions[k] != Die(c)
  }

  /** The process was gone by itself, after the m-th action. */
  ghost predicate EndedItself(actions: seq<Action>, m: int, p: Pid) {
    exists k :: 0 <= m < k < |actions| && (actions[k] == Crash(p) || actions[k] == ExitCleanly(p))
  }

  /** No process of `u` is alive in `v`. */
  ghost predicate Replaced(u: State, v: State) {
    forall q :: q in u.processes ==> !v.Alive(q)
  }

  /** Where a RESTART can be, `u` being the box when it took the lock. */
  ghost predicate Restarting(u: State, v: State, c: Caller) {
    && u.processes.Keys <= v.processes.Keys
    && match v.PcOf(c)
       case Idle => false
       case WaitLock(_) => false
       case CheckRead(restarted) => restarted && v.pidFile.None?
       case CheckAlive(restarted, read) => restarted && v.pidFile.None? && read.None?
       case Launching => v.pidFile.None?
       case Poll(child) => child !in u.processes
       case PollAlive(child, _) => child !in u.processes
       case PollExit(child) => child !in u.processes
       case Done(outcome) =>
         !outcome.AlreadyRunning? && Replaced(u, v) && (outcome.Running? ==> outcome.pid !in u.processes)
       case _ => true
  }

  /** Where a START can be, `u` being the box when it took the lock. */
  ghost predicate StartingUp(u: State, v: State, c: Caller) {
    && u.processes.Keys <= v.processes.Keys
    && (forall q :: q in u.processes && v.Alive(q) ==> u.Alive(q))
    && match v.PcOf(c)
       case CheckRead(restarted) => !restarted && v.processes.Keys == u.processes.Keys
       case CheckAlive(restarted, _) => !restarted && v.processes.Keys == u.processes.Keys
       case Launching => v.processes.Keys == u.processes.Keys
       case Poll(child) => child !in u.processes
       case PollAlive(child, _) => child !in u.processes
       case PollExit(child) => child !in u.processes
       case Done(outcome) =>
         if outcome.AlreadyRunning? then u.Alive(outcome.pid)
         else Replaced(u, v) && (outcome.Running? ==> outcome.pid !in u.processes)
       case _ => false
  }

  lemma RestartStep(u: State, v: State, c: Caller, a: Action)
    requires Inv(v) && v.lock == Some(c) && Restarting(u, v, c) && Step(v, a).Some? && !Abandons(v, a)
    requires a != Release(c) && a != Die(c)
    ensures Restarting(u, Step(v, a).value, c) && Step(v, a).value.lock == Some(c)
  {
    var w := Step(v, a).value;
    if a.Advance? || a.Deadline? || a.Launch? {
      assert v.PcOf(a.caller).Critical();
      assert a.caller == c;
    } else {
      assert w.PcOf(c) == v.PcOf(c);
    }
  }

  lemma StartStep(u: State, v: State, c: Caller, a: Action)
    requires Inv(v) && v.lock == Some(c) && StartingUp(u, v, c) && Step(v, a).Some? && !Abandons(v, a)
    requires a != Release(c) && a != Die(c)
    ensures StartingUp(u, Step(v, a).value, c) && Step(v, a).value.lock == Some(c)
  {
    var w := Step(v, a).value;
    if a.Advance? || a.Deadline? || a.Launch? {
      assert v.PcOf(a.caller).Critical();
      assert a.caller == c;
    } else {
      assert w.PcOf(c) == v.PcOf(c);
    }
  }

  /** START spares `q`: alive, in the PID file, and on its way to being reported. */
  ghost predicate Spared(v: State, c: Caller, q: Pid) {
    v.Alive(q) && var pc := v.PcOf(c);
      pc == CheckRead(false) || pc == CheckAlive(false, Some(q)) || pc == Done(AlreadyRunning(q))
  }

  lemma SparedStep(v: State, c: Caller, a: Action, q: Pid)
    requires Inv(v) && v.lock == Some(c) && Spared(v, c, q) && Step(v, a).Some? && !Abandons(v, a)
    requires a != Release(c) && a != Die(c) && a != Crash(q) && a != ExitCleanly(q)
    ensures Spared(Step(v, a).value, c, q)
  {
    if a.Advance? || a.Deadline? || a.Launch? {
      assert v.PcOf(a.caller).Critical();
      assert a.caller == c;
    } else {
      assert Step(v, a).value.PcOf(c) == v.PcOf(c);
    }
  }

  /** The command's progress since it took the lock in `u`, by the m-th action. */
  ghost predicate Tracked(u: State, v: State, actions: seq<Action>, m: int, c: Caller, command: Command) {
    && v.lock == Some(c)
    && (command.RestartAlgo? ==> Restarting(u, v, c))
    && (command.StartAlgo? ==>
          StartingUp(u, v, c) && forall q :: u.Alive(q) && !EndedItself(actions, m, q) ==> Spared(v, c, q))
  }

  lemma TakesLock(v: State, c: Caller, command: Command, actions: seq<Action>)
    requires Inv(v) && v.PcOf(c) == WaitLock(command) && Step(v, Acquire(c)).Some?
    ensures Tracked(v, Step(v, Acquire(c)).value, actions, |actions| - 1, c, command)
  {
    var w := Step(v, Acquire(c)).value;
    assert w.processes == v.processes;
  }

  lemma TrackedStep(u: State, v: State, front: seq<Action>, a: Action, m: int, c: Caller, command: Command)
    requires Inv(v) && Tracked(u, v, front, m, c, command) && Step(v, a).Some? && !Abandons(v, a)
    requires 0 <= m < |front| && a != Release(c) && a != Die(c)
    ensures Tracked(u, Step(v, a).value, front + [a], m, c, command)
  {
    hide Inv, Step, Restarting, StartingUp, Spared, Abandons;
    var all := front + [a];
    if command.RestartAlgo? {
      RestartStep(u, v, c, a);
    } else {
      StartStep(u, v, c, a);
      forall q | u.Alive(q) && !EndedItself(all, m, q) ensures Spared(Step(v, a).value, c, q) {
        assert all[|front|] == a && forall k :: 0 <= k < |front| ==> all[k] == front[k];
        assert !EndedItself(front, m, q);
        SparedStep(v, c, a, q);
      }
    }
  }

  /** The command is waiting for the lock, or took it by its m-th action. */
  ghost predicate TookLock(s: State, actions: seq<Action>, i: int, m: int, c: Caller, command: Command) {
    && 0 <= i < m < |actions| && actions[m] == Acquire(c)
    && Run(s, actions[..m]).Some? && Run(s, actions).Some?
    && Tracked(Run(s, actions[..m]).value, Run(s, actions).value, actions, m, c, command)
  }

  lemma {:induction false} CommandTracked(s: State, actions: seq<Action>, i: int, c: Caller, command: Command)
    requires Initial(s) && Patient(s, actions) && Run(s, actions).Some? && InProgress(actions, i, c, command)
    ensures Run(s, actions).value.PcOf(c) == WaitLock(command) || exists m :: TookLock(s, actions, i, m, c, command)
  {
    assert actions != [];
    hide Inv, Initial, Abandons, Step, Patient, Run, InProgress, TookLock;
    var front, a := actions[..|actions| - 1], actions[|actions| - 1];
    assert actions == front + [a];
    PatientFront(s, front, a);
    InProgressFront(front, a, i, c, command);
    if i == |front| {
      InvokeWaits(Run(s, front).value, c, command);
    } else {
      CommandTracked(s, front, i, c, command);
      RunKeepsInv(s, front);
      if Run(s, front).value.PcOf(c) == WaitLock(command) {
        WaitingStep(s, front, a, i, c, command);
      } else {
        var m :| TookLock(s, front, i, m, c, command);
        LockedStep(s, front, a, i, m, c, command);
      }
    }
  }

  lemma WaitingStep(s: State, front: seq<Action>, a: Action, i: int, c: Caller, command: Command)
    requires Run(s, front).Some? && Run(s, front + [a]) == Step(Run(s, front).value, a) && Run(s, front + [a]).Some?
    requires Inv(Run(s, front).value) && Run(s, front).value.PcOf(c) == WaitLock(command)
    requires 0 <= i < |front| && a != Die(c)
    ensures Run(s, front + [a]).value.PcOf(c) == WaitLock(command) || TookLock(s, front + [a], i, |front|, c, command)
  {
    hide Inv, Step, Run, Tracked;
    var all := front + [a];
    assert all[|front|] == a && all[..|front|] == front;
    if a == Acquire(c) {
      TakesLock(Run(s, front).value, c, command, all);
    } else {
      StillWaiting(Run(s, front).value, c, a);
    }
  }

  lemma LockedStep(s: State, front: seq<Action>, a: Action, i: int, m: int, c: Caller, command: Command)
    requires Run(s, front).Some? && Run(s, front + [a]) == Step(Run(s, front).value, a) && Run(s, front + [a]).Some?
    requires Inv(Run(s, front).value) && TookLock(s, front, i, m, c, command)
    requires !Abandons(Run(s, front).value, a) && a != Release(c) && a != Die(c)
    ensures TookLock(s, front + [a], i, m, c, command)
  {
    hide Inv, Step, Run, Tracked, Abandons;
    var all := front + [a];
    assert all[m] == front[m] && all[..m] == front[..m];
    TrackedStep(Run(s, front[..m]).value, Run(s, front).value, front, a, m, c, command);
  }

  lemma InvokeWaits(v: State, c: Caller, command: Command)
    requires Step(v, Invoke(c, command)).Some?
    ensures Step(v, Invoke(c, command)).value.PcOf(c) == WaitLock(command)
  {}

  lemma InProgressFront(front: seq<Action>, a: Action, i: int, c: Caller, command: Command)
    requires InProgress(front + [a], i, c, command)
    ensures if i == |front| then a == Invoke(c, command)
            else InProgress(front, i, c, command) && a != Release(c) && a != Die(c)
  {
    var all := front + [a];
    assert all[|front|] == a && forall k :: 0 <= k < |front| ==> front[k] == all[k];
  }

  lemma PatientFront(s: State, front: seq<Action>, a: Action)
    requires Patient(s, front + [a]) && Run(s, front + [a]).Some?
    ensures Patient(s, front) && Run(s, front).Some? && !Abandons(Run(s, front).value, a)
    ensures Step(Run(s, front).value, a) == Run(s, front + [a])
  {
    hide Abandons, Step;
    var all := front + [a];
    assert all[..|front|] == front && all[|front|] == a;
    assert forall i :: 0 <= i < |front| ==> front[i] == all[i] && front[..i] == all[..i];
  }

  lemma StillWaiting(v: State, c: Caller, a: Action)
    requires Inv(v) && v.PcOf(c).WaitLock? && Step(v, a).Some? && a != Acquire(c) && a != Die(c)
    ensures Step(v, a).value.PcOf(c) == v.PcOf(c)
  {}

  /** By the time it took the lock, at its m-th action, the box was `u`. */
  ghost predicate LockedAt(s: State, actions: seq<Action>, i: int, m: int, c: Caller, u: State) {
    0 <= i < m < |actions| && actions[m] == Acquire(c) && Run(s, actions[..m]) == Some(u)
  }

  /**
    A RESTART never reports a process as already running. Whatever it reports, every process there was
    when it took the lock is dead; and a process it reports running was not there then.
  */
  lemma RestartReplaces(s: State, actions: seq<Action>, i: int, c: Caller)
    requires Initial(s) && Patient(s, actions) && Run(s, actions).Some? && InProgress(actions, i, c, RestartAlgo)
    requires Run(s, actions).value.PcOf(c).Done?
    ensures exists m, u :: LockedAt(s, actions, i, m, c, u) &&
              var t := Run(s, actions).value;
              && (forall q :: q in u.processes ==> !t.Alive(q))
              && match t.PcOf(c).outcome
                 case AlreadyRunning(_) => false
                 case Running(p) => p !in u.processes
                 case LaunchFailed => true
  {
    hide Initial, Patient, Run, Inv;
    CommandTracked(s, actions, i, c, RestartAlgo);
    var m :| TookLock(s, actions, i, m, c, RestartAlgo);
    assert LockedAt(s, actions, i, m, c, Run(s, actions[..m]).value);
  }

  /**
    A START ends nothing: a process alive when it took the lock is reported as already running, unless
    it was gone by itself. Only such a process is so reported, and one it launched was not there then.
  */
  lemma StartRespects(s: State, actions: seq<Action>, i: int, c: Caller)
    requires Initial(s) && Patient(s, actions) && Run(s, actions).Some? && InProgress(actions, i, c, StartAlgo)
    requires Run(s, actions).value.PcOf(c).Done?
    ensures exists m, u :: LockedAt(s, actions, i, m, c, u) &&
              var t := Run(s, actions).value;
              && (forall q :: u.Alive(q) ==> t.PcOf(c) == Done(AlreadyRunning(q)) || EndedItself(actions, m, q))
              && match t.PcOf(c).outcome
                 case AlreadyRunning(p) => u.Alive(p)
                 case Running(p) => p !in u.processes && forall q :: q in u.processes ==> !t.Alive(q)
                 case LaunchFailed => forall q :: q in u.processes ==> !t.Alive(q)
  {
    hide Initial, Patient, Run, Inv;
    CommandTracked(s, actions, i, c, StartAlgo);
    var m :| TookLock(s, actions, i, m, c, StartAlgo);
    assert LockedAt(s, actions, i, m, c, Run(s, actions[..m]).value);
  }

  /** While its grace period has not run out, a RESTART has ended nothing itself. */
  ghost predicate GraceKept(u: State, v: State, actions: seq<Action>, m: int, c: Caller) {
    && v.lock == Some(c) && !v.PcOf(c).StopKill?
    && (v.PcOf(c).StopRecheck? ==> !v.Alive(v.PcOf(c).pid))
    && forall q :: u.Alive(q) && !EndedItself(actions, m, q) ==> v.Alive(q)
  }

  lemma GraceStep(u: State, v: State, front: seq<Action>, a: Action, m: int, c: Caller)
    requires Inv(v) && GraceKept(u, v, front, m, c) && Step(v, a).Some? && 0 <= m < |front|
    requires a != Release(c) && a != Die(c) && a != Deadline(c)
    ensures GraceKept(u, Step(v, a).value, front + [a], m, c)
  {
    var w, all := Step(v, a).value, front + [a];
    assert all[|front|] == a && forall k :: 0 <= k < |front| ==> all[k] == front[k];
    if a.Advance? || a.Deadline? || a.Launch? {
      assert v.PcOf(a.caller).Critical();
      assert a.caller == c;
    } else {
      assert w.PcOf(c) == v.PcOf(c);
    }
    forall q | u.Alive(q) && !EndedItself(all, m, q) ensures w.Alive(q) {
      assert !EndedItself(front, m, q);
      assert a != Crash(q) && a != ExitCleanly(q);
    }
  }

  /** The command's grace period and poll limit have not run out since its invocation. */
  ghost predicate NoDeadline(actions: seq<Action>, i: int, c: Caller)
    requires 0 <= i
  {
    forall k :: i < k < |actions| ==> actions[k] != Deadline(c)
  }

  lemma NoDeadlineFront(front: seq<Action>, a: Action, i: int, c: Caller)
    requires 0 <= i < |front| && NoDeadline(front + [a], i, c)
    ensures NoDeadline(front, i, c) && a != Deadline(c)
  {
    var all := front + [a];
    assert all[|front|] == a && forall k :: 0 <= k < |front| ==> front[k] == all[k];
  }

  ghost predicate GraceSince(s: State, actions: seq<Action>, i: int, m: int, c: Caller) {
    && 0 <= i < m < |actions| && actions[m] == Acquire(c) && Run(s, actions[..m]).Some? && Run(s, actions).Some?
    && GraceKept(Run(s, actions[..m]).value, Run(s, actions).value, actions, m, c)
  }

  lemma {:induction false} GraceTracked(s: State, actions: seq<Action>, i: int, c: Caller, command: Command)
    requires Initial(s) && Patient(s, actions) && Run(s, actions).Some? && InProgress(actions, i, c, command)
    requires NoDeadline(actions, i, c)
    ensures Run(s, actions).value.PcOf(c) == WaitLock(command) || exists m :: GraceSince(s, actions, i, m, c)
  {
    assert actions != [] && i < |actions|;
    hide Inv, Initial, Abandons, Step, Patient, Run, InProgress, GraceSince, NoDeadline;
    var front, a := actions[..|actions| - 1], actions[|actions| - 1];
    assert actions == front + [a];
    PatientFront(s, front, a);
    InProgressFront(front, a, i, c, command);
    if i == |front| {
      InvokeWaits(Run(s, front).value, c, command);
    } else {
      NoDeadlineFront(front, a, i, c);
      GraceTracked(s, front, i, c, command);
      RunKeepsInv(s, front);
      if Run(s, front).value.PcOf(c) == WaitLock(command) {
        GraceWaitingStep(s, front, a, i, c, command);
      } else {
        var m :| GraceSince(s, front, i, m, c);
        GraceLockedStep(s, front, a, i, m, c);
      }
    }
  }

  lemma GraceWaitingStep(s: State, front: seq<Action>, a: Action, i: int, c: Caller, command: Command)
    requires Run(s, front).Some? && Run(s, front + [a]) == Step(Run(s, front).value, a) && Run(s, front + [a]).Some?
    requires Inv(Run(s, front).value) && Run(s, front).value.PcOf(c) == WaitLock(command)
    requires 0 <= i < |front| && a != Die(c)
    ensures Run(s, front + [a]).value.PcOf(c) == WaitLock(command) || GraceSince(s, front + [a], i, |front|, c)
  {
    hide Inv, Step, Run, GraceKept;
    var all := front + [a];
    assert all[|front|] == a && all[..|front|] == front;
    if a == Acquire(c) {
      GraceStarts(Run(s, front).value, c, all);
    } else {
      StillWaiting(Run(s, front).value, c, a);
    }
  }

  lemma GraceLockedStep(s: State, front: seq<Action>, a: Action, i: int, m: int, c: Caller)
    requires Run(s, front).Some? && Run(s, front + [a]) == Step(Run(s, front).value, a) && Run(s, front + [a]).Some?
    requires Inv(Run(s, front).value) && GraceSince(s, front, i, m, c)
    requires a != Release(c) && a != Die(c) && a != Deadline(c)
    ensures GraceSince(s, front + [a], i, m, c)
  {
    hide Inv, Step, Run, GraceKept;
    var all := front + [a];
    assert all[m] == front[m] && all[..m] == front[..m];
    GraceStep(Run(s, front[..m]).value, Run(s, front).value, front, a, m, c);
  }

  lemma GraceStarts(v: State, c: Caller, actions: seq<Action>)
    requires v.PcOf(c).WaitLock? && Step(v, Acquire(c)).Some?
    ensures GraceKept(v, Step(v, Acquire(c)).value, actions, |actions| - 1, c)
  {}

  /** A RESTART kills only after its grace period: without a deadline, whatever has died since has ended by itself. */
  lemma KillsOnlyAfterGrace(s: State, actions: seq<Action>, i: int, c: Caller)
    requires Initial(s) && Patient(s, actions) && Run(s, actions).Some? && InProgress(actions, i, c, RestartAlgo)
    requires Run(s, actions).value.PcOf(c).Done? && NoDeadline(actions, i, c)
    ensures exists m, u :: LockedAt(s, actions, i, m, c, u) &&
              forall q :: u.Alive(q) && !Run(s, actions).value.Alive(q) ==> EndedItself(actions, m, q)
  {
    hide Initial, Patient, Run, Inv;
    GraceTracked(s, actions, i, c, RestartAlgo);
    var m :| GraceSince(s, actions, i, m, c);
    assert LockedAt(s, actions, i, m, c, Run(s, actions[..m]).value);
  }

  /** A RESTART launches only with its PID file gone, and whoever launches does so with nothing alive. */
  lemma LaunchesAlone(s: State, actions: seq<Action>, i: int, c: Caller, command: Command, p: Pid)
    requires Initial(s) && Patient(s, actions) && Run(s, actions).Some? && InProgress(actions, i, c, command)
    requires Step(Run(s, actions).value, Launch(c, p)).Some?
    ensures var v := Run(s, actions).value;
            (forall q :: !v.Alive(q)) && (command.RestartAlgo? ==> v.pidFile.None?)
  {
    hide Initial, Patient, Run;
    CommandTracked(s, actions, i, c, command);
    RunKeepsInv(s, actions);
    var m :| TookLock(s, actions, i, m, c, command);
  }

  /** Whoever holds the lock can take a step of its own, so no caller waits on another for ever. */
  lemma HolderCanStep(s: State, c: Caller)
    requires Inv(s) && s.lock == Some(c)
    ensures exists a: Action ::
              (a.Advance? || a.Deadline? || a.Launch? || a.Release?) && a.caller == c && Step(s, a).Some?
  {
    assert s.PcOf(c).Critical();
    if s.PcOf(c).Launching? {
      var p := FreshPid(s.processes.Keys + (if s.pidFile.Some? then {s.pidFile.value} else {}));
      assert Step(s, Launch(c, p)).Some?;
    } else if s.PcOf(c).Done? {
      assert Step(s, Release(c)).Some?;
    } else if s.PcOf(c).StopGrace? {
      assert Step(s, Deadline(c)).Some?;
    } else {
      assert Step(s, Advance(c)).Some?;
    }
  }

  // ----- the PID file -----

  /** The PID file names a live process, unless a RESTART is just about to remove it. */
  ghost predicate FileTrue(s: State) {
    s.pidFile.Some? && !s.Alive(s.pidFile.value) ==> s.lock.Some? && s.PcOf(s.lock.value).StopRemove?
  }

  ghost predicate Orderly(actions: seq<Action>) {
    forall k :: 0 <= k < |actions| ==> !actions[k].Crash? && !actions[k].Die?
  }

  lemma FileTrueStep(s: State, a: Action)
    requires Inv(s) && FileTrue(s) && Step(s, a).Some? && !a.Crash? && !a.Die?
    ensures FileTrue(Step(s, a).value)
  {
    var t := Step(s, a).value;
    if a.Advance? || a.Deadline? || a.Launch? || a.Release? { assert s.PcOf(a.caller).Critical(); }
    if s.lock.Some? && (a.Register? || a.ExitCleanly?) { assert t.PcOf(s.lock.value) == s.PcOf(s.lock.value); }
  }

  lemma {:induction false} FileTrueAlways(s: State, actions: seq<Action>)
    requires Initial(s) && FileTrue(s) && Patient(s, actions) && Run(s, actions).Some? && Orderly(actions)
    ensures FileTrue(Run(s, actions).value)
  {
    hide Initial, Inv, Step, FileTrue, Abandons;
    if actions != [] {
      var front, a := actions[..|actions| - 1], actions[|actions| - 1];
      assert actions == front + [a];
      PatientFront(s, front, a);
      RunKeepsInv(s, front);
      FileTrueAlways(s, front);
      FileTrueStep(Run(s, front).value, a);
    }
  }

  /** With no crash and no killed caller: whenever the lock is free, the PID file names exactly the live process. */
  lemma PidFileExact(s: State, actions: seq<Action>, p: Pid)
    requires Initial(s) && (s.pidFile.Some? ==> s.Alive(s.pidFile.value))
    requires Patient(s, actions) && Run(s, actions).Some? && Orderly(actions) && Run(s, actions).value.lock.None?
    ensures Run(s, actions).value.pidFile == Some(p) <==> Run(s, actions).value.Alive(p)
  {
    FileTrueAlways(s, actions);
    AtMostOneProcess(s, actions);
    hide Initial, Patient, Run;
  }

  // ----- abandoning a starting process -----

  ghost predicate Reaches(s: State, t: State) {
    exists actions :: Run(s, actions) == Some(t)
  }

  lemma ReachesSelf(s: State)
    ensures Reaches(s, s)
  {
    assert Run(s, []) == Some(s);
  }

  lemma ReachesNext(s: State, t: State, a: Action)
    requires Reaches(s, t) && Step(t, a).Some?
    ensures Reaches(s, Step(t, a).value)
  {
    hide Step;
    var actions :| Run(s, actions) == Some(t);
    assert (actions + [a])[..|actions|] == actions;
    assert Run(s, actions + [a]) == Step(t, a);
  }

  lemma {:induction false} FreshPid(used: set<int>) returns (p: Pid)
    ensures p !in used
  {
    p := 0;
    if exists q :: q in used {
      var top := Greatest(used);
      p := top + 1;
    }
  }

  lemma {:induction false} Greatest(used: set<int>) returns (top: int)
    requires exists q :: q in used
    ensures top in used && forall q :: q in used ==> q <= top
    decreases |used|
  {
    var first :| first in used;
    top := first;
    var rest := used - {first};
    assert forall q :: q in used <==> q == first || q in rest;
    if exists q :: q in rest {
      var other := Greatest(rest);
      if other > first { top := other; }
    }
  }

  /** From a free lock with an unregistered live process, one more START reaches two live processes. */
  lemma SecondLaunch(s: State, u: State, c: Caller, child: Pid) returns (t: State)
    requires Reaches(s, u) && u.lock.None? && u.PcOf(c).Idle?
    requires OnlyAlive(u, Some(child)) && u.Alive(child) && u.pidFile != Some(child)
    ensures Reaches(s, t) && !Safe(t) && exists p, q :: p != q && t.Alive(p) && t.Alive(q)
  {
    hide Reaches, Run;
    ReachesNext(s, u, Invoke(c, StartAlgo));
    var v := Step(u, Invoke(c, StartAlgo)).value;
    ReachesNext(s, v, Acquire(c));
    v := Step(v, Acquire(c)).value;
    ReachesNext(s, v, Advance(c));
    v := Step(v, Advance(c)).value;
    ReachesNext(s, v, Advance(c));
    v := Step(v, Advance(c)).value;
    var p := FreshPid(v.processes.Keys + (if v.pidFile.Some? then {v.pidFile.value} else {}));
    ReachesNext(s, v, Launch(c, p));
    t := Step(v, Launch(c, p)).value;
    assert t.Alive(child) && t.Alive(p) && p != child;
  }

  /** So patience is needed: any reachable abandonment can be continued to two live processes. */
  lemma AbandonmentIsUnsafe(s: State, a: Action)
    requires Inv(s) && Step(s, a).Some? && Abandons(s, a)
    ensures exists t :: Reaches(Step(s, a).value, t) && !Safe(t)
  {
    hide Reaches, Run;
    var c, child := a.caller, s.PcOf(a.caller).Awaited().value;
    var u := Step(s, a).value;
    ReachesSelf(u);
    assert s.lock == Some(c);
    if a.Deadline? {
      ReachesNext(u, u, Release(c));
      var t := SecondLaunch(u, Step(u, Release(c)).value, c, child);
    } else {
      var t := SecondLaunch(u, u, c, child);
    }
  }

  // ----- concrete runs -----

  const IDLE_BOX := State(None, map[], None, map[])

  lemma RunOne(s: State, actions: seq<Action>, a: Action)
    requires Run(s, actions).Some?
    ensures Run(s, actions + [a]) == Step(Run(s, actions).value, a)
  {
    assert (actions + [a])[..|actions|] == actions;
  }

  lemma PatientOne(s: State, actions: seq<Action>, a: Action)
    requires Patient(s, actions) && Run(s, actions).Some? && !Abandons(Run(s, actions).value, a)
    ensures Patient(s, actions + [a])
  {
    hide Abandons, Run;
    var all := actions + [a];
    forall i | 0 <= i < |all| && Run(s, all[..i]).Some? ensures !Abandons(Run(s, all[..i]).value, all[i]) {
      assert all[..i] == if i < |actions| then actions[..i] else actions;
    }
  }

  lemma Extend(s: State, actions: seq<Action>, a: Action, t: State)
    requires Patient(s, actions) && Run(s, actions).Some? && !Abandons(Run(s, actions).value, a)
    requires Step(Run(s, actions).value, a) == Some(t)
    ensures Patient(s, actions + [a]) && Run(s, actions + [a]) == Some(t)
  {
    RunOne(s, actions, a);
    PatientOne(s, actions, a);
  }

  /** The box with caller 1 at `pc` holding the lock. */
  function Held(pc: Pc, pidFile: Option<Pid>, processes: map<Pid, ProcessState>): State {
    State(Some(1), map[1 := pc], pidFile, processes)
  }

  lemma HeldGoto(pc: Pc, next: Pc, pidFile: Option<Pid>, processes: map<Pid, ProcessState>)
    ensures Held(pc, pidFile, processes).Goto(1, next) == Held(next, pidFile, processes)
    ensures Held(pc, pidFile, processes).PcOf(1) == pc
  {
    assert map[1 := pc][1 := next] == map[1 := next];
  }

  /** One START up to the launch: process 7 is starting, and caller 1 waits for it. */
  lemma FirstLaunch() returns (actions: seq<Action>)
    ensures Initial(IDLE_BOX) && Patient(IDLE_BOX, actions)
    ensures Run(IDLE_BOX, actions) == Some(Held(Poll(7), None, map[7 := Starting]))
  {
    hide Run, Patient;
    actions := FirstCheck();
    HeldGoto(CheckAlive(false, None), Launching, None, map[]);
    Extend(IDLE_BOX, actions, Advance(1), Held(Launching, None, map[]));
    actions := actions + [Advance(1)];
    HeldGoto(Launching, Poll(7), None, map[]);
    Extend(IDLE_BOX, actions, Launch(1, 7), Held(Poll(7), None, map[7 := Starting]));
    actions := actions + [Launch(1, 7)];
  }

  lemma FirstCheck() returns (actions: seq<Action>)
    ensures Initial(IDLE_BOX) && Patient(IDLE_BOX, actions)
    ensures Run(IDLE_BOX, actions) == Some(Held(CheckAlive(false, None), None, map[]))
  {
    hide Run, Patient;
    actions := NoActions(IDLE_BOX);
    var waiting := State(None, map[1 := WaitLock(StartAlgo)], None, map[]);
    Extend(IDLE_BOX, actions, Invoke(1, StartAlgo), waiting);
    actions := actions + [Invoke(1, StartAlgo)];
    assert map[1 := WaitLock(StartAlgo)][1 := CheckRead(false)] == map[1 := CheckRead(false)];
    Extend(IDLE_BOX, actions, Acquire(1), Held(CheckRead(false), None, map[]));
    actions := actions + [Acquire(1)];
    HeldGoto(CheckRead(false), CheckAlive(false, None), None, map[]);
    Extend(IDLE_BOX, actions, Advance(1), Held(CheckAlive(false, None), None, map[]));
    actions := actions + [Advance(1)];
  }

  lemma NoActions(s: State) returns (actions: seq<Action>)
    ensures Patient(s, actions) && Run(s, actions) == Some(s)
  {
    actions := [];
  }

  /** The process registers just before the deadline: the caller is told it exited while it is the running algo. */
  lemma DeadlineMisreports() returns (actions: seq<Action>)
    ensures Initial(IDLE_BOX) && Patient(IDLE_BOX, actions)
    ensures Run(IDLE_BOX, actions) == Some(Held(Done(LaunchFailed), Some(7), map[7 := Registered]))
  {
    hide Run, Patient, Initial;
    actions := FirstLaunch();
    assert map[7 := Starting][7 := Registered] == map[7 := Registered];
    Extend(IDLE_BOX, actions, Register(7), Held(Poll(7), Some(7), map[7 := Registered]));
    actions := actions + [Register(7)];
    HeldGoto(Poll(7), Done(LaunchFailed), Some(7), map[7 := Registered]);
    Extend(IDLE_BOX, actions, Deadline(1), Held(Done(LaunchFailed), Some(7), map[7 := Registered]));
    actions := actions + [Deadline(1)];
  }

  /** The process registers only after the deadline, and a second START has launched another by then. */
  lemma TwoProcesses() returns (t: State)
    ensures Initial(IDLE_BOX) && Reaches(IDLE_BOX, t)
    ensures exists p, q :: p != q && t.Alive(p) && t.Alive(q)
  {
    hide Run, Initial;
    var actions := FirstLaunch();
    assert Reaches(IDLE_BOX, Run(IDLE_BOX, actions).value);
    hide Reaches;
    var s := Run(IDLE_BOX, actions).value;
    ReachesNext(IDLE_BOX, s, Deadline(1));
    s := Step(s, Deadline(1)).value;
    ReachesNext(IDLE_BOX, s, Release(1));
    s := Step(s, Release(1)).value;
    t := SecondLaunch(IDLE_BOX, s, 1, 7);
  }

  const RUNNING_BOX := State(None, map[], Some(7), map[7 := Registered])

  /** A RESTART up to the point where process 7, asked to stop and still there, is killed. */
  lemma RestartKills() returns (actions: seq<Action>)
    ensures Initial(RUNNING_BOX) && Patient(RUNNING_BOX, actions)
    ensures Run(RUNNING_BOX, actions) == Some(Held(StopRemove, Some(7), map[7 := Dead]))
  {
    hide Run, Patient;
    actions := NoActions(RUNNING_BOX);
    var alive := map[7 := Registered];
    var waiting := State(None, map[1 := WaitLock(RestartAlgo)], Some(7), alive);
    Extend(RUNNING_BOX, actions, Invoke(1, RestartAlgo), waiting);
    actions := actions + [Invoke(1, RestartAlgo)];
    assert map[1 := WaitLock(RestartAlgo)][1 := StopRead] == map[1 := StopRead];
    Extend(RUNNING_BOX, actions, Acquire(1), Held(StopRead, Some(7), alive));
    actions := actions + [Acquire(1)];
    actions := AsksToStop(actions);
    actions := GraceRunsOut(actions);
  }

  lemma AsksToStop(before: seq<Action>) returns (actions: seq<Action>)
    requires Patient(RUNNING_BOX, before)
    requires Run(RUNNING_BOX, before) == Some(Held(StopRead, Some(7), map[7 := Registered]))
    ensures Patient(RUNNING_BOX, actions)
    ensures Run(RUNNING_BOX, actions) == Some(Held(StopGrace(7), Some(7), map[7 := Registered]))
  {
    hide Run, Patient;
    actions := before;
    var alive := map[7 := Registered];
    HeldGoto(StopRead, StopCheck(Some(7)), Some(7), alive);
    Extend(RUNNING_BOX, actions, Advance(1), Held(StopCheck(Some(7)), Some(7), alive));
    actions := actions + [Advance(1)];
    HeldGoto(StopCheck(Some(7)), StopGrace(7), Some(7), alive);
    Extend(RUNNING_BOX, actions, Advance(1), Held(StopGrace(7), Some(7), alive));
    actions := actions + [Advance(1)];
  }

  lemma GraceRunsOut(before: seq<Action>) returns (actions: seq<Action>)
    requires Patient(RUNNING_BOX, before)
    requires Run(RUNNING_BOX, before) == Some(Held(StopGrace(7), Some(7), map[7 := Registered]))
    ensures Patient(RUNNING_BOX, actions)
    ensures Run(RUNNING_BOX, actions) == Some(Held(StopRemove, Some(7), map[7 := Dead]))
  {
    hide Run, Patient;
    actions := before;
    var alive := map[7 := Registered];
    HeldGoto(StopGrace(7), StopRecheck(7), Some(7), alive);
    Extend(RUNNING_BOX, actions, Deadline(1), Held(StopRecheck(7), Some(7), alive));
    actions := actions + [Deadline(1)];
    HeldGoto(StopRecheck(7), StopKill(7), Some(7), alive);
    Extend(RUNNING_BOX, actions, Advance(1), Held(StopKill(7), Some(7), alive));
    actions := actions + [Advance(1)];
    HeldGoto(StopKill(7), StopRemove, Some(7), alive);
    assert alive[7 := Dead] == map[7 := Dead];
    Extend(RUNNING_BOX, actions, Advance(1), Held(StopRemove, Some(7), map[7 := Dead]));
    actions := actions + [Advance(1)];
  }

  /** And on to the new process 8: the old one dead, the new one registered, in the PID file and reported. */
  lemma RestartRun() returns (actions: seq<Action>)
    ensures Initial(RUNNING_BOX) && Patient(RUNNING_BOX, actions)
    ensures Run(RUNNING_BOX, actions) == Some(Held(Done(Running(8)), Some(8), map[7 := Dead, 8 := Registered]))
  {
    hide Run, Patient, Initial;
    actions := RestartKills();
    var dead := map[7 := Dead];
    HeldGoto(StopRemove, CheckRead(true), Some(7), dead);
    Extend(RUNNING_BOX, actions, Advance(1), Held(CheckRead(true), None, dead));
    actions := actions + [Advance(1)];
    HeldGoto(CheckRead(true), CheckAlive(true, None), None, dead);
    Extend(RUNNING_BOX, actions, Advance(1), Held(CheckAlive(true, None), None, dead));
    actions := actions + [Advance(1)];
    HeldGoto(CheckAlive(true, None), Launching, None, dead);
    Extend(RUNNING_BOX, actions, Advance(1), Held(Launching, None, dead));
    actions := actions + [Advance(1)];
    actions := NewRegisters(actions);
  }

  lemma NewRegisters(before: seq<Action>) returns (actions: seq<Action>)
    requires Patient(RUNNING_BOX, before) && Run(RUNNING_BOX, before) == Some(Held(Launching, None, map[7 := Dead]))
    ensures Patient(RUNNING_BOX, actions)
    ensures Run(RUNNING_BOX, actions) == Some(Held(Done(Running(8)), Some(8), map[7 := Dead, 8 := Registered]))
  {
    hide Run, Patient;
    actions := before;
    var starting, both := map[7 := Dead, 8 := Starting], map[7 := Dead, 8 := Registered];
    HeldGoto(Launching, Poll(8), None, map[7 := Dead]);
    Extend(RUNNING_BOX, actions, Launch(1, 8), Held(Poll(8), None, starting));
    actions := actions + [Launch(1, 8)];
    assert starting[8 := Registered] == both;
    Extend(RUNNING_BOX, actions, Register(8), Held(Poll(8), Some(8), both));
    actions := actions + [Register(8)];
    actions := NewIsSeen(actions);
  }

  lemma NewIsSeen(before: seq<Action>) returns (actions: seq<Action>)
    requires Patient(RUNNING_BOX, before)
    requires Run(RUNNING_BOX, before) == Some(Held(Poll(8), Some(8), map[7 := Dead, 8 := Registered]))
    ensures Patient(RUNNING_BOX, actions)
    ensures Run(RUNNING_BOX, actions) == Some(Held(Done(Running(8)), Some(8), map[7 := Dead, 8 := Registered]))
  {
    hide Run, Patient;
    actions := before;
    var both := map[7 := Dead, 8 := Registered];
    HeldGoto(Poll(8), PollAlive(8, Some(8)), Some(8), both);
    Extend(RUNNING_BOX, actions, Advance(1), Held(PollAlive(8, Some(8)), Some(8), both));
    actions := actions + [Advance(1)];
    HeldGoto(PollAlive(8, Some(8)), Done(Running(8)), Some(8), both);
    Extend(RUNNING_BOX, actions, Advance(1), Held(Done(Running(8)), Some(8), both));
    actions := actions + [Advance(1)];
  }
}
