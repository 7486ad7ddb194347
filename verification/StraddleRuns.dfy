/** Properties of whole runs of the Straddle Pulse step. */
module StraddleRuns {
  import opened Prelude
  import opened MarketHours
  import opened StraddlePulse
  import CS = CandleSeries

  const EMPTY := Db(map[], map[], map[])

  ghost function After(inputs: seq<Input>): Db {
    if inputs == [] then EMPTY else Advance(After(inputs[..|inputs| - 1]), inputs[|inputs| - 1])
  }

  function Today(x: Input): Day { DayOf(x.now) }

  /** The expiry a call works on: the least listed one not yet past. */
  function Expiry(x: Input): Option<Day> { LeastUpcoming(x.expiries, Today(x)) }

  ghost predicate DaysAscend(inputs: seq<Input>) {
    forall i, j :: 0 <= i < j < |inputs| ==> Today(inputs[i]) <= Today(inputs[j])
  }

  ghost predicate NeverRaises(inputs: seq<Input>) {
    forall n :: 0 <= n < |inputs| ==> OutcomeOf(After(inputs[..n]), inputs[n]) != Raised
  }

  ghost predicate SameWhilePending(x: Input, y: Input) {
    Expiry(x).Some? && Expiry(y).Some? && Today(y) <= Expiry(x).value ==> Expiry(y) == Expiry(x)
  }

  /** An expiry once worked on stays the least listed one until it is past, or nothing is listed. */
  ghost predicate KeepsExpiry(inputs: seq<Input>) {
    forall i, j :: 0 <= i < j < |inputs| ==> SameWhilePending(inputs[i], inputs[j])
  }

  // ----- cycles -----

  ghost predicate IsActive(db: Db, e: Day) { e in db.cycles && db.cycles[e].status.Active? }

  ghost predicate AtMostOneActive(db: Db) {
    forall d, e :: IsActive(db, d) && IsActive(db, e) ==> d == e
  }

  /** What the step does to the cycles. */
  lemma CyclesAfter(db: Db, x: Input)
    ensures var past := CompletePast(db, Today(x));
            Advance(db, x).cycles == if Expiry(x).Some? && OutcomeOf(db, x) != Raised
                                     then EnsureCycle(past, x.expiries, Expiry(x).value).cycles else past.cycles
  {
    hide CompletePast, EnsureCycle, LeastUpcoming, IsTradingDay, DayOf, LockIfDue, TakeSnapshot, CycleRaises;
  }

  /** Whatever the inputs, the step never leaves two active cycles. */
  lemma OneActiveKept(db: Db, x: Input)
    requires AtMostOneActive(db)
    ensures AtMostOneActive(Advance(db, x))
  {
    hide LeastUpcoming, NewCycle;
    var past, once := CompletePast(db, Today(x)), Advance(db, x);
    CyclesAfter(db, x);
    var inserted := Expiry(x).Some? && OutcomeOf(db, x) != Raised && Expiry(x).value !in past.cycles;
    if inserted {
      assert !HasActive(past);
    }
    forall d, e | IsActive(once, d) && IsActive(once, e) ensures d == e {
      assert inserted || (IsActive(past, d) && IsActive(past, e) && IsActive(db, d) && IsActive(db, e));
      if inserted { assert (d in past.cycles ==> !IsActive(past, d)) && (e in past.cycles ==> !IsActive(past, e)); }
    }
  }

  lemma {:induction false} OneActiveAlways(inputs: seq<Input>)
    ensures AtMostOneActive(After(inputs))
  {
    hide Advance;
    if inputs != [] {
      OneActiveAlways(inputs[..|inputs| - 1]);
      OneActiveKept(After(inputs[..|inputs| - 1]), inputs[|inputs| - 1]);
    }
  }

  /** The call found an expiry to work on and did not raise. */
  ghost predicate Works(inputs: seq<Input>, i: int, e: Day)
    requires 0 <= i < |inputs|
  {
    Expiry(inputs[i]) == Some(e) && OutcomeOf(After(inputs[..i]), inputs[i]) != Raised
  }

  ghost predicate WorkedOn(inputs: seq<Input>, e: Day) {
    exists i :: 0 <= i < |inputs| && Works(inputs, i, e)
  }

  /** The cycles are the expiries worked on, active exactly while not past. */
  ghost predicate CyclesTrack(db: Db, inputs: seq<Input>) {
    && (forall e :: e in db.cycles <==> WorkedOn(inputs, e))
    && (forall e :: e in db.cycles && inputs != [] ==>
          (db.cycles[e].status.Active? <==> Today(inputs[|inputs| - 1]) <= e))
  }

  lemma WorkedOnStep(inputs: seq<Input>, x: Input, e: Day)
    ensures WorkedOn(inputs + [x], e) <==>
            WorkedOn(inputs, e) || (Expiry(x) == Some(e) && OutcomeOf(After(inputs), x) != Raised)
  {
    hide Expiry, OutcomeOf, After;
    var all := inputs + [x];
    assert all[|inputs|] == x && all[..|inputs|] == inputs;
    assert forall i :: 0 <= i < |inputs| ==> all[i] == inputs[i] && all[..i] == inputs[..i];
    if WorkedOn(inputs, e) {
      var i :| 0 <= i < |inputs| && Works(inputs, i, e);
      assert Works(all, i, e);
    }
    if WorkedOn(all, e) {
      var i :| 0 <= i < |all| && Works(all, i, e);
      if i < |inputs| { assert Works(inputs, i, e); }
    }
    if Expiry(x) == Some(e) && OutcomeOf(After(inputs), x) != Raised { assert Works(all, |inputs|, e); }
  }

  lemma TrackStep(inputs: seq<Input>, x: Input)
    requires CyclesTrack(After(inputs), inputs) && DaysAscend(inputs + [x])
    ensures CyclesTrack(Advance(After(inputs), x), inputs + [x])
  {
    hide WorkedOn, NewCycle, After, OutcomeOf, Advance;
    var db := After(inputs);
    CyclesAfter(db, x);
    var past := CompletePast(db, Today(x));
    PastActive(db, inputs, x);
    var once := Advance(db, x);
    forall e ensures e in once.cycles <==> WorkedOn(inputs + [x], e) { WorkedOnStep(inputs, x, e); }
    assert (inputs + [x])[|inputs + [x]| - 1] == x;
    forall e | e in once.cycles ensures once.cycles[e].status.Active? <==> Today(x) <= e {
      if e in past.cycles {
        assert IsActive(past, e) <==> WorkedOn(inputs, e) && Today(x) <= e;
      } else {
        NewIsActive(x.expiries, e);
      }
    }
  }

  lemma NewIsActive(expiries: seq<Day>, e: Day)
    ensures NewCycle(expiries, e).status.Active?
  {}

  lemma NothingWorkedOn()
    ensures forall e :: !WorkedOn([], e)
  {}

  /** In every run with days in order, whatever raised on the way. */
  lemma {:induction false} CyclesTracked(inputs: seq<Input>)
    requires DaysAscend(inputs)
    ensures CyclesTrack(After(inputs), inputs)
  {
    hide Advance, OutcomeOf, WorkedOn;
    if inputs == [] {
      NothingWorkedOn();
    } else {
      var front, x := inputs[..|inputs| - 1], inputs[|inputs| - 1];
      assert inputs == front + [x];
      PrefixOrdered(front, x);
      CyclesTracked(front);
      TrackStep(front, x);
    }
  }

  lemma PrefixOrdered(front: seq<Input>, x: Input)
    ensures DaysAscend(front + [x]) ==> DaysAscend(front)
    ensures NeverRaises(front + [x]) ==> NeverRaises(front)
    ensures KeepsExpiry(front + [x]) ==> KeepsExpiry(front)
  {
    hide Advance, OutcomeOf, Expiry, Today;
    var all := front + [x];
    assert forall i :: 0 <= i < |front| ==> all[i] == front[i] && all[..i] == front[..i];
  }

  /**
    In every run with days in order, a call raises exactly when another expiry, worked on before by a
    call that did not raise, is still to come. Earlier failures neither cause nor excuse it.
  */
  lemma RaisesIff(inputs: seq<Input>, x: Input)
    requires DaysAscend(inputs + [x])
    ensures OutcomeOf(After(inputs), x) == Raised <==>
            Expiry(x).Some? && exists e :: WorkedOn(inputs, e) && Today(x) <= e && e != Expiry(x).value
  {
    hide WorkedOn, Advance, After, LeastUpcoming, NewCycle;
    PrefixOrdered(inputs, x);
    CyclesTracked(inputs);
    OneActiveAlways(inputs);
    var db := After(inputs);
    var past := CompletePast(db, Today(x));
    PastActive(db, inputs, x);
    if Expiry(x).Some? {
      var mine := Expiry(x).value;
      if mine in past.cycles {
        assert IsActive(past, mine) && IsActive(db, mine);
        forall e | WorkedOn(inputs, e) && Today(x) <= e ensures e == mine { assert IsActive(past, e)
            && IsActive(db, e); }
      } else {
        assert !WorkedOn(inputs, mine);
        assert HasActive(past) <==> exists e :: IsActive(past, e);
      }
    }
  }

  /** What is still active on a day, of what was worked on before it. */
  lemma PastActive(db: Db, inputs: seq<Input>, x: Input)
    requires CyclesTrack(db, inputs) && DaysAscend(inputs + [x])
    ensures forall e :: IsActive(CompletePast(db, Today(x)), e) <==> WorkedOn(inputs, e) && Today(x) <= e
    ensures forall e :: IsActive(CompletePast(db, Today(x)), e) ==> IsActive(db, e)
    ensures forall e :: e in CompletePast(db, Today(x)).cycles <==> WorkedOn(inputs, e)
  {
    hide WorkedOn;
    if inputs != [] {
      assert (inputs + [x])[|inputs| - 1] == inputs[|inputs| - 1] && (inputs + [x])[|inputs|] == x;
      assert Today(inputs[|inputs| - 1]) <= Today(x);
    } else {
      NothingWorkedOn();
    }
  }

  /** With days in order, no call of a run raises exactly when the listings keep the expiry worked on. */
  lemma {:induction false} NeverRaisesIff(inputs: seq<Input>)
    requires DaysAscend(inputs)
    ensures NeverRaises(inputs) <==> KeepsExpiry(inputs)
  {
    hide Advance, OutcomeOf, Expiry, Today, After;
    if inputs != [] {
      var front, x := inputs[..|inputs| - 1], inputs[|inputs| - 1];
      assert inputs == front + [x];
      PrefixOrdered(front, x);
      NeverRaisesIff(front);
      RaiseStep(front, x);
      KeepStep(front, x);
      if NeverRaises(front) {
        RaisesIff(front, x);
        if KeepsExpiry(inputs) {
          forall e | WorkedOn(front, e) && Expiry(x).Some? && Today(x) <= e ensures e == Expiry(x).value {
            var i :| 0 <= i < |front| && Works(front, i, e);
            assert SameWhilePending(front[i], x);
          }
        } else {
          var i :| 0 <= i < |front| && !SameWhilePending(front[i], x);
          var e := Expiry(front[i]).value;
          assert Works(front, i, e) && WorkedOn(front, e);
        }
      }
    }
  }

  lemma RaiseStep(front: seq<Input>, x: Input)
    ensures NeverRaises(front + [x]) <==> NeverRaises(front) && OutcomeOf(After(front), x) != Raised
  {
    hide OutcomeOf, After;
    var all := front + [x];
    assert forall i :: 0 <= i < |front| ==> all[i] == front[i] && all[..i] == front[..i];
    assert all[|front|] == x && all[..|front|] == front;
  }

  lemma KeepStep(front: seq<Input>, x: Input)
    ensures KeepsExpiry(front + [x]) <==>
            KeepsExpiry(front) && forall i :: 0 <= i < |front| ==> SameWhilePending(front[i], x)
  {
    hide SameWhilePending;
    var all := front + [x];
    assert forall i :: 0 <= i < |front| ==> all[i] == front[i];
    assert all[|front|] == x;
  }

  /** In every run with days in order, a call that does not raise leaves the cycle it works on the one active cycle. */
  lemma WorksOnTheActiveCycle(inputs: seq<Input>, x: Input)
    requires DaysAscend(inputs + [x]) && Expiry(x).Some? && OutcomeOf(After(inputs), x) != Raised
    ensures IsActive(After(inputs + [x]), Expiry(x).value)
    ensures forall e :: IsActive(After(inputs + [x]), e) ==> e == Expiry(x).value
  {
    hide WorkedOn, After, OutcomeOf;
    var all := inputs + [x];
    CyclesTracked(all);
    OneActiveAlways(all);
    assert all[|all| - 1] == x;
    WorkedOnStep(inputs, x, Expiry(x).value);
  }

  // ----- sessions -----

  ghost predicate IsLocked(db: Db, day: Day) { day in db.sessions && db.sessions[day].locked }

  lemma LockedKept(db: Db, x: Input, day: Day)
    requires IsLocked(db, day)
    ensures IsLocked(Advance(db, x), day) && Advance(db, x).sessions[day] == db.sessions[day]
  {
    hide LeastUpcoming, TakeSnapshot, NearestStrike, CycleRaises, NewCycle, DayOf, IsTradingDay;
  }

  /** Once locked, a day's session never changes again, whatever the inputs. */
  lemma {:induction false} LockedForever(inputs: seq<Input>, more: seq<Input>, day: Day)
    requires IsLocked(After(inputs), day)
    ensures IsLocked(After(inputs + more), day) && After(inputs + more).sessions[day] == After(inputs).sessions[day]
  {
    hide Advance;
    if more == [] {
      assert inputs + more == inputs;
    } else {
      LockedForever(inputs, more[..|more| - 1], day);
      assert (inputs + more)[..|inputs + more| - 1] == inputs + more[..|more| - 1];
      LockedKept(After(inputs + more[..|more| - 1]), more[|more| - 1], day);
    }
  }

  /**
    The call fixed the session's fields: at or after 09:16 of the day, on the lowest of the strikes
    nearest the close.
  */
  ghost predicate LockedBy(s: Session, x: Input, day: Day) {
    && s.locked && day == Today(x) && day * 86_400_000_000 + 33_360_000_000 <= x.now && x.close.Some?
    && s.spot == x.close && s.atm.Some?
    && s.atm.value in x.strikes(s.expiry)
    && (forall k :: k in x.strikes(s.expiry) ==> Abs(s.atm.value - x.close.value) <= Abs(k - x.close.value))
    && (Increasing(x.strikes(s.expiry)) ==>
          forall k :: k in x.strikes(s.expiry) && Abs(k - x.close.value) == Abs(s.atm.value - x.close.value) ==>
              s.atm.value <= k)
  }

  lemma LockStep(db: Db, x: Input, day: Day)
    requires !IsLocked(db, day) && IsLocked(Advance(db, x), day)
    ensures LockedBy(Advance(db, x).sessions[day], x, day)
  {
    hide LeastUpcoming, TakeSnapshot, NearestStrike, CycleRaises, NewCycle, DayOf, IsTradingDay, Increasing;
  }

  ghost predicate LockingCall(inputs: seq<Input>, day: Day, n: int) {
    && 0 <= n < |inputs| && !IsLocked(After(inputs[..n]), day)
    && day in After(inputs).sessions && LockedBy(After(inputs).sessions[day], inputs[n], day)
  }

  /** In every run, a locked session holds exactly what one call of its day, the one that locked it, fixed. */
  lemma {:induction false} LockChoosesAtm(inputs: seq<Input>, day: Day)
    requires IsLocked(After(inputs), day)
    ensures exists n :: LockingCall(inputs, day, n)
  {
    hide Advance, LockedBy;
    if inputs != [] {
      var front, x := inputs[..|inputs| - 1], inputs[|inputs| - 1];
      if IsLocked(After(front), day) {
        LockChoosesAtm(front, day);
        var n :| LockingCall(front, day, n);
        LockedKept(After(front), x, day);
        assert front[..n] == inputs[..n] && front[n] == inputs[n];
        assert LockingCall(inputs, day, n);
      } else {
        LockStep(After(front), x, day);
        assert LockingCall(inputs, day, |front|);
      }
    }
  }

  /** The call opened the session: a trading day's, on the least listed expiry not yet past. */
  ghost predicate OpeningCall(inputs: seq<Input>, day: Day, expiry: Day, n: int) {
    && 0 <= n < |inputs| && Today(inputs[n]) == day && IsTradingDay(day, inputs[n].holidays)
    && Expiry(inputs[n]) == Some(expiry)
  }

  lemma SessionStep(db: Db, x: Input, day: Day)
    requires day in Advance(db, x).sessions
    ensures if day in db.sessions then Advance(db, x).sessions[day].expiry == db.sessions[day].expiry
            else
              day == Today(x) && IsTradingDay(day, x.holidays) && Expiry(x) == Some(Advance(db, x).sessions[day].expiry)
  {
    hide LeastUpcoming, TakeSnapshot, NearestStrike, CycleRaises, NewCycle, DayOf, IsTradingDay;
  }

  /** In every run, a session was opened by a call of its own trading day. */
  lemma {:induction false} SessionOrigin(inputs: seq<Input>, day: Day)
    requires day in After(inputs).sessions
    ensures exists n :: OpeningCall(inputs, day, After(inputs).sessions[day].expiry, n)
  {
    hide Advance, Expiry, IsTradingDay, Today;
    if inputs != [] {
      var front, x := inputs[..|inputs| - 1], inputs[|inputs| - 1];
      SessionStep(After(front), x, day);
      if day in After(front).sessions {
        SessionOrigin(front, day);
        var n :| OpeningCall(front, day, After(front).sessions[day].expiry, n);
        assert front[n] == inputs[n];
        assert OpeningCall(inputs, day, After(inputs).sessions[day].expiry, n);
      } else {
        assert OpeningCall(inputs, day, After(inputs).sessions[day].expiry, |front|);
      }
    }
  }

  // ----- when sessions, locks and snapshots come about -----

  /** The n-th call is of that day, a trading day, found an expiry and did not raise. */
  ghost predicate StepsOn(inputs: seq<Input>, day: Day, n: int) {
    && 0 <= n < |inputs| && Today(inputs[n]) == day && IsTradingDay(day, inputs[n].holidays)
    && Expiry(inputs[n]).Some? && OutcomeOf(After(inputs[..n]), inputs[n]) != Raised
  }

  lemma StepsOnPrefix(front: seq<Input>, x: Input, day: Day)
    ensures forall n :: 0 <= n < |front| ==> (StepsOn(front + [x], day, n) <==> StepsOn(front, day, n))
    ensures StepsOn(front + [x], day, |front|) <==> Today(x) == day && OutcomeOf(After(front), x) == Stepped
    ensures (front + [x])[|front|] == x && forall n :: 0 <= n < |front| ==> (front + [x])[n] == front[n]
  {
    hide After, LeastUpcoming, CycleRaises, IsTradingDay;
    var all := front + [x];
    assert all[..|front|] == front && forall n :: 0 <= n < |front| ==> all[n] == front[n] && all[..n] == front[..n];
  }

  lemma SessionAppears(db: Db, x: Input, day: Day)
    ensures day in Advance(db, x).sessions <==> day in db.sessions || (day == Today(x) && OutcomeOf(db, x) == Stepped)
  {
    hide LeastUpcoming, TakeSnapshot, LockIfDue, CycleRaises, NewCycle, DayOf, IsTradingDay;
  }

  /** A day has a session exactly when some call of it stepped. */
  lemma {:induction false} SessionIff(inputs: seq<Input>, day: Day)
    ensures day in After(inputs).sessions <==> exists n :: StepsOn(inputs, day, n)
  {
    hide Advance, OutcomeOf, StepsOn;
    if inputs == [] {
      assert forall n :: !StepsOn(inputs, day, n) by { NoSteps(day); }
    } else {
      var front, x := inputs[..|inputs| - 1], inputs[|inputs| - 1];
      assert inputs == front + [x];
      SessionIff(front, day);
      SessionAppears(After(front), x, day);
      StepsOnPrefix(front, x, day);
      if n :| StepsOn(front, day, n) { StepIndex(front, day, n); assert StepsOn(inputs, day, n); }
      if n :| StepsOn(inputs, day, n) { StepIndex(inputs, day, n); }
    }
  }

  lemma NoSteps(day: Day)
    ensures forall n :: !StepsOn([], day, n)
  {}

  lemma StepIndex(inputs: seq<Input>, day: Day, n: int)
    requires StepsOn(inputs, day, n)
    ensures 0 <= n < |inputs|
  {}

  /** At or after 09:16 of the day, with the 09:15 close known and strikes listed for the expiry. */
  ghost predicate LockDue(x: Input, day: Day, expiry: Day) {
    day * 86_400_000_000 + 33_360_000_000 <= x.now && x.close.Some? && x.strikes(expiry) != []
  }

  lemma LockAppears(db: Db, x: Input, day: Day)
    ensures IsLocked(Advance(db, x), day) <==>
            || IsLocked(db, day)
            || (day == Today(x) && OutcomeOf(db, x) == Stepped && LockDue(x, day, Advance(db, x).sessions[day].expiry))
  {
    SessionAppears(db, x, day);
    hide LeastUpcoming, TakeSnapshot, NearestStrike, CycleRaises, NewCycle, DayOf, IsTradingDay;
  }

  /** The n-th call stepped and found the lock of the day's session due. */
  ghost predicate DueAt(inputs: seq<Input>, day: Day, n: int) {
    && StepsOn(inputs, day, n) && day in After(inputs).sessions
    && LockDue(inputs[n], day, After(inputs).sessions[day].expiry)
  }

  /** A day's session is locked exactly when some call that stepped found the lock due. */
  lemma {:induction false} LockedIff(inputs: seq<Input>, day: Day)
    ensures IsLocked(After(inputs), day) <==> exists n :: DueAt(inputs, day, n)
  {
    hide Advance, OutcomeOf, StepsOn, LockDue;
    if inputs == [] {
      assert forall n :: !DueAt(inputs, day, n);
    } else {
      var front, x := inputs[..|inputs| - 1], inputs[|inputs| - 1];
      assert inputs == front + [x];
      LockedIff(front, day);
      LockAppears(After(front), x, day);
      SessionAppears(After(front), x, day);
      StepsOnPrefix(front, x, day);
      SessionIff(front, day);
      if day in After(inputs).sessions { SessionStep(After(front), x, day); }
      forall n | 0 <= n < |front| ensures DueAt(inputs, day, n) <==> DueAt(front, day, n) {}
      forall n | DueAt(inputs, day, n) || DueAt(front, day, n)
        ensures DueAt(inputs, day, n) ==> 0 <= n < |inputs|
        ensures DueAt(front, day, n) ==> 0 <= n < |front|
      {
        if DueAt(inputs, day, n) { StepIndex(inputs, day, n); }
        if DueAt(front, day, n) { StepIndex(front, day, n); }
      }
      assert DueAt(inputs, day, |front|) <==>
             && Today(x) == day && OutcomeOf(After(front), x) == Stepped
             && LockDue(x, day, After(inputs).sessions[day].expiry);
    }
  }

  lemma SnapshotAppears(db: Db, x: Input, k: SnapKey)
    ensures k in Advance(db, x).snaps <==>
            || k in db.snaps
            || (k.day == Today(x) && k.minute == x.clock && OutcomeOf(db, x) == Stepped
                && IsLocked(Advance(db, x), k.day) && Advance(db, x).sessions[k.day].atm.Some?
                && Advance(db, x).sessions[k.day].expiry == k.expiry)
  {
    SessionAppears(db, x, k.day);
    hide LeastUpcoming, StrikeWindow, SumOi, FirstOfDay, NewSnap, NearestStrike, CycleRaises, NewCycle, DayOf;
    hide IsTradingDay;
  }

  /** The n-th call stepped on that day and minute and left its session locked, for that expiry. */
  ghost predicate SnapsAt(inputs: seq<Input>, k: SnapKey, n: int) {
    && StepsOn(inputs, k.day, n) && inputs[n].clock == k.minute
    && IsLocked(After(inputs[..n + 1]), k.day) && After(inputs[..n + 1]).sessions[k.day].expiry == k.expiry
  }

  /** A minute has a snapshot exactly when some call of it stepped and left its session locked. */
  lemma {:induction false} SnapshotIff(inputs: seq<Input>, k: SnapKey)
    ensures k in After(inputs).snaps <==> exists n :: SnapsAt(inputs, k, n)
  {
    hide Advance, OutcomeOf, StepsOn;
    if inputs == [] {
      assert forall n :: !SnapsAt(inputs, k, n) by { NoSteps(k.day); }
    } else {
      var front, x := inputs[..|inputs| - 1], inputs[|inputs| - 1];
      assert inputs == front + [x];
      SnapshotIff(front, k);
      SnapshotAppears(After(front), x, k);
      StepsOnPrefix(front, x, k.day);
      forall n | SnapsAt(front, k, n) ensures SnapsAt(inputs, k, n) {
        StepIndex(front, k.day, n);
        assert front[..n + 1] == inputs[..n + 1];
      }
      forall n | SnapsAt(inputs, k, n) ensures n < |front| ==> SnapsAt(front, k, n) {
        StepIndex(inputs, k.day, n);
        if n < |front| { assert front[..n + 1] == inputs[..n + 1]; }
      }
      assert inputs[..|inputs|] == inputs;
      if IsLocked(After(inputs), k.day) { LockHasAtm(inputs, k.day); }
      if k in After(inputs).snaps && k !in After(front).snaps { assert SnapsAt(inputs, k, |front|); }
      if n :| SnapsAt(inputs, k, n) { StepIndex(inputs, k.day, n); }
    }
  }

  lemma LockHasAtm(inputs: seq<Input>, day: Day)
    requires IsLocked(After(inputs), day)
    ensures After(inputs).sessions[day].atm.Some?
  {
    LockChoosesAtm(inputs, day);
  }

  // ----- repetition -----

  /** A later call in the same minute: same listings and 09:15 close, any live open interest and window. */
  ghost predicate SameMinute(x: Input, y: Input) {
    && x.now / CS.MINUTE == y.now / CS.MINUTE && x.clock == y.clock
    && x.expiries == y.expiries && x.holidays == y.holidays && x.close == y.close && x.strikes == y.strikes
  }

  lemma SameMinuteSame(x: Input, y: Input, day: Day)
    requires SameMinute(x, y)
    ensures Today(x) == Today(y) && (x.now < day * DAY + LOCK_TIME <==> y.now < day * DAY + LOCK_TIME)
  {
    WholeMinutes(x.now, 1440);
    WholeMinutes(y.now, 1440);
    MinuteBound(x.now, day * 1440 + 556);
    MinuteBound(y.now, day * 1440 + 556);
    assert day * DAY + LOCK_TIME == (day * 1440 + 556) * CS.MINUTE;
  }

  /** A day is a whole number of minutes. */
  lemma WholeMinutes(now: int, n: int)
    requires n == 1440
    ensures DayOf(now) == now / CS.MINUTE / n
  {
    assert DAY == n * CS.MINUTE;
  }

  lemma MinuteBound(now: int, m: int)
    ensures now < m * CS.MINUTE <==> now / CS.MINUTE < m
  {}

  /** A second call in the same minute changes nothing, whatever open interest it sees. */
  lemma Idempotent(db: Db, x: Input, y: Input)
    requires SameMinute(x, y)
    ensures Advance(Advance(db, x), y) == Advance(db, x)
  {
    SameMinuteSame(x, y, Today(x));
    hide LeastUpcoming, NearestStrike, NewCycle, DayOf, IsTradingDay, StrikeWindow, SumOi, FirstOfDay, NewSnap;
    var once := Advance(db, x);
    CyclesAfter(db, x);
    CyclesAfter(once, y);
    PastKept(db, x);
  }

  /** After a call nothing is left to complete for its day, and the expiry it worked on stays listed. */
  lemma PastKept(db: Db, x: Input)
    ensures CompletePast(Advance(db, x), Today(x)) == Advance(db, x)
  {
    CyclesAfter(db, x);
    hide Advance, NewCycle;
    var once := Advance(db, x);
    assert forall e :: e in once.cycles && once.cycles[e].status.Active? ==> Today(x) <= e;
    assert CompletePast(once, Today(x)).cycles == once.cycles;
  }

  // ----- open interest -----

  ghost predicate ClocksAscend(inputs: seq<Input>) {
    forall i, j :: 0 <= i < j < |inputs| ==> inputs[i].clock <= inputs[j].clock
  }

  ghost predicate SameDay(j: SnapKey, k: SnapKey) { j.expiry == k.expiry && j.day == k.day }

  /** Every row's change is its total less the total of the day's first row. */
  ghost predicate ChangesFromFirst(snaps: map<SnapKey, Snap>) {
    forall f, k :: IsFirstOfDay(snaps, f) && k in snaps && SameDay(f, k) ==>
      && snaps[k].callChange == snaps[k].callTotal - snaps[f].callTotal
      && snaps[k].putChange == snaps[k].putTotal - snaps[f].putTotal
  }

  ghost predicate NoneLater(snaps: map<SnapKey, Snap>, clock: int) {
    forall k :: k in snaps ==> k.minute <= clock
  }

  lemma FirstOfDayIs(snaps: map<SnapKey, Snap>, f: SnapKey)
    requires IsFirstOfDay(snaps, f)
    ensures FirstOfDay(snaps, f.expiry, f.day) == Some(snaps[f])
  {
    var minutes := Minutes(snaps, f.expiry, f.day);
    assert SnapKey(f.expiry, f.day, f.minute) == f && f.minute in minutes;
    var m := Least(minutes);
    assert SnapKey(f.expiry, f.day, m) in snaps;
  }

  /** A day with a row has a first one, so the measured changes speak of every row. */
  lemma FirstExists(snaps: map<SnapKey, Snap>, k: SnapKey) returns (f: SnapKey)
    requires k in snaps
    ensures IsFirstOfDay(snaps, f) && SameDay(f, k)
  {
    var minutes := Minutes(snaps, k.expiry, k.day);
    assert SnapKey(k.expiry, k.day, k.minute) == k && k.minute in minutes;
    f := SnapKey(k.expiry, k.day, Least(minutes));
    forall j | j in snaps && SameDay(j, f) ensures f.minute <= j.minute {
      assert SnapKey(k.expiry, k.day, j.minute) == j;
    }
  }

  /** A row later than all the others is the first of its day only if it is alone. */
  lemma LatestIsFirst(snaps: map<SnapKey, Snap>, key: SnapKey, row: Snap)
    requires NoneLater(snaps, key.minute) && key !in snaps
    ensures IsFirstOfDay(snaps[key := row], key) ==> FirstOfDay(snaps, key.expiry, key.day).None?
    ensures forall f :: IsFirstOfDay(snaps[key := row], f) && f != key ==> IsFirstOfDay(snaps, f)
  {
    hide FirstOfDay;
    var after := snaps[key := row];
    if IsFirstOfDay(after, key) {
      forall j | j in snaps ensures !(j.expiry == key.expiry && j.day == key.day) {
        assert j == SnapKey(j.expiry, j.day, j.minute) && j in after;
      }
    }
    assert forall j :: j in snaps ==> j in after;
  }

  lemma SnapInserted(snaps: map<SnapKey, Snap>, key: SnapKey, calls: int, puts: int)
    requires ChangesFromFirst(snaps) && NoneLater(snaps, key.minute) && key !in snaps
    ensures ChangesFromFirst(snaps[key := NewSnap(FirstOfDay(snaps, key.expiry, key.day), calls, puts)])
    ensures NoneLater(snaps[key := NewSnap(FirstOfDay(snaps, key.expiry, key.day), calls, puts)], key.minute)
  {
    hide FirstOfDay, IsFirstOfDay;
    var row := NewSnap(FirstOfDay(snaps, key.expiry, key.day), calls, puts);
    var after := snaps[key := row];
    LatestIsFirst(snaps, key, row);
    forall f | IsFirstOfDay(after, f) ensures f in after {
      FirstIn(after, f);
    }
    forall f, k | IsFirstOfDay(after, f) && k in after && SameDay(f, k)
      ensures after[k].callChange == after[k].callTotal - after[f].callTotal
      ensures after[k].putChange == after[k].putTotal - after[f].putTotal
    {
      if f == key {
        NoneThatDay(snaps, key, k);
      } else if k == key {
        FirstOfDayIs(snaps, f);
      }
    }
  }

  lemma FirstIn(snaps: map<SnapKey, Snap>, f: SnapKey)
    requires IsFirstOfDay(snaps, f)
    ensures f in snaps
  {}

  lemma NoneThatDay(snaps: map<SnapKey, Snap>, key: SnapKey, k: SnapKey)
    requires FirstOfDay(snaps, key.expiry, key.day).None? && SameDay(key, k)
    ensures k !in snaps
  {}

  lemma SnapshotKeepsChanges(snaps: map<SnapKey, Snap>, s: Session, today: Day, x: Input)
    requires ChangesFromFirst(snaps) && NoneLater(snaps, x.clock)
    ensures ChangesFromFirst(TakeSnapshot(snaps, s, today, x)) && NoneLater(TakeSnapshot(snaps, s, today, x), x.clock)
  {
    hide ChangesFromFirst, NoneLater, FirstOfDay, NewSnap, StrikeWindow, SumOi;
    if s.locked && s.atm.Some? {
      var window := StrikeWindow(x.strikes(s.expiry), s.atm.value, x.range);
      var key := SnapKey(s.expiry, today, x.clock);
      if key !in snaps {
        SnapInserted(snaps, key, SumOi(x.oi, s.expiry, window, true), SumOi(x.oi, s.expiry, window, false));
      }
    }
  }

  lemma StepKeepsChanges(db: Db, x: Input)
    requires ChangesFromFirst(db.snaps) && NoneLater(db.snaps, x.clock)
    ensures ChangesFromFirst(Advance(db, x).snaps) && NoneLater(Advance(db, x).snaps, x.clock)
  {
    hide ChangesFromFirst, NoneLater, TakeSnapshot, LeastUpcoming, CycleRaises, NewCycle, DayOf, IsTradingDay;
    hide LockIfDue;
    if OutcomeOf(db, x).Stepped? {
      var today := DayOf(x.now);
      var expiry := LeastUpcoming(x.expiries, today).value;
      var ready := EnsureSession(EnsureCycle(CompletePast(db, today), x.expiries, expiry), today, expiry);
      SnapshotKeepsChanges(db.snaps, LockIfDue(ready.sessions[today], today, x), today, x);
    }
  }

  /** In any run whose clock never goes back, every OI row measures its change from the day's first row. */
  lemma {:induction false} ChangesMeasured(inputs: seq<Input>)
    requires ClocksAscend(inputs)
    ensures ChangesFromFirst(After(inputs).snaps)
    ensures inputs != [] ==> NoneLater(After(inputs).snaps, inputs[|inputs| - 1].clock)
  {
    hide Advance;
    if inputs != [] {
      var front, x := inputs[..|inputs| - 1], inputs[|inputs| - 1];
      ChangesMeasured(front);
      if front != [] { assert inputs[|front| - 1] == front[|front| - 1]; }
      StepKeepsChanges(After(front), x);
    }
  }

  // ----- references between rows -----

  /** Sessions point at an existing cycle not past on their day; snapshots at a locked session of their expiry. */
  ghost predicate Linked(db: Db) {
    && (forall d :: d in db.sessions ==> db.sessions[d].expiry in db.cycles && d <= db.sessions[d].expiry)
    && (forall k :: k in db.snaps ==> IsLocked(db, k.day) && db.sessions[k.day].expiry == k.expiry)
  }

  lemma SnapshotKey(snaps: map<SnapKey, Snap>, s: Session, today: Day, x: Input, k: SnapKey)
    requires k in TakeSnapshot(snaps, s, today, x)
    ensures k in snaps || (s.locked && k.day == today && k.expiry == s.expiry)
  {
    hide StrikeWindow, SumOi, FirstOfDay, NewSnap;
  }

  lemma SessionStepLinked(db: Db, x: Input, expiry: Day)
    requires Linked(db) && expiry in db.cycles && Today(x) <= expiry
    ensures Linked(AdvanceSession(db, x, expiry))
  {
    hide TakeSnapshot, NearestStrike, DayOf;
    var today := Today(x);
    var ready := EnsureSession(db, today, expiry);
    var s := LockIfDue(ready.sessions[today], today, x);
    var after := AdvanceSession(db, x, expiry);
    forall k | k in after.snaps ensures IsLocked(after, k.day) && after.sessions[k.day].expiry == k.expiry {
      SnapshotKey(ready.snaps, s, today, x, k);
      if k in db.snaps { assert IsLocked(db, k.day); }
    }
  }

  lemma LinkedKept(db: Db, x: Input)
    requires Linked(db)
    ensures Linked(Advance(db, x))
  {
    hide AdvanceSession, NewCycle, IsTradingDay, CycleRaises, DayOf;
    var today := Today(x);
    var past := CompletePast(db, today);
    assert Linked(past);
    if Expiry(x).Some? {
      var ensured := EnsureCycle(past, x.expiries, Expiry(x).value);
      assert Linked(ensured);
      SessionStepLinked(ensured, x, Expiry(x).value);
    }
  }

  /** In every run the rows stay linked. */
  lemma {:induction false} AlwaysLinked(inputs: seq<Input>)
    ensures Linked(After(inputs))
  {
    hide Advance;
    if inputs != [] {
      AlwaysLinked(inputs[..|inputs| - 1]);
      LinkedKept(After(inputs[..|inputs| - 1]), inputs[|inputs| - 1]);
    }
  }

  // ----- where cycles start -----

  /** The call that created the cycle, and no session of the cycle is of an earlier day. */
  ghost predicate CreatingCall(db: Db, inputs: seq<Input>, e: Day, n: int) {
    && 0 <= n < |inputs| && Expiry(inputs[n]) == Some(e)
    && e !in After(inputs[..n]).cycles
    && e in db.cycles && db.cycles[e].start == NewCycle(inputs[n].expiries, e).start
    && forall d :: d in db.sessions && db.sessions[d].expiry == e ==> Today(inputs[n]) <= d
  }

  /** A cycle keeps its start, or is new and the call's own. */
  lemma CycleEntry(db: Db, x: Input, e: Day)
    requires e in Advance(db, x).cycles
    ensures if e in db.cycles then Advance(db, x).cycles[e].start == db.cycles[e].start
            else Expiry(x) == Some(e) && Advance(db, x).cycles[e].start == NewCycle(x.expiries, e).start
  {
    hide Expiry, NewCycle, Advance, OutcomeOf;
    CyclesAfter(db, x);
  }

  lemma CreatingStep(db: Db, inputs: seq<Input>, x: Input, e: Day)
    requires db == After(inputs) && Linked(db) && DaysAscend(inputs + [x]) && e in Advance(db, x).cycles
    requires e in db.cycles ==> exists n :: CreatingCall(db, inputs, e, n)
    ensures exists n :: CreatingCall(Advance(db, x), inputs + [x], e, n)
  {
    hide Expiry, NewCycle, Advance, OutcomeOf, After, Today;
    var all, once := inputs + [x], Advance(db, x);
    assert all[|inputs|] == x && all[..|inputs|] == inputs && forall i :: 0 <= i < |inputs| ==> all[i] == inputs[i];
    CycleEntry(db, x, e);
    var n := |inputs|;
    if e in db.cycles {
      n :| CreatingCall(db, inputs, e, n);
      assert all[..n] == inputs[..n];
      assert Today(all[n]) <= Today(x);
    }
    forall d | d in once.sessions && once.sessions[d].expiry == e ensures Today(all[n]) <= d { SessionStep(db, x, d); }
    assert CreatingCall(once, all, e, n);
  }

  lemma {:induction false} CycleOrigin(inputs: seq<Input>, e: Day)
    requires DaysAscend(inputs) && e in After(inputs).cycles
    ensures exists n :: CreatingCall(After(inputs), inputs, e, n)
  {
    hide CreatingCall, Advance;
    if inputs != [] {
      var front, x := inputs[..|inputs| - 1], inputs[|inputs| - 1];
      assert inputs == front + [x];
      PrefixOrdered(front, x);
      AlwaysLinked(front);
      if e in After(front).cycles { CycleOrigin(front, e); }
      CreatingStep(After(front), front, x, e);
    }
  }

  /** The call creating the cycle had an expiry before the cycle's own listed. */
  ghost predicate ListedEarlier(x: Input, e: Day) {
    exists d :: d in x.expiries && d < e
  }

  /**
    With days in order, a session's day lies within its cycle's dates exactly when the call that
    created the cycle saw an earlier expiry listed, or the day is the expiry itself.
  */
  lemma SpanIff(inputs: seq<Input>, day: Day)
    requires DaysAscend(inputs) && day in After(inputs).sessions
    ensures var e := After(inputs).sessions[day].expiry;
            && e in After(inputs).cycles && day <= e
            && exists n :: CreatingCall(After(inputs), inputs, e, n) &&
                 (After(inputs).cycles[e].start <= day <==> ListedEarlier(inputs[n], e) || day == e)
  {
    hide After;
    AlwaysLinked(inputs);
    var e := After(inputs).sessions[day].expiry;
    CycleOrigin(inputs, e);
    var n :| CreatingCall(After(inputs), inputs, e, n);
    CycleSpan(inputs[n].expiries, e);
    assert Today(inputs[n]) <= day;
    assert forall d :: d in inputs[n].expiries && d < e ==> d < Today(inputs[n]);
  }

  // ----- what a snapshot adds up -----

  /** Running totals lead from zero to `total`, one value at a time. */
  ghost predicate AddsUp(total: int, values: seq<int>) {
    exists sums: seq<int> :: AreSums(sums, values) && sums[|values|] == total
  }

  ghost predicate AreSums(sums: seq<int>, values: seq<int>) {
    |sums| == |values| + 1 && sums[0] == 0 && forall i :: 0 <= i < |values| ==> sums[i + 1] == sums[i] + values[i]
  }

  lemma {:induction false} OiAddsUp(oi: (Day, real, bool) -> int, e: Day, strikes: seq<real>, isCall: bool)
    ensures AddsUp(SumOi(oi, e, strikes, isCall),
                   seq(|strikes|, i requires 0 <= i < |strikes| => oi(e, strikes[i], isCall)))
  {
    var values := seq(|strikes|, i requires 0 <= i < |strikes| => oi(e, strikes[i], isCall));
    if strikes == [] {
      assert AreSums([0], values);
    } else {
      var n := |strikes| - 1;
      OiAddsUp(oi, e, strikes[..n], isCall);
      var fewer := seq(n, i requires 0 <= i < n => oi(e, strikes[..n][i], isCall));
      assert fewer == values[..n];
      var sums :| AreSums(sums, fewer) && sums[n] == SumOi(oi, e, strikes[..n], isCall);
      assert AreSums(sums + [sums[n] + values[n]], values);
    }
  }

  /** The c-th strike is the ATM strike, or the nearest to it, the lowest such, if it is not listed. */
  ghost predicate IsCentre(strikes: seq<real>, atm: real, c: int) {
    && 0 <= c < |strikes|
    && (if atm in strikes then strikes[c] == atm
        else
          && (forall s :: s in strikes ==> Abs(strikes[c] - atm) <= Abs(s - atm))
          && (Increasing(strikes) ==>
                forall s :: s in strikes && Abs(s - atm) == Abs(strikes[c] - atm) ==> strikes[c] <= s))
  }

  /** The strikes up to `n` places either side of the c-th. */
  ghost predicate IsWindow(window: seq<real>, strikes: seq<real>, atm: real, n: nat, c: int) {
    && IsCentre(strikes, atm, c)
    && window == strikes[if c < n then 0 else c - n..if |strikes| <= c + n then |strikes| else c + n + 1]
  }

  lemma WindowIs(strikes: seq<real>, atm: real, n: nat)
    ensures strikes == [] ==> StrikeWindow(strikes, atm, n) == []
    ensures strikes != [] ==> exists c :: IsWindow(StrikeWindow(strikes, atm, n), strikes, atm, n, c)
  {
    hide IndexOf, NearestStrike, Increasing, Abs;
    if strikes != [] {
      var c := IndexOf(strikes, if atm in strikes then atm else NearestStrike(strikes, atm).value);
      assert IsCentre(strikes, atm, c);
      hide IsCentre;
      assert IsWindow(StrikeWindow(strikes, atm, n), strikes, atm, n, c);
    }
  }

  /** The row is what the call saw: totals over the strikes around the locked strike, and their ratio. */
  ghost predicate TakenBy(row: Snap, s: Session, x: Input, k: SnapKey) {
    && x.clock == k.minute && Today(x) == k.day && s.expiry == k.expiry && s.atm.Some?
    && var strikes := x.strikes(k.expiry);
       var window := StrikeWindow(strikes, s.atm.value, x.range);
       && AddsUp(row.callTotal, seq(|window|, i requires 0 <= i < |window| => x.oi(k.expiry, window[i], true)))
       && AddsUp(row.putTotal, seq(|window|, i requires 0 <= i < |window| => x.oi(k.expiry, window[i], false)))
       && (strikes == [] ==> window == [])
       && (strikes != [] ==> exists c :: IsWindow(window, strikes, s.atm.value, x.range, c))
       && row.pcr == (if row.callTotal > 0 then Some(row.putTotal as real / row.callTotal as real) else None)
       && (Increasing(strikes) && s.atm.value in strikes ==>
             forall i :: 0 <= i < |strikes| ==> (strikes[i] in window <==>
               IndexOf(strikes, s.atm.value) - x.range <= i <= IndexOf(strikes, s.atm.value) + x.range))
  }

  ghost predicate SnapshotCall(inputs: seq<Input>, k: SnapKey, n: int) {
    && 0 <= n < |inputs| && k in After(inputs).snaps && k.day in After(inputs).sessions
    && TakenBy(After(inputs).snaps[k], After(inputs).sessions[k.day], inputs[n], k)
  }

  lemma SnapshotRow(snaps: map<SnapKey, Snap>, s: Session, today: Day, x: Input, k: SnapKey)
    requires k in TakeSnapshot(snaps, s, today, x) && today == Today(x)
    ensures if k in snaps then TakeSnapshot(snaps, s, today, x)[k] == snaps[k]
            else TakenBy(TakeSnapshot(snaps, s, today, x)[k], s, x, k)
  {
    hide StrikeWindow, SumOi, FirstOfDay, IndexOf, Increasing, AddsUp, IsWindow;
    if k !in snaps {
      var strikes := x.strikes(s.expiry);
      var window := StrikeWindow(strikes, s.atm.value, x.range);
      WindowIs(strikes, s.atm.value, x.range);
      OiAddsUp(x.oi, s.expiry, window, true);
      OiAddsUp(x.oi, s.expiry, window, false);
      if Increasing(strikes) && s.atm.value in strikes {
        forall i | 0 <= i < |strikes|
          ensures strikes[i] in StrikeWindow(strikes, s.atm.value, x.range) <==>
                  IndexOf(strikes, s.atm.value) - x.range <= i <= IndexOf(strikes, s.atm.value) + x.range
        {
          WindowAroundAtm(strikes, s.atm.value, x.range, i);
        }
      }
    }
  }

  lemma SnapshotStep(db: Db, x: Input, k: SnapKey)
    requires k in Advance(db, x).snaps
    ensures if k in db.snaps then Advance(db, x).snaps[k] == db.snaps[k]
            else
              k.day in Advance(db, x).sessions && TakenBy(Advance(db, x).snaps[k], Advance(db, x).sessions[k.day], x, k)
  {
    hide TakeSnapshot, LeastUpcoming, CycleRaises, NewCycle, IsTradingDay, LockIfDue, TakenBy;
    if OutcomeOf(db, x).Stepped? {
      var today, expiry := Today(x), Expiry(x).value;
      var ready := EnsureSession(EnsureCycle(CompletePast(db, today), x.expiries, expiry), today, expiry);
      var s := LockIfDue(ready.sessions[today], today, x);
      assert Advance(db, x).snaps == TakeSnapshot(db.snaps, s, today, x) && Advance(db, x).sessions[today] == s;
      SnapshotRow(db.snaps, s, today, x, k);
      if k !in db.snaps { TakenToday(Advance(db, x).snaps[k], s, x, k); }
    }
  }

  lemma TakenToday(row: Snap, s: Session, x: Input, k: SnapKey)
    requires TakenBy(row, s, x, k)
    ensures k.day == Today(x)
  {
    hide StrikeWindow, AddsUp, IsWindow;
  }

  /** In every run, each row is what one call of its minute saw around the strike its session is locked on. */
  lemma {:induction false} SnapshotOrigin(inputs: seq<Input>, k: SnapKey)
    requires k in After(inputs).snaps
    ensures exists n :: SnapshotCall(inputs, k, n)
  {
    hide Advance, TakenBy;
    if inputs != [] {
      var front, x := inputs[..|inputs| - 1], inputs[|inputs| - 1];
      SnapshotStep(After(front), x, k);
      if k in After(front).snaps {
        SnapshotOrigin(front, k);
        var n :| SnapshotCall(front, k, n);
        AlwaysLinked(front);
        LockedKept(After(front), x, k.day);
        assert front[n] == inputs[n];
        assert SnapshotCall(inputs, k, n);
      } else {
        assert SnapshotCall(inputs, k, |front|);
      }
    }
  }

  // ----- two concrete runs -----

  /** A call at midnight of day 0, a Thursday, with nothing else to see. */
  function Call(expiries: seq<Day>): Input {
    Input(0, 0, expiries, {}, None, _ => [], (_, _, _) => 0, 0)
  }

  lemma FirstCall()
    ensures After([Call([5])]) == Db(map[5 := Cycle(5, Active)], map[0 := Session(5, false, None, None)], map[])
    ensures Today(Call([5])) == 0 && Expiry(Call([5])) == Some(5)
    ensures OutcomeOf(EMPTY, Call([5])) == Stepped
  {
    var x := Call([5]);
    assert [x][..0] == [] && After([]) == EMPTY;
    assert After([x]) == Advance(EMPTY, x);
    assert [5][..0] == [];
    assert LeastUpcoming([5], 0) == Some(5) && GreatestBefore([5], 5) == None;
    assert IsTradingDay(0, {});
    assert CompletePast(EMPTY, 0) == EMPTY;
  }

  /** A cycle created with no earlier expiry listed starts at its own expiry, after the days it serves. */
  lemma CycleStartsLate()
    ensures var db := After([Call([5])]);
            0 in db.sessions && db.sessions[0].expiry == 5 && 5 in db.cycles && db.cycles[5].start == 5 > 0
  {
    FirstCall();
  }

  /** An expiry listed late, before the one being worked on, makes the next call raise. */
  lemma EarlierListingRaises()
    ensures OutcomeOf(After([Call([5])]), Call([3, 5])) == Raised
  {
    hide Advance;
    FirstCall();
    var y := Call([3, 5]);
    assert [3, 5][..1] == [3] && [3][..0] == [];
    assert LeastUpcoming([3], 0) == Some(3);
    assert LeastUpcoming([3, 5], 0) == Some(3);
    var past := CompletePast(After([Call([5])]), 0);
    assert 5 in past.cycles && past.cycles[5].status.Active?;
  }
}
