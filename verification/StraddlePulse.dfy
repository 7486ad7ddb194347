/**
  The Straddle Pulse step of trading/market_data/straddle_pulse.py and the services it sequences,
  over the rows of one underlying.
*/
module StraddlePulse {
  import opened Prelude
  import opened MarketHours

  type Day = int

  datatype CycleStatus = Active | Completed

  /** Keyed by expiry, which is also the cycle's end. */
  datatype Cycle = Cycle(start: Day, status: CycleStatus)

  datatype Session = Session(expiry: Day, locked: bool, spot: Option<real>, atm: Option<real>)

  datatype SnapKey = SnapKey(expiry: Day, day: Day, minute: int)

  datatype Snap = Snap(callTotal: int, putTotal: int, callChange: int, putChange: int, pcr: Option<real>)

  datatype Db = Db(cycles: map<Day, Cycle>, sessions: map<Day, Session>, snaps: map<SnapKey, Snap>)

  /**
    What one call sees: local time, the UTC minute of its own clock read, the instrument master's
    expiries and ascending strikes, the 09:15 candle's close, and the live open interest.
  */
  datatype Input = Input(
    now: int, clock: int, expiries: seq<Day>, holidays: set<Day>, close: Option<real>,
    strikes: Day -> seq<real>, oi: (Day, real, bool) -> int, range: nat)

  datatype Outcome = NoCycle | Raised | NoSession | Stepped

  const LOCK_TIME: int := (9 * 60 + 16) * 60_000_000

  // ----- selection -----

  function LeastUpcoming(expiries: seq<Day>, today: Day): (r: Option<Day>)
    ensures r.None? ==> forall e :: e in expiries ==> e < today
    ensures r.Some? ==> r.value in expiries && today <= r.value && forall e :: e in expiries && today <= e ==>
            r.value <= e
  {
    if expiries == [] then None
    else
      var rest, last := LeastUpcoming(expiries[..|expiries| - 1], today), expiries[|expiries| - 1];
      assert forall e :: e in expiries <==> e in expiries[..|expiries| - 1] || e == last;
      assert rest.Some? ==> rest.value in expiries;
      if last >= today && (rest.None? || last < rest.value) then Some(last) else rest
  }

  function GreatestBefore(expiries: seq<Day>, e: Day): (r: Option<Day>)
    ensures r.None? ==> forall d :: d in expiries ==> d >= e
    ensures r.Some? ==> r.value in expiries && r.value < e && forall d :: d in expiries && d < e ==> d <= r.value
  {
    if expiries == [] then None
    else
      var rest, last := GreatestBefore(expiries[..|expiries| - 1], e), expiries[|expiries| - 1];
      assert forall d :: d in expiries <==> d in expiries[..|expiries| - 1] || d == last;
      assert rest.Some? ==> rest.value in expiries;
      if last < e && (rest.None? || last > rest.value) then Some(last) else rest
  }

  /** The first strike nearest the spot. */
  function NearestStrike(strikes: seq<real>, spot: real): (r: Option<real>)
    ensures r.None? <==> strikes == []
    ensures r.Some? ==> r.value in strikes && forall s :: s in strikes ==> Abs(r.value - spot) <= Abs(s - spot)
    ensures r.Some? && Increasing(strikes) ==> forall s :: s in strikes && Abs(s - spot) == Abs(r.value - spot) ==>
            r.value <= s
  {
    if strikes == [] then None
    else
      var front, last := strikes[..|strikes| - 1], strikes[|strikes| - 1];
      var rest := NearestStrike(front, spot);
      assert forall s :: s in strikes <==> s in front || s == last;
      if rest.None? || Abs(last - spot) < Abs(rest.value - spot) then Some(last) else rest
  }

  function IndexOf(strikes: seq<real>, s: real): (i: nat)
    requires s in strikes
    ensures i < |strikes| && strikes[i] == s && forall j :: 0 <= j < i ==> strikes[j] != s
  {
    if strikes[0] == s then 0 else 1 + IndexOf(strikes[1..], s)
  }

  function StrikeWindow(strikes: seq<real>, atm: real, n: nat): seq<real> {
    var center := if atm in strikes then Some(atm) else NearestStrike(strikes, atm);
    if center.None? then []
    else
      var i := IndexOf(strikes, center.value);
      strikes[(if i >= n then i - n else 0)..(if i + n + 1 <= |strikes| then i + n + 1 else |strikes|)]
  }

  /** Around a listed centre, the window is exactly the strikes at most `n` places away. */
  lemma WindowAroundAtm(strikes: seq<real>, atm: real, n: nat, i: int)
    requires Increasing(strikes) && atm in strikes && 0 <= i < |strikes|
    ensures strikes[i] in StrikeWindow(strikes, atm, n) <==>
            IndexOf(strikes, atm) - n <= i <= IndexOf(strikes, atm) + n
  {
    hide IndexOf;
    var c := IndexOf(strikes, atm);
    var lo, hi := if c >= n then c - n else 0, if c + n + 1 <= |strikes| then c + n + 1 else |strikes|;
    var window := StrikeWindow(strikes, atm, n);
    assert window == strikes[lo..hi];
    hide StrikeWindow;
    SliceMember(strikes, lo, hi, i);
  }

  lemma SliceMember(strikes: seq<real>, lo: int, hi: int, i: int)
    requires Increasing(strikes) && 0 <= lo <= hi <= |strikes| && 0 <= i < |strikes|
    ensures strikes[i] in strikes[lo..hi] <==> lo <= i < hi
  {
    var window := strikes[lo..hi];
    if lo <= i < hi { assert window[i - lo] == strikes[i]; }
    if strikes[i] in window {
      var j :| 0 <= j < |window| && window[j] == strikes[i];
      assert strikes[lo + j] == strikes[i];
    }
  }

  function SumOi(oi: (Day, real, bool) -> int, expiry: Day, strikes: seq<real>, isCall: bool): int {
    if strikes == [] then 0
    else SumOi(oi, expiry, strikes[..|strikes| - 1], isCall) + oi(expiry, strikes[|strikes| - 1], isCall)
  }

  // ----- the services, as values -----

  function CompletePast(db: Db, today: Day): Db {
    db.(cycles := map e | e in db.cycles ::
      if db.cycles[e].status.Active? && e < today then db.cycles[e].(status := Completed) else db.cycles[e])
  }

  ghost predicate HasActive(db: Db) {
    exists e :: e in db.cycles && db.cycles[e].status.Active?
  }

  function NewCycle(expiries: seq<Day>, expiry: Day): Cycle {
    var earlier := GreatestBefore(expiries, expiry);
    Cycle(if earlier.Some? then earlier.value + 1 else expiry, Active)
  }

  /** A cycle starts the day after the last listed expiry before its own, so listed cycles do not overlap. */
  lemma CycleSpan(expiries: seq<Day>, expiry: Day)
    ensures var start := NewCycle(expiries, expiry).start;
            && start <= expiry
            && (forall d :: d in expiries && d < expiry ==> d < start)
            && (start != expiry ==> start - 1 in expiries)
  {}

  /** Inserting a second ACTIVE cycle breaks the partial unique index; nothing is then found to fall back on. */
  ghost predicate CycleRaises(db: Db, expiry: Day) {
    expiry !in db.cycles && HasActive(db)
  }

  function EnsureCycle(db: Db, expiries: seq<Day>, expiry: Day): Db {
    if expiry in db.cycles then db else db.(cycles := db.cycles[expiry := NewCycle(expiries, expiry)])
  }

  function EnsureSession(db: Db, today: Day, expiry: Day): Db {
    if today in db.sessions then db
    else db.(sessions := db.sessions[today := Session(expiry, false, None, None)])
  }

  function LockIfDue(s: Session, today: Day, x: Input): Session {
    if s.locked || x.now < today * DAY + LOCK_TIME || x.close.None? then s
    else
      var atm := NearestStrike(x.strikes(s.expiry), x.close.value);
      if atm.None? then s else Session(s.expiry, true, x.close, atm)
  }

  ghost predicate IsFirstOfDay(snaps: map<SnapKey, Snap>, k: SnapKey) {
    k in snaps && forall j :: j in snaps && j.expiry == k.expiry && j.day == k.day ==> k.minute <= j.minute
  }

  function Minutes(snaps: map<SnapKey, Snap>, expiry: Day, day: Day): (r: set<int>)
    ensures forall m :: m in r <==> SnapKey(expiry, day, m) in snaps
  {
    var r := set k | k in snaps && k.expiry == expiry && k.day == day :: k.minute;
    assert forall m :: SnapKey(expiry, day, m) in snaps ==> m == SnapKey(expiry, day, m).minute;
    r
  }

  lemma {:induction false} LeastOf(s: set<int>) returns (m: int)
    requires exists n :: n in s
    ensures m in s && forall n :: n in s ==> m <= n
    decreases |s|
  {
    var first :| first in s;
    m := first;
    var rest := s - {first};
    assert forall n :: n in s <==> n == first || n in rest;
    if exists n :: n in rest {
      var other := LeastOf(rest);
      if other < first { m := other; }
    }
  }

  lemma LeastExists(s: set<int>)
    requires exists n :: n in s
    ensures exists m :: m in s && forall n :: n in s ==> m <= n
  {
    var m := LeastOf(s);
  }

  function Least(s: set<int>): (m: int)
    requires exists m :: m in s
    ensures m in s && forall n :: n in s ==> m <= n
  {
    LeastExists(s);
    var m :| m in s && forall n :: n in s ==> m <= n;
    m
  }

  /** The day's earliest snapshot for an expiry. */
  function FirstOfDay(snaps: map<SnapKey, Snap>, expiry: Day, day: Day): (r: Option<Snap>)
    ensures r.None? <==> forall k :: k in snaps ==> !(k.expiry == expiry && k.day == day)
  {
    var minutes := Minutes(snaps, expiry, day);
    if exists m :: m in minutes then
      Some(snaps[SnapKey(expiry, day, Least(minutes))])
    else
      assert forall k :: k in snaps && k.expiry == expiry && k.day == day ==> k.minute in minutes;
      None
  }

  function NewSnap(first: Option<Snap>, calls: int, puts: int): Snap {
    Snap(calls, puts,
         calls - (if first.Some? then first.value.callTotal else calls),
         puts - (if first.Some? then first.value.putTotal else puts),
         if calls > 0 then Some(puts as real / calls as real) else None)
  }

  function TakeSnapshot(snaps: map<SnapKey, Snap>, s: Session, today: Day, x: Input): map<SnapKey, Snap> {
    if !s.locked || s.atm.None? then snaps
    else
      var window := StrikeWindow(x.strikes(s.expiry), s.atm.value, x.range);
      var key := SnapKey(s.expiry, today, x.clock);
      if key in snaps then snaps
      else
        snaps[key := NewSnap(FirstOfDay(snaps, s.expiry, today),
                             SumOi(x.oi, s.expiry, window, true), SumOi(x.oi, s.expiry, window, false))]
  }

  /** The session part of the step, once the cycle is known. */
  function AdvanceSession(db: Db, x: Input, expiry: Day): Db {
    var today := DayOf(x.now);
    var ready := EnsureSession(db, today, expiry);
    var s := LockIfDue(ready.sessions[today], today, x);
    Db(ready.cycles, ready.sessions[today := s], TakeSnapshot(ready.snaps, s, today, x))
  }

  ghost function OutcomeOf(db: Db, x: Input): Outcome {
    var today := DayOf(x.now);
    var expiry := LeastUpcoming(x.expiries, today);
    if expiry.None? then NoCycle
    else if CycleRaises(CompletePast(db, today), expiry.value) then Raised
    else if !IsTradingDay(today, x.holidays) then NoSession
    else Stepped
  }

  ghost function Advance(db: Db, x: Input): Db {
    var today := DayOf(x.now);
    var past := CompletePast(db, today);
    var expiry := LeastUpcoming(x.expiries, today);
    match OutcomeOf(db, x)
    case NoCycle => past
    case Raised => past
    case NoSession => EnsureCycle(past, x.expiries, expiry.value)
    case Stepped => AdvanceSession(EnsureCycle(past, x.expiries, expiry.value), x, expiry.value)
  }

  // ----- the engine, updating the rows in place -----

  class PulseEngine {
    var cycles: map<Day, Cycle>
    var sessions: map<Day, Session>
    var snaps: map<SnapKey, Snap>

    function Value(): Db
      reads this
    {
      Db(cycles, sessions, snaps)
    }

    method CompletePastCycles(today: Day) returns (n: nat)
      modifies this`cycles
      ensures Value() == CompletePast(old(Value()), today)
      ensures n == |set e | e in old(cycles) && old(cycles)[e].status.Active? && e < today|
    {
      var rows := set e | e in cycles && cycles[e].status.Active? && e < today;
      n := |rows|;
      var pending := rows;
      while pending != {}
        invariant pending <= rows
        invariant cycles.Keys == old(cycles).Keys
        invariant forall e :: e in cycles ==>
                    cycles[e] == if e in rows && e !in pending then old(cycles)[e].(status := Completed)
                        else old(cycles)[e]
        decreases |pending|
      {
        var e :| e in pending;
        cycles := cycles[e := cycles[e].(status := Completed)];
        pending := pending - {e};
      }
      ghost var done := CompletePast(old(Value()), today).cycles;
      assert done.Keys == cycles.Keys;
      forall e | e in cycles ensures cycles[e] == done[e] {
        assert e in rows <==> old(cycles)[e].status.Active? && e < today;
      }
    }

    method GetOrCreateActiveCycle(expiries: seq<Day>, today: Day) returns (r: Option<Day>, raised: bool)
      modifies this`cycles
      ensures r == LeastUpcoming(expiries, today)
      ensures raised <==> r.Some? && CycleRaises(old(Value()), r.value)
      ensures Value() == if r.None? || raised then old(Value()) else EnsureCycle(old(Value()), expiries, r.value)
    {
      r, raised := LeastUpcoming(expiries, today), false;
      if r.None? || r.value in cycles { return; }
      if exists e :: e in cycles && cycles[e].status.Active? {
        raised := true;
        return;
      }
      cycles := cycles[r.value := NewCycle(expiries, r.value)];
    }

    method GetOrCreateToday(today: Day, expiry: Day, holidays: set<Day>) returns (ok: bool)
      modifies this`sessions
      ensures ok == IsTradingDay(today, holidays)
      ensures Value() == if ok then EnsureSession(old(Value()), today, expiry) else old(Value())
    {
      ok := IsTradingDay(today, holidays);
      if ok && today !in sessions { sessions := sessions[today := Session(expiry, false, None, None)]; }
    }

    method SnapshotOi(s: Session, today: Day, x: Input)
      modifies this`snaps
      ensures snaps == TakeSnapshot(old(snaps), s, today, x)
    {
      if !s.locked || s.atm.None? { return; }
      var window := StrikeWindow(x.strikes(s.expiry), s.atm.value, x.range);
      var calls, puts := 0, 0;
      var i := 0;
      while i < |window|
        invariant 0 <= i <= |window| && snaps == old(snaps)
        invariant calls == SumOi(x.oi, s.expiry, window[..i], true)
        invariant puts == SumOi(x.oi, s.expiry, window[..i], false)
      {
        assert window[..i + 1][..i] == window[..i];
        calls := calls + x.oi(s.expiry, window[i], true);
        puts := puts + x.oi(s.expiry, window[i], false);
        i := i + 1;
      }
      assert window[..i] == window;
      var key := SnapKey(s.expiry, today, x.clock);
      if key !in snaps { snaps := snaps[key := NewSnap(FirstOfDay(snaps, s.expiry, today), calls, puts)]; }
    }

    method Step(x: Input) returns (outcome: Outcome)
      modifies this
      ensures outcome == OutcomeOf(old(Value()), x)
      ensures Value() == Advance(old(Value()), x)
    {
      hide CompletePast, CycleRaises, EnsureCycle, LeastUpcoming, IsTradingDay, DayOf, LockIfDue, TakeSnapshot;
      var today := DayOf(x.now);
      var n := CompletePastCycles(today);
      var expiry, raised := GetOrCreateActiveCycle(x.expiries, today);
      if expiry.None? { return NoCycle; }
      if raised { return Raised; }
      var ok := GetOrCreateToday(today, expiry.value, x.holidays);
      if !ok { return NoSession; }
      var s := LockIfDue(sessions[today], today, x);
      sessions := sessions[today := s];
      SnapshotOi(s, today, x);
      outcome := Stepped;
    }
  }
}
