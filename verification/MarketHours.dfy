/** Trading days and session times: trading/market_data/market_hours.py. */
module MarketHours {
  import opened Prelude

  /** Local wall-clock times and times of day are microseconds; days count from 1970-01-01. */
  const DAY := 86_400_000_000

  type TimeOfDay = t: int | 0 <= t < DAY

  function DayOf(now: int): int { now / DAY }

  /** Monday is 0; 1970-01-01 was a Thursday. */
  function Weekday(day: int): int { (day + 3) % 7 }

  predicate IsTradingDay(day: int, holidays: set<int>) {
    Weekday(day) < 5 && day !in holidays
  }

  /** With no holidays the market is closed two days in seven; 1970-01-03, day 2, was a Saturday. */
  lemma WeekendsAreClosed(day: int, holidays: set<int>)
    ensures IsTradingDay(day, {}) <==> day % 7 != 2 && day % 7 != 3
    ensures IsTradingDay(day, holidays) <==> IsTradingDay(day, {}) && day !in holidays
  {}

  function SessionStart(day: int, start: TimeOfDay): int { day * DAY + start }

  predicate MarketIsOpen(now: int, start: TimeOfDay, stop: TimeOfDay, holidays: set<int>) {
    var day := DayOf(now);
    IsTradingDay(day, holidays) && SessionStart(day, start) <= now < SessionStart(day, stop)
  }

  lemma DayBounds(now: int)
    ensures DayOf(now) * DAY <= now < (DayOf(now) + 1) * DAY
  {}

  /** A session starting at or after `now` starts today or later. */
  lemma NoEarlierDay(now: int, day: int, start: TimeOfDay)
    requires SessionStart(day, start) >= now
    ensures day >= DayOf(now)
  {
    DayBounds(now);
  }

  /** Open means inside the session of some trading day, whichever day that is. */
  lemma OpenIffInSession(now: int, start: TimeOfDay, stop: TimeOfDay, holidays: set<int>)
    ensures MarketIsOpen(now, start, stop, holidays) <==>
            exists day ::
              IsTradingDay(day, holidays) && day * 86_400_000_000 + start <= now < day * 86_400_000_000 + stop
  {
    hide IsTradingDay;
    DayBounds(now);
    forall day | day * 86_400_000_000 + start <= now < day * 86_400_000_000 + stop ensures day == DayOf(now) {}
  }

  ghost predicate IsSession(t: int, start: TimeOfDay, holidays: set<int>) {
    exists day :: IsTradingDay(day, holidays) && day * 86_400_000_000 + start == t
  }

  method NextMarketStart(now: int, start: TimeOfDay, holidays: set<int>, lookahead: int) returns (r: Option<int>)
    ensures r.Some? ==> now <= r.value && IsSession(r.value, start, holidays)
    ensures r.Some? ==> forall t :: IsSession(t, start, holidays) && now <= t ==> r.value <= t
    ensures r.Some? ==> DayOf(r.value) <= DayOf(now) + lookahead
    ensures r.None? ==> forall t :: IsSession(t, start, holidays) && now <= t ==> DayOf(t) > DayOf(now) + lookahead
  {
    hide IsTradingDay, DayOf;
    var today := DayOf(now);
    var offset := 0;
    while offset <= lookahead
      invariant 0 <= offset
      invariant forall day :: today <= day < today + offset && IsTradingDay(day, holidays) ==>
                SessionStart(day, start) < now
    {
      var day := today + offset;
      if IsTradingDay(day, holidays) && SessionStart(day, start) >= now {
        forall t | IsSession(t, start, holidays) && now <= t ensures SessionStart(day, start) <= t {
          var d :| IsTradingDay(d, holidays) && SessionStart(d, start) == t;
          NoEarlierDay(now, d, start);
          assert d >= day;
          LaterDay(day, d, start);
        }
        StartDay(day, start);
        return Some(SessionStart(day, start));
      }
      offset := offset + 1;
    }
    forall t | IsSession(t, start, holidays) && now <= t ensures DayOf(t) > today + lookahead {
      var d :| IsTradingDay(d, holidays) && SessionStart(d, start) == t;
      NoEarlierDay(now, d, start);
      StartDay(d, start);
      assert d >= today + offset;
    }
    r := None;
  }

  lemma LaterDay(a: int, b: int, start: TimeOfDay)
    requires a <= b
    ensures SessionStart(a, start) <= SessionStart(b, start)
  {}

  lemma StartDay(day: int, start: TimeOfDay)
    ensures DayOf(SessionStart(day, start)) == day
  {}
}
