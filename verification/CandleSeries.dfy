/** One candle series as a value, and what every run of it does: trading/market_data/aggregator.py. */
module CandleSeries {
  import opened Prelude

  /** Times are microseconds; a minute is named by its first one. */
  const MINUTE := 60_000_000

  datatype Tick = Tick(ts: int, price: real, volume: Option<int>, oi: Option<int>)

  datatype Candle = Candle(minute: int, open: real, high: real, low: real, close: real, volume: Option<int>,
      oi: Option<int>)

  datatype Series = Series(current: Option<Candle>, finished: seq<Candle>, lastClosed: Option<int>)

  datatype Event = TickIn(tick: Tick) | Flush(now: int) | ForceClose(now: int)

  const EMPTY := Series(None, [], None)

  function MinuteStart(ts: int): int { ts - ts % MINUTE }

  function MinuteOf(t: Tick): int { MinuteStart(t.ts) }

  // ----- one step -----

  function Open(t: Tick): Candle {
    Candle(MinuteOf(t), t.price, t.price, t.price, t.price, t.volume, t.oi)
  }

  function Update(c: Candle, t: Tick): Candle {
    Candle(c.minute, c.open, Max(c.high, t.price), Min(c.low, t.price), t.price,
           if t.volume.Some? then t.volume else c.volume,
           if t.oi.Some? then t.oi else c.oi)
  }

  function Add(s: Series, t: Tick): Series {
    var m := MinuteOf(t);
    if s.lastClosed.Some? && m <= s.lastClosed.value then s
    else if s.current.None? then s.(current := Some(Open(t)))
    else if m == s.current.value.minute then s.(current := Some(Update(s.current.value, t)))
    else if m > s.current.value.minute then
      s.(finished := s.finished + [s.current.value], current := Some(Open(t)))
    else s
  }

  function Later(lastClosed: Option<int>, minute: int): Option<int> {
    if lastClosed.None? || minute > lastClosed.value then Some(minute) else lastClosed
  }

  /** The watermark after emitting `out` in order. */
  function Watermark(lastClosed: Option<int>, out: seq<Candle>): Option<int> {
    if out == [] then lastClosed
    else Later(Watermark(lastClosed, out[..|out| - 1]), out[|out| - 1].minute)
  }

  /** What closing through a minute emits: all finished buckets, and the current one if its minute has ended. */
  function Closed(s: Series, nowMinute: int): seq<Candle> {
    if s.current.Some? && s.current.value.minute < nowMinute then s.finished + [s.current.value] else s.finished
  }

  function CloseThrough(s: Series, nowMinute: int): Series {
    Series(if s.current.Some? && s.current.value.minute < nowMinute then None else s.current,
           [], Watermark(s.lastClosed, Closed(s, nowMinute)))
  }

  /** End of day: the current bucket joins the finished ones. */
  function Finish(s: Series): Series {
    if s.current.Some? then s.(finished := s.finished + [s.current.value], current := None) else s
  }

  function Step(s: Series, e: Event): Series {
    match e
    case TickIn(t) => Add(s, t)
    case Flush(now) => CloseThrough(s, MinuteStart(now))
    case ForceClose(now) => CloseThrough(Finish(s), MinuteStart(now + MINUTE))
  }

  function Output(s: Series, e: Event): seq<Candle> {
    match e
    case TickIn(_) => []
    case Flush(now) => Closed(s, MinuteStart(now))
    case ForceClose(now) => Closed(Finish(s), MinuteStart(now + MINUTE))
  }

  // ----- whole runs -----

  function After(events: seq<Event>): Series {
    if events == [] then EMPTY else Step(After(events[..|events| - 1]), events[|events| - 1])
  }

  /** All candles emitted over a run, in order. */
  function Emitted(events: seq<Event>): seq<Candle> {
    if events == [] then []
    else Emitted(events[..|events| - 1]) + Output(After(events[..|events| - 1]), events[|events| - 1])
  }

  predicate Accepts(s: Series, t: Tick) {
    && (s.lastClosed.Some? ==> s.lastClosed.value < MinuteOf(t))
    && (s.current.Some? ==> s.current.value.minute <= MinuteOf(t))
  }

  /** The ticks of a run that reached a bucket. */
  function Accepted(events: seq<Event>): seq<Tick> {
    if events == [] then []
    else
      var front, last := events[..|events| - 1], events[|events| - 1];
      if last.TickIn? && Accepts(After(front), last.tick) then Accepted(front) + [last.tick] else Accepted(front)
  }

  function Ticks(events: seq<Event>): seq<Tick> {
    if events == [] then []
    else
      var front, last := events[..|events| - 1], events[|events| - 1];
      if last.TickIn? then Ticks(front) + [last.tick] else Ticks(front)
  }

  /** Buckets not yet emitted. */
  function Held(s: Series): seq<Candle> {
    s.finished + (if s.current.Some? then [s.current.value] else [])
  }

  // ----- the reference: ticks grouped by minute -----

  /** A tick of the last group's minute updates that group; any other opens a new one. */
  function Absorb(g: seq<Candle>, t: Tick): (r: seq<Candle>)
    ensures r != []
  {
    if g != [] && g[|g| - 1].minute == MinuteOf(t) then g[..|g| - 1] + [Update(g[|g| - 1], t)]
    else g + [Open(t)]
  }

  function Grouped(ticks: seq<Tick>): seq<Candle> {
    if ticks == [] then [] else Absorb(Grouped(ticks[..|ticks| - 1]), ticks[|ticks| - 1])
  }

  ghost predicate InOrder(ticks: seq<Tick>) {
    forall i, j :: 0 <= i < j < |ticks| ==> MinuteOf(ticks[i]) <= MinuteOf(ticks[j])
  }

  function OfMinute(ticks: seq<Tick>, m: int): (r: seq<Tick>)
    ensures forall t :: t in r <==> t in ticks && MinuteOf(t) == m
  {
    if ticks == [] then []
    else
      var front, last := OfMinute(ticks[..|ticks| - 1], m), ticks[|ticks| - 1];
      assert forall t :: t in ticks <==> t in ticks[..|ticks| - 1] || t == last;
      if MinuteOf(last) == m then front + [last] else front
  }

  /** The last volume reported, None if there was none. */
  ghost predicate IsLastVolume(v: Option<int>, ticks: seq<Tick>) {
    if v.None? then forall i :: 0 <= i < |ticks| ==> ticks[i].volume.None?
    else exists i :: 0 <= i < |ticks| && ticks[i].volume == v && forall j :: i < j < |ticks| ==> ticks[j].volume.None?
  }

  /** The last open interest reported, None if there was none. */
  ghost predicate IsLastOi(v: Option<int>, ticks: seq<Tick>) {
    if v.None? then forall i :: 0 <= i < |ticks| ==> ticks[i].oi.None?
    else exists i :: 0 <= i < |ticks| && ticks[i].oi == v && forall j :: i < j < |ticks| ==> ticks[j].oi.None?
  }

  /** First and last price, extremes that are attained, and the last volume and open interest reported. */
  ghost predicate Summarises(c: Candle, ticks: seq<Tick>) {
    && ticks != []
    && (forall i :: 0 <= i < |ticks| ==> MinuteOf(ticks[i]) == c.minute)
    && c.open == ticks[0].price
    && c.close == ticks[|ticks| - 1].price
    && (forall i :: 0 <= i < |ticks| ==> c.low <= ticks[i].price <= c.high)
    && (exists i :: 0 <= i < |ticks| && ticks[i].price == c.high)
    && (exists i :: 0 <= i < |ticks| && ticks[i].price == c.low)
    && IsLastVolume(c.volume, ticks)
    && IsLastOi(c.oi, ticks)
  }

  lemma OpenSummarises(t: Tick)
    ensures Summarises(Open(t), [t])
  {
    assert [t][0].price == t.price;
  }

  lemma UpdateSummarises(c: Candle, ticks: seq<Tick>, t: Tick)
    requires Summarises(c, ticks) && MinuteOf(t) == c.minute
    ensures Summarises(Update(c, t), ticks + [t])
  {
    var all := ticks + [t];
    assert all[..|all| - 1] == ticks && all[|ticks|] == t;
    var i :| 0 <= i < |ticks| && ticks[i].price == c.high;
    var j :| 0 <= j < |ticks| && ticks[j].price == c.low;
    assert all[i] == ticks[i] && all[j] == ticks[j];
    LastVolumeStep(c.volume, ticks, t);
    LastOiStep(c.oi, ticks, t);
  }

  lemma LastVolumeStep(v: Option<int>, ticks: seq<Tick>, t: Tick)
    requires IsLastVolume(v, ticks)
    ensures IsLastVolume(if t.volume.Some? then t.volume else v, ticks + [t])
  {
    var all := ticks + [t];
    assert all[|ticks|] == t && forall i :: 0 <= i < |ticks| ==> all[i] == ticks[i];
    if t.volume.None? && v.Some? {
      var i :| 0 <= i < |ticks| && ticks[i].volume == v && forall j :: i < j < |ticks| ==> ticks[j].volume.None?;
      assert all[i].volume == v;
    }
  }

  lemma LastOiStep(v: Option<int>, ticks: seq<Tick>, t: Tick)
    requires IsLastOi(v, ticks)
    ensures IsLastOi(if t.oi.Some? then t.oi else v, ticks + [t])
  {
    var all := ticks + [t];
    assert all[|ticks|] == t && forall i :: 0 <= i < |ticks| ==> all[i] == ticks[i];
    if t.oi.None? && v.Some? {
      var i :| 0 <= i < |ticks| && ticks[i].oi == v && forall j :: i < j < |ticks| ==> ticks[j].oi.None?;
      assert all[i].oi == v;
    }
  }

  ghost predicate MinutesAscend(g: seq<Candle>) {
    forall i, j :: 0 <= i < j < |g| ==> g[i].minute < g[j].minute
  }

  ghost predicate HasMinute(g: seq<Candle>, m: int) {
    exists k :: 0 <= k < |g| && g[k].minute == m
  }

  lemma AbsorbAscends(g: seq<Candle>, t: Tick)
    requires MinutesAscend(g) && (g != [] ==> g[|g| - 1].minute <= MinuteOf(t))
    ensures MinutesAscend(Absorb(g, t))
    ensures Absorb(g, t)[|Absorb(g, t)| - 1].minute == MinuteOf(t)
  {
    hide MinuteOf;
    assert Open(t).minute == MinuteOf(t);
  }

  lemma AbsorbMinutes(g: seq<Candle>, t: Tick, m: int)
    ensures HasMinute(Absorb(g, t), m) <==> HasMinute(g, m) || m == MinuteOf(t)
  {
    hide MinuteOf;
    var r := Absorb(g, t);
    assert Open(t).minute == MinuteOf(t);
    assert forall k :: 0 <= k < |g| ==> r[k].minute == g[k].minute;
    assert r[|r| - 1].minute == MinuteOf(t);
  }

  /** The groups of ordered ticks ascend, and the last tick is in the last group. */
  lemma {:induction false} GroupedAscends(ticks: seq<Tick>)
    requires InOrder(ticks)
    ensures MinutesAscend(Grouped(ticks))
    ensures ticks != [] ==>
              Grouped(ticks) != [] && Grouped(ticks)[|Grouped(ticks)| - 1].minute == MinuteOf(ticks[|ticks| - 1])
  {
    hide Absorb, MinuteOf;
    if ticks != [] {
      GroupedAscends(ticks[..|ticks| - 1]);
      AbsorbAscends(Grouped(ticks[..|ticks| - 1]), ticks[|ticks| - 1]);
    } else {
      assert Grouped(ticks) == [];
    }
  }

  /** The minutes with a group are exactly the minutes with a tick. */
  lemma {:induction false} GroupedMinutes(ticks: seq<Tick>, m: int)
    ensures HasMinute(Grouped(ticks), m) <==> exists i :: 0 <= i < |ticks| && MinuteOf(ticks[i]) == m
  {
    hide Absorb, MinuteOf;
    if ticks != [] {
      var front, last := ticks[..|ticks| - 1], ticks[|ticks| - 1];
      GroupedMinutes(front, m);
      AbsorbMinutes(Grouped(front), last, m);
      assert forall i :: 0 <= i < |front| ==> front[i] == ticks[i];
      assert ticks[|ticks| - 1] == last;
    } else {
      assert Grouped(ticks) == [];
    }
  }

  /** Each group is the candle of exactly the ticks of its minute. */
  lemma {:induction false} GroupedSummarises(ticks: seq<Tick>, k: int)
    requires InOrder(ticks) && 0 <= k < |Grouped(ticks)|
    ensures Summarises(Grouped(ticks)[k], OfMinute(ticks, Grouped(ticks)[k].minute))
  {
    hide OfMinute, Summarises, MinuteOf, Grouped, Absorb, MinutesAscend;
    GroupedStep(ticks);
    var front, t := ticks[..|ticks| - 1], ticks[|ticks| - 1];
    var g := Grouped(front);
    GroupedStep(front);
    GroupedAscends(front);
    OfMinuteStep(ticks, Grouped(ticks)[k].minute);
    if g != [] { assert g[|g| - 1].minute <= MinuteOf(t); }
    AbsorbAt(g, t, k);
    if k < |g| {
      GroupedSummarises(front, k);
      if g[k].minute == MinuteOf(t) { UpdateSummarises(g[k], OfMinute(front, MinuteOf(t)), t); }
    } else {
      NoneYet(front, MinuteOf(t));
      assert [] + [t] == [t];
      OpenSummarises(t);
    }
  }

  lemma AbsorbAt(g: seq<Candle>, t: Tick, k: int)
    requires MinutesAscend(g) && (g != [] ==> g[|g| - 1].minute <= MinuteOf(t)) && 0 <= k < |Absorb(g, t)|
    ensures k < |g| && g[k].minute == MinuteOf(t) ==> Absorb(g, t)[k] == Update(g[k], t)
    ensures k < |g| && g[k].minute != MinuteOf(t) ==> Absorb(g, t)[k] == g[k]
    ensures k >= |g| ==> k == |g| && Absorb(g, t)[k] == Open(t) && Open(t).minute == MinuteOf(t)
    ensures k >= |g| && g != [] ==> g[|g| - 1].minute < MinuteOf(t)
  {
    hide MinuteOf;
  }

  lemma GroupedStep(ticks: seq<Tick>)
    ensures ticks == [] ==> Grouped(ticks) == []
    ensures ticks != [] ==> Grouped(ticks) == Absorb(Grouped(ticks[..|ticks| - 1]), ticks[|ticks| - 1])
  {}

  lemma OfMinuteStep(ticks: seq<Tick>, m: int)
    requires ticks != []
    ensures var front := OfMinute(ticks[..|ticks| - 1], m);
            OfMinute(ticks, m) == if MinuteOf(ticks[|ticks| - 1]) == m then front + [ticks[|ticks| - 1]] else front
  {}

  lemma NoneYet(ticks: seq<Tick>, m: int)
    requires forall i :: 0 <= i < |ticks| ==> MinuteOf(ticks[i]) != m
    ensures OfMinute(ticks, m) == []
  {
    hide MinuteOf;
    assert forall t :: t !in OfMinute(ticks, m);
  }
}
