/** The mutable aggregator of trading/market_data/aggregator.py, proved against the series of CandleSeries. */
module Aggregator {
  import opened Prelude
  import CS = CandleSeries
  import opened CandleRuns

  type Tick = CS.Tick
  type Candle = CS.Candle
  type Series = CS.Series

  /** The key a series carries: an index by symbol and exchange, an option by contract. */
  datatype SeriesKey = IndexKey(symbol: string, exchange: string) | OptionKey(contractId: int)

  class Bucket {
    var minute: int
    var open: real
    var high: real
    var low: real
    var close: real
    var volume: Option<int>
    var oi: Option<int>

    function Value(): Candle
      reads this
    {
      CS.Candle(minute, open, high, low, close, volume, oi)
    }

    constructor (t: Tick)
      ensures Value() == CS.Open(t)
    {
      minute := CS.MinuteOf(t);
      open, high, low, close := t.price, t.price, t.price, t.price;
      volume, oi := t.volume, t.oi;
    }

    method Update(t: Tick)
      modifies this
      ensures Value() == CS.Update(old(Value()), t)
    {
      high := Max(high, t.price);
      low := Min(low, t.price);
      close := t.price;
      if t.volume.Some? { volume := t.volume; }
      if t.oi.Some? { oi := t.oi; }
    }
  }

  function Values(buckets: seq<Bucket>): (r: seq<Candle>)
    reads buckets
    ensures |r| == |buckets| && forall i :: 0 <= i < |r| ==> r[i] == buckets[i].Value()
  {
    seq(|buckets|, i requires 0 <= i < |buckets| reads buckets => buckets[i].Value())
  }

  lemma WatermarkStart(lastClosed: Option<int>, out: seq<Candle>)
    ensures CS.Watermark(lastClosed, out[..0]) == lastClosed
  {}

  lemma WatermarkNext(lastClosed: Option<int>, out: seq<Candle>, i: int)
    requires 0 <= i < |out|
    ensures CS.Watermark(lastClosed, out[..i + 1]) == CS.Later(CS.Watermark(lastClosed, out[..i]), out[i].minute)
  {
    assert out[..i + 1][..i] == out[..i];
  }

  class LiveSeries {
    var current: Bucket?
    var finished: seq<Bucket>
    var lastClosed: Option<int>
    ghost var Repr: set<object>

    ghost predicate Valid()
      reads this
      ensures Valid() ==> this in Repr
    {
      && this in Repr
      && (current != null ==> current in Repr && current !in finished)
      && (forall i :: 0 <= i < |finished| ==> finished[i] in Repr)
    }

    ghost function State(): Series
      requires Valid()
      reads this, Repr
    {
      CS.Series(if current == null then None else Some(current.Value()), Values(finished), lastClosed)
    }

    constructor ()
      ensures Valid() && fresh(Repr) && State() == CS.EMPTY
    {
      current, finished, lastClosed := null, [], None;
      Repr := {this};
    }

    method Add(t: Tick)
      requires Valid()
      modifies Repr
      ensures Valid() && fresh(Repr - old(Repr))
      ensures State() == CS.Add(old(State()), t)
    {
      hide CS.MinuteOf;
      var m := CS.MinuteOf(t);
      if lastClosed.Some? && m <= lastClosed.value {
        return;
      }
      if current == null {
        current := new Bucket(t);
        Repr := Repr + {current};
      } else if m == current.minute {
        current.Update(t);
      } else if m > current.minute {
        finished := finished + [current];
        current := new Bucket(t);
        Repr := Repr + {current};
      }
    }

    method CloseThrough(nowMinute: int) returns (out: seq<Bucket>)
      requires Valid()
      modifies this
      ensures Valid() && Repr == old(Repr)
      ensures forall i :: 0 <= i < |out| ==> out[i] in Repr
      ensures Values(out) == CS.Closed(old(State()), nowMinute)
      ensures State() == CS.CloseThrough(old(State()), nowMinute)
    {
      hide CS.Watermark;
      ghost var before := State();
      out := finished;
      finished := [];
      if current != null && current.minute < nowMinute {
        out := out + [current];
        current := null;
      }
      ghost var values := Values(out);
      assert values == CS.Closed(before, nowMinute);
      ghost var kept := current;
      WatermarkStart(lastClosed, values);
      var i := 0;
      while i < |out|
        invariant 0 <= i <= |out| == |values|
        invariant Values(out) == values
        invariant lastClosed == CS.Watermark(before.lastClosed, values[..i])
        invariant finished == [] && current == kept && Repr == old(Repr)
      {
        WatermarkNext(before.lastClosed, values, i);
        if lastClosed.None? || out[i].minute > lastClosed.value { lastClosed := Some(out[i].minute); }
        i := i + 1;
      }
      assert values[..i] == values;
    }

    method Finish()
      requires Valid()
      modifies this
      ensures Valid() && Repr == old(Repr)
      ensures State() == CS.Finish(old(State()))
    {
      if current != null {
        finished := finished + [current];
        current := null;
      }
    }
  }

  // ----- all series together -----

  type View = map<SeriesKey, Series>

  function StateOf(view: View, k: SeriesKey): Series {
    if k in view then view[k] else CS.EMPTY
  }

  function Tagged(k: SeriesKey, candles: seq<Candle>): (r: seq<(SeriesKey, Candle)>)
    ensures |r| == |candles| && forall i :: 0 <= i < |r| ==> r[i] == (k, candles[i])
  {
    seq(|candles|, i requires 0 <= i < |candles| => (k, candles[i]))
  }

  /** The candles of one series in a list of emitted ones. */
  function OutputFor(out: seq<(SeriesKey, Candle)>, k: SeriesKey): seq<Candle> {
    if out == [] then []
    else
      var front, last := OutputFor(out[..|out| - 1], k), out[|out| - 1];
      if last.0 == k then front + [last.1] else front
  }

  lemma {:induction false} OutputForConcat(a: seq<(SeriesKey, Candle)>, b: seq<(SeriesKey, Candle)>, k: SeriesKey)
    ensures OutputFor(a + b, k) == OutputFor(a, k) + OutputFor(b, k)
  {
    if b == [] {
      assert a + b == a;
    } else {
      OutputForConcat(a, b[..|b| - 1], k);
      assert (a + b)[..|a + b| - 1] == a + b[..|b| - 1];
    }
  }

  lemma {:induction false} OutputForTagged(j: SeriesKey, candles: seq<Candle>, k: SeriesKey)
    ensures OutputFor(Tagged(j, candles), k) == if j == k then candles else []
  {
    if candles != [] {
      var n := |candles| - 1;
      OutputForTagged(j, candles[..n], k);
      assert Tagged(j, candles)[..n] == Tagged(j, candles[..n]);
    }
  }

  ghost predicate Enumerates(keys: seq<SeriesKey>, all: set<SeriesKey>) {
    NoDuplicates(keys) && forall k :: k in keys <==> k in all
  }

  lemma EnumeratesMore(keys: seq<SeriesKey>, all: set<SeriesKey>, key: SeriesKey)
    requires Enumerates(keys, all) && key !in keys
    ensures Enumerates(keys + [key], all + {key})
  {}

  ghost predicate Apart(a: LiveSeries, b: LiveSeries)
    reads a, b
  {
    a.Repr !! b.Repr
  }

  lemma ApartOutside(a: LiveSeries, b: LiveSeries, owned: set<object>)
    requires a.Repr <= owned && b.Repr !! owned
    ensures Apart(a, b) && Apart(b, a)
  {}

  class CandleAggregator {
    var keys: seq<SeriesKey>
    var series: map<SeriesKey, LiveSeries>
    ghost var Repr: set<object>

    ghost predicate Valid()
      reads this, Repr
      ensures Valid() ==> this in Repr
    {
      && this in Repr
      && Enumerates(keys, series.Keys)
      && (forall k :: k in series ==>
          series[k] in Repr && series[k].Repr <= Repr && this !in series[k].Repr && series[k].Valid())
      && (forall j, k :: j in series && k in series && j != k ==> Apart(series[j], series[k]))
    }

    ghost function View(): View
      requires Valid()
      reads this, Repr
    {
      map k | k in series :: series[k].State()
    }

    constructor ()
      ensures Valid() && fresh(Repr) && View() == map[]
    {
      keys, series := [], map[];
      Repr := {this};
    }

    lemma KeysMatch()
      requires Valid()
      ensures NoDuplicates(keys) && forall k :: k in keys <==> k in View()
    {
      hide LiveSeries.Valid, LiveSeries.State;
    }

    method OnTick(key: SeriesKey, t: Tick)
      requires Valid()
      modifies Repr
      ensures Valid() && fresh(Repr - old(Repr))
      ensures View() == old(View())[key := CS.Add(StateOf(old(View()), key), t)]
    {
      hide CandleAggregator.Valid, CandleAggregator.View, CS.Add;
      SetDefault(key);
      AddTo(key, t);
    }

    method SetDefault(key: SeriesKey)
      requires Valid()
      modifies this
      ensures Valid() && fresh(Repr - old(Repr)) && old(Repr) <= Repr
      ensures View() == old(View())[key := StateOf(old(View()), key)]
    {
      hide CandleAggregator.Valid, CandleAggregator.View, LiveSeries.Valid, LiveSeries.State;
      KeysMatch();
      if key !in keys {
        var s := new LiveSeries();
        InsertSeries(key, s);
      }
    }

    method InsertSeries(key: SeriesKey, s: LiveSeries)
      requires Valid() && key !in keys && s.Valid() && s.Repr !! Repr
      modifies this
      ensures Valid() && Repr == old(Repr) + s.Repr
      ensures View() == old(View())[key := s.State()]
    {
      hide LiveSeries.Valid, LiveSeries.State, Enumerates, Apart, CandleAggregator.View;
      KeysMatch();
      ViewStates();
      EnumeratesMore(keys, series.Keys, key);
      ghost var before, owned, was := series, Repr, View();
      assert series[key := s].Keys == series.Keys + {key};
      series := series[key := s];
      keys := keys + [key];
      Repr := Repr + s.Repr;
      forall k | k in before
        ensures series[k] == before[k] && series[k].Valid() && series[k].Repr == old(before[k].Repr)
        ensures series[k].State() == old(before[k].State())
        ensures Apart(series[k], s) && Apart(s, series[k])
      {
        ApartOutside(series[k], s, owned);
      }
      ViewChangedAt(was, key, s.State());
    }

    /** The view, series by series. */
    lemma ViewStates()
      requires Valid()
      ensures View().Keys == series.Keys && forall k :: k in series ==> View()[k] == series[k].State()
    {
      hide LiveSeries.Valid, LiveSeries.State, Enumerates, Apart;
    }

    /** Only one series differs from the view `was`, or is new to it. */
    lemma ViewChangedAt(was: View, key: SeriesKey, state: Series)
      requires Valid() && series.Keys == was.Keys + {key} && series[key].State() == state
      requires forall k :: k in was && k != key ==> series[k].State() == was[k]
      ensures View() == was[key := state]
    {
      hide LiveSeries.Valid, LiveSeries.State, Enumerates, Apart;
    }

    method AddTo(key: SeriesKey, t: Tick)
      requires Valid() && key in View()
      modifies Repr
      ensures Valid() && fresh(Repr - old(Repr))
      ensures View() == old(View())[key := CS.Add(old(View())[key], t)]
    {
      hide LiveSeries.Valid, LiveSeries.State, CS.Add, Enumerates, Apart, CandleAggregator.View;
      ViewStates();
      ghost var was := View();
      var s := series[key];
      Separate(key);
      s.Add(t);
      ghost var others := Repr;
      Repr := Repr + s.Repr;
      forall k | k in series && k != key
        ensures series[k].Valid() && series[k].Repr == old(series[k].Repr)
                && series[k].State() == old(series[k].State())
        ensures Apart(series[k], s) && Apart(s, series[k])
      {
        StillApart(series[k], s, old(s.Repr), others);
      }
      ViewChangedAt(was, key, s.State());
    }

    lemma StillApart(a: LiveSeries, s: LiveSeries, was: set<object>, others: set<object>)
      requires a.Repr !! was && a.Repr <= others && (s.Repr - was) !! others
      ensures Apart(a, s) && Apart(s, a)
    {}

    lemma Separate(key: SeriesKey)
      requires Valid() && key in series
      ensures forall k :: k in series && k != key ==> series[k].Repr !! series[key].Repr && series[k].Repr <= Repr
    {
      hide LiveSeries.Valid, LiveSeries.State;
    }

    method Flush(now: int) returns (out: seq<(SeriesKey, Candle)>)
      requires Valid()
      modifies Repr
      ensures Valid() && Repr == old(Repr)
      ensures View() == map k | k in old(View()) :: CS.CloseThrough(old(View())[k], CS.MinuteStart(now))
      ensures forall k :: OutputFor(out, k) == CS.Closed(StateOf(old(View()), k), CS.MinuteStart(now))
    {
      hide CandleAggregator.Valid, CandleAggregator.View, CS.MinuteStart, CS.CloseThrough, CS.Closed;
      hide OutputSoFar, OutputFor, Flushed, Tagged;
      ghost var before := View();
      KeysMatch();
      var nowMinute := CS.MinuteStart(now);
      out := [];
      var i := 0;
      FlushedNone(before, nowMinute);
      while i < |keys|
        invariant 0 <= i <= |keys| && Valid()
        invariant keys == old(keys) && Repr == old(Repr)
        invariant View() == Flushed(before, keys[..i], nowMinute)
        invariant OutputSoFar(out, before, keys[..i], nowMinute)
      {
        var key := keys[i];
        assert key !in keys[..i] && keys[..i + 1] == keys[..i] + [key];
        FlushedMore(before, keys[..i], nowMinute, key);
        var closed := CloseOne(key, nowMinute);
        OutputMore(out, before, keys[..i], nowMinute, key);
        out := out + Tagged(key, closed);
        i := i + 1;
      }
      assert keys[..i] == keys;
      FlushedAll(before, keys, nowMinute, out);
    }

    method CloseOne(key: SeriesKey, nowMinute: int) returns (closed: seq<Candle>)
      requires Valid() && key in View()
      modifies Repr
      ensures Valid() && Repr == old(Repr) && keys == old(keys)
      ensures View() == old(View())[key := CS.CloseThrough(old(View())[key], nowMinute)]
      ensures closed == CS.Closed(old(View())[key], nowMinute)
    {
      hide LiveSeries.Valid, LiveSeries.State, CS.CloseThrough, CS.Closed;
      var buckets := series[key].CloseThrough(nowMinute);
      closed := Values(buckets);
    }

    method FinishOne(key: SeriesKey)
      requires Valid() && key in View()
      modifies Repr
      ensures Valid() && Repr == old(Repr) && keys == old(keys)
      ensures View() == old(View())[key := CS.Finish(old(View())[key])]
    {
      hide LiveSeries.Valid, LiveSeries.State, CS.Finish;
      series[key].Finish();
    }

    /** The first half of force_close_all, under its own lock: every current bucket is put away. */
    method FinishAll()
      requires Valid()
      modifies Repr
      ensures Valid() && Repr == old(Repr)
      ensures View() == map k | k in old(View()) :: CS.Finish(old(View())[k])
    {
      hide CandleAggregator.Valid, CandleAggregator.View, CS.Finish;
      ghost var before := View();
      KeysMatch();
      var i := 0;
      while i < |keys|
        invariant 0 <= i <= |keys| && Valid()
        invariant keys == old(keys) && Repr == old(Repr)
        invariant View() == Finished(before, keys[..i])
      {
        var key := keys[i];
        assert key !in keys[..i] && keys[..i + 1] == keys[..i] + [key];
        FinishOne(key);
        i := i + 1;
      }
      assert keys[..i] == keys;
    }

    method ForceCloseAll(now: int) returns (out: seq<(SeriesKey, Candle)>)
      requires Valid()
      modifies Repr
      ensures Valid() && Repr == old(Repr)
      ensures View() == map k | k in old(View()) :: CS.Step(old(View())[k], CS.ForceClose(now))
      ensures forall k :: OutputFor(out, k) == CS.Output(StateOf(old(View()), k), CS.ForceClose(now))
    {
      hide CandleAggregator.Valid, CandleAggregator.View, CS.MinuteStart, CS.CloseThrough, CS.Closed, CS.Finish;
      FinishEmpty();
      FinishAll();
      out := Flush(now + CS.MINUTE);
    }
  }

  ghost predicate OutputSoFar(out: seq<(SeriesKey, Candle)>, before: View, done: seq<SeriesKey>, nowMinute: int) {
    forall k :: OutputFor(out, k) == if k in done then CS.Closed(StateOf(before, k), nowMinute) else []
  }

  lemma OutputMore(out: seq<(SeriesKey, Candle)>, before: View, done: seq<SeriesKey>, nowMinute: int, key: SeriesKey)
    requires OutputSoFar(out, before, done, nowMinute) && key !in done
    ensures OutputSoFar(out + Tagged(key, CS.Closed(StateOf(before, key), nowMinute)), before, done + [key], nowMinute)
  {
    hide CS.Closed, OutputFor, Tagged;
    var closed := CS.Closed(StateOf(before, key), nowMinute);
    forall k
      ensures OutputFor(out + Tagged(key, closed), k)
              == if k in done + [key] then CS.Closed(StateOf(before, k), nowMinute) else []
    {
      OutputForConcat(out, Tagged(key, closed), k);
      OutputForTagged(key, closed, k);
    }
  }

  ghost function Flushed(view: View, keys: seq<SeriesKey>, nowMinute: int): View {
    map k | k in view :: if k in keys then CS.CloseThrough(view[k], nowMinute) else view[k]
  }

  ghost function Finished(view: View, keys: seq<SeriesKey>): View {
    map k | k in view :: if k in keys then CS.Finish(view[k]) else view[k]
  }

  lemma FlushedNone(before: View, nowMinute: int)
    ensures Flushed(before, [], nowMinute) == before && OutputSoFar([], before, [], nowMinute)
  {
    hide CS.Closed, CS.CloseThrough;
  }

  lemma FlushedMore(before: View, done: seq<SeriesKey>, nowMinute: int, key: SeriesKey)
    requires key in before && key !in done
    ensures key in Flushed(before, done, nowMinute) && Flushed(before, done, nowMinute)[key] == before[key]
    ensures Flushed(before, done + [key], nowMinute)
            == Flushed(before, done, nowMinute)[key := CS.CloseThrough(before[key], nowMinute)]
  {
    hide CS.CloseThrough;
  }

  lemma FlushedAll(before: View, keys: seq<SeriesKey>, nowMinute: int, out: seq<(SeriesKey, Candle)>)
    requires (forall k :: k in keys <==> k in before) && OutputSoFar(out, before, keys, nowMinute)
    ensures Flushed(before, keys, nowMinute) == map k | k in before :: CS.CloseThrough(before[k], nowMinute)
    ensures forall k :: OutputFor(out, k) == CS.Closed(StateOf(before, k), nowMinute)
  {
    hide CS.CloseThrough;
    assert CS.Closed(CS.EMPTY, nowMinute) == [];
    hide CS.Closed;
  }

  lemma FinishEmpty()
    ensures CS.Finish(CS.EMPTY) == CS.EMPTY
  {}

  // ----- runs of the whole aggregator -----

  datatype AggregatorEvent = TickFor(key: SeriesKey, tick: Tick) | FlushAt(now: int) | ForceCloseAt(now: int)

  /** What an aggregator event means for one series. */
  function EventFor(e: AggregatorEvent, k: SeriesKey): seq<CS.Event> {
    match e
    case TickFor(key, t) => if key == k then [CS.TickIn(t)] else []
    case FlushAt(now) => [CS.Flush(now)]
    case ForceCloseAt(now) => [CS.ForceClose(now)]
  }

  function EventsFor(events: seq<AggregatorEvent>, k: SeriesKey): seq<CS.Event> {
    if events == [] then []
    else EventsFor(events[..|events| - 1], k) + EventFor(events[|events| - 1], k)
  }

  /** The effect the methods of CandleAggregator have on its view. */
  function StepView(view: View, e: AggregatorEvent): View {
    match e
    case TickFor(key, t) => view[key := CS.Add(StateOf(view, key), t)]
    case FlushAt(now) => map k | k in view :: CS.Step(view[k], CS.Flush(now))
    case ForceCloseAt(now) => map k | k in view :: CS.Step(view[k], CS.ForceClose(now))
  }

  function ViewAfter(events: seq<AggregatorEvent>): View {
    if events == [] then map[] else StepView(ViewAfter(events[..|events| - 1]), events[|events| - 1])
  }

  lemma EmptyStays(e: CS.Event)
    requires !e.TickIn?
    ensures CS.Step(CS.EMPTY, e) == CS.EMPTY && CS.Output(CS.EMPTY, e) == []
  {}

  /** Each series of an aggregator run lives through its own ticks and every flush, and nothing else. */
  lemma {:induction false} SeriesIndependent(events: seq<AggregatorEvent>, k: SeriesKey)
    ensures StateOf(ViewAfter(events), k) == CS.After(EventsFor(events, k))
  {
    hide CS.Step, CS.Add, CS.After;
    if events == [] {
      AfterNothing();
    } else {
      var front, e := events[..|events| - 1], events[|events| - 1];
      var mine := EventsFor(front, k);
      SeriesIndependent(front, k);
      match e
      case TickFor(key, t) =>
        if key == k {
          AfterOne(mine, CS.TickIn(t));
          TickStep(CS.After(mine), t);
        } else {
          assert mine + [] == mine;
        }
      case FlushAt(now) =>
        AfterOne(mine, CS.Flush(now));
        EmptyStays(CS.Flush(now));
      case ForceCloseAt(now) =>
        AfterOne(mine, CS.ForceClose(now));
        EmptyStays(CS.ForceClose(now));
    }
  }

  lemma AfterNothing()
    ensures CS.After([]) == CS.EMPTY
  {}

  lemma AfterOne(events: seq<CS.Event>, e: CS.Event)
    ensures CS.After(events + [e]) == CS.Step(CS.After(events), e)
  {
    assert (events + [e])[..|events|] == events;
    AfterStep(events + [e]);
  }

  lemma TickStep(s: Series, t: Tick)
    ensures CS.Step(s, CS.TickIn(t)) == CS.Add(s, t)
  {}

  /** What one event makes the series `k` emit. */
  function EmittedStep(view: View, e: AggregatorEvent, k: SeriesKey): seq<Candle> {
    match e
    case TickFor(_, _) => []
    case FlushAt(now) => CS.Closed(StateOf(view, k), CS.MinuteStart(now))
    case ForceCloseAt(now) => CS.Output(StateOf(view, k), CS.ForceClose(now))
  }

  function EmittedBy(events: seq<AggregatorEvent>, k: SeriesKey): seq<Candle> {
    if events == [] then []
    else EmittedBy(events[..|events| - 1], k) + EmittedStep(ViewAfter(events[..|events| - 1]), events[|events| - 1], k)
  }

  /** So the candles the aggregator emits for a series are those of that series' own run. */
  lemma {:induction false} SeriesEmits(events: seq<AggregatorEvent>, k: SeriesKey)
    ensures EmittedBy(events, k) == CS.Emitted(EventsFor(events, k))
  {
    hide CS.Closed, CS.MinuteStart, CS.Finish, CS.After, ViewAfter, CS.Emitted;
    if events == [] {
      EmittedNothing();
    } else {
      var front, e := events[..|events| - 1], events[|events| - 1];
      var mine, own := EventsFor(front, k), EventFor(e, k);
      SeriesEmits(front, k);
      SeriesIndependent(front, k);
      if own == [] {
        assert mine + own == mine;
      } else {
        assert own == [own[0]];
        EmittedOne(mine, own[0]);
      }
    }
  }

  lemma EmittedNothing()
    ensures CS.Emitted([]) == []
  {}

  lemma EmittedOne(events: seq<CS.Event>, e: CS.Event)
    ensures CS.Emitted(events + [e]) == CS.Emitted(events) + CS.Output(CS.After(events), e)
  {
    assert (events + [e])[..|events|] == events;
  }
}
