/** Properties of every run of a candle series: any ticks, late or out of order, any flush clocks, any force closes. */
module CandleRuns {
  import opened Prelude
  import opened CandleSeries

  /** Emitted and held buckets together are exactly the groups of the accepted ticks. */
  ghost predicate Consistent(s: Series, emitted: seq<Candle>, accepted: seq<Tick>) {
    && emitted + Held(s) == Grouped(accepted)
    && InOrder(accepted)
    && (s.current.None? ==> s.finished == [])
    && s.lastClosed == (if emitted == [] then None else Some(emitted[|emitted| - 1].minute))
  }

  lemma AcceptedTick(s: Series, emitted: seq<Candle>, accepted: seq<Tick>, t: Tick)
    requires Consistent(s, emitted, accepted) && Accepts(s, t)
    ensures Consistent(Add(s, t), emitted, accepted + [t])
  {
    hide MinuteOf, Grouped, Absorb, Held, InOrder, Add;
    var h := emitted + Held(s);
    GroupedAscends(accepted);
    GroupedStep(accepted);
    GroupedStep(accepted + [t]);
    assert (accepted + [t])[..|accepted|] == accepted;
    HeldAbsorbs(s, emitted, t);
    InOrderOne(accepted, t);
    AddKeeps(s, t);
  }

  lemma AddKeeps(s: Series, t: Tick)
    requires Accepts(s, t)
    ensures Add(s, t).lastClosed == s.lastClosed && Add(s, t).current.Some?
  {
    hide MinuteOf, Update, Open;
  }

  lemma InOrderOne(ticks: seq<Tick>, t: Tick)
    requires InOrder(ticks) && (ticks != [] ==> MinuteOf(ticks[|ticks| - 1]) <= MinuteOf(t))
    ensures InOrder(ticks + [t])
  {
    hide MinuteOf;
  }

  /** An accepted tick does to all the buckets, emitted and held, what grouping does. */
  lemma HeldAbsorbs(s: Series, emitted: seq<Candle>, t: Tick)
    requires Accepts(s, t) && (s.current.None? ==> s.finished == [])
    requires s.lastClosed == (if emitted == [] then None else Some(emitted[|emitted| - 1].minute))
    ensures emitted + Held(Add(s, t)) == Absorb(emitted + Held(s), t)
    ensures emitted + Held(s) != [] ==> (emitted + Held(s))[|emitted + Held(s)| - 1].minute <= MinuteOf(t)
  {
    hide MinuteOf, Update, Open;
    var h := emitted + Held(s);
    if s.current.Some? {
      assert h == (emitted + s.finished) + [s.current.value];
      assert h[..|h| - 1] == emitted + s.finished;
    } else {
      assert h == emitted;
    }
  }

  lemma RejectedTick(s: Series, t: Tick)
    requires !Accepts(s, t)
    ensures Add(s, t) == s
  {}

  lemma {:induction false} WatermarkIsLast(lastClosed: Option<int>, out: seq<Candle>)
    requires MinutesAscend(out) && (out != [] && lastClosed.Some? ==> lastClosed.value < out[0].minute)
    ensures Watermark(lastClosed, out) == if out == [] then lastClosed else Some(out[|out| - 1].minute)
  {
    if out != [] { WatermarkIsLast(lastClosed, out[..|out| - 1]); }
  }

  lemma Closing(s: Series, emitted: seq<Candle>, accepted: seq<Tick>, nowMinute: int)
    requires emitted + Held(s) == Grouped(accepted) && InOrder(accepted)
    requires s.lastClosed == (if emitted == [] then None else Some(emitted[|emitted| - 1].minute))
    ensures Consistent(CloseThrough(s, nowMinute), emitted + Closed(s, nowMinute), accepted)
  {
    hide Grouped, Watermark, InOrder;
    var out := Closed(s, nowMinute);
    GroupedAscends(accepted);
    ClosedSplits(s, nowMinute);
    var rest := Held(CloseThrough(s, nowMinute));
    assert emitted + Held(s) == emitted + out + rest;
    hide Held, Closed;
    AscendParts(emitted, out, rest);
    WatermarkIsLast(s.lastClosed, out);
  }

  lemma ClosedSplits(s: Series, nowMinute: int)
    ensures Held(s) == Closed(s, nowMinute) + Held(CloseThrough(s, nowMinute))
    ensures CloseThrough(s, nowMinute).finished == []
  {
    hide Watermark;
  }

  lemma AscendParts(a: seq<Candle>, b: seq<Candle>, c: seq<Candle>)
    requires MinutesAscend(a + b + c)
    ensures MinutesAscend(b) && (a != [] && b != [] ==> a[|a| - 1].minute < b[0].minute)
  {
    var h := a + b + c;
    assert forall k :: 0 <= k < |b| ==> b[k] == h[|a| + k];
    if a != [] && b != [] { assert h[|a| - 1] == a[|a| - 1] && h[|a|] == b[0]; }
  }

  lemma Finishing(s: Series)
    ensures Held(Finish(s)) == Held(s) && Finish(s).lastClosed == s.lastClosed && Finish(s).current.None?
  {}

  /** What one event adds to the accepted ticks. */
  function AcceptedBy(s: Series, e: Event): seq<Tick> {
    if e.TickIn? && Accepts(s, e.tick) then [e.tick] else []
  }

  lemma ConsistentStep(s: Series, emitted: seq<Candle>, accepted: seq<Tick>, e: Event)
    requires Consistent(s, emitted, accepted)
    ensures Consistent(Step(s, e), emitted + Output(s, e), accepted + AcceptedBy(s, e))
  {
    hide Consistent, Accepts, Add, CloseThrough, Closed, Held, Finish, MinuteStart;
    assert emitted + [] == emitted && accepted + [] == accepted;
    match e
    case TickIn(t) =>
      if Accepts(s, t) { AcceptedTick(s, emitted, accepted, t); } else { RejectedTick(s, t); }
    case Flush(now) =>
      ConsistentParts(s, emitted, accepted);
      Closing(s, emitted, accepted, MinuteStart(now));
    case ForceClose(now) =>
      ConsistentParts(s, emitted, accepted);
      Finishing(s);
      Closing(Finish(s), emitted, accepted, MinuteStart(now + MINUTE));
  }

  /** In every run: emitted plus held equals the accepted ticks grouped by minute. */
  lemma {:induction false} RunConsistent(events: seq<Event>)
    ensures Consistent(After(events), Emitted(events), Accepted(events))
  {
    hide Consistent, Accepts, Step, Output;
    if events == [] {
      StartConsistent();
    } else {
      var front, e := events[..|events| - 1], events[|events| - 1];
      RunConsistent(front);
      ConsistentStep(After(front), Emitted(front), Accepted(front), e);
      assert Accepted(front) + [] == Accepted(front);
    }
  }

  lemma StartConsistent()
    ensures Consistent(EMPTY, [], [])
  {
    GroupedStep([]);
  }

  lemma ConsistentParts(s: Series, emitted: seq<Candle>, accepted: seq<Tick>)
    requires Consistent(s, emitted, accepted)
    ensures emitted + Held(s) == Grouped(accepted) && InOrder(accepted)
    ensures s.lastClosed == (if emitted == [] then None else Some(emitted[|emitted| - 1].minute))
  {}

  /** Every run emits strictly increasing minutes, each candle summarising exactly its minute's accepted ticks. */
  lemma EmittedCandles(events: seq<Event>)
    ensures MinutesAscend(Emitted(events))
    ensures forall k :: 0 <= k < |Emitted(events)| ==>
              Summarises(Emitted(events)[k], OfMinute(Accepted(events), Emitted(events)[k].minute))
  {
    hide Grouped, Summarises, Emitted, Accepted, After, OfMinute;
    RunConsistent(events);
    var accepted := Accepted(events);
    GroupedAscends(accepted);
    assert forall k :: 0 <= k < |Emitted(events)| ==> Grouped(accepted)[k] == Emitted(events)[k];
    forall k | 0 <= k < |Emitted(events)|
      ensures Summarises(Emitted(events)[k], OfMinute(accepted, Emitted(events)[k].minute))
    {
      assert Grouped(accepted)[k] == Emitted(events)[k];
      GroupedSummarises(accepted, k);
    }
  }

  /** No accepted tick is lost: its minute is emitted or still held, and no other minute is. */
  lemma NoTickLost(events: seq<Event>, m: int)
    ensures HasMinute(Emitted(events) + Held(After(events)), m) <==>
            exists i :: 0 <= i < |Accepted(events)| && MinuteOf(Accepted(events)[i]) == m
  {
    hide MinuteOf, Emitted, Accepted, After, Held, Grouped;
    RunConsistent(events);
    GroupedMinutes(Accepted(events), m);
  }

  /** The latest accepted minute is the current bucket's, or the last one emitted. */
  lemma LatestMinute(s: Series, emitted: seq<Candle>, accepted: seq<Tick>)
    requires Consistent(s, emitted, accepted)
    ensures accepted == [] ==> s.current.None? && s.lastClosed.None?
    ensures accepted != [] ==>
              var latest := MinuteOf(accepted[|accepted| - 1]);
              && (forall i :: 0 <= i < |accepted| ==> MinuteOf(accepted[i]) <= latest)
              && (if s.current.Some? then s.current.value.minute == latest else s.lastClosed == Some(latest))
              && (s.lastClosed.Some? ==> s.lastClosed.value <= latest)
  {
    hide MinuteOf, Grouped;
    GroupedAscends(accepted);
    GroupedStep(accepted);
    var h := emitted + Held(s);
    if s.current.Some? { assert h[|h| - 1] == s.current.value; } else { assert h == emitted; }
    if emitted != [] { assert h[|emitted| - 1] == emitted[|emitted| - 1]; }
  }

  /** The watermark is the greatest emitted minute. */
  lemma WatermarkIsGreatest(s: Series, emitted: seq<Candle>, accepted: seq<Tick>, m: int)
    requires Consistent(s, emitted, accepted)
    ensures HasMinute(emitted, m) ==> s.lastClosed.Some? && m <= s.lastClosed.value
    ensures s.lastClosed == Some(m) ==> HasMinute(emitted, m)
  {
    hide Grouped;
    GroupedAscends(accepted);
    var h := emitted + Held(s);
    assert forall k :: 0 <= k < |emitted| ==> h[k] == emitted[k];
  }

  /** A tick is accepted exactly when no later minute was accepted before it and its own was not emitted yet. */
  lemma AcceptanceRule(events: seq<Event>, t: Tick)
    ensures Accepts(After(events), t) <==>
            && (forall i :: 0 <= i < |Accepted(events)| ==> MinuteOf(Accepted(events)[i]) <= MinuteOf(t))
            && !HasMinute(Emitted(events), MinuteOf(t))
  {
    hide MinuteOf, Emitted, Accepted, After, Consistent, HasMinute;
    RunConsistent(events);
    var s, emitted, accepted := After(events), Emitted(events), Accepted(events);
    LatestMinute(s, emitted, accepted);
    WatermarkIsGreatest(s, emitted, accepted, MinuteOf(t));
  }

  // ----- lossless runs -----

  /** A flush past the minute, or a force close: either closes a bucket of minute `m`. */
  predicate Closes(e: Event, m: int) {
    e.ForceClose? || (e.Flush? && m < MinuteStart(e.now))
  }

  /** A tick of minute `m` was followed by an event closing that minute. */
  ghost predicate ClosedAfterTick(events: seq<Event>, m: int) {
    exists i, j :: 0 <= i < j < |events| && events[i].TickIn? && MinuteOf(events[i].tick) == m && Closes(events[j], m)
  }

  ghost predicate NoLaterThan(events: seq<Event>, m: int) {
    forall i :: 0 <= i < |events| && events[i].TickIn? ==> MinuteOf(events[i].tick) <= m
  }

  ghost predicate HasTick(events: seq<Event>, m: int) {
    exists i :: 0 <= i < |events| && events[i].TickIn? && MinuteOf(events[i].tick) == m
  }

  lemma {:induction false} AcceptedAreTicks(events: seq<Event>, i: int)
    requires 0 <= i < |Accepted(events)|
    ensures exists k :: 0 <= k < |events| && events[k].TickIn? && events[k].tick == Accepted(events)[i]
  {
    hide Accepts, After;
    var front := events[..|events| - 1];
    if i < |Accepted(front)| {
      AcceptedAreTicks(front, i);
      var k :| 0 <= k < |front| && front[k].TickIn? && front[k].tick == Accepted(front)[i];
      assert events[k] == front[k];
    } else {
      assert events[|events| - 1].tick == Accepted(events)[i];
    }
  }

  lemma BucketsNoLater(events: seq<Event>, m: int)
    requires NoLaterThan(events, m)
    ensures forall k :: 0 <= k < |Emitted(events) + Held(After(events))| ==>
            (Emitted(events) + Held(After(events)))[k].minute <= m
  {
    hide MinuteOf, Emitted, Accepted, After, Held, Grouped;
    var h := Emitted(events) + Held(After(events));
    forall k | 0 <= k < |h| ensures h[k].minute <= m {
      assert HasMinute(h, h[k].minute);
      NoTickLost(events, h[k].minute);
      var i :| 0 <= i < |Accepted(events)| && MinuteOf(Accepted(events)[i]) == h[k].minute;
      AcceptedAreTicks(events, i);
    }
  }

  /** With no later minute seen, any tick of minute `m` has left a bucket of that minute. */
  lemma {:induction false} SeenMinute(events: seq<Event>, m: int)
    requires NoLaterThan(events, m) && HasTick(events, m)
    ensures HasMinute(Emitted(events) + Held(After(events)), m)
  {
    hide MinuteOf, Held, Accepts, Accepted, After, Emitted;
    NoTickLost(events, m);
    AcceptedStep(events);
    var front, e := events[..|events| - 1], events[|events| - 1];
    if e.TickIn? && MinuteOf(e.tick) == m && !HasTick(front, m) {
      FirstOfMinute(front, e.tick, m);
      assert MinuteOf(Accepted(events)[|Accepted(front)|]) == m;
    } else {
      assert HasTick(front, m) by {
        var i :| 0 <= i < |events| && events[i].TickIn? && MinuteOf(events[i].tick) == m;
        if i < |front| { assert front[i] == events[i]; }
      }
      SeenMinute(front, m);
      NoTickLost(front, m);
      var i :| 0 <= i < |Accepted(front)| && MinuteOf(Accepted(front)[i]) == m;
      assert Accepted(events)[i] == Accepted(front)[i];
    }
  }

  lemma FirstOfMinute(events: seq<Event>, t: Tick, m: int)
    requires NoLaterThan(events, m) && !HasTick(events, m) && MinuteOf(t) == m
    ensures Accepts(After(events), t)
  {
    hide MinuteOf, Emitted, Accepted, After, Grouped, Accepts;
    AcceptanceRule(events, t);
    BucketsNoLater(events, m);
    forall i | 0 <= i < |Accepted(events)| ensures MinuteOf(Accepted(events)[i]) <= m { AcceptedAreTicks(events, i); }
    if HasMinute(Emitted(events), m) {
      var k :| 0 <= k < |Emitted(events)| && Emitted(events)[k].minute == m;
      assert (Emitted(events) + Held(After(events)))[k].minute == m;
      NoTickLost(events, m);
      var i :| 0 <= i < |Accepted(events)| && MinuteOf(Accepted(events)[i]) == m;
      AcceptedAreTicks(events, i);
      assert false;
    }
  }

  /** When no bucket is later than `m`, a held bucket of minute `m` is the current one. */
  lemma CurrentBucket(s: Series, emitted: seq<Candle>, accepted: seq<Tick>, m: int)
    requires Consistent(s, emitted, accepted) && HasMinute(Held(s), m)
    requires forall k :: 0 <= k < |emitted + Held(s)| ==> (emitted + Held(s))[k].minute <= m
    ensures s.current.Some? && s.current.value.minute == m
  {
    hide Grouped;
    GroupedAscends(accepted);
    var h := emitted + Held(s);
    var k :| 0 <= k < |Held(s)| && Held(s)[k].minute == m;
    assert h[|emitted| + k].minute == m;
    assert h[|h| - 1] == s.current.value;
    assert forall j :: 0 <= j < |h| - 1 ==> h[j].minute < h[|h| - 1].minute;
  }

  lemma OutputMinutes(s: Series, e: Event, m: int)
    requires !e.TickIn?
    ensures HasMinute(Output(s, e), m) ==> HasMinute(Held(s), m)
    ensures s.current.Some? && s.current.value.minute == m && Closes(e, m) ==> HasMinute(Output(s, e), m)
    ensures HasMinute(Output(s, e), m) && !Closes(e, m) ==> HasMinute(s.finished, m)
  {
    hide MinuteStart;
    var out, held := Output(s, e), Held(s);
    assert |out| <= |held| && forall k :: 0 <= k < |out| ==> out[k] == held[k];
    if s.current.Some? && s.current.value.minute == m && Closes(e, m) { assert out[|out| - 1].minute == m; }
  }

  lemma OutputOfLatest(events: seq<Event>, e: Event, m: int)
    requires NoLaterThan(events, m) && !e.TickIn? && !HasMinute(Emitted(events), m)
    ensures HasMinute(Output(After(events), e), m) <==> HasTick(events, m) && Closes(e, m)
  {
    hide MinuteOf, Emitted, Accepted, After, Grouped, Output, Consistent, Closes;
    var s, emitted := After(events), Emitted(events);
    var h := emitted + Held(s);
    RunConsistent(events);
    BucketsNoLater(events, m);
    NoTickLost(events, m);
    OutputMinutes(s, e, m);
    if HasMinute(h, m) {
      var k :| 0 <= k < |h| && h[k].minute == m;
      if k >= |emitted| { assert Held(s)[k - |emitted|] == h[k]; }
      CurrentBucket(s, emitted, Accepted(events), m);
      NotFinished(s, emitted, Accepted(events), m);
    }
    if HasTick(events, m) { SeenMinute(events, m); }
    if HasMinute(Held(s), m) {
      var k :| 0 <= k < |Held(s)| && Held(s)[k].minute == m;
      assert h[|emitted| + k].minute == m;
      var i :| 0 <= i < |Accepted(events)| && MinuteOf(Accepted(events)[i]) == m;
      AcceptedAreTicks(events, i);
    }
  }

  lemma NotFinished(s: Series, emitted: seq<Candle>, accepted: seq<Tick>, m: int)
    requires Consistent(s, emitted, accepted) && s.current.Some? && s.current.value.minute == m
    ensures !HasMinute(s.finished, m)
  {
    hide Grouped;
    GroupedAscends(accepted);
    var h := emitted + Held(s);
    forall k | 0 <= k < |s.finished| ensures s.finished[k].minute != m {
      assert h[|emitted| + k] == s.finished[k] && h[|h| - 1] == s.current.value;
      assert h[|emitted| + k].minute < h[|h| - 1].minute;
    }
  }

  /** While no later minute is seen, minute `m` is emitted exactly when a closing event followed a tick of it. */
  lemma {:induction false} EmittedIffClosed(events: seq<Event>, m: int)
    requires NoLaterThan(events, m)
    ensures HasMinute(Emitted(events), m) <==> ClosedAfterTick(events, m)
  {
    hide MinuteOf, Output, Closes, After;
    if events != [] {
      var front, e := events[..|events| - 1], events[|events| - 1];
      EmittedIffClosed(front, m);
      ClosedStep(events, m);
      HasMinuteConcat(Emitted(front), Output(After(front), e), m);
      if e.TickIn? {
        NoOutput(After(front), e);
      } else if !HasMinute(Emitted(front), m) {
        OutputOfLatest(front, e, m);
      }
    } else {
      assert Emitted(events) == [];
    }
  }

  lemma NoOutput(s: Series, e: Event)
    requires e.TickIn?
    ensures Output(s, e) == []
  {}

  lemma HasMinuteConcat(a: seq<Candle>, b: seq<Candle>, m: int)
    ensures HasMinute(a + b, m) <==> HasMinute(a, m) || HasMinute(b, m)
  {
    if HasMinute(a, m) {
      var k :| 0 <= k < |a| && a[k].minute == m;
      assert (a + b)[k] == a[k];
    }
    if HasMinute(b, m) {
      var k :| 0 <= k < |b| && b[k].minute == m;
      assert (a + b)[|a| + k] == b[k];
    }
  }

  lemma ClosedStep(events: seq<Event>, m: int)
    requires events != []
    ensures var front, e := events[..|events| - 1], events[|events| - 1];
            ClosedAfterTick(events, m) <==>
                ClosedAfterTick(front, m) || (!e.TickIn? && HasTick(front, m) && Closes(e, m))
  {
    hide MinuteOf, MinuteStart;
    var front, e := events[..|events| - 1], events[|events| - 1];
    assert forall i :: 0 <= i < |front| ==> front[i] == events[i];
    if ClosedAfterTick(front, m) {
      var i, j :| 0 <= i < j < |front| && front[i].TickIn? && MinuteOf(front[i].tick) == m && Closes(front[j], m);
      assert events[i] == front[i] && events[j] == front[j];
    }
    if HasTick(front, m) && Closes(e, m) {
      var i :| 0 <= i < |front| && front[i].TickIn? && MinuteOf(front[i].tick) == m;
      assert events[i] == front[i] && Closes(events[|events| - 1], m);
    }
    if ClosedAfterTick(events, m) {
      var i, j :| 0 <= i < j < |events| && events[i].TickIn? && MinuteOf(events[i].tick) == m && Closes(events[j], m);
      assert front[i] == events[i];
      if j < |front| { assert Closes(front[j], m); }
    }
  }

  /** A closing event between two ticks of the minute it closes. */
  ghost predicate SplitsMinute(events: seq<Event>) {
    exists k :: 0 <= k < |events| && events[k].TickIn? && ClosedAfterTick(events[..k], MinuteOf(events[k].tick))
  }

  lemma {:induction false} TicksOfEvents(events: seq<Event>, k: int)
    requires 0 <= k < |events| && events[k].TickIn?
    ensures exists i :: 0 <= i < |Ticks(events)| && Ticks(events)[i] == events[k].tick
  {
    var front := events[..|events| - 1];
    if k < |front| {
      TicksOfEvents(front, k);
      var i :| 0 <= i < |Ticks(front)| && Ticks(front)[i] == front[k].tick;
      assert Ticks(events)[i] == Ticks(front)[i];
    } else {
      assert Ticks(events)[|Ticks(front)|] == events[k].tick;
    }
  }

  lemma {:induction false} AcceptedAtMost(events: seq<Event>)
    ensures |Accepted(events)| <= |Ticks(events)|
  {
    hide Accepts, After;
    if events != [] { AcceptedAtMost(events[..|events| - 1]); }
  }

  lemma SplitStep(events: seq<Event>)
    requires events != []
    ensures var front, e := events[..|events| - 1], events[|events| - 1];
            SplitsMinute(events) <==> SplitsMinute(front) || (e.TickIn? && ClosedAfterTick(front, MinuteOf(e.tick)))
  {
    hide MinuteOf, ClosedAfterTick;
    var front := events[..|events| - 1];
    assert forall k :: 0 <= k < |front| ==> front[k] == events[k] && front[..k] == events[..k];
    if SplitsMinute(front) {
      var k :| 0 <= k < |front| && front[k].TickIn? && ClosedAfterTick(front[..k], MinuteOf(front[k].tick));
      assert events[k].TickIn? && ClosedAfterTick(events[..k], MinuteOf(events[k].tick));
    }
  }

  /** For ticks in order of minute: none is dropped exactly when no closing event splits a minute. */
  lemma {:induction false} LosslessIff(events: seq<Event>)
    requires InOrder(Ticks(events))
    ensures Accepted(events) == Ticks(events) <==> !SplitsMinute(events)
  {
    hide MinuteOf, Accepts, After, ClosedAfterTick, SplitsMinute;
    if events != [] {
      var front, e := events[..|events| - 1], events[|events| - 1];
      assert InOrder(Ticks(front)) by {
        assert forall i :: 0 <= i < |Ticks(front)| ==> Ticks(front)[i] == Ticks(events)[i];
      }
      LosslessIff(front);
      SplitStep(events);
      if e.TickIn? {
        var m := MinuteOf(e.tick);
        LastTick(events);
        EmittedIffClosed(front, m);
        AcceptanceRule(front, e.tick);
        AcceptedAtMost(front);
        AcceptedStep(events);
        assert Ticks(events) == Ticks(front) + [e.tick];
        assert (Accepted(front) + [e.tick])[..|Accepted(front)|] == Accepted(front);
        assert (Ticks(front) + [e.tick])[..|Ticks(front)|] == Ticks(front);
        forall i | 0 <= i < |Accepted(front)| ensures MinuteOf(Accepted(front)[i]) <= m { AcceptedAreTicks(front, i); }
      }
    } else {
      NoSplit(events);
    }
  }

  lemma NoSplit(events: seq<Event>)
    requires events == []
    ensures !SplitsMinute(events)
  {}

  lemma LastTick(events: seq<Event>)
    requires events != [] && events[|events| - 1].TickIn? && InOrder(Ticks(events))
    ensures NoLaterThan(events[..|events| - 1], MinuteOf(events[|events| - 1].tick))
  {
    hide MinuteOf;
    var front, t := events[..|events| - 1], events[|events| - 1].tick;
    forall k | 0 <= k < |front| && front[k].TickIn? ensures MinuteOf(front[k].tick) <= MinuteOf(t) {
      TicksOfEvents(front, k);
      var i :| 0 <= i < |Ticks(front)| && Ticks(front)[i] == front[k].tick;
      assert Ticks(events)[i] == Ticks(front)[i] && Ticks(events)[|Ticks(front)|] == t;
    }
  }

  lemma AfterForceClose(events: seq<Event>, now: int)
    ensures Held(After(events + [ForceClose(now)])) == []
    ensures Accepted(events + [ForceClose(now)]) == Accepted(events)
  {
    hide MinuteStart, Accepted, After;
    var all := events + [ForceClose(now)];
    assert all[..|all| - 1] == events;
    AfterStep(all);
    AcceptedStep(all);
  }

  lemma AfterStep(events: seq<Event>)
    requires events != []
    ensures After(events) == Step(After(events[..|events| - 1]), events[|events| - 1])
  {}

  lemma AcceptedStep(events: seq<Event>)
    requires events != []
    ensures var front, e := events[..|events| - 1], events[|events| - 1];
            Accepted(events) == if e.TickIn? && Accepts(After(front), e.tick) then Accepted(front) + [e.tick]
                else Accepted(front)
  {}

  /** Whatever the flush schedule, if it splits no minute, end of day leaves exactly the stream grouped by minute. */
  lemma ScheduleIndependent(events: seq<Event>, now: int)
    requires InOrder(Ticks(events)) && !SplitsMinute(events)
    ensures Emitted(events + [ForceClose(now)]) == Grouped(Ticks(events))
  {
    hide Emitted, After, Accepted, Ticks, Grouped, SplitsMinute, InOrder;
    LosslessIff(events);
    AfterForceClose(events, now);
    RunConsistent(events + [ForceClose(now)]);
  }

  /** Flushes whose clock never passes the minute of a later tick split no minute. */
  lemma PatientClock(events: seq<Event>)
    requires forall j :: 0 <= j < |events| ==> !events[j].ForceClose?
    requires forall j, k :: 0 <= j < k < |events| && events[j].Flush? && events[k].TickIn? ==>
               MinuteStart(events[j].now) <= MinuteOf(events[k].tick)
    ensures !SplitsMinute(events)
  {
    hide MinuteOf, MinuteStart;
    forall k | 0 <= k < |events| && events[k].TickIn? ensures !ClosedAfterTick(events[..k], MinuteOf(events[k].tick)) {
      var front := events[..k];
      forall j | 0 <= j < k ensures !Closes(front[j], MinuteOf(events[k].tick)) {
        assert front[j] == events[j];
      }
    }
  }

  /** A flush in the middle of a minute closes it: the rest of its ticks are dropped. */
  lemma SplitMinuteDrops(t: Tick, u: Tick, now: int)
    requires MinuteOf(t) == MinuteOf(u) < MinuteStart(now)
    ensures var events := [TickIn(t), Flush(now), TickIn(u)];
            SplitsMinute(events) && Ticks(events) == [t, u] && Accepted(events) != Ticks(events)
  {
    hide MinuteStart, MinuteOf;
    var events := [TickIn(t), Flush(now), TickIn(u)];
    assert Closes(events[1], MinuteOf(t));
    assert events[..2][..1] == events[..1] && events[..3] == events && events[..2] == [TickIn(t), Flush(now)];
    assert events[..1] == [TickIn(t)] && [TickIn(t)][..0] == [];
    assert Ticks([]) == [] && Ticks([TickIn(t)]) == [t] && Ticks([TickIn(t), Flush(now)]) == [t];
    assert Ticks(events) == [t, u];
    LosslessIff(events);
  }

  // ----- events between the two halves of force_close_all -----

  function StateFrom(s: Series, events: seq<Event>): Series {
    if events == [] then s else Step(StateFrom(s, events[..|events| - 1]), events[|events| - 1])
  }

  function OutputFrom(s: Series, events: seq<Event>): seq<Candle> {
    if events == [] then []
    else
      var front := events[..|events| - 1];
      OutputFrom(s, front) + Output(StateFrom(s, front), events[|events| - 1])
  }

  /** A closing event, or a tick that the watermark lets in. */
  predicate Effective(s: Series, e: Event) {
    e.TickIn? && s.lastClosed.Some? ==> s.lastClosed.value < MinuteOf(e.tick)
  }

  ghost predicate FirstEffective(s: Series, gap: seq<Event>, i: int) {
    && 0 <= i < |gap| && Effective(s, gap[i])
    && forall j :: 0 <= j < i ==> !Effective(s, gap[j])
  }

  ghost predicate AnyEffective(s: Series, gap: seq<Event>) {
    exists i :: FirstEffective(s, gap, i)
  }

  /** The tick is of a later minute than everything put away. */
  predicate LaterThanFinished(s: Series, t: Tick) {
    s.finished != [] ==> s.finished[|s.finished| - 1].minute < MinuteOf(t)
  }

  /** The first event of the gap to have an effect is no tick, or a tick of a later minute than everything put away. */
  ghost predicate GapClean(s: Series, gap: seq<Event>) {
    forall i :: FirstEffective(s, gap, i) && gap[i].TickIn? ==> LaterThanFinished(s, gap[i].tick)
  }

  lemma FirstEffectiveStep(s: Series, front: seq<Event>, e: Event)
    ensures AnyEffective(s, front + [e]) <==> AnyEffective(s, front) || Effective(s, e)
    ensures AnyEffective(s, front) ==> (GapClean(s, front + [e]) <==> GapClean(s, front))
    ensures !AnyEffective(s, front) ==>
              (GapClean(s, front + [e]) <==> (Effective(s, e) && e.TickIn? ==> LaterThanFinished(s, e.tick)))
  {
    hide LaterThanFinished;
    NoneEffective(s, front);
    hide Effective;
    var all := front + [e];
    assert all[|front|] == e && forall i :: 0 <= i < |front| ==> all[i] == front[i];
    if AnyEffective(s, front) {
      var i :| FirstEffective(s, front, i);
      assert FirstEffective(s, all, i);
      assert forall j :: FirstEffective(s, all, j) ==> j == i;
    } else if Effective(s, e) {
      assert FirstEffective(s, all, |front|);
    }
  }

  lemma {:induction false} NoneEffective(s: Series, gap: seq<Event>)
    ensures !AnyEffective(s, gap) <==> forall i :: 0 <= i < |gap| ==> !Effective(s, gap[i])
  {
    hide Effective;
    if gap != [] {
      var front, e := gap[..|gap| - 1], gap[|gap| - 1];
      NoneEffective(s, front);
      assert forall i :: 0 <= i < |front| ==> front[i] == gap[i];
      if AnyEffective(s, front) {
        var i :| FirstEffective(s, front, i);
        assert FirstEffective(s, gap, i);
      } else if Effective(s, e) {
        assert FirstEffective(s, gap, |gap| - 1);
      }
    }
  }

  ghost predicate OnCourse(s: Series, emitted: seq<Candle>) {
    exists accepted :: Consistent(s, emitted, accepted)
  }

  /** Where a series with its buckets put away is after a gap: untouched, back on course, or broken. */
  ghost predicate AfterGap(s: Series, emitted: seq<Candle>, gap: seq<Event>) {
    var now, out := StateFrom(s, gap), OutputFrom(s, gap);
    if !AnyEffective(s, gap) then now == s && out == []
    else if GapClean(s, gap) then OnCourse(now, emitted + out)
    else !MinutesAscend(emitted + out + Held(now))
  }

  /** A series whose current bucket has been put away. */
  ghost predicate PutAway(s: Series, emitted: seq<Candle>, accepted: seq<Tick>) {
    && s.current.None? && emitted + s.finished == Grouped(accepted) && InOrder(accepted)
    && s.lastClosed == (if emitted == [] then None else Some(emitted[|emitted| - 1].minute))
  }

  /** The first event with an effect decides. */
  lemma FirstInGap(s: Series, emitted: seq<Candle>, accepted: seq<Tick>, e: Event)
    requires PutAway(s, emitted, accepted) && Effective(s, e)
    ensures if e.TickIn? && !LaterThanFinished(s, e.tick) then !MinutesAscend(emitted + Output(s, e) + Held(Step(s, e)))
            else OnCourse(Step(s, e), emitted + Output(s, e))
  {
    match e
    case TickIn(t) =>
      hide MinuteOf, Grouped, InOrder, Add, Held, MinutesAscend, LaterThanFinished, Consistent;
      FirstTickInGap(s, emitted, accepted, t);
      if LaterThanFinished(s, t) { assert Consistent(Step(s, e), emitted + Output(s, e), accepted + [t]); }
    case Flush(now) =>
      hide MinuteStart, Grouped, InOrder, CloseThrough, Closed;
      assert Held(s) == s.finished;
      Closing(s, emitted, accepted, MinuteStart(now));
      assert Consistent(Step(s, e), emitted + Output(s, e), accepted);
    case ForceClose(now) =>
      hide MinuteStart, Grouped, InOrder, CloseThrough, Closed;
      assert Finish(s) == s && Held(s) == s.finished;
      Closing(s, emitted, accepted, MinuteStart(now + MINUTE));
      assert Consistent(Step(s, e), emitted + Output(s, e), accepted);
  }

  lemma FirstTickInGap(s: Series, emitted: seq<Candle>, accepted: seq<Tick>, t: Tick)
    requires PutAway(s, emitted, accepted) && Effective(s, TickIn(t))
    ensures if LaterThanFinished(s, t) then Consistent(Add(s, t), emitted + [], accepted + [t])
            else !MinutesAscend(emitted + [] + Held(Add(s, t)))
  {
    hide MinuteOf, Grouped, InOrder;
    OpenMinute(t);
    assert emitted + [] == emitted;
    var held := Held(Add(s, t));
    assert held == s.finished + [Open(t)];
    var h := emitted + s.finished;
    assert emitted + held == h + [Open(t)];
    if LaterThanFinished(s, t) {
      GroupedAscends(accepted);
      GroupedStep(accepted);
      GroupedStep(accepted + [t]);
      assert (accepted + [t])[..|accepted|] == accepted;
      LastOf(emitted, s.finished);
      InOrderOne(accepted, t);
      assert h != [] ==> h[|h| - 1].minute < MinuteOf(t);
      assert Absorb(h, t) == h + [Open(t)];
    } else {
      var n := |emitted| + |s.finished|;
      assert (emitted + held)[n - 1] == s.finished[|s.finished| - 1] && (emitted + held)[n] == Open(t);
    }
  }

  lemma LastOf(a: seq<Candle>, b: seq<Candle>)
    ensures a + b != [] ==> (a + b)[|a + b| - 1] == if b != [] then b[|b| - 1] else a[|a| - 1]
  {}

  lemma OpenMinute(t: Tick)
    ensures Open(t).minute == MinuteOf(t)
  {}

  /** The minutes of `g` begin those of `h`. */
  ghost predicate MinutesPrefix(g: seq<Candle>, h: seq<Candle>) {
    |g| <= |h| && forall i :: 0 <= i < |g| ==> g[i].minute == h[i].minute
  }

  /** No event takes back a minute that is out or held, nor changes its place. */
  lemma MinutesStay(s: Series, out: seq<Candle>, e: Event)
    ensures MinutesPrefix(out + Held(s), out + Output(s, e) + Held(Step(s, e)))
  {
    match e
    case TickIn(t) =>
      HeldGrows(s, t);
      assert out + [] == out;
    case Flush(now) =>
      hide MinuteStart;
      ClosedSplits(s, MinuteStart(now));
      Regroup(out, Closed(s, MinuteStart(now)), Held(CloseThrough(s, MinuteStart(now))));
    case ForceClose(now) =>
      hide MinuteStart;
      Finishing(s);
      ClosedSplits(Finish(s), MinuteStart(now + MINUTE));
      Regroup(out, Closed(Finish(s), MinuteStart(now + MINUTE)), Held(CloseThrough(Finish(s),
          MinuteStart(now + MINUTE))));
  }

  lemma Regroup(a: seq<Candle>, b: seq<Candle>, c: seq<Candle>)
    ensures a + (b + c) == a + b + c
  {}

  lemma HeldGrows(s: Series, t: Tick)
    ensures MinutesPrefix(Held(s), Held(Add(s, t)))
  {
    hide MinuteOf;
  }

  lemma {:induction false} GapDecides(s: Series, emitted: seq<Candle>, accepted: seq<Tick>, gap: seq<Event>)
    requires PutAway(s, emitted, accepted)
    ensures AfterGap(s, emitted, gap)
  {
    hide PutAway, Consistent, Step, Output, Held, Effective, LaterThanFinished, GapClean, AnyEffective, MinutesAscend;
    if gap == [] {
      NoneEffective(s, gap);
    } else {
      var front, e := gap[..|gap| - 1], gap[|gap| - 1];
      assert gap == front + [e];
      GapDecides(s, emitted, accepted, front);
      FirstEffectiveStep(s, front, e);
      var now, out := StateFrom(s, front), OutputFrom(s, front);
      assert emitted + (out + Output(now, e)) == emitted + out + Output(now, e);
      if !AnyEffective(s, front) {
        assert emitted + [] == emitted && [] + Output(s, e) == Output(s, e);
        assert StateFrom(s, gap) == Step(s, e) && OutputFrom(s, gap) == Output(s, e);
        if Effective(s, e) { FirstInGap(s, emitted, accepted, e); } else { NoEffect(s, e); }
      } else if GapClean(s, front) {
        var more :| Consistent(now, emitted + out, more);
        ConsistentStep(now, emitted + out, more, e);
        assert Consistent(StateFrom(s, gap), emitted + OutputFrom(s, gap), more + AcceptedBy(now, e));
      } else {
        MinutesStay(now, emitted + out, e);
        StillBroken(emitted + out + Held(now), emitted + out + Output(now, e) + Held(Step(now, e)));
      }
    }
  }

  lemma NoEffect(s: Series, e: Event)
    requires !Effective(s, e)
    ensures Step(s, e) == s && Output(s, e) == []
  {}

  lemma StillBroken(g: seq<Candle>, h: seq<Candle>)
    requires MinutesPrefix(g, h) && !MinutesAscend(g)
    ensures !MinutesAscend(h)
  {
    var i, j :| 0 <= i < j < |g| && g[i].minute >= g[j].minute;
    assert h[i].minute == g[i].minute && h[j].minute == g[j].minute;
  }

  /**
    force_close_all puts the current buckets away and flushes under two separate locks. Whatever ran
    before, and whatever ticks, flushes and other closes come in between, the candles emitted so far
    and those then held to be flushed have strictly increasing minutes exactly when the gap is clean.
  */
  lemma ForceCloseGapIff(events: seq<Event>, gap: seq<Event>)
    ensures var s := Finish(After(events));
            MinutesAscend(Emitted(events) + OutputFrom(s, gap) + Held(StateFrom(s, gap))) <==> GapClean(s, gap)
  {
    hide After, Emitted, Accepted, Finish, StateFrom, OutputFrom, Effective, LaterThanFinished, Grouped;
    hide FirstEffective, InOrder;
    RunConsistent(events);
    var s, emitted, accepted := Finish(After(events)), Emitted(events), Accepted(events);
    Finishing(After(events));
    assert Held(s) == s.finished;
    assert PutAway(s, emitted, accepted);
    GapDecides(s, emitted, accepted, gap);
    var now, out := StateFrom(s, gap), OutputFrom(s, gap);
    if !AnyEffective(s, gap) {
      assert emitted + [] == emitted;
      GroupedAscends(accepted);
    } else if GapClean(s, gap) {
      var more :| Consistent(now, emitted + out, more);
      GroupedAscends(more);
    }
  }

  /** A tick of the same minute in the gap: the flush emits that minute twice. */
  lemma ForceCloseRace(t: Tick, u: Tick, now: int)
    requires MinuteOf(t) == MinuteOf(u) < MinuteStart(now + MINUTE)
    ensures var s := Finish(After([TickIn(t)]));
            Closed(StateFrom(s, [TickIn(u)]), MinuteStart(now + MINUTE)) == [Open(t), Open(u)]
    ensures Open(t).minute == Open(u).minute
  {
    hide MinuteStart, MinuteOf;
    assert [TickIn(t)][..0] == [] && After([]) == EMPTY;
    assert After([TickIn(t)]) == Add(EMPTY, t);
    assert [TickIn(u)][..0] == [];
    var s := Finish(After([TickIn(t)]));
    assert StateFrom(s, [TickIn(u)]) == Add(StateFrom(s, []), u);
  }

  // ----- the same in clock time -----

  /** The minute from `m`, in microseconds, holds the time. */
  ghost predicate InMinute(ts: int, m: int) {
    m % 60_000_000 == 0 && m <= ts < m + 60_000_000
  }

  lemma MinuteOfTime(ts: int, m: int)
    ensures InMinute(ts, m) <==> MinuteStart(ts) == m
  {}

  lemma MinuteIsOver(now: int, m: int)
    requires m % 60_000_000 == 0
    ensures m < MinuteStart(now) <==> m + 60_000_000 <= now
  {}

  /** The ticks from one time up to another. */
  function Between(ticks: seq<Tick>, from: int, to: int): (r: seq<Tick>)
    ensures forall t :: t in r <==> t in ticks && from <= t.ts < to
  {
    if ticks == [] then []
    else
      var front, last := Between(ticks[..|ticks| - 1], from, to), ticks[|ticks| - 1];
      assert forall t :: t in ticks <==> t in ticks[..|ticks| - 1] || t == last;
      if from <= last.ts < to then front + [last] else front
  }

  lemma {:induction false} MinuteIsBetween(ticks: seq<Tick>, m: int)
    requires m % 60_000_000 == 0
    ensures OfMinute(ticks, m) == Between(ticks, m, m + 60_000_000)
  {
    hide MinuteStart;
    if ticks != [] {
      MinuteIsBetween(ticks[..|ticks| - 1], m);
      MinuteOfTime(ticks[|ticks| - 1].ts, m);
    }
  }

  lemma Aligned(events: seq<Event>, k: int)
    requires 0 <= k < |Emitted(events) + Held(After(events))|
    ensures (Emitted(events) + Held(After(events)))[k].minute % 60_000_000 == 0
  {
    hide Emitted, Accepted, After, Held, Grouped, MinuteStart;
    var h := Emitted(events) + Held(After(events));
    assert HasMinute(h, h[k].minute);
    NoTickLost(events, h[k].minute);
    var i :| 0 <= i < |Accepted(events)| && MinuteOf(Accepted(events)[i]) == h[k].minute;
    MinuteOfTime(Accepted(events)[i].ts, h[k].minute);
  }

  /** Every candle, emitted or held, starts on a whole minute and summarises the ticks accepted in its 60 seconds. */
  lemma CandlesInTime(events: seq<Event>, k: int)
    requires 0 <= k < |Emitted(events) + Held(After(events))|
    ensures var c := (Emitted(events) + Held(After(events)))[k];
            c.minute % 60_000_000 == 0 && Summarises(c, Between(Accepted(events), c.minute, c.minute + 60_000_000))
  {
    hide Emitted, Accepted, After, Held, Grouped, Summarises, OfMinute, Between, InOrder;
    Aligned(events, k);
    RunConsistent(events);
    GroupedSummarises(Accepted(events), k);
    MinuteIsBetween(Accepted(events), (Emitted(events) + Held(After(events)))[k].minute);
  }

  /** Every accepted tick is in one candle, that of its 60 seconds: two share a candle exactly when they share those. */
  lemma TicksInTime(events: seq<Event>, i: int) returns (k: int)
    requires 0 <= i < |Accepted(events)|
    ensures var h, ts := Emitted(events) + Held(After(events)), Accepted(events)[i].ts;
            && 0 <= k < |h| && InMinute(ts, h[k].minute)
            && forall n :: 0 <= n < |h| && InMinute(ts, h[n].minute) ==> n == k
  {
    hide Emitted, Accepted, After, Held, Grouped, MinuteStart, InMinute;
    var h, t := Emitted(events) + Held(After(events)), Accepted(events)[i];
    NoTickLost(events, MinuteOf(t));
    k :| 0 <= k < |h| && h[k].minute == MinuteOf(t);
    RunConsistent(events);
    GroupedAscends(Accepted(events));
    forall n | 0 <= n < |h| ensures InMinute(t.ts, h[n].minute) <==> n == k {
      MinuteOfTime(t.ts, h[n].minute);
    }
  }

  /** A flush emits every held candle but the last, and the last too exactly when its 60 seconds are over. */
  lemma FlushInTime(events: seq<Event>, now: int)
    ensures var held := Held(After(events));
            Output(After(events), Flush(now)) ==
              if held == [] then []
              else if held[|held| - 1].minute + 60_000_000 <= now then held
              else held[..|held| - 1]
  {
    hide Emitted, Accepted, After, Grouped, MinuteStart, InOrder;
    RunConsistent(events);
    var s, held := After(events), Held(After(events));
    if held != [] {
      var h := Emitted(events) + held;
      assert h[|h| - 1] == held[|held| - 1] == s.current.value;
      Aligned(events, |h| - 1);
      MinuteIsOver(now, s.current.value.minute);
    }
  }

  /** Between the two ticks of one minute, an end-of-day close or a flush after that minute was over. */
  ghost predicate Splits(a: Event, e: Event, b: Event) {
    a.TickIn? && b.TickIn? && exists m ::
      InMinute(a.tick.ts, m) && InMinute(b.tick.ts, m) && (e.ForceClose? || (e.Flush? && m + 60_000_000 <= e.now))
  }

  /** For ticks in order of minute, one is dropped exactly when some flush or close splits a minute of the clock. */
  lemma DroppedIffSplit(events: seq<Event>)
    requires InOrder(Ticks(events))
    ensures Accepted(events) != Ticks(events) <==>
            exists i, j, k :: 0 <= i < j < k < |events| && Splits(events[i], events[j], events[k])
  {
    hide Accepted, Ticks, InOrder;
    LosslessIff(events);
    if SplitsMinute(events) {
      var k :| 0 <= k < |events| && events[k].TickIn? && ClosedAfterTick(events[..k], MinuteOf(events[k].tick));
      var front, m := events[..k], MinuteOf(events[k].tick);
      var i, j :| 0 <= i < j < |front| && front[i].TickIn? && MinuteOf(front[i].tick) == m && Closes(front[j], m);
      assert front[i] == events[i] && front[j] == events[j];
      SplitsIff(events[i], events[j], events[k]);
      assert Splits(events[i], events[j], events[k]);
    }
    if i, j, k :| 0 <= i < j < k < |events| && Splits(events[i], events[j], events[k]) {
      SplitsIff(events[i], events[j], events[k]);
      var front, m := events[..k], MinuteOf(events[k].tick);
      assert front[i] == events[i] && front[j] == events[j];
      assert ClosedAfterTick(front, m);
    }
  }

  lemma SplitsIff(a: Event, e: Event, b: Event)
    ensures Splits(a, e, b) <==>
            a.TickIn? && b.TickIn? && MinuteOf(a.tick) == MinuteOf(b.tick) && Closes(e, MinuteOf(b.tick))
  {
    hide MinuteStart;
    if a.TickIn? && b.TickIn? {
      var m := MinuteOf(b.tick);
      MinuteOfTime(b.tick.ts, m);
      MinuteOfTime(a.tick.ts, m);
      if e.Flush? { MinuteIsOver(e.now, m); }
      forall n | InMinute(b.tick.ts, n) ensures n == m { MinuteOfTime(b.tick.ts, n); }
    }
  }
}
