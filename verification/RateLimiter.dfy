/** The fixed-window limiter `_consume` of trading/api/deps.py, with serialised calls. */
module RateLimiter {
  import opened Prelude

  const SECOND := 1_000_000

  datatype Request = Request(subject: string, now: nat)

  type Window = (string, nat)

  type Counts = map<Window, int>

  /** The greatest multiple of `window` not above `s`. */
  function Floor(s: nat, window: nat): nat
    requires window > 0
  {
    s / window * window
  }

  function WindowEpoch(now: nat, window: nat): nat
    requires window > 0
  {
    Floor(now / SECOND, window)
  }

  function WindowOf(r: Request, window: nat): Window
    requires window > 0
  {
    (r.subject, WindowEpoch(r.now, window))
  }

  predicate Allows(counts: Counts, w: Window, max: int) {
    w !in counts || counts[w] < max
  }

  function Count(counts: Counts, w: Window): int {
    if w in counts then counts[w] else 0
  }

  class Limiter {
    var counts: Counts

    constructor ()
      ensures counts == map[]
    {
      counts := map[];
    }

    /**
      `rivals` are other callers' requests of the same window that commit between the look-up and the
      insert: if the window has no row yet, our insert then breaks the unique key, and the call goes
      on with the row the rivals have left.
    */
    method Consume(r: Request, max: int, window: nat, rivals: seq<Request>) returns (allowed: bool, retryAfter: int)
      requires window > 0 && forall i :: 0 <= i < |rivals| ==> WindowOf(rivals[i], window) == WindowOf(r, window)
      modifies this
      ensures allowed == Allows(Faced(old(counts), r, max, window, rivals), WindowOf(r, window), max)
      ensures counts == Spend(Faced(old(counts), r, max, window, rivals), r, max, window)
      ensures WindowOf(r, window) in old(counts) ==> counts == SpendAll(old(counts), [r], max, window)
      ensures WindowOf(r, window) !in old(counts) ==> counts == SpendAll(old(counts), rivals + [r], max, window)
      ensures allowed ==> retryAfter == 0
      ensures !allowed ==> retryAfter >= 1 && RetriesNext(r.now, retryAfter, window)
    {
      hide SpendAll, WindowEpoch;
      var epoch := WindowEpoch(r.now, window);
      var w := (r.subject, epoch);
      NoRivals(counts, max, window);
      RaceIsOrder(counts, r, max, window, rivals);
      if w !in counts {
        if rivals == [] {
          counts := counts[w := 1];
          return true, 0;
        }
        RivalsLeaveRow(counts, rivals, max, window, w);
        counts := SpendAll(counts, rivals, max, window);
      }
      if counts[w] >= max {
        var elapsed := (r.now - epoch * SECOND) / SECOND;
        retryAfter := if window - elapsed >= 1 then window - elapsed else 1;
        RetryIsLater(r.now, window);
        return false, retryAfter;
      }
      counts := counts[w := counts[w] + 1];
      return true, 0;
    }
  }

  /** Waiting that many seconds leads to the next window, and one second less does not. */
  ghost predicate RetriesNext(now: nat, seconds: nat, window: nat)
    requires window > 0 && seconds >= 1
  {
    && WindowEpoch(now + seconds * 1_000_000, window) == WindowEpoch(now, window) + window
    && WindowEpoch(now + (seconds - 1) * 1_000_000, window) == WindowEpoch(now, window)
  }

  /** What a call is judged against: losing the race for a new window is the same as coming after the winners. */
  function Faced(counts: Counts, r: Request, max: int, window: nat, rivals: seq<Request>): Counts
    requires window > 0
  {
    if WindowOf(r, window) !in counts then SpendAll(counts, rivals, max, window) else counts
  }

  lemma NoRivals(counts: Counts, max: int, window: nat)
    requires window > 0
    ensures SpendAll(counts, [], max, window) == counts
  {}

  /** So the counters end as if the winners of the race had called before. */
  lemma RaceIsOrder(counts: Counts, r: Request, max: int, window: nat, rivals: seq<Request>)
    requires window > 0
    ensures var counted := Spend(Faced(counts, r, max, window, rivals), r, max, window);
            && (WindowOf(r, window) in counts ==> counted == SpendAll(counts, [r], max, window))
            && (WindowOf(r, window) !in counts ==> counted == SpendAll(counts, rivals + [r], max, window))
  {
    var before := if WindowOf(r, window) in counts then [] else rivals;
    assert (before + [r])[..|before|] == before && [] + [r] == [r];
  }

  /** The counters after some calls, one after the other. */
  function SpendAll(counts: Counts, requests: seq<Request>, max: int, window: nat): Counts
    requires window > 0
  {
    if requests == [] then counts
    else Spend(SpendAll(counts, requests[..|requests| - 1], max, window), requests[|requests| - 1], max, window)
  }

  lemma {:induction false} RivalsLeaveRow(counts: Counts, rivals: seq<Request>, max: int, window: nat, w: Window)
    requires window > 0 && rivals != [] && forall i :: 0 <= i < |rivals| ==> WindowOf(rivals[i], window) == w
    ensures w in SpendAll(counts, rivals, max, window)
  {
    hide WindowOf;
    if |rivals| > 1 { RivalsLeaveRow(counts, rivals[..|rivals| - 1], max, window, w); }
  }

  /** The counters after one call. */
  function Spend(counts: Counts, r: Request, max: int, window: nat): Counts
    requires window > 0
  {
    var w := WindowOf(r, window);
    if Allows(counts, w, max) then counts[w := Count(counts, w) + 1] else counts
  }

  lemma FloorBounds(s: nat, window: nat)
    requires window > 0
    ensures Floor(s, window) <= s < Floor(s, window) + window
  {}

  lemma FloorOfMultiple(q: nat, r: nat, window: nat)
    requires r < window
    ensures Floor(q * window + r, window) == q * window
  {
    QuotientUnique(q * window + r, window, q, r);
  }

  lemma QuotientUnique(n: nat, d: nat, q: nat, r: nat)
    requires r < d && n == q * d + r
    ensures n / d == q
  {
    var p := n / d;
    assert n == p * d + n % d;
    if p < q { MulLe(p + 1, q, d); } else if q < p { MulLe(q + 1, p, d); }
  }

  /** Windows do not overlap: anything inside one has the same floor. */
  lemma SameFloor(s: nat, t: nat, window: nat)
    requires window > 0 && Floor(s, window) <= t < Floor(s, window) + window
    ensures Floor(t, window) == Floor(s, window)
  {
    FloorOfMultiple(s / window, t - Floor(s, window), window);
  }

  lemma NextFloor(s: nat, t: nat, window: nat)
    requires window > 0 && Floor(s, window) + window <= t < Floor(s, window) + window + window
    ensures Floor(t, window) == Floor(s, window) + window
  {
    var q := s / window;
    assert (q + 1) * window == q * window + window;
    FloorOfMultiple(q + 1, t - (Floor(s, window) + window), window);
  }

  lemma RetryIsLater(now: nat, window: nat)
    requires window > 0
    ensures now >= WindowEpoch(now, window) * SECOND
    ensures var elapsed := (now - WindowEpoch(now, window) * SECOND) / SECOND;
            && 0 <= elapsed < window
            && WindowEpoch(now + (window - elapsed) * 1_000_000, window) == WindowEpoch(now, window) + window
            && WindowEpoch(now + (window - elapsed - 1) * 1_000_000, window) == WindowEpoch(now, window)
  {
    hide Floor;
    var s := now / SECOND;
    FloorBounds(s, window);
    var epoch := Floor(s, window);
    var elapsed := (now - epoch * SECOND) / SECOND;
    assert elapsed == s - epoch;
    var later := now + (window - elapsed) * SECOND;
    assert later / SECOND == epoch + window;
    NextFloor(s, epoch + window, window);
    var sooner := now + (window - elapsed - 1) * SECOND;
    assert sooner / SECOND == epoch + window - 1;
    SameFloor(s, epoch + window - 1, window);
  }

  /** Times are counted together exactly when no multiple of the window, in seconds, lies between them. */
  lemma SameWindowIff(a: nat, b: nat, window: nat)
    requires window > 0 && a <= b
    ensures WindowEpoch(a, window) == WindowEpoch(b, window) <==>
            !exists n: nat :: a < n * window * 1_000_000 <= b
  {
    hide Floor;
    var s, t := a / SECOND, b / SECOND;
    FloorBounds(s, window);
    FloorBounds(t, window);
    IsMultiple(t, window);
    if Floor(t, window) > s {
      var n :| n >= 0 && Floor(t, window) == n * window;
      assert a < n * window * 1_000_000 <= b;
      if Floor(s, window) == Floor(t, window) { assert false; }
    } else {
      SameFloorBelow(s, t, window);
      forall n: nat ensures !(a < n * window * 1_000_000 <= b) {
        if s < n * window <= t { NoMultipleBetween(s, t, n, window); }
      }
    }
  }

  lemma IsMultiple(s: nat, window: nat)
    requires window > 0
    ensures exists n: nat :: Floor(s, window) == n * window
  {
    assert Floor(s, window) == s / window * window;
  }

  lemma SameFloorBelow(s: nat, t: nat, window: nat)
    requires window > 0 && Floor(t, window) <= s <= t
    ensures Floor(s, window) == Floor(t, window)
  {
    FloorBounds(t, window);
    SameFloor(t, s, window);
  }

  lemma NoMultipleBetween(s: nat, t: nat, n: nat, window: nat)
    requires window > 0 && Floor(t, window) <= s < n * window
    ensures t < n * window
  {
    FloorBounds(t, window);
    var q := t / window;
    if n <= q { MulLe(n, q, window); } else { MulLe(q + 1, n, window); assert (q + 1) * window == q * window + window; }
  }

  // ----- whole runs of serialised calls -----

  function CountsAfter(requests: seq<Request>, max: int, window: nat): Counts
    requires window > 0
  {
    SpendAll(map[], requests, max, window)
  }

  function Granted(requests: seq<Request>, max: int, window: nat): seq<Request>
    requires window > 0
  {
    if requests == [] then []
    else
      var front, last := requests[..|requests| - 1], requests[|requests| - 1];
      var granted := Granted(front, max, window);
      if Allows(CountsAfter(front, max, window), WindowOf(last, window), max) then granted + [last] else granted
  }

  /** How many of the requests fall in a window. */
  function Hits(requests: seq<Request>, w: Window, window: nat): nat
    requires window > 0
  {
    if requests == [] then 0
    else
      var last := requests[|requests| - 1];
      Hits(requests[..|requests| - 1], w, window) + (if WindowOf(last, window) == w then 1 else 0)
  }

  /** The effective limit: the first request of a window is always let through. */
  function Limit(max: int): int { if max >= 1 then max else 1 }

  lemma HitsOne(requests: seq<Request>, r: Request, w: Window, window: nat)
    requires window > 0
    ensures Hits(requests + [r], w, window) == Hits(requests, w, window) + (if WindowOf(r, window) == w then 1 else 0)
  {
    assert (requests + [r])[..|requests|] == requests;
  }

  /** In any run, a window grants the lesser of its requests and the effective limit. */
  lemma {:induction false} GrantsPerWindow(requests: seq<Request>, max: int, window: nat, w: Window)
    requires window > 0
    ensures var hits, granted := Hits(requests, w, window), Hits(Granted(requests, max, window), w, window);
            && granted == (if hits <= Limit(max) then hits else Limit(max))
            && Count(CountsAfter(requests, max, window), w) == granted
            && (w in CountsAfter(requests, max, window) <==> hits > 0)
  {
    hide WindowOf;
    if requests != [] {
      var front, last := requests[..|requests| - 1], requests[|requests| - 1];
      GrantsPerWindow(front, max, window, w);
      HitsOne(Granted(front, max, window), last, w, window);
    }
  }

  /** The limit is met to the letter, and not exceeded by one, exactly when it is at least one or nobody asks. */
  lemma GrantsMinIff(requests: seq<Request>, max: int, window: nat, w: Window)
    requires window > 0
    ensures var hits, atLeastZero := Hits(requests, w, window), if max >= 0 then max else 0;
            Hits(Granted(requests, max, window), w, window) == (if hits <= atLeastZero then hits else atLeastZero)
            <==> max >= 1 || hits == 0
  {
    hide Granted, Hits, CountsAfter;
    GrantsPerWindow(requests, max, window, w);
  }

  /** A limit of zero still lets the first request of a window through. */
  lemma ZeroLimitGrantsOne(r: Request, window: nat)
    requires window > 0
    ensures Granted([r], 0, window) == [r]
  {
    assert [r][..0] == [] && Granted([], 0, window) == [] && CountsAfter([], 0, window) == map[];
  }

  /** The requests of a window, in order. */
  function InWindow(requests: seq<Request>, w: Window, window: nat): (r: seq<Request>)
    requires window > 0
    ensures |r| == Hits(requests, w, window)
  {
    if requests == [] then []
    else
      var front, last := InWindow(requests[..|requests| - 1], w, window), requests[|requests| - 1];
      if WindowOf(last, window) == w then front + [last] else front
  }

  lemma InWindowOne(requests: seq<Request>, r: Request, w: Window, window: nat)
    requires window > 0
    ensures InWindow(requests + [r], w, window)
         == InWindow(requests, w, window) + (if WindowOf(r, window) == w then [r] else [])
  {
    assert (requests + [r])[..|requests|] == requests;
  }

  /** First come, first served: what a window grants is the beginning of what it is asked. */
  lemma {:induction false} GrantsFirst(requests: seq<Request>, max: int, window: nat, w: Window)
    requires window > 0
    ensures InWindow(Granted(requests, max, window), w, window) <= InWindow(requests, w, window)
  {
    hide WindowOf, Hits;
    if requests != [] {
      var front, last := requests[..|requests| - 1], requests[|requests| - 1];
      GrantsFirst(front, max, window, w);
      InWindowOne(Granted(front, max, window), last, w, window);
      if WindowOf(last, window) == w {
        GrantsPerWindow(front, max, window, w);
        if Allows(CountsAfter(front, max, window), w, max) {
          var granted, asked := InWindow(Granted(front, max, window), w, window), InWindow(front, w, window);
          assert |granted| == |asked| && granted == asked[..|granted|] == asked;
        }
      }
    }
  }

  predicate InInterval(r: Request, subject: string, from: nat, window: nat) {
    r.subject == subject && from <= r.now < from + window * 1_000_000
  }

  function HitsWithin(requests: seq<Request>, subject: string, from: nat, window: nat): nat {
    if requests == [] then 0
    else
      HitsWithin(requests[..|requests| - 1], subject, from, window) +
      (if InInterval(requests[|requests| - 1], subject, from, window) then 1 else 0)
  }

  /** An interval one window long touches only two windows. */
  lemma TwoWindows(r: Request, subject: string, from: nat, window: nat)
    requires window > 0 && InInterval(r, subject, from, window)
    ensures var first := WindowEpoch(from, window);
            WindowOf(r, window) == (subject, first) || WindowOf(r, window) == (subject, first + window)
  {
    hide Floor;
    var s, t := from / SECOND, r.now / SECOND;
    FloorBounds(s, window);
    assert s <= t <= s + window;
    if t < Floor(s, window) + window {
      SameFloor(s, t, window);
    } else {
      NextFloor(s, t, window);
    }
  }

  lemma {:induction false} WithinTwoWindows(requests: seq<Request>, subject: string, from: nat, window: nat)
    requires window > 0
    ensures var first := WindowEpoch(from, window);
            HitsWithin(requests, subject, from, window)
            <= Hits(requests, (subject, first), window) + Hits(requests, (subject, first + window), window)
  {
    hide WindowOf, InInterval, WindowEpoch;
    if requests != [] {
      var last := requests[|requests| - 1];
      WithinTwoWindows(requests[..|requests| - 1], subject, from, window);
      if InInterval(last, subject, from, window) { TwoWindows(last, subject, from, window); }
    }
  }

  /** So no interval one window long, wherever it starts, sees more than twice the limit granted to a subject. */
  lemma AtMostTwiceTheLimit(requests: seq<Request>, max: int, window: nat, subject: string, from: nat)
    requires window > 0
    ensures HitsWithin(Granted(requests, max, window), subject, from, window) <= 2 * Limit(max)
  {
    hide Hits, HitsWithin, Granted, CountsAfter, WindowEpoch;
    var first := WindowEpoch(from, window);
    WithinTwoWindows(Granted(requests, max, window), subject, from, window);
    GrantsPerWindow(requests, max, window, (subject, first));
    GrantsPerWindow(requests, max, window, (subject, first + window));
  }
}
