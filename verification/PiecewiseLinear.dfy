/**
  Sums of option-shaped hinges. A call hinge is zero up to its strike and rises with slope
  `weight` after it; a put hinge falls with slope `weight` down to its strike and is zero after.
  Expiration P&L and aggregate holder payout are both such sums, so the facts about segments
  and tails are proved once, here.
*/
module PiecewiseLinear {
  import opened Prelude

  datatype Hinge = Hinge(isCall: bool, strike: real, weight: int)

  function Intrinsic(isCall: bool, strike: real, s: real): (v: real)
    ensures v >= 0.0
  {
    if isCall then Max(s - strike, 0.0) else Max(strike - s, 0.0)
  }

  /** A slope times a distance. */
  function Times(k: int, d: real): real {
    k as real * d
  }

  function Value(h: Hinge, s: real): real {
    Times(h.weight, Intrinsic(h.isCall, h.strike, s))
  }

  function Total(hs: seq<Hinge>, s: real): real {
    if hs == [] then 0.0 else Total(hs[..|hs| - 1], s) + Value(hs[|hs| - 1], s)
  }

  /** Slope of one hinge immediately to the right of `a`. */
  function HingeSlope(h: Hinge, a: real): int {
    if h.isCall then (if h.strike <= a then h.weight else 0)
    else (if h.strike > a then -h.weight else 0)
  }

  /** Slope of the sum immediately to the right of `a`. */
  function Slope(hs: seq<Hinge>, a: real): int {
    if hs == [] then 0 else Slope(hs[..|hs| - 1], a) + HingeSlope(hs[|hs| - 1], a)
  }

  /** Net call weight: the slope beyond every strike. */
  function CallWeight(hs: seq<Hinge>): int {
    if hs == [] then 0
    else CallWeight(hs[..|hs| - 1]) + (if hs[|hs| - 1].isCall then hs[|hs| - 1].weight else 0)
  }

  /** Net put weight: minus the slope before every strike. */
  function PutWeight(hs: seq<Hinge>): int {
    if hs == [] then 0
    else PutWeight(hs[..|hs| - 1]) + (if hs[|hs| - 1].isCall then 0 else hs[|hs| - 1].weight)
  }

  ghost predicate NoStrikeBetween(hs: seq<Hinge>, a: real, b: real) {
    forall i :: 0 <= i < |hs| ==> !(a < hs[i].strike < b)
  }

  lemma HingeAffine(h: Hinge, a: real, x: real)
    requires a <= x && !(a < h.strike < x)
    ensures Value(h, x) == Value(h, a) + Times(HingeSlope(h, a), x - a)
  {
    var w := h.weight as real;
    if h.isCall && h.strike <= a {
      assert w * (x - h.strike) == w * (a - h.strike) + w * (x - a);
    } else if !h.isCall && h.strike > a {
      assert w * (h.strike - x) == w * (h.strike - a) + (-w) * (x - a);
    }
  }

  lemma Distribute(k: int, l: int, d: real)
    ensures Times(k, d) + Times(l, d) == Times(k + l, d)
  {}

  /** On an interval with no strike strictly inside, the sum is a straight line. */
  lemma {:induction false} Affine(hs: seq<Hinge>, a: real, x: real)
    requires a <= x && NoStrikeBetween(hs, a, x)
    ensures Total(hs, x) == Total(hs, a) + Times(Slope(hs, a), x - a)
  {
    hide Times, Value, HingeSlope;
    if hs != [] {
      var front, last := hs[..|hs| - 1], hs[|hs| - 1];
      Affine(front, a, x);
      HingeAffine(last, a, x);
      Distribute(Slope(front, a), HingeSlope(last, a), x - a);
    } else {
      TimesSign(0, x - a);
    }
  }

  lemma {:induction false} SlopeBeyond(hs: seq<Hinge>, a: real)
    requires forall i :: 0 <= i < |hs| ==> hs[i].strike <= a
    ensures Slope(hs, a) == CallWeight(hs)
  {
    if hs != [] { SlopeBeyond(hs[..|hs| - 1], a); }
  }

  lemma {:induction false} SlopeBefore(hs: seq<Hinge>, a: real)
    requires forall i :: 0 <= i < |hs| ==> a < hs[i].strike
    ensures Slope(hs, a) == -PutWeight(hs)
  {
    if hs != [] { SlopeBefore(hs[..|hs| - 1], a); }
  }

  /** The unbounded right segment, from any point past the strikes. */
  lemma {:induction false} RightTail(hs: seq<Hinge>, a: real, x: real)
    requires a <= x && forall i :: 0 <= i < |hs| ==> hs[i].strike <= a
    ensures Total(hs, x) == Total(hs, a) + Times(CallWeight(hs), x - a)
  {
    Affine(hs, a, x);
    SlopeBeyond(hs, a);
  }

  /** The unbounded left segment, up to any point before the strikes. */
  lemma {:induction false} LeftTail(hs: seq<Hinge>, x: real, a: real)
    requires x <= a && forall i :: 0 <= i < |hs| ==> a <= hs[i].strike
    ensures Total(hs, x) == Total(hs, a) + Times(PutWeight(hs), a - x)
  {
    hide Times, Total, Slope, PutWeight;
    if x < a {
      Affine(hs, x, a);
      SlopeBefore(hs, x);
      TimesNegated(PutWeight(hs), a - x);
    } else {
      TimesZero(PutWeight(hs));
      assert a - x == 0.0;
    }
  }

  lemma TimesZero(k: int)
    ensures Times(k, 0.0) == 0.0
  {}

  lemma TimesNegated(k: int, d: real)
    ensures Times(-k, d) == -Times(k, d)
  {
    Negate(k as real, d);
  }

  lemma TimesSign(k: int, d: real)
    requires d >= 0.0
    ensures k >= 0 ==> Times(k, d) >= 0.0
    ensures k <= 0 ==> Times(k, d) <= 0.0
    ensures k >= 1 ==> Times(k, d) >= d
    ensures k <= -1 ==> Times(k, d) <= -d
  {
    if k >= 1 {
      TimesPositive(k, d);
    } else if k <= -1 {
      TimesPositive(-k, d);
      hide Times;
      TimesNegated(k, d);
    } else {
      NoTimes(d);
    }
  }

  lemma NoTimes(d: real)
    ensures Times(0, d) == 0.0
  {}

  lemma TimesPositive(k: int, d: real)
    requires k >= 1 && d >= 0.0
    ensures Times(k, d) >= d >= 0.0
  {
    MultipleAtLeast(k as real, d);
  }

  lemma NonNegativeProduct(x: real, y: real)
    requires x >= 0.0 && y >= 0.0
    ensures x * y >= 0.0
  {}

  lemma MultipleAtLeast(x: real, d: real)
    requires x >= 1.0 && d >= 0.0
    ensures x * d >= d
  {
    NonNegativeProduct(x - 1.0, d);
    assert (x - 1.0) * d == x * d - d;
  }

  lemma Negate(x: real, d: real)
    ensures (-x) * d == -(x * d)
  {}

  /** Inside a strike-free interval the value lies between the values at its two ends. */
  lemma BetweenEnds(hs: seq<Hinge>, a: real, b: real, x: real)
    requires a <= x <= b && NoStrikeBetween(hs, a, b)
    ensures Min(Total(hs, a), Total(hs, b)) <= Total(hs, x) <= Max(Total(hs, a), Total(hs, b))
  {
    hide Times, Total, Slope;
    Affine(hs, a, x);
    Affine(hs, a, b);
    LineBetweenEnds(Total(hs, a), Slope(hs, a), x - a, b - a);
  }

  lemma LineBetweenEnds(c: real, k: int, u: real, v: real)
    requires 0.0 <= u <= v
    ensures Min(c, c + Times(k, v)) <= c + Times(k, u) <= Max(c, c + Times(k, v))
  {
    assert Times(k, v) == Times(k, u) + Times(k, v - u);
    TimesSign(k, u);
    TimesSign(k, v - u);
  }

  /** The greatest member of `points` not above `x`. */
  lemma GreatestBelow(points: seq<real>, x: real) returns (a: real)
    requires exists p :: p in points && p <= x
    ensures a in points && a <= x
    ensures forall p :: p in points && p <= x ==> p <= a
  {
    a :| a in points && a <= x;
    var i := 0;
    while i < |points|
      invariant 0 <= i <= |points|
      invariant a in points && a <= x
      invariant forall j :: 0 <= j < i && points[j] <= x ==> points[j] <= a
    {
      if a < points[i] <= x { a := points[i]; }
      i := i + 1;
    }
  }

  /** The least member of `points` not below `x`. */
  lemma LeastAbove(points: seq<real>, x: real) returns (b: real)
    requires exists p :: p in points && x <= p
    ensures b in points && x <= b
    ensures forall p :: p in points && x <= p ==> b <= p
  {
    b :| b in points && x <= b;
    var i := 0;
    while i < |points|
      invariant 0 <= i <= |points|
      invariant b in points && x <= b
      invariant forall j :: 0 <= j < i && x <= points[j] ==> b <= points[j]
    {
      if x <= points[i] < b { b := points[i]; }
      i := i + 1;
    }
  }

  ghost predicate CoversStrikes(points: seq<real>, hs: seq<Hinge>) {
    forall i :: 0 <= i < |hs| ==> hs[i].strike in points
  }

  /**
    Finitely many points decide the whole curve: any price not below all of `points` is either
    bracketed by two of them, or on the right tail starting at one of them.
  */
  lemma Locate(hs: seq<Hinge>, points: seq<real>, x: real) returns (a: real, b: real, tail: bool)
    requires CoversStrikes(points, hs)
    requires exists p :: p in points && p <= x
    ensures a in points && a <= x
    ensures !tail ==> b in points && x <= b && NoStrikeBetween(hs, a, b)
    ensures !tail ==> Min(Total(hs, a), Total(hs, b)) <= Total(hs, x) <= Max(Total(hs, a), Total(hs, b))
    ensures tail ==> Total(hs, x) == Total(hs, a) + Times(CallWeight(hs), x - a)
  {
    a := GreatestBelow(points, x);
    b := a;
    tail := !exists p :: p in points && x <= p;
    if tail {
      forall i | 0 <= i < |hs| ensures hs[i].strike <= a {
        assert hs[i].strike in points;
      }
      RightTail(hs, a, x);
    } else {
      b := LeastAbove(points, x);
      forall i | 0 <= i < |hs| ensures !(a < hs[i].strike < b) {
        assert hs[i].strike in points;
      }
      BetweenEnds(hs, a, b, x);
    }
  }
}
