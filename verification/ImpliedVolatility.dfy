/**
  The bisection of implied_volatility in trading/market_data/options_intelligence.py. The
  Black-Scholes price, as a function of volatility alone, is the parameter `price`.
*/
module ImpliedVolatility {
  import opened Prelude

  predicate BadInputs(isCall: bool, optionPrice: real, spot: real, strike: real, t: real, tolerance: real) {
    var intrinsic := if isCall then Max(spot - strike, 0.0) else Max(strike - spot, 0.0);
    || optionPrice <= 0.0 || spot <= 0.0 || strike <= 0.0 || t <= 0.0
    || optionPrice < intrinsic - tolerance
  }

  predicate Unreachable(price: real -> real, optionPrice: real, lo: real, hi: real, tolerance: real) {
    optionPrice < price(lo) - tolerance || optionPrice > price(hi) + tolerance
  }

  /** A width after `n` halvings. */
  function Halved(w: real, n: int): (r: real)
    ensures w >= 0.0 ==> r >= 0.0
    decreases n
  {
    if n <= 0 then w else Halved(w, n - 1) / 2.0
  }

  /** Ten halvings divide by 1024. */
  lemma HalvedTenTimes(w: real, n: nat)
    ensures Halved(w, 0) == w && Halved(w, n + 10) * 1024.0 == Halved(w, n)
  {
    HalvedTwice(w, n);
    HalvedTwice(w, n + 2);
    HalvedTwice(w, n + 4);
    HalvedTwice(w, n + 6);
    HalvedTwice(w, n + 8);
  }

  lemma HalvedTwice(w: real, n: nat)
    ensures Halved(w, n + 2) * 4.0 == Halved(w, n)
  {
    assert Halved(w, n + 1) == Halved(w, n) / 2.0;
    assert Halved(w, n + 2) == Halved(w, n + 1) / 2.0;
  }

  ghost function Product(x: real, y: real): real { x * y }

  ghost predicate Lipschitz(price: real -> real, bound: real, lo: real, hi: real) {
    forall x, y :: lo <= x <= y <= hi ==> Abs(price(y) - price(x)) <= Product(bound, y - x)
  }

  ghost predicate NondecreasingOn(price: real -> real, lo: real, hi: real) {
    forall x, y :: lo <= x <= y <= hi ==> price(x) <= price(y)
  }

  /** Whatever bounds the price's slope, `sigma` reprices within the tolerance plus that bound times `w`. */
  ghost predicate RepricesWithin(price: real -> real, target: real, tolerance: real, lo: real, hi: real, w: real,
      sigma: real) {
    forall bound :: Lipschitz(price, bound, lo, hi) ==>
      Abs(price(sigma) - target) <= Max(tolerance, 0.0) + Product(Max(bound, 0.0), w)
  }

  /** Every exact solution in the range lies within `w` of `sigma`. */
  ghost predicate NearEveryRoot(price: real -> real, target: real, lo: real, hi: real, w: real, sigma: real) {
    forall root :: lo <= root <= hi && price(root) == target ==> Abs(sigma - root) <= w
  }

  method Solve(isCall: bool, optionPrice: real, spot: real, strike: real, t: real, price: real -> real,
               lo: real, hi: real, tolerance: real, maxIterations: int) returns (r: Option<real>)
    ensures r.None? <==>
            || optionPrice <= 0.0 || spot <= 0.0 || strike <= 0.0 || t <= 0.0
            || optionPrice + tolerance < 0.0
            || (isCall && optionPrice + tolerance < spot - strike)
            || (!isCall && optionPrice + tolerance < strike - spot)
            || optionPrice + tolerance < price(lo) || price(hi) < optionPrice - tolerance
    ensures r.Some? && lo <= hi ==> lo <= r.value <= hi
    ensures r.Some? && lo <= hi ==>
              RepricesWithin(price, optionPrice, tolerance, lo, hi, Halved(hi - lo, maxIterations) / 2.0, r.value)
    ensures r.Some? && lo <= hi && 0.0 < tolerance && NondecreasingOn(price, lo, hi) ==>
              || Abs(price(r.value) - optionPrice) < tolerance
              || NearEveryRoot(price, optionPrice, lo, hi, Halved(hi - lo, maxIterations) / 2.0, r.value)
  {
    hide Product, Lipschitz, NondecreasingOn, RepricesWithin, NearEveryRoot, HoldsRoots;
    if BadInputs(isCall, optionPrice, spot, strike, t, tolerance) { return None; }
    if Unreachable(price, optionPrice, lo, hi, tolerance) { return None; }
    var low, high := lo, hi;
    var i := 0;
    RangeHoldsRoots(price, optionPrice, lo, hi);
    while i < maxIterations
      invariant 0 <= i && (i <= maxIterations || i == 0)
      invariant lo <= hi ==> Bracket(price, optionPrice, tolerance, lo, hi, low, high, i)
      invariant lo <= hi && 0.0 < tolerance && NondecreasingOn(price, lo, hi) ==>
                HoldsRoots(price, optionPrice, lo, hi, low, high)
    {
      var mid := (low + high) / 2.0;
      var priceMid := price(mid);
      if Abs(priceMid - optionPrice) < tolerance {
        if lo <= hi { EarlyError(price, optionPrice, tolerance, lo, hi, Halved(hi - lo, maxIterations) / 2.0, mid); }
        return Some(mid);
      }
      if lo <= hi && 0.0 < tolerance
          && NondecreasingOn(price, lo, hi) { RootsStay(price, optionPrice, lo, hi, low, high, mid); }
      if priceMid > optionPrice { high := mid; } else { low := mid; }
      i := i + 1;
    }
    r := Some((low + high) / 2.0);
    if lo <= hi {
      MidpointError(price, optionPrice, tolerance, lo, hi, low, high, maxIterations);
      MidpointNearRoots(price, optionPrice, lo, hi, low, high);
    }
  }

  /** Low end priced at most the target, high end at least, up to the tolerance; width halved `n` times. */
  ghost predicate Bracket(price: real -> real, target: real, tolerance: real,
                          lo: real, hi: real, low: real, high: real, n: int) {
    && lo <= low <= high <= hi
    && high - low == Halved(hi - lo, n)
    && price(low) <= target + Max(tolerance, 0.0)
    && price(high) >= target - Max(tolerance, 0.0)
  }

  ghost predicate HoldsRoots(price: real -> real, target: real, lo: real, hi: real, low: real, high: real) {
    forall root :: lo <= root <= hi && price(root) == target ==> low <= root <= high
  }

  lemma RangeHoldsRoots(price: real -> real, target: real, lo: real, hi: real)
    ensures HoldsRoots(price, target, lo, hi, lo, hi)
  {}

  /** Discarding the half on the wrong side of the target never discards a solution. */
  lemma RootsStay(price: real -> real, target: real, lo: real, hi: real, low: real, high: real, mid: real)
    requires NondecreasingOn(price, lo, hi) && lo <= mid <= hi && HoldsRoots(price, target, lo, hi, low, high)
    ensures price(mid) > target ==> HoldsRoots(price, target, lo, hi, low, mid)
    ensures price(mid) < target ==> HoldsRoots(price, target, lo, hi, mid, high)
  {
    forall root | lo <= root <= hi && price(root) == target
      ensures price(mid) > target ==> root <= mid
      ensures price(mid) < target ==> mid <= root
    {
      if root < mid { assert price(root) <= price(mid); }
      if mid < root { assert price(mid) <= price(root); }
    }
  }

  lemma ProductFacts(x: real, y: real, w: real)
    requires w >= 0.0
    ensures x >= 0.0 ==> Product(x, w) >= 0.0
    ensures x <= y ==> Product(x, w) <= Product(y, w)
  {
    if x <= y { assert Product(y - x, w) >= 0.0; assert Product(y, w) == Product(x, w) + Product(y - x, w); }
  }

  lemma EarlyError(price: real -> real, target: real, tolerance: real, lo: real, hi: real, w: real, sigma: real)
    requires Abs(price(sigma) - target) < tolerance && w >= 0.0
    ensures RepricesWithin(price, target, tolerance, lo, hi, w, sigma)
  {
    hide Product, Lipschitz;
    forall bound | Lipschitz(price, bound, lo, hi)
      ensures Abs(price(sigma) - target) <= Max(tolerance, 0.0) + Product(Max(bound, 0.0), w)
    {
      ProductFacts(Max(bound, 0.0), Max(bound, 0.0), w);
    }
  }

  /** The midpoint of a bracket reprices within the tolerance plus the slope bound times half its width. */
  lemma MidpointError(price: real -> real, target: real, tolerance: real,
                      lo: real, hi: real, low: real, high: real, n: int)
    requires Bracket(price, target, tolerance, lo, hi, low, high, n)
    ensures RepricesWithin(price, target, tolerance, lo, hi, Halved(hi - lo, n) / 2.0, (low + high) / 2.0)
  {
    hide Product;
    var mid := (low + high) / 2.0;
    var w := Halved(hi - lo, n) / 2.0;
    assert mid - low == w && high - mid == w;
    forall bound | Lipschitz(price, bound, lo, hi)
      ensures Abs(price(mid) - target) <= Max(tolerance, 0.0) + Product(Max(bound, 0.0), w)
    {
      ProductFacts(bound, Max(bound, 0.0), w);
      assert Abs(price(mid) - price(low)) <= Product(bound, mid - low);
      assert Abs(price(high) - price(mid)) <= Product(bound, high - mid);
    }
  }

  lemma MidpointNearRoots(price: real -> real, target: real, lo: real, hi: real, low: real, high: real)
    ensures HoldsRoots(price, target, lo, hi, low, high) ==>
              NearEveryRoot(price, target, lo, hi, (high - low) / 2.0, (low + high) / 2.0)
  {}

  /** For a nondecreasing price, a rejected target is out of reach of every volatility in the bracket. */
  lemma RejectionIsRight(price: real -> real, target: real, lo: real, hi: real, tolerance: real, sigma: real)
    requires NondecreasingOn(price, lo, hi) && lo <= sigma <= hi && Unreachable(price, target, lo, hi, tolerance)
    ensures Abs(price(sigma) - target) > tolerance
  {
    assert price(lo) <= price(sigma) <= price(hi);
  }
}
