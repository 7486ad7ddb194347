/** Decimal text: digit strings, and the "%g" rendering that strikes are printed with. */
module Decimals {
  import opened Prelude

  /** mantissa * 10^exponent, with no trailing zero in the mantissa; zero is (0, 0). */
  datatype Decimal = Decimal(mantissa: nat, exponent: int)

  ghost predicate Normal(d: Decimal) {
    if d.mantissa == 0 then d.exponent == 0 else d.mantissa % 10 != 0
  }

  // ----- digit strings -----

  predicate IsDigit(c: char) { '0' <= c <= '9' }

  function DigitChar(n: nat): (c: char)
    requires n < 10
    ensures IsDigit(c) && DigitValue(c) == n
  {
    '0' + n as char
  }

  function DigitValue(c: char): (n: nat)
    requires IsDigit(c)
    ensures n < 10
  {
    (c - '0') as nat
  }

  predicate AllDigits(s: string) {
    forall i :: 0 <= i < |s| ==> IsDigit(s[i])
  }

  function ParseNat(s: string): nat
    requires AllDigits(s)
  {
    if s == [] then 0 else ParseNat(s[..|s| - 1]) * 10 + DigitValue(s[|s| - 1])
  }

  /** Decimal digits without leading zeros. */
  function Digits(n: nat): (s: string)
    ensures s != [] && AllDigits(s)
  {
    if n < 10 then [DigitChar(n)] else Digits(n / 10) + [DigitChar(n % 10)]
  }

  /** Exactly `w` digits, zero padded; the value modulo 10^w. */
  function Pad(n: nat, w: nat): (s: string)
    ensures |s| == w && AllDigits(s)
  {
    if w == 0 then [] else Pad(n / 10, w - 1) + [DigitChar(n % 10)]
  }

  function Pow10(k: nat): (p: nat)
    ensures p >= 1
  {
    if k == 0 then 1 else 10 * Pow10(k - 1)
  }

  function Zeros(k: nat): (s: string)
    ensures |s| == k && AllDigits(s) && forall i :: 0 <= i < k ==> s[i] == '0'
  {
    if k == 0 then [] else Zeros(k - 1) + ['0']
  }

  lemma ParseAppend(s: string, c: char)
    requires AllDigits(s) && IsDigit(c)
    ensures AllDigits(s + [c]) && ParseNat(s + [c]) == ParseNat(s) * 10 + DigitValue(c)
  {
    assert (s + [c])[..|s|] == s;
  }

  lemma {:induction false} DigitsRoundTrip(n: nat)
    ensures ParseNat(Digits(n)) == n
  {
    hide DigitChar, DigitValue;
    if n < 10 {
      ParseAppend([], DigitChar(n));
      assert [] + [DigitChar(n)] == [DigitChar(n)];
      assert ParseNat([]) == 0;
    } else {
      DigitsRoundTrip(n / 10);
      ParseAppend(Digits(n / 10), DigitChar(n % 10));
    }
  }

  lemma {:induction false} PadRoundTrip(n: nat, w: nat)
    requires n < Pow10(w)
    ensures ParseNat(Pad(n, w)) == n
  {
    hide DigitChar, DigitValue;
    if w > 0 {
      PadRoundTrip(n / 10, w - 1);
      ParseAppend(Pad(n / 10, w - 1), DigitChar(n % 10));
    } else {
      assert ParseNat([]) == 0;
    }
  }

  lemma {:induction false} TrailingZeros(s: string, k: nat)
    requires AllDigits(s)
    ensures AllDigits(s + Zeros(k)) && ParseNat(s + Zeros(k)) == ParseNat(s) * Pow10(k)
  {
    if k == 0 {
      assert s + Zeros(0) == s;
    } else {
      TrailingZeros(s, k - 1);
      assert s + Zeros(k) == (s + Zeros(k - 1)) + ['0'];
      ParseAppend(s + Zeros(k - 1), '0');
      Shift(ParseNat(s), Pow10(k - 1));
    }
  }

  lemma Shift(a: nat, p: nat)
    ensures a * p * 10 == a * (10 * p)
  {}

  lemma {:induction false} LeadingZeros(k: nat, s: string)
    requires AllDigits(s)
    ensures AllDigits(Zeros(k) + s) && ParseNat(Zeros(k) + s) == ParseNat(s)
  {
    if s == [] {
      assert Zeros(k) + s == Zeros(k);
      ZerosAreZero(k);
    } else {
      LeadingZeros(k, s[..|s| - 1]);
      assert Zeros(k) + s == (Zeros(k) + s[..|s| - 1]) + [s[|s| - 1]];
      ParseAppend(Zeros(k) + s[..|s| - 1], s[|s| - 1]);
    }
  }

  lemma {:induction false} ZerosAreZero(k: nat)
    ensures ParseNat(Zeros(k)) == 0
  {
    if k > 0 {
      ZerosAreZero(k - 1);
      ParseAppend(Zeros(k - 1), '0');
    }
  }

  // ----- normal form -----

  function Normalize(m: nat, e: int): (d: Decimal)
    ensures Normal(d)
  {
    if m == 0 then Decimal(0, 0)
    else if m % 10 == 0 then Normalize(m / 10, e + 1)
    else Decimal(m, e)
  }

  lemma {:induction false} NormalizeScaled(d: Decimal, k: nat)
    requires Normal(d) && d.mantissa > 0
    ensures Normalize(d.mantissa * Pow10(k), d.exponent - k) == d
  {
    if k > 0 {
      NormalizeScaled(d, k - 1);
      var n := d.mantissa * Pow10(k - 1);
      Shift(d.mantissa, Pow10(k - 1));
      assert d.mantissa * Pow10(k) == n * 10;
      assert n > 0 by { Positive(d.mantissa, Pow10(k - 1)); }
      assert (n * 10) % 10 == 0 && (n * 10) / 10 == n;
    }
  }

  lemma Positive(a: nat, b: nat)
    requires a > 0 && b > 0
    ensures a * b > 0
  {}

  // ----- rounding to six significant digits -----

  const SIGNIFICANT := 6

  /** The mantissa over a power of ten, to nearest with ties to even. */
  function RoundMantissa(m: nat, p: nat): nat
    requires p > 0
  {
    var q, r := m / p, m % p;
    if 2 * r > p || (2 * r == p && q % 2 == 1) then q + 1 else q
  }

  function Round6(d: Decimal): Decimal {
    var n := |Digits(d.mantissa)|;
    if n <= SIGNIFICANT then d
    else Normalize(RoundMantissa(d.mantissa, Pow10(n - SIGNIFICANT)), d.exponent + (n - SIGNIFICANT))
  }

  /** A strike the six printed digits can hold. */
  predicate SixDigits(d: Decimal) { |Digits(d.mantissa)| <= SIGNIFICANT }

  lemma {:induction false} DigitsBound(n: nat, w: nat)
    requires w >= 1
    ensures |Digits(n)| <= w <==> n < Pow10(w)
  {
    if w == 1 {
      assert Pow10(0) == 1;
    } else if n >= 10 {
      DigitsBound(n / 10, w - 1);
    } else {
      assert Pow10(w - 1) >= 1;
    }
  }

  lemma {:induction false} NormalizeSmaller(m: nat, e: int)
    ensures Normalize(m, e).mantissa <= m
    ensures m % 10 == 0 && m > 0 ==> Normalize(m, e).mantissa <= m / 10
  {
    if m > 0 && m % 10 == 0 { NormalizeSmaller(m / 10, e + 1); }
  }

  /** Rounding keeps at most six digits, and changes nothing exactly when there were no more. */
  lemma Round6Facts(d: Decimal)
    requires Normal(d)
    ensures Normal(Round6(d)) && SixDigits(Round6(d))
    ensures Round6(d) == d <==> SixDigits(d)
  {
    hide Normalize, RoundMantissa, Pow10, Digits, Normal;
    var n := |Digits(d.mantissa)|;
    if n > SIGNIFICANT {
      var drop := n - SIGNIFICANT;
      DigitsBound(d.mantissa, n);
      SplitPow(SIGNIFICANT, drop);
      var m := RoundMantissa(d.mantissa, Pow10(drop));
      RoundBound(d.mantissa, Pow10(drop), Pow10(SIGNIFICANT));
      RoundedDigits(m, d.exponent + drop);
    }
  }

  lemma RoundBound(m: nat, p: nat, q: nat)
    requires p > 0 && m < q * p
    ensures RoundMantissa(m, p) <= q
  {
    QuotientBound(m, p, q);
  }

  lemma RoundedDigits(m: nat, e: int)
    requires m <= Pow10(SIGNIFICANT)
    ensures SixDigits(Normalize(m, e))
  {
    hide Normalize;
    Pow10Six();
    NormalizeSmaller(m, e);
    DigitsBound(Normalize(m, e).mantissa, SIGNIFICANT);
  }

  lemma Pow10Six()
    ensures Pow10(6) == 1_000_000
  {
    assert Pow10(0) == 1;
    assert Pow10(1) == 10;
    assert Pow10(2) == 100;
    assert Pow10(3) == 1000;
    assert Pow10(4) == 10000;
    assert Pow10(5) == 100000;
  }

  /** Two neighbouring seven-digit numbers that six digits cannot tell apart. */
  lemma SevenDigitsRound(m: nat)
    requires m == 1_234_567 || m == 1_234_568
    ensures Normal(Decimal(m, 0)) && Round6(Decimal(m, 0)) == Decimal(123_457, 1)
  {
    hide Digits;
    Pow10Six();
    assert Pow10(7) == 10 * Pow10(6);
    assert Pow10(1) == 10 * Pow10(0) == 10;
    DigitsBound(m, 6);
    DigitsBound(m, 7);
    hide Pow10;
    assert RoundMantissa(m, 10) == 123_457;
    assert Normalize(123_457, 1) == Decimal(123_457, 1);
  }

  lemma {:induction false} SplitPow(a: nat, b: nat)
    ensures Pow10(a + b) == Pow10(a) * Pow10(b)
  {
    if b > 0 {
      SplitPow(a, b - 1);
      Shift(Pow10(a), Pow10(b - 1));
    }
  }

  lemma QuotientBound(m: nat, p: nat, q: nat)
    requires p > 0 && m < q * p
    ensures m / p < q
  {
    if m / p >= q { assert (m / p) * p >= q * p by { MulLe(q, m / p, p); } }
  }

  // ----- printing and parsing -----

  function Fixed(ds: string, e: int): string {
    if e >= 0 then ds + Zeros(e)
    else if |ds| > -e then ds[..|ds| + e] + "." + ds[|ds| + e..]
    else "0." + Zeros(-e - |ds|) + ds
  }

  function Scientific(ds: string, x: int): string
    requires ds != []
  {
    var size := if x < 0 then -x else x;
    var exponent := if size < 100 then Pad(size, 2) else Digits(size);
    ds[..1] + (if |ds| > 1 then "." + ds[1..] else "") + "e" + (if x < 0 then "-" else "+") + exponent
  }

  /** What "%g" prints: six significant digits, trailing zeros dropped, exponent form outside 1e-4 .. 1e6. */
  function Format(d: Decimal): string {
    var r := Round6(d);
    var ds := Digits(r.mantissa);
    var x := |ds| - 1 + r.exponent;
    if -4 <= x < SIGNIFICANT then Fixed(ds, r.exponent) else Scientific(ds, x)
  }

  /** Index of the first `c`, or the length. */
  function Find(s: string, c: char): (i: nat)
    ensures i <= |s| && (i < |s| ==> s[i] == c) && forall j :: 0 <= j < i ==> s[j] != c
  {
    if s == [] || s[0] == c then 0 else 1 + Find(s[1..], c)
  }

  function ParseExponent(s: string): (r: Option<int>) {
    if |s| < 2 then None
    else if !AllDigits(s[1..]) then None
    else if s[0] == '+' then Some(ParseNat(s[1..]))
    else if s[0] == '-' then Some(0 - ParseNat(s[1..]) as int)
    else None
  }

  /** Digits with an optional point, scaled by a power of ten. */
  function ParseBody(body: string, exponent: int): (r: Option<Decimal>)
    ensures r.Some? ==> Normal(r.value)
  {
    var j := Find(body, '.');
    var whole, frac := body[..j], if j == |body| then [] else body[j + 1..];
    if whole + frac == [] || !AllDigits(whole + frac) then None
    else Some(Normalize(ParseNat(whole + frac), exponent - |frac|))
  }

  /** Digits with an optional point and an optional signed exponent. */
  function Parse(s: string): (r: Option<Decimal>)
    ensures r.Some? ==> Normal(r.value)
  {
    var i := Find(s, 'e');
    var exponent := if i == |s| then Some(0) else ParseExponent(s[i + 1..]);
    if exponent.None? then None else ParseBody(s[..i], exponent.value)
  }

  lemma FindIn(a: string, c: char, b: string)
    requires c !in a
    ensures Find(a, c) == |a|
    ensures Find(a + [c] + b, c) == |a|
  {
    var s := a + [c] + b;
    assert s[|a|] == c && forall k :: 0 <= k < |a| ==> s[k] == a[k];
  }

  lemma NotInDigits(s: string, c: char)
    requires AllDigits(s) && !IsDigit(c)
    ensures c !in s
  {}

  lemma BodyPointed(whole: string, frac: string, exponent: int)
    requires AllDigits(whole) && AllDigits(frac) && whole != []
    ensures ParseBody(whole + "." + frac, exponent) == Some(Normalize(ParseNat(whole + frac), exponent - |frac|))
  {
    hide Normalize, ParseNat, IsDigit, Find;
    var body := whole + "." + frac;
    NotInDigits(whole, '.') by { assert !IsDigit('.') by { PointIsNoDigit(); } }
    FindIn(whole, '.', frac);
    assert body == whole + ['.'] + frac;
    assert body[..|whole|] == whole && body[|whole| + 1..] == frac;
    assert AllDigits(whole + frac);
  }

  lemma PointIsNoDigit()
    ensures !IsDigit('.') && !IsDigit('e') && !IsDigit('|')
  {}

  lemma BodyWhole(whole: string, exponent: int)
    requires AllDigits(whole) && whole != []
    ensures ParseBody(whole, exponent) == Some(Normalize(ParseNat(whole), exponent))
  {
    hide Normalize, ParseNat, Find;
    NotInDigits(whole, '.');
    FindIn(whole, '.', []);
    assert whole[..|whole|] == whole && whole + [] == whole;
  }

  lemma ParsePlain(s: string)
    requires 'e' !in s
    ensures Parse(s) == ParseBody(s, 0)
  {
    hide ParseBody, ParseExponent, Find;
    FindIn(s, 'e', []);
    assert s[..|s|] == s;
  }

  lemma ParseScaled(body: string, tail: string)
    requires 'e' !in body && ParseExponent(tail).Some?
    ensures Parse(body + "e" + tail) == ParseBody(body, ParseExponent(tail).value)
  {
    hide ParseBody, ParseExponent, Find;
    FindIn(body, 'e', tail);
    var s := body + "e" + tail;
    assert s == body + ['e'] + tail;
    assert s[..|body|] == body && s[|body| + 1..] == tail;
  }

  lemma FixedRoundTrip(d: Decimal)
    requires Normal(d) && d.mantissa > 0
    ensures Parse(Fixed(Digits(d.mantissa), d.exponent)) == Some(d)
  {
    hide Parse, Normalize, ParseBody, ParseNat, Digits, IsDigit, Normal;
    var ds, e := Digits(d.mantissa), d.exponent;
    DigitsRoundTrip(d.mantissa);
    PointIsNoDigit();
    NotInDigits(ds, 'e');
    if e >= 0 {
      var s := ds + Zeros(e);
      TrailingZeros(ds, e);
      NotInDigits(s, 'e');
      ParsePlain(s);
      BodyWhole(s, 0);
      NormalizeScaled(d, e);
    } else if |ds| > -e {
      var whole, frac := ds[..|ds| + e], ds[|ds| + e..];
      assert whole + frac == ds;
      ParsePlain(whole + "." + frac);
      BodyPointed(whole, frac, 0);
      NormalizeSelf(d);
    } else {
      var frac := Zeros(-e - |ds|) + ds;
      LeadingZeros(-e - |ds|, ds);
      LeadingZeros(1, frac);
      assert Zeros(1) == "0" by { assert Zeros(0) == []; }
      assert "0." + Zeros(-e - |ds|) + ds == "0" + "." + frac;
      NotInDigits(frac, 'e');
      NotInDigits(Zeros(1), 'e');
      ParsePlain("0" + "." + frac);
      BodyPointed("0", frac, 0);
      NormalizeSelf(d);
    }
  }

  lemma NormalizeSelf(d: Decimal)
    requires Normal(d) && d.mantissa > 0
    ensures Normalize(d.mantissa, d.exponent) == d
  {}

  lemma ParseExponentOf(x: int)
    ensures var size := if x < 0 then -x else x;
            ParseExponent((if x < 0 then "-" else "+") + (if size < 100 then Pad(size, 2) else Digits(size))) == Some(x)
  {
    var size := if x < 0 then -x else x;
    var ds := if size < 100 then Pad(size, 2) else Digits(size);
    assert Pow10(0) == 1 && Pow10(1) == 10 && Pow10(2) == 100;
    if size < 100 { PadRoundTrip(size, 2); } else { DigitsRoundTrip(size); }
    var s := (if x < 0 then "-" else "+") + ds;
    assert s[1..] == ds;
  }

  lemma ScientificRoundTrip(d: Decimal)
    requires Normal(d) && d.mantissa > 0
    ensures var ds := Digits(d.mantissa); Parse(Scientific(ds, |ds| - 1 + d.exponent)) == Some(d)
  {
    hide Parse, Normalize, ParseBody, ParseNat, ParseExponent, Digits, Pad, IsDigit, Normal;
    var ds := Digits(d.mantissa);
    var x := |ds| - 1 + d.exponent;
    var size := if x < 0 then -x else x;
    var tail := (if x < 0 then "-" else "+") + (if size < 100 then Pad(size, 2) else Digits(size));
    var body := ds[..1] + (if |ds| > 1 then "." + ds[1..] else "");
    assert Scientific(ds, x) == body + "e" + tail;
    ParseExponentOf(x);
    DigitsRoundTrip(d.mantissa);
    NormalizeSelf(d);
    PointIsNoDigit();
    NotInDigits(ds, 'e');
    assert 'e' !in body;
    ParseScaled(body, tail);
    if |ds| > 1 {
      assert ds[..1] + ds[1..] == ds;
      assert body == ds[..1] + "." + ds[1..];
      BodyPointed(ds[..1], ds[1..], x);
    } else {
      assert body == ds;
      BodyWhole(ds, x);
    }
  }

  lemma ZeroRoundTrip()
    ensures Parse(Format(Decimal(0, 0))) == Some(Decimal(0, 0))
  {
    var z := Decimal(0, 0);
    assert Digits(0) == "0";
    assert Round6(z) == z;
    assert Zeros(0) == [] && "0" + [] == "0";
    assert Format(z) == "0";
    ParsePlain("0");
    BodyWhole("0", 0);
    assert ParseNat("0"[..0]) == 0;
  }

  /** Printing a strike and reading it back gives the strike rounded to six significant digits. */
  lemma FormatParse(d: Decimal)
    requires Normal(d)
    ensures Parse(Format(d)) == Some(Round6(d))
  {
    hide Parse, Normalize, Digits, Fixed, Scientific, RoundMantissa;
    Round6Facts(d);
    if Round6(d).mantissa > 0 {
      FixedRoundTrip(Round6(d));
      ScientificRoundTrip(Round6(d));
    } else {
      ZeroRoundTrip();
      ZeroFormat(d);
    }
  }

  lemma ZeroFormat(d: Decimal)
    requires Normal(d) && Round6(d) == Decimal(0, 0)
    ensures Format(d) == Format(Decimal(0, 0))
  {
    assert |Digits(0)| == 1;
  }

  // ----- what is printed, letter by letter -----

  /** Rounding is to nearest, and a tie goes to the even neighbour. */
  lemma RoundsToNearest(m: nat, p: nat)
    requires p > 0
    ensures var q := RoundMantissa(m, p);
            && 2 * (q * p - m) <= p && 2 * (m - q * p) <= p
            && (2 * (q * p - m) == p || 2 * (m - q * p) == p ==> q % 2 == 0)
  {
    var q, r := m / p, m % p;
    assert m == q * p + r && (q + 1) * p == q * p + p;
  }

  lemma DigitsGrow(n: nat, text: string, d: nat, c: char)
    requires Digits(n) == text && n > 0 && d < 10 && c == DigitChar(d)
    ensures Digits(n * 10 + d) == text + [c]
  {
    assert (n * 10 + d) / 10 == n && (n * 10 + d) % 10 == d;
  }

  lemma DigitTexts()
    ensures Digits(0) == "0" && Digits(1) == "1" && Digits(245) == "245"
    ensures Digits(245005) == "245005" && Digits(123457) == "123457"
  {
    DigitsGrow(2, "2", 4, '4');
    DigitsGrow(24, "24", 5, '5');
    DigitsGrow(245, "245", 0, '0');
    DigitsGrow(2450, "2450", 0, '0');
    DigitsGrow(24500, "24500", 5, '5');
    DigitsGrow(1, "1", 2, '2');
    DigitsGrow(12, "12", 3, '3');
    DigitsGrow(123, "123", 4, '4');
    DigitsGrow(1234, "1234", 5, '5');
    DigitsGrow(12345, "12345", 7, '7');
  }

  /** Whole and fractional strikes, the last fixed form and the first exponent form at either end. */
  lemma PrintedStrikes()
    ensures Format(Decimal(0, 0)) == "0" && Format(Decimal(245, 2)) == "24500"
    ensures Format(Decimal(245005, -1)) == "24500.5"
    ensures Format(Decimal(1, -4)) == "0.0001" && Format(Decimal(1, -5)) == "1e-05"
    ensures Format(Decimal(1, 5)) == "100000" && Format(Decimal(1, 6)) == "1e+06"
    ensures Format(Decimal(1234567, 0)) == "1.23457e+06"
  {
    DigitTexts();
    SevenDigitsRound(1_234_567);
    ZeroTexts();
    hide Digits, Normalize, RoundMantissa, Pow10;
    FixedTexts();
    ExponentTexts();
  }

  lemma ZeroTexts()
    ensures Zeros(0) == "" && Zeros(2) == "00" && Zeros(3) == "000" && Zeros(5) == "00000"
    ensures Pad(5, 2) == "05" && Pad(6, 2) == "06"
  {
    assert Zeros(1) == "0" && Zeros(4) == "0000";
    assert Pad(5, 1) == "5" && Pad(0, 1) == "0" && Pad(6, 1) == "6" && Pad(0, 0) == "";
  }

  lemma FixedTexts()
    ensures Fixed("0", 0) == "0" && Fixed("245", 2) == "24500" && Fixed("1", 5) == "100000"
    ensures Fixed("245005", -1) == "24500.5" && Fixed("1", -4) == "0.0001"
  {
    ZeroTexts();
    hide Zeros;
    assert "245005"[..5] == "24500" && "245005"[5..] == "5";
  }

  lemma ExponentTexts()
    ensures Scientific("1", -5) == "1e-05" && Scientific("1", 6) == "1e+06"
    ensures Scientific("123457", 6) == "1.23457e+06"
  {
    ZeroTexts();
    hide Pad, Digits;
    assert "123457"[..1] == "1" && "123457"[1..] == "23457" && "1"[..1] == "1";
  }

  lemma {:induction false} PadParse(s: string)
    requires AllDigits(s)
    ensures Pad(ParseNat(s), |s|) == s
  {
    if s != [] {
      var front, last := s[..|s| - 1], s[|s| - 1];
      PadParse(front);
      var n := ParseNat(front);
      assert (n * 10 + DigitValue(last)) / 10 == n && (n * 10 + DigitValue(last)) % 10 == DigitValue(last);
      assert s == front + [last];
    }
  }

  /** Texts the printer does not write but a strike may come as: a short exponent, trailing and leading zeros. */
  lemma OtherForms()
    ensures Parse("1e+5") == Some(Decimal(1, 5)) && Parse("050.0") == Some(Decimal(5, 1))
    ensures Parse("") == None && Parse(".") == None && Parse("1e") == None && Parse("1e5") == None
  {
    hide Parse;
    ShortExponent();
    ZerosAround();
    Malformed();
  }

  lemma ShortExponent()
    ensures Parse("1e+5") == Some(Decimal(1, 5))
  {
    SignedFive();
    NumberTexts();
    assert "1" + "e" + "+5" == "1e+5";
    hide Parse, ParseBody, ParseNat, ParseExponent, Normalize;
    ParseScaled("1", "+5");
    BodyWhole("1", 5);
  }

  lemma ZerosAround()
    ensures Parse("050.0") == Some(Decimal(5, 1))
  {
    NumberTexts();
    assert "050" + "." + "0" == "050.0" && "050" + "0" == "0500" && AllDigits("050") && AllDigits("0");
    hide Parse, ParseBody, ParseNat, Normalize;
    ParsePlain("050.0");
    BodyPointed("050", "0", 0);
  }

  lemma SignedFive()
    ensures ParseExponent("+5") == Some(5)
  {
    assert "+5"[1..] == "5" && "5"[..0] == "" && ParseNat("") == 0;
  }

  lemma NumberTexts()
    ensures AllDigits("0500") && ParseNat("0500") == 500 && AllDigits("1") && ParseNat("1") == 1
    ensures Normalize(500, -1) == Decimal(5, 1) && Normalize(1, 5) == Decimal(1, 5)
  {
    assert ParseNat("") == 0 && "0"[..0] == "" && "1"[..0] == "";
    assert "05"[..1] == "0" && "050"[..2] == "05" && "0500"[..3] == "050";
    assert ParseNat("0") == 0 && ParseNat("05") == 5 && ParseNat("050") == 50;
    assert Normalize(5, 1) == Decimal(5, 1) && Normalize(50, 0) == Decimal(5, 1);
  }

  lemma Malformed()
    ensures Parse("") == None && Parse(".") == None && Parse("1e") == None && Parse("1e5") == None
  {
    assert Find("", 'e') == 0 && Find("", '.') == 0;
    assert Find(".", 'e') == 1 && Find(".", '.') == 0;
    assert Find("1e", 'e') == 1 && "1e"[2..] == "";
    assert Find("1e5", 'e') == 1 && "1e5"[2..] == "5";
  }
}
