/** Option symbols, printed and parsed: trading/market_data/symbols.py. */
module Symbols {
  import opened Prelude
  import D = Decimals

  type Decimal = D.Decimal

  datatype Date = Date(year: int, month: int, day: int)

  // ----- dates -----

  predicate IsLeap(y: int) { y % 4 == 0 && (y % 100 != 0 || y % 400 == 0) }

  function DaysIn(y: int, m: int): int {
    if m == 2 then (if IsLeap(y) then 29 else 28)
    else if m == 4 || m == 6 || m == 9 || m == 11 then 30
    else 31
  }

  predicate ValidDate(d: Date) {
    1 <= d.year <= 9999 && 1 <= d.month <= 12 && 1 <= d.day <= DaysIn(d.year, d.month)
  }

  function Iso(d: Date): string
    requires ValidDate(d)
  {
    D.Pad(d.year, 4) + "-" + D.Pad(d.month, 2) + "-" + D.Pad(d.day, 2)
  }

  function ParseIso(s: string): (r: Option<Date>)
    ensures r.Some? ==> ValidDate(r.value)
  {
    if |s| != 10 || s[4] != '-' || s[7] != '-' || !D.AllDigits(s[..4] + s[5..7] + s[8..]) then None
    else
      assert forall i :: 0 <= i < 4 ==> s[..4][i] == (s[..4] + s[5..7] + s[8..])[i];
      assert forall i :: 0 <= i < 2 ==> s[5..7][i] == (s[..4] + s[5..7] + s[8..])[4 + i];
      assert forall i :: 0 <= i < 2 ==> s[8..][i] == (s[..4] + s[5..7] + s[8..])[6 + i];
      var d := Date(D.ParseNat(s[..4]), D.ParseNat(s[5..7]), D.ParseNat(s[8..]));
      if ValidDate(d) then Some(d) else None
  }

  lemma IsoRoundTrip(d: Date)
    requires ValidDate(d)
    ensures ParseIso(Iso(d)) == Some(d)
    ensures '|' !in Iso(d)
  {
    hide D.Pad, D.ParseNat, D.IsDigit;
    var y, m, n := D.Pad(d.year, 4), D.Pad(d.month, 2), D.Pad(d.day, 2);
    var s := Iso(d);
    assert s[..4] == y && s[5..7] == m && s[8..] == n;
    assert D.AllDigits(y + m + n);
    SmallPowers();
    D.PadRoundTrip(d.year, 4);
    D.PadRoundTrip(d.month, 2);
    D.PadRoundTrip(d.day, 2);
    D.PointIsNoDigit();
    D.NotInDigits(y, '|');
    D.NotInDigits(m, '|');
    D.NotInDigits(n, '|');
  }

  /** And only the ISO text of a date reads as that date. */
  lemma IsoOnly(s: string, d: Date)
    requires ParseIso(s) == Some(d)
    ensures s == Iso(d)
  {
    hide D.Pad, D.ParseNat, D.IsDigit;
    var y, m, n := s[..4], s[5..7], s[8..];
    assert forall i :: 0 <= i < 4 ==> y[i] == (y + m + n)[i];
    assert forall i :: 0 <= i < 2 ==> m[i] == (y + m + n)[4 + i];
    assert forall i :: 0 <= i < 2 ==> n[i] == (y + m + n)[6 + i];
    D.PadParse(y);
    D.PadParse(m);
    D.PadParse(n);
    assert s == y + [s[4]] + m + [s[7]] + n;
  }

  /** Exactly the dates of the Gregorian calendar from year 1 to 9999. */
  lemma CalendarFacts(y: int, m: int, d: int)
    ensures ValidDate(Date(y, m, d)) <==>
            && 0 < y < 10000 && 0 < m < 13 && 0 < d < 32
            && (d == 31 ==> m != 2 && m != 4 && m != 6 && m != 9 && m != 11)
            && (d == 30 ==> m != 2)
            && (d == 29 && m == 2 ==> y % 400 == 0 || (y % 4 == 0 && y % 100 != 0))
  {}

  lemma SmallPowers()
    ensures D.Pow10(2) == 100 && D.Pow10(4) == 10000
  {
    assert D.Pow10(0) == 1;
    assert D.Pow10(1) == 10;
    assert D.Pow10(3) == 1000;
  }

  // ----- strip and upper -----

  predicate IsSpace(c: char) { c == ' ' || c == '\t' || c == '\n' || c == '\r' }

  function Strip(s: string): string {
    if s == [] then []
    else if IsSpace(s[0]) then Strip(s[1..])
    else if IsSpace(s[|s| - 1]) then Strip(s[..|s| - 1])
    else s
  }

  function UpperChar(c: char): char {
    if 'a' <= c <= 'z' then c - 'a' + 'A' else c
  }

  function Upper(s: string): string {
    seq(|s|, i requires 0 <= i < |s| => UpperChar(s[i]))
  }

  /** What `.strip().upper()` leaves. */
  function Clean(s: string): string { Upper(Strip(s)) }

  lemma {:induction false} StripKeepsBar(s: string)
    ensures '|' in Strip(s) <==> '|' in s
  {
    if s != [] {
      if IsSpace(s[0]) {
        StripKeepsBar(s[1..]);
        assert s == [s[0]] + s[1..];
      } else if IsSpace(s[|s| - 1]) {
        StripKeepsBar(s[..|s| - 1]);
        assert s == s[..|s| - 1] + [s[|s| - 1]];
      }
    }
  }

  lemma CleanKeepsBar(s: string)
    ensures '|' in Clean(s) <==> '|' in s
  {
    StripKeepsBar(s);
    var t := Strip(s);
    assert forall i :: 0 <= i < |t| ==> (UpperChar(t[i]) == '|' <==> t[i] == '|');
    if '|' in t {
      var i :| 0 <= i < |t| && t[i] == '|';
      assert Upper(t)[i] == '|';
    }
  }

  /** Surrounding blanks and letter case do not matter; nothing lower-case and no blank end is left. */
  lemma CleanFacts(s: string)
    ensures Clean([' '] + s) == Clean(s) == Clean(s + [' '])
    ensures forall i :: 0 <= i < |Clean(s)| ==> !('a' <= Clean(s)[i] <= 'z')
    ensures Clean(s) != [] ==> !IsSpace(Clean(s)[0]) && !IsSpace(Clean(s)[|Clean(s)| - 1])
  {
    assert ([' '] + s)[1..] == s;
    StripEnd(s);
    StripEnds(s);
  }

  lemma {:induction false} StripEnd(s: string)
    ensures Strip(s + [' ']) == Strip(s)
  {
    var t := s + [' '];
    assert t[..|s|] == s;
    if s == [] {
      assert t[1..] == [];
    } else if IsSpace(s[0]) {
      StripEnd(s[1..]);
      assert t[1..] == s[1..] + [' '];
    }
  }

  lemma {:induction false} StripEnds(s: string)
    ensures Strip(s) != [] ==> !IsSpace(Strip(s)[0]) && !IsSpace(Strip(s)[|Strip(s)| - 1])
  {
    if s != [] {
      if IsSpace(s[0]) { StripEnds(s[1..]); } else if IsSpace(s[|s| - 1]) { StripEnds(s[..|s| - 1]); }
    }
  }

  // ----- splitting on the separator -----

  function Split(s: string): (parts: seq<string>)
    ensures parts != []
  {
    var i := D.Find(s, '|');
    if i == |s| then [s] else [s[..i]] + Split(s[i + 1..])
  }

  lemma {:induction false} SplitPlain(s: string)
    ensures |Split(s)| == 1 <==> '|' !in s
    ensures '|' !in s ==> Split(s) == [s]
  {
    var i := D.Find(s, '|');
    if i < |s| { assert s[i] == '|'; } else { assert forall j :: 0 <= j < |s| ==> s[j] != '|'; }
  }

  lemma SplitHead(a: string, b: string)
    requires '|' !in a
    ensures Split(a + "|" + b) == [a] + Split(b)
  {
    hide D.Find;
    var s := a + "|" + b;
    D.FindIn(a, '|', b);
    assert s == a + ['|'] + b;
    assert s[..|a|] == a && s[|a| + 1..] == b;
  }

  /** Splitting two texts joined by the separator splits each of them. */
  lemma {:induction false} SplitJoined(a: string, b: string)
    ensures Split(a + "|" + b) == Split(a) + Split(b)
  {
    hide Split, D.Find;
    var i := D.Find(a, '|');
    if i == |a| {
      assert forall j :: 0 <= j < |a| ==> a[j] != '|';
      SplitPlain(a);
      SplitHead(a, b);
    } else {
      var first, rest := a[..i], a[i + 1..];
      assert a == first + "|" + rest;
      assert a + "|" + b == first + "|" + (rest + "|" + b);
      SplitHead(first, rest);
      SplitHead(first, rest + "|" + b);
      SplitJoined(rest, b);
      assert [first] + (Split(rest) + Split(b)) == ([first] + Split(rest)) + Split(b);
    }
  }

  // ----- symbols -----

  predicate IsOptionType(t: string) { t == "CE" || t == "PE" }

  /** None where the source raises: an option type other than CE or PE. */
  function Make(underlying: string, expiry: Date, strike: Decimal, optionType: string): Option<string>
    requires ValidDate(expiry)
  {
    var t := Clean(optionType);
    if !IsOptionType(t) then None
    else Some(Clean(underlying) + "|" + Iso(expiry) + "|" + D.Format(strike) + "|" + t)
  }

  datatype Contract = Contract(underlying: string, expiry: Date, strike: Decimal, optionType: string)

  function ParseSymbol(symbol: string): Option<Contract> {
    var parts := Split(symbol);
    if |parts| != 4 then None
    else
      var expiry, strike := ParseIso(parts[1]), D.Parse(parts[2]);
      if expiry.None? || strike.None? || !IsOptionType(parts[3]) then None
      else Some(Contract(parts[0], expiry.value, strike.value, parts[3]))
  }

  lemma NoBarInFormat(d: Decimal)
    ensures '|' !in D.Format(d)
  {
    hide D.Digits, D.Round6, D.Pad;
    D.PointIsNoDigit();
    var r := D.Round6(d);
    var ds := D.Digits(r.mantissa);
    var x := |ds| - 1 + r.exponent;
    var size := if x < 0 then -x else x;
    D.NotInDigits(ds, '|');
    D.NotInDigits(D.Digits(size), '|');
    D.NotInDigits(D.Pad(size, 2), '|');
    if r.exponent >= 0 { D.NotInDigits(D.Zeros(r.exponent), '|'); }
    if -r.exponent - |ds| >= 0 { D.NotInDigits(D.Zeros(-r.exponent - |ds|), '|'); }
  }

  lemma MadeParts(underlying: string, expiry: Date, strike: Decimal, optionType: string)
    requires ValidDate(expiry) && Make(underlying, expiry, strike, optionType).Some?
    ensures Split(Make(underlying, expiry, strike, optionType).value)
         == Split(Clean(underlying)) + [Iso(expiry), D.Format(strike), Clean(optionType)]
  {
    hide Clean, Split, Iso, D.Format;
    var u, e, k, t := Clean(underlying), Iso(expiry), D.Format(strike), Clean(optionType);
    IsoRoundTrip(expiry);
    NoBarInFormat(strike);
    SplitPlain(e);
    SplitPlain(k);
    SplitPlain(t);
    SplitJoined(k, t);
    SplitJoined(e, k + "|" + t);
    SplitJoined(u, e + "|" + (k + "|" + t));
    assert u + "|" + e + "|" + k + "|" + t == u + "|" + (e + "|" + (k + "|" + t));
    assert [e] + ([k] + [t]) == [e, k, t];
  }

  /**
    Parsing a made symbol gives back its contract, the strike rounded to six digits, exactly when
    the underlying is free of the separator; otherwise it is rejected.
  */
  lemma ParseMade(underlying: string, expiry: Date, strike: Decimal, optionType: string)
    requires ValidDate(expiry) && D.Normal(strike) && Make(underlying, expiry, strike, optionType).Some?
    ensures ParseSymbol(Make(underlying, expiry, strike, optionType).value)
         == if '|' in underlying then None
            else Some(Contract(Clean(underlying), expiry, D.Round6(strike), Clean(optionType)))
  {
    hide Clean, Split, Iso, D.Format, Make, ParseIso, D.Parse, D.Round6;
    MadeParts(underlying, expiry, strike, optionType);
    MadeType(underlying, expiry, strike, optionType);
    CleanKeepsBar(underlying);
    SplitPlain(Clean(underlying));
    IsoRoundTrip(expiry);
    D.FormatParse(strike);
  }

  lemma MadeType(underlying: string, expiry: Date, strike: Decimal, optionType: string)
    requires ValidDate(expiry) && Make(underlying, expiry, strike, optionType).Some?
    ensures IsOptionType(Clean(optionType))
  {}

  /** The round trip is exact if and only if the underlying has no separator and the strike at most six digits. */
  lemma RoundTripIff(underlying: string, expiry: Date, strike: Decimal, optionType: string)
    requires ValidDate(expiry) && D.Normal(strike) && Make(underlying, expiry, strike, optionType).Some?
    ensures (ParseSymbol(Make(underlying, expiry, strike, optionType).value)
             == Some(Contract(Clean(underlying), expiry, strike, Clean(optionType))))
            <==> '|' !in underlying && D.SixDigits(strike)
  {
    hide Clean, Make, ParseSymbol, D.Round6, D.SixDigits;
    ParseMade(underlying, expiry, strike, optionType);
    D.Round6Facts(strike);
  }

  /** Different texts split differently. */
  lemma {:induction false} SplitInjective(s: string, t: string)
    requires Split(s) == Split(t)
    ensures s == t
  {
    hide D.Find;
    var i, j := D.Find(s, '|'), D.Find(t, '|');
    if i == |s| {
      assert |Split(t)| == 1;
    } else {
      assert |Split(s)| > 1 && j < |t|;
      assert s == s[..i] + ['|'] + s[i + 1..] && t == t[..j] + ['|'] + t[j + 1..];
      assert Split(s)[0] == s[..i] && Split(t)[0] == t[..j];
      assert Split(s)[1..] == Split(s[i + 1..]) && Split(t)[1..] == Split(t[j + 1..]);
      SplitInjective(s[i + 1..], t[j + 1..]);
    }
  }

  /** Two contracts share a symbol exactly when they agree up to six digits of strike, separators or not. */
  lemma SymbolsCollideIff(u: string, e: Date, k: Decimal, t: string, v: string, f: Date, l: Decimal, s: string)
    requires ValidDate(e) && ValidDate(f) && D.Normal(k) && D.Normal(l)
    requires Make(u, e, k, t).Some? && Make(v, f, l, s).Some?
    ensures Make(u, e, k, t) == Make(v, f, l, s) <==>
            Clean(u) == Clean(v) && e == f && D.Round6(k) == D.Round6(l) && Clean(t) == Clean(s)
  {
    hide Clean, D.Round6, D.Format, D.Parse, Split, Iso, ParseIso;
    if Make(u, e, k, t) == Make(v, f, l, s) {
      MadeParts(u, e, k, t);
      MadeParts(v, f, l, s);
      LastThree(Split(Clean(u)), [Iso(e), D.Format(k), Clean(t)], Split(Clean(v)), [Iso(f), D.Format(l), Clean(s)]);
      SplitInjective(Clean(u), Clean(v));
      IsoRoundTrip(e);
      IsoRoundTrip(f);
      D.FormatParse(k);
      D.FormatParse(l);
    }
    if D.Round6(k) == D.Round6(l) { SameFormat(k, l); }
  }

  lemma LastThree(a: seq<string>, b: seq<string>, c: seq<string>, d: seq<string>)
    requires |b| == 3 && |d| == 3 && a + b == c + d
    ensures a == c && b[0] == d[0] && b[1] == d[1] && b[2] == d[2]
  {
    assert |a| == |c|;
    assert a == (a + b)[..|a|] && c == (c + d)[..|a|];
    assert forall i :: 0 <= i < 3 ==> b[i] == (a + b)[|a| + i] && d[i] == (c + d)[|a| + i];
  }

  lemma SameFormat(k: Decimal, l: Decimal)
    requires D.Round6(k) == D.Round6(l)
    ensures D.Format(k) == D.Format(l)
  {}

  const YEAR_END := Date(2025, 12, 30)

  /** A seven-digit strike does not survive the round trip, and its symbol is also that of the next strike. */
  lemma SevenDigitsLost()
    ensures ValidDate(YEAR_END) && Make("NIFTY", YEAR_END, D.Decimal(1_234_567, 0), "CE").Some?
    ensures var symbol := Make("NIFTY", YEAR_END, D.Decimal(1_234_567, 0), "CE").value;
            && ParseSymbol(symbol) == Some(Contract("NIFTY", YEAR_END, D.Decimal(123_457, 1), "CE"))
            && Make("NIFTY", YEAR_END, D.Decimal(1_234_568, 0), "CE") == Some(symbol)
  {
    AlreadyClean("NIFTY");
    AlreadyClean("CE");
    hide Clean, ParseSymbol, Iso, D.Format, D.Round6, D.Normal;
    D.SevenDigitsRound(1_234_567);
    D.SevenDigitsRound(1_234_568);
    assert '|' !in "NIFTY";
    ParseMade("NIFTY", YEAR_END, D.Decimal(1_234_567, 0), "CE");
    SameFormat(D.Decimal(1_234_567, 0), D.Decimal(1_234_568, 0));
  }

  lemma AlreadyClean(s: string)
    requires s != [] && forall i :: 0 <= i < |s| ==> 'A' <= s[i] <= 'Z'
    ensures Clean(s) == s
  {
    assert Strip(s) == s;
  }

  /** A symbol, letter by letter. */
  lemma SymbolText()
    ensures ValidDate(YEAR_END)
    ensures Make(" Nifty", YEAR_END, D.Decimal(245, 2), "ce") == Some("NIFTY|2025-12-30|24500|CE")
  {
    CleanTexts();
    IsoText();
    D.PrintedStrikes();
    hide Clean, Iso, D.Format;
    assert "NIFTY" + "|" + "2025-12-30" + "|" + "24500" + "|" + "CE" == "NIFTY|2025-12-30|24500|CE";
  }

  lemma CleanTexts()
    ensures Clean(" Nifty") == "NIFTY" && Clean("ce") == "CE"
  {
    assert " Nifty"[1..] == "Nifty" && Strip("Nifty") == "Nifty" && Strip("ce") == "ce";
    assert Upper("Nifty") == "NIFTY" && Upper("ce") == "CE";
  }

  lemma IsoText()
    ensures Iso(YEAR_END) == "2025-12-30"
  {
    var y, m, n := "2025", "12", "30";
    PadText(2025, y);
    PadText(12, m);
    PadText(30, n);
    hide D.Pad;
    assert y + "-" + m + "-" + n == "2025-12-30";
  }

  lemma PadText(n: nat, text: string)
    requires (n == 2025 && text == "2025") || (n == 12 && text == "12") || (n == 30 && text == "30")
    ensures D.Pad(n, |text|) == text
  {
    assert D.Pad(2, 1) == "2" && D.Pad(1, 1) == "1" && D.Pad(3, 1) == "3";
    assert D.Pad(20, 2) == "20" && D.Pad(202, 3) == "202";
  }
}
