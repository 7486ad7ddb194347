/** The instrument master and its two indexes: trading/market_data/instruments.py. */
module Instruments {
  import opened Prelude
  import opened Symbols
  import D = Decimals

  datatype Instrument = Instrument(
    symbol: string, isOption: bool,
    underlying: Option<string>, expiry: Option<Date>, strike: Option<Decimal>, optionType: Option<string>)

  type ByType = map<string, Instrument>

  type ByStrike = map<Decimal, ByType>

  type ByExpiry = map<Date, ByStrike>

  type Tree = map<string, ByExpiry>

  /** What `load` keeps: complete option instruments. */
  predicate Loadable(i: Instrument) {
    i.isOption && i.underlying.Some? && i.expiry.Some? && i.strike.Some? && i.optionType.Some?
        && IsOptionType(i.optionType.value)
  }

  function ContractOf(i: Instrument): Contract
    requires Loadable(i)
  {
    Contract(i.underlying.value, i.expiry.value, i.strike.value, i.optionType.value)
  }

  // ----- the nested tree -----

  function Lookup(tree: Tree, c: Contract): Option<Instrument> {
    if c.underlying !in tree then None
    else if c.expiry !in tree[c.underlying] then None
    else if c.strike !in tree[c.underlying][c.expiry] then None
    else if c.optionType !in tree[c.underlying][c.expiry][c.strike] then None
    else Some(tree[c.underlying][c.expiry][c.strike][c.optionType])
  }

  /** The chain of setdefault calls, then the assignment. */
  function Put(tree: Tree, c: Contract, i: Instrument): Tree {
    var expiries: ByExpiry := if c.underlying in tree then tree[c.underlying] else map[];
    var strikes: ByStrike := if c.expiry in expiries then expiries[c.expiry] else map[];
    var types: ByType := if c.strike in strikes then strikes[c.strike] else map[];
    tree[c.underlying := expiries[c.expiry := strikes[c.strike := types[c.optionType := i]]]]
  }

  lemma LookupPut(tree: Tree, c: Contract, i: Instrument, d: Contract)
    ensures Lookup(Put(tree, c, i), d) == if d == c then Some(i) else Lookup(tree, d)
  {}

  // ----- the last loadable instrument with a property -----

  /** A complete call or put with the property. */
  ghost predicate Kept(i: Instrument, p: Instrument -> bool) {
    && i.isOption && i.underlying.Some? && i.expiry.Some? && i.strike.Some?
    && (i.optionType == Some("CE") || i.optionType == Some("PE"))
    && p(i)
  }

  ghost predicate IsLastKept(instruments: seq<Instrument>, p: Instrument -> bool, n: int) {
    0 <= n < |instruments| && Kept(instruments[n], p) && forall m :: n < m < |instruments| ==> !Kept(instruments[m], p)
  }

  function LastWith(instruments: seq<Instrument>, p: Instrument -> bool): Option<Instrument> {
    if instruments == [] then None
    else
      var last := instruments[|instruments| - 1];
      if Loadable(last) && p(last) then Some(last) else LastWith(instruments[..|instruments| - 1], p)
  }

  /** The last complete call or put with the property, none only if there is none. */
  lemma {:induction false} LastWithIs(instruments: seq<Instrument>, p: Instrument -> bool)
    ensures var r := LastWith(instruments, p);
            && (r.None? <==> forall n :: 0 <= n < |instruments| ==> !Kept(instruments[n], p))
            && (r.Some? ==> exists n :: IsLastKept(instruments, p, n) && instruments[n] == r.value)
  {
    if instruments != [] {
      var front, last := instruments[..|instruments| - 1], instruments[|instruments| - 1];
      LastWithIs(front, p);
      assert forall n :: 0 <= n < |front| ==> front[n] == instruments[n];
      if Loadable(last) && p(last) {
        assert IsLastKept(instruments, p, |instruments| - 1);
      } else if n :| IsLastKept(front, p, n) && front[n] == LastWith(front, p).value {
        assert IsLastKept(instruments, p, n);
      }
    }
  }

  function HasSymbol(s: string): Instrument -> bool {
    (i: Instrument) => i.symbol == s
  }

  function IsContract(c: Contract): Instrument -> bool {
    (i: Instrument) => Loadable(i) && ContractOf(i) == c
  }

  function Loaded(instruments: seq<Instrument>): seq<Instrument> {
    if instruments == [] then []
    else
      var front, last := Loaded(instruments[..|instruments| - 1]), instruments[|instruments| - 1];
      if Loadable(last) then front + [last] else front
  }

  /** Each complete call or put counts once, anything else not at all. */
  lemma LoadedCounts(front: seq<Instrument>, x: Instrument)
    ensures |Loaded([])| == 0
    ensures |Loaded(front + [x])| == |Loaded(front)| + (if Kept(x, (_: Instrument) => true) then 1 else 0)
  {
    assert (front + [x])[..|front|] == front;
  }

  function SymbolSet(instruments: seq<Instrument>): set<string> {
    if instruments == [] then {}
    else
      var front, last := SymbolSet(instruments[..|instruments| - 1]), instruments[|instruments| - 1];
      if Loadable(last) then front + {last.symbol} else front
  }

  function ContractSet(instruments: seq<Instrument>): set<Contract> {
    if instruments == [] then {}
    else
      var front, last := ContractSet(instruments[..|instruments| - 1]), instruments[|instruments| - 1];
      if Loadable(last) then front + {ContractOf(last)} else front
  }

  lemma {:induction false} SymbolLoaded(instruments: seq<Instrument>, s: string)
    ensures LastWith(instruments, HasSymbol(s)).Some? <==> s in SymbolSet(instruments)
  {
    if instruments != [] { SymbolLoaded(instruments[..|instruments| - 1], s); }
  }

  lemma {:induction false} ContractLoaded(instruments: seq<Instrument>, c: Contract)
    ensures LastWith(instruments, IsContract(c)).Some? <==> c in ContractSet(instruments)
  {
    if instruments != [] { ContractLoaded(instruments[..|instruments| - 1], c); }
  }

  // ----- the contracts of one underlying -----

  function TypesAt(types: ByType, u: string, e: Date, k: Decimal): (r: set<Contract>)
    ensures forall c :: c in r <==> c.underlying == u && c.expiry == e && c.strike == k && c.optionType in types
  {
    set t | t in types :: Contract(u, e, k, t)
  }

  function ContractsAt(strikes: ByStrike, u: string, e: Date): (r: set<Contract>)
    ensures forall c :: c in r <==>
            c.underlying == u && c.expiry == e && c.strike in strikes && c.optionType in strikes[c.strike]
  {
    set k, t | k in strikes && t in strikes[k] :: Contract(u, e, k, t)
  }

  function ContractsUnder(tree: Tree, u: string): (r: set<Contract>)
    ensures forall c :: c in r <==> c.underlying == u && Lookup(tree, c).Some?
  {
    if u !in tree then {}
    else set e, k, t | e in tree[u] && k in tree[u][e] && t in tree[u][e][k] :: Contract(u, e, k, t)
  }

  lemma {:induction false} SameSize(types: set<string>, u: string, e: Date, k: Decimal, contracts: set<Contract>)
    requires forall c :: c in contracts <==>
            c.underlying == u && c.expiry == e && c.strike == k && c.optionType in types
    ensures |contracts| == |types|
    decreases |types|
  {
    if t :| t in types {
      var c := Contract(u, e, k, t);
      assert c in contracts;
      SameSize(types - {t}, u, e, k, contracts - {c});
    } else {
      assert contracts == {} && types == {};
    }
  }

  lemma UnionSize<T>(a: set<T>, b: set<T>)
    requires a !! b
    ensures |a + b| == |a| + |b|
  {}

  class InstrumentMaster {
    var bySymbol: map<string, Instrument>
    var tree: Tree
    var refreshedOn: Option<Date>
    var lastSource: Option<string>

    constructor ()
      ensures bySymbol == map[] && tree == map[] && refreshedOn == None && lastSource == None
    {
      bySymbol, tree, refreshedOn, lastSource := map[], map[], None, None;
    }

    method Load(instruments: seq<Instrument>, asOf: Option<Date>, source: Option<string>) returns (count: nat)
      modifies this
      ensures forall s :: Get(s) == LastWith(instruments, HasSymbol(s))
      ensures forall c :: Lookup(tree, c) == LastWith(instruments, IsContract(c))
      ensures count == |Loaded(instruments)| && bySymbol.Keys == SymbolSet(instruments)
      ensures forall c :: Lookup(tree, c).Some? <==> c in ContractSet(instruments)
      ensures AllCanonical(instruments) ==> (Count() == |ContractSet(instruments)| <==> Distinguishable(instruments))
      ensures AllCanonical(instruments) ==>
                forall u, e, k, t :: ValidDate(e) && Make(u, e, k, t).Some? ==>
                  (Get(Make(u, e, k, t).value) == Resolve(u, e, k, t) <==> !Shadowed(instruments, u, e, k, t))
      ensures AllCanonical(instruments) && AllPrintable(instruments) ==>
                forall u, e, k, t :: ValidDate(e) && Printable(k) && Make(u, e, k, t).Some? ==>
                  Get(Make(u, e, k, t).value) == Resolve(u, e, k, t)
      ensures refreshedOn == (if asOf.Some? then asOf else old(refreshedOn))
      ensures lastSource == (if source.Some? then source else old(lastSource))
    {
      hide Lookup, LastWith, AllCanonical, AllPrintable, Printable, Make, Distinguishable, Shadowed, SymbolSet;
      hide ContractSet, Loaded;
      var symbols, contracts, n := BuildIndexes(instruments);
      count := n;
      bySymbol, tree := symbols, contracts;
      if asOf.Some? { refreshedOn := asOf; }
      if source.Some? { lastSource := source; }
      forall s ensures s in bySymbol <==> s in SymbolSet(instruments) { SymbolLoaded(instruments, s); }
      forall c ensures Lookup(tree, c).Some? <==> c in ContractSet(instruments) { ContractLoaded(instruments, c); }
      if AllCanonical(instruments) {
        CountsMatchIff(instruments);
        forall u, e, k, t | ValidDate(e) && Make(u, e, k, t).Some?
          ensures Get(Make(u, e, k, t).value) == Resolve(u, e, k, t) <==> !Shadowed(instruments, u, e, k, t)
        {
          AgreeIff(instruments, u, e, k, t);
        }
        if AllPrintable(instruments) {
          forall u, e, k, t | ValidDate(e) && Printable(k) && Make(u, e, k, t).Some?
            ensures Get(Make(u, e, k, t).value) == Resolve(u, e, k, t)
          {
            IndexesAgree(instruments, u, e, k, t);
          }
        }
      }
    }

    /** The loop of `load`: both indexes built aside, before they are swapped in. */
    static method BuildIndexes(instruments: seq<Instrument>)
        returns (symbols: map<string, Instrument>, contracts: Tree, count: nat)
      ensures forall s :: (if s in symbols then Some(symbols[s]) else None) == LastWith(instruments, HasSymbol(s))
      ensures forall c :: Lookup(contracts, c) == LastWith(instruments, IsContract(c))
      ensures count == |Loaded(instruments)|
    {
      hide Put, Lookup, Loadable;
      symbols, contracts, count := map[], map[], 0;
      var n := 0;
      NothingLoaded();
      while n < |instruments|
        invariant 0 <= n <= |instruments|
        invariant forall s :: (if s in symbols then Some(symbols[s])
                  else None) == LastWith(instruments[..n], HasSymbol(s))
        invariant forall c :: Lookup(contracts, c) == LastWith(instruments[..n], IsContract(c))
        invariant count == |Loaded(instruments[..n])|
      {
        var i := instruments[n];
        assert instruments[..n + 1][..n] == instruments[..n];
        if Loadable(i) {
          forall c ensures Lookup(Put(contracts, ContractOf(i), i), c)
              == LastWith(instruments[..n + 1], IsContract(c)) {
            LookupPut(contracts, ContractOf(i), i, c);
          }
          symbols := symbols[i.symbol := i];
          contracts := Put(contracts, ContractOf(i), i);
          count := count + 1;
        }
        n := n + 1;
      }
      assert instruments[..n] == instruments;
    }

    /** The number of symbols loaded. */
    function Count(): nat
      reads this
    {
      |bySymbol|
    }

    /** The number of contracts loaded for one underlying, summed over its expiries and strikes. */
    method CountFor(underlying: string) returns (n: nat)
      ensures n == |ContractsUnder(tree, Clean(underlying))|
    {
      var u := Clean(underlying);
      if u !in tree { return 0; }
      var expiries := tree[u];
      var left := expiries.Keys;
      ghost var done: set<Contract> := {};
      n := 0;
      while left != {}
        invariant left <= expiries.Keys && n == |done|
        invariant forall c :: c in done <==> c in ContractsUnder(tree, u) && c.expiry !in left
        decreases |left|
      {
        var e :| e in left;
        var here := CountStrikes(expiries[e], u, e);
        UnionSize(done, ContractsAt(expiries[e], u, e));
        n, done, left := n + here, done + ContractsAt(expiries[e], u, e), left - {e};
      }
      assert done == ContractsUnder(tree, u);
    }

    static method CountStrikes(strikes: ByStrike, ghost u: string, ghost e: Date) returns (n: nat)
      ensures n == |ContractsAt(strikes, u, e)|
    {
      var left := strikes.Keys;
      ghost var done: set<Contract> := {};
      n := 0;
      while left != {}
        invariant left <= strikes.Keys && n == |done|
        invariant forall c :: c in done <==> c in ContractsAt(strikes, u, e) && c.strike !in left
        decreases |left|
      {
        var k :| k in left;
        SameSize(strikes[k].Keys, u, e, k, TypesAt(strikes[k], u, e, k));
        UnionSize(done, TypesAt(strikes[k], u, e, k));
        n, done, left := n + |strikes[k]|, done + TypesAt(strikes[k], u, e, k), left - {k};
      }
      assert done == ContractsAt(strikes, u, e);
    }

    function Get(symbol: string): Option<Instrument>
      reads this
    {
      if symbol in bySymbol then Some(bySymbol[symbol]) else None
    }

    function Resolve(underlying: string, expiry: Date, strike: Decimal, optionType: string): Option<Instrument>
      reads this
    {
      Lookup(tree, Contract(Clean(underlying), expiry, strike, Clean(optionType)))
    }
  }

  /** After a load, counting an underlying counts its distinct contracts among the loaded instruments. */
  lemma CountsByUnderlying(tree: Tree, instruments: seq<Instrument>, u: string)
    requires forall c :: Lookup(tree, c).Some? <==> c in ContractSet(instruments)
    ensures |ContractsUnder(tree, u)| == |set c | c in ContractSet(instruments) && c.underlying == u|
  {
    assert ContractsUnder(tree, u) == set c | c in ContractSet(instruments) && c.underlying == u;
  }

  lemma NothingLoaded()
    ensures forall c :: Lookup(map[], c) == None
    ensures forall p :: LastWith([], p) == None
  {}

  // ----- the two indexes agree -----

  /** An instrument built by option_instrument: cleaned fields, and the symbol made from them. */
  predicate Canonical(i: Instrument) {
    Loadable(i) ==>
      && ValidDate(i.expiry.value)
      && Clean(i.underlying.value) == i.underlying.value && Clean(i.optionType.value) == i.optionType.value
      && Some(i.symbol) == Make(i.underlying.value, i.expiry.value, i.strike.value, i.optionType.value)
  }

  /** A strike its symbol keeps whole: at most six digits. */
  ghost predicate Printable(strike: Decimal) {
    D.Normal(strike) && D.SixDigits(strike)
  }

  ghost predicate AllPrintable(instruments: seq<Instrument>) {
    forall i :: 0 <= i < |instruments| && Loadable(instruments[i]) ==> Printable(instruments[i].strike.value)
  }

  ghost predicate AllCanonical(instruments: seq<Instrument>) {
    forall i :: 0 <= i < |instruments| ==> Canonical(instruments[i])
  }

  /** For printable strikes, having the made symbol and being the contract are the same thing. */
  lemma SymbolIsContract(i: Instrument, u: string, e: Date, k: Decimal, t: string)
    requires Loadable(i) && Canonical(i) && Printable(i.strike.value)
    requires ValidDate(e) && Printable(k) && Make(u, e, k, t).Some?
    ensures i.symbol == Make(u, e, k, t).value <==> ContractOf(i) == Contract(Clean(u), e, k, Clean(t))
  {
    hide Clean, Make, D.Round6, D.SixDigits, D.Normal;
    SymbolsCollideIff(i.underlying.value, i.expiry.value, i.strike.value, i.optionType.value, u, e, k, t);
    D.Round6Facts(k);
    D.Round6Facts(i.strike.value);
  }

  lemma {:induction false} IndexesAgree(instruments: seq<Instrument>, u: string, e: Date, k: Decimal, t: string)
    requires AllCanonical(instruments) && AllPrintable(instruments)
    requires ValidDate(e) && Printable(k) && Make(u, e, k, t).Some?
    ensures LastWith(instruments, HasSymbol(Make(u, e, k, t).value))
         == LastWith(instruments, IsContract(Contract(Clean(u), e, k, Clean(t))))
  {
    hide Clean, Make, Loadable, Canonical, Printable;
    if instruments != [] {
      var front, last := instruments[..|instruments| - 1], instruments[|instruments| - 1];
      IndexesAgree(front, u, e, k, t);
      if Loadable(last) { SymbolIsContract(last, u, e, k, t); }
    }
  }

  /** The instrument has the symbol of the contract without being it. */
  ghost predicate Impostor(i: Instrument, u: string, e: Date, k: Decimal, t: string)
    requires ValidDate(e)
  {
    Loadable(i) && Make(u, e, k, t) == Some(i.symbol) && ContractOf(i) != Contract(Clean(u), e, k, Clean(t))
  }

  /** An instrument with the contract's symbol that is not the contract, and no instrument of the contract after it. */
  ghost predicate Shadowed(instruments: seq<Instrument>, u: string, e: Date, k: Decimal, t: string)
    requires ValidDate(e)
  {
    exists i :: 0 <= i < |instruments| && Impostor(instruments[i], u, e, k, t) &&
      forall j :: i < j < |instruments| ==> !IsContract(Contract(Clean(u), e, k, Clean(t)))(instruments[j])
  }

  lemma ShadowedStep(front: seq<Instrument>, x: Instrument, u: string, e: Date, k: Decimal, t: string)
    requires ValidDate(e)
    ensures Shadowed(front + [x], u, e, k, t) <==>
            Impostor(x, u, e, k, t) || (Shadowed(front, u, e, k, t)
                && !IsContract(Contract(Clean(u), e, k, Clean(t)))(x))
  {
    hide Impostor, IsContract, Clean;
    var all, c := front + [x], Contract(Clean(u), e, k, Clean(t));
    assert all[|front|] == x && forall i :: 0 <= i < |front| ==> all[i] == front[i];
    if Shadowed(front, u, e, k, t) && !IsContract(c)(x) {
      var i :| 0 <= i < |front| && Impostor(front[i], u, e, k, t) && forall j :: i < j < |front| ==>
          !IsContract(c)(front[j]);
      assert Impostor(all[i], u, e, k, t) && forall j :: i < j < |all| ==> !IsContract(c)(all[j]);
    }
    if Impostor(x, u, e, k, t) { assert Impostor(all[|front|], u, e, k, t); }
  }

  /** Asking by symbol and by contract gives the same answer exactly when the contract is not shadowed. */
  lemma {:induction false} AgreeIff(instruments: seq<Instrument>, u: string, e: Date, k: Decimal, t: string)
    requires AllCanonical(instruments) && ValidDate(e) && Make(u, e, k, t).Some?
    ensures LastWith(instruments, HasSymbol(Make(u, e, k, t).value))
            == LastWith(instruments, IsContract(Contract(Clean(u), e, k, Clean(t))))
            <==> !Shadowed(instruments, u, e, k, t)
  {
    hide Clean, Make, Loadable, Canonical, Shadowed;
    var c := Contract(Clean(u), e, k, Clean(t));
    if instruments == [] {
      NoShadow(u, e, k, t);
    } else {
      var front, x := instruments[..|instruments| - 1], instruments[|instruments| - 1];
      assert instruments == front + [x];
      AgreeIff(front, u, e, k, t);
      ShadowedStep(front, x, u, e, k, t);
      if Loadable(x) && ContractOf(x) == c {
        OwnSymbol(x, u, e, k, t);
      } else if Loadable(x) && Make(u, e, k, t) == Some(x.symbol) {
        LastIs(front, c);
      }
    }
  }

  lemma NoShadow(u: string, e: Date, k: Decimal, t: string)
    requires ValidDate(e)
    ensures !Shadowed([], u, e, k, t)
  {}

  /** What is found by contract is that contract. */
  lemma {:induction false} LastIs(instruments: seq<Instrument>, c: Contract)
    ensures var found := LastWith(instruments, IsContract(c));
            found.Some? ==> Loadable(found.value) && ContractOf(found.value) == c
  {
    hide Loadable;
    if instruments != [] { LastIs(instruments[..|instruments| - 1], c); }
  }

  /** A canonical instrument of the contract carries its symbol. */
  lemma OwnSymbol(i: Instrument, u: string, e: Date, k: Decimal, t: string)
    requires Loadable(i) && Canonical(i) && ValidDate(e) && ContractOf(i) == Contract(Clean(u), e, k, Clean(t))
    ensures Make(u, e, k, t) == Some(i.symbol)
  {
    hide Clean, Iso, D.Format;
  }

  /**
    Over a whole load: every loaded contract is found under its own symbol exactly when no two
    contracts clash.
  */
  lemma FoundIffDistinguishable(instruments: seq<Instrument>)
    requires AllCanonical(instruments)
    ensures (forall i :: 0 <= i < |instruments| && Loadable(instruments[i]) ==> Found(instruments, instruments[i]))
            <==> Distinguishable(instruments)
  {
    hide Canonical, Loadable, LastWith;
    if Distinguishable(instruments) {
      forall i | 0 <= i < |instruments| && Loadable(instruments[i]) ensures Found(instruments, instruments[i]) {
        SamePredicate(instruments, instruments[i]);
      }
    }
    if forall i :: 0 <= i < |instruments| && Loadable(instruments[i]) ==> Found(instruments, instruments[i]) {
      forall i, j | 0 <= i < |instruments| && 0 <= j < |instruments| ensures !Clash(instruments[i], instruments[j]) {
        if Clash(instruments[i], instruments[j]) {
          var a, b := instruments[i], instruments[j];
          LastIs(instruments, ContractOf(a));
          LastIs(instruments, ContractOf(b));
          assert Found(instruments, a) && Found(instruments, b);
          HasLast(instruments, a, i);
        }
      }
    }
  }

  /** The contract of a loaded instrument is what its symbol finds. */
  ghost predicate Found(instruments: seq<Instrument>, x: Instrument)
    requires Loadable(x)
  {
    LastWith(instruments, HasSymbol(x.symbol)) == LastWith(instruments, IsContract(ContractOf(x)))
  }

  lemma {:induction false} HasLast(instruments: seq<Instrument>, x: Instrument, n: int)
    requires 0 <= n < |instruments| && instruments[n] == x && Loadable(x)
    ensures LastWith(instruments, IsContract(ContractOf(x))).Some?
  {
    hide Loadable;
    if n < |instruments| - 1 { HasLast(instruments[..|instruments| - 1], x, n); }
  }

  /** With no clash with `x`, its symbol and its contract select the same instruments. */
  lemma {:induction false} SamePredicate(instruments: seq<Instrument>, x: Instrument)
    requires Loadable(x) && Canonical(x) && AllCanonical(instruments)
    requires forall i :: 0 <= i < |instruments| ==> !Clash(instruments[i], x)
    ensures Found(instruments, x)
  {
    hide Loadable, Canonical;
    if instruments != [] {
      var front, last := instruments[..|instruments| - 1], instruments[|instruments| - 1];
      SamePredicate(front, x);
      if Loadable(last) && ContractOf(last) == ContractOf(x) { SameContractSameSymbol(last, x); }
    }
  }

  // ----- counts -----

  lemma {:induction false} InSets(instruments: seq<Instrument>, s: string, c: Contract)
    ensures s in SymbolSet(instruments) <==>
            exists i :: 0 <= i < |instruments| && Loadable(instruments[i]) && instruments[i].symbol == s
    ensures c in ContractSet(instruments) <==>
            exists i :: 0 <= i < |instruments| && Loadable(instruments[i]) && ContractOf(instruments[i]) == c
  {
    hide Loadable;
    if instruments != [] {
      var front, last := instruments[..|instruments| - 1], instruments[|instruments| - 1];
      InSets(front, s, c);
      assert forall i :: 0 <= i < |front| ==> front[i] == instruments[i];
      assert instruments[|front|] == last;
    }
  }

  /** No two loaded instruments share a symbol without being the same contract. */
  ghost predicate Distinguishable(instruments: seq<Instrument>) {
    forall i, j :: 0 <= i < |instruments| && 0 <= j < |instruments| ==> !Clash(instruments[i], instruments[j])
  }

  ghost predicate Clash(a: Instrument, b: Instrument) {
    Loadable(a) && Loadable(b) && a.symbol == b.symbol && ContractOf(a) != ContractOf(b)
  }

  lemma SameContractSameSymbol(a: Instrument, b: Instrument)
    requires Loadable(a) && Loadable(b) && Canonical(a) && Canonical(b) && ContractOf(a) == ContractOf(b)
    ensures a.symbol == b.symbol
  {
    hide Make, Clean;
  }

  lemma DistinguishableStep(front: seq<Instrument>, x: Instrument)
    ensures Distinguishable(front + [x]) <==>
            Distinguishable(front) && forall i :: 0 <= i < |front| ==> !Clash(front[i], x) && !Clash(x, front[i])
  {
    hide Loadable;
    var all := front + [x];
    assert all[|front|] == x && forall i :: 0 <= i < |front| ==> all[i] == front[i];
  }

  /** The symbol index never holds more entries than the tree, and as many exactly when no two contracts clash. */
  lemma {:induction false} CountsMatchIff(instruments: seq<Instrument>)
    requires AllCanonical(instruments)
    ensures |SymbolSet(instruments)| <= |ContractSet(instruments)|
    ensures |SymbolSet(instruments)| == |ContractSet(instruments)| <==> Distinguishable(instruments)
  {
    hide Loadable, Canonical, Clash, Distinguishable;
    if instruments != [] {
      var front, x := instruments[..|instruments| - 1], instruments[|instruments| - 1];
      assert instruments == front + [x];
      CountsMatchIff(front);
      DistinguishableStep(front, x);
      if Loadable(x) {
        LastCounts(front, x);
        AddOne(SymbolSet(front), x.symbol);
        AddOne(ContractSet(front), ContractOf(x));
      } else {
        NoClash(front, x);
      }
    } else {
      Empty();
    }
  }

  lemma AddOne<T>(s: set<T>, x: T)
    ensures |s + {x}| == if x in s then |s| else |s| + 1
  {
    if x in s { assert s + {x} == s; }
  }

  lemma Empty()
    ensures Distinguishable([])
  {}

  lemma NoClash(front: seq<Instrument>, x: Instrument)
    requires !Loadable(x)
    ensures forall i :: 0 <= i < |front| ==> !Clash(front[i], x) && !Clash(x, front[i])
  {
    hide Loadable;
  }

  /** A new instrument adds to both indexes or to neither, unless it clashes with an earlier one. */
  lemma LastCounts(front: seq<Instrument>, x: Instrument)
    requires AllCanonical(front + [x]) && Loadable(x)
    ensures ContractOf(x) in ContractSet(front) ==> x.symbol in SymbolSet(front)
    ensures Distinguishable(front) && ContractOf(x) in ContractSet(front) ==>
              forall i :: 0 <= i < |front| ==> !Clash(front[i], x) && !Clash(x, front[i])
    ensures ContractOf(x) !in ContractSet(front) ==>
              (x.symbol in SymbolSet(front) <==> exists i :: 0 <= i < |front| && Clash(front[i], x))
    ensures forall i :: 0 <= i < |front| ==> (Clash(front[i], x) <==> Clash(x, front[i]))
  {
    hide Canonical, Loadable;
    InSets(front, x.symbol, ContractOf(x));
    var all := front + [x];
    assert all[|front|] == x && forall i :: 0 <= i < |front| ==> all[i] == front[i];
    if ContractOf(x) in ContractSet(front) {
      var n :| 0 <= n < |front| && Loadable(front[n]) && ContractOf(front[n]) == ContractOf(x);
      SameContractSameSymbol(front[n], x);
      assert forall i :: 0 <= i < |front| && Clash(front[i], x) ==> Clash(front[i], front[n]);
    } else if x.symbol in SymbolSet(front) {
      var n :| 0 <= n < |front| && Loadable(front[n]) && front[n].symbol == x.symbol;
      assert Clash(front[n], x);
    }
  }

  /** Printable contracts never clash, so after a load of them the counts match. */
  lemma PrintableDistinguishable(instruments: seq<Instrument>)
    requires AllCanonical(instruments) && AllPrintable(instruments)
    ensures Distinguishable(instruments)
    ensures |SymbolSet(instruments)| == |ContractSet(instruments)|
  {
    hide Make, Clean, Printable;
    forall i, j | 0 <= i < |instruments| && 0 <= j < |instruments| ensures !Clash(instruments[i], instruments[j]) {
      var a, b := instruments[i], instruments[j];
      if Loadable(a) && Loadable(b) {
        SymbolIsContract(a, b.underlying.value, b.expiry.value, b.strike.value, b.optionType.value);
      }
    }
    CountsMatchIff(instruments);
  }
}
