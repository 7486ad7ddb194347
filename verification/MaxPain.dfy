/** Max pain over an option chain: calculate_max_pain in trading/market_data/options_intelligence.py. */
module MaxPain {
  import opened Prelude
  import opened PiecewiseLinear

  /** A side without a quote, or with a quote that carries no open interest, has `None`. */
  datatype ChainRow = ChainRow(strike: real, callOi: Option<int>, putOi: Option<int>)

  datatype StrikeOi = StrikeOi(strike: real, call: int, put: int)

  datatype MaxPainResult = MaxPainResult(strike: Option<real>, payouts: seq<(real, real)>)

  function RowOi(row: ChainRow): StrikeOi {
    StrikeOi(row.strike, row.callOi.GetOr(0), row.putOi.GetOr(0))
  }

  ghost predicate Listed(rows: seq<ChainRow>, k: real) {
    exists i :: 0 <= i < |rows| && rows[i].strike == k
  }

  ghost predicate NonNegativeOi(rows: seq<ChainRow>) {
    forall i :: 0 <= i < |rows| ==> rows[i].callOi.GetOr(0) >= 0 && rows[i].putOi.GetOr(0) >= 0
  }

  // ----- open interest keyed by strike -----

  function Find(table: seq<StrikeOi>, k: real): (i: nat)
    ensures i <= |table|
    ensures i < |table| ==> table[i].strike == k
    ensures forall j :: 0 <= j < i ==> table[j].strike != k
  {
    if table == [] || table[0].strike == k then 0 else 1 + Find(table[1..], k)
  }

  /** Dictionary assignment: an existing key keeps its place and takes the new value. */
  function Assign(table: seq<StrikeOi>, e: StrikeOi): seq<StrikeOi> {
    var i := Find(table, e.strike);
    if i < |table| then table[i := e] else table + [e]
  }

  function OiByStrike(rows: seq<ChainRow>): (table: seq<StrikeOi>) {
    if rows == [] then [] else Assign(OiByStrike(rows[..|rows| - 1]), RowOi(rows[|rows| - 1]))
  }

  ghost predicate InTable(table: seq<StrikeOi>, k: real) {
    exists j :: 0 <= j < |table| && table[j].strike == k
  }

  lemma AssignKeys(table: seq<StrikeOi>, e: StrikeOi, k: real)
    ensures InTable(Assign(table, e), k) <==> InTable(table, k) || k == e.strike
  {
    var i := Find(table, e.strike);
    var r := Assign(table, e);
    if i < |table| {
      assert forall j :: 0 <= j < |table| ==> r[j].strike == table[j].strike;
    } else {
      assert r[|table|].strike == e.strike;
      assert forall j :: 0 <= j < |table| ==> r[j] == table[j];
    }
  }

  lemma {:induction false} TableKeys(rows: seq<ChainRow>, k: real)
    ensures InTable(OiByStrike(rows), k) <==> Listed(rows, k)
  {
    if rows != [] {
      var front, last := rows[..|rows| - 1], rows[|rows| - 1];
      TableKeys(front, k);
      AssignKeys(OiByStrike(front), RowOi(last), k);
      assert Listed(rows, k) <==> Listed(front, k) || k == last.strike by {
        assert forall i :: 0 <= i < |front| ==> front[i] == rows[i];
        assert rows[|rows| - 1] == last;
      }
    }
  }

  lemma {:induction false} TableNonNegative(rows: seq<ChainRow>)
    requires NonNegativeOi(rows)
    ensures forall i :: 0 <= i < |OiByStrike(rows)| ==> OiByStrike(rows)[i].call >= 0 && OiByStrike(rows)[i].put >= 0
  {
    if rows != [] { TableNonNegative(rows[..|rows| - 1]); }
  }

  // ----- payout owed to holders at settlement -----

  function EntryPayout(e: StrikeOi, s: real): real {
    Times(e.call, Max(s - e.strike, 0.0)) + Times(e.put, Max(e.strike - s, 0.0))
  }

  function HolderPayout(table: seq<StrikeOi>, s: real): real {
    if table == [] then 0.0 else HolderPayout(table[..|table| - 1], s) + EntryPayout(table[|table| - 1], s)
  }

  function EntryHinges(e: StrikeOi): seq<Hinge> {
    [Hinge(true, e.strike, e.call), Hinge(false, e.strike, e.put)]
  }

  function TableHinges(table: seq<StrikeOi>): (hs: seq<Hinge>)
    ensures forall h :: h in hs ==> exists i :: 0 <= i < |table| && h in EntryHinges(table[i])
  {
    if table == [] then [] else TableHinges(table[..|table| - 1]) + EntryHinges(table[|table| - 1])
  }

  lemma TotalAppend(hs: seq<Hinge>, g: Hinge, h: Hinge, s: real)
    ensures Total(hs + [g, h], s) == Total(hs, s) + Value(g, s) + Value(h, s)
    ensures CallWeight(hs + [g, h]) == CallWeight(hs) + (if g.isCall then g.weight
            else 0) + (if h.isCall then h.weight else 0)
    ensures PutWeight(hs + [g, h]) == PutWeight(hs) + (if g.isCall then 0 else g.weight) + (if h.isCall then 0
            else h.weight)
  {
    hide Value;
    assert (hs + [g, h])[..|hs| + 1] == hs + [g];
    assert (hs + [g])[..|hs|] == hs;
  }

  lemma {:induction false} PayoutIsHingeSum(table: seq<StrikeOi>, s: real)
    ensures HolderPayout(table, s) == Total(TableHinges(table), s)
    ensures (forall i :: 0 <= i < |table| ==> table[i].call >= 0 && table[i].put >= 0) ==>
              CallWeight(TableHinges(table)) >= 0 && PutWeight(TableHinges(table)) >= 0
  {
    if table != [] {
      var front, e := table[..|table| - 1], table[|table| - 1];
      PayoutIsHingeSum(front, s);
      TotalAppend(TableHinges(front), Hinge(true, e.strike, e.call), Hinge(false, e.strike, e.put), s);
    }
  }

  /** A lower bound at every listed strike is a lower bound at every real settlement price. */
  lemma PayoutFloor(table: seq<StrikeOi>, m: real, s: real)
    requires table != [] && forall i :: 0 <= i < |table| ==> table[i].call >= 0 && table[i].put >= 0
    requires forall i :: 0 <= i < |table| ==> m <= HolderPayout(table, table[i].strike)
    ensures m <= HolderPayout(table, s)
  {
    hide Times, Total, CallWeight, PutWeight, HolderPayout;
    var hs := TableHinges(table);
    var points := seq(|table|, i requires 0 <= i < |table| => table[i].strike);
    assert points[0] in points;
    forall i | 0 <= i < |hs| ensures hs[i].strike in points {
      assert hs[i] in hs;
      var j :| 0 <= j < |table| && hs[i] in EntryHinges(table[j]);
      assert hs[i].strike == points[j];
    }
    PayoutIsHingeSum(table, s);
    forall p | p in points ensures m <= Total(hs, p) {
      var j :| 0 <= j < |table| && points[j] == p;
      PayoutIsHingeSum(table, p);
    }
    if exists p :: p in points && p <= s {
      var a, b, tail := Locate(hs, points, s);
      if tail { TimesSign(CallWeight(hs), s - a); }
    } else {
      assert s <= points[0];
      var lo := LeastAbove(points, s);
      LeftTail(hs, s, lo);
      TimesSign(PutWeight(hs), lo - s);
    }
  }

  // ----- the search -----

  function MinPayout(payouts: seq<(real, real)>): (m: real)
    requires payouts != []
    ensures exists i :: 0 <= i < |payouts| && payouts[i].1 == m
    ensures forall i :: 0 <= i < |payouts| ==> m <= payouts[i].1
  {
    if |payouts| == 1 then payouts[0].1
    else
      var front := payouts[..|payouts| - 1];
      var rest := MinPayout(front);
      assert exists i :: 0 <= i < |front| && front[i].1 == rest && payouts[i] == front[i];
      Min(rest, payouts[|payouts| - 1].1)
  }

  function LowestWithPayout(payouts: seq<(real, real)>, m: real): (k: real)
    requires exists i :: 0 <= i < |payouts| && payouts[i].1 == m
    ensures exists i :: 0 <= i < |payouts| && payouts[i] == (k, m)
    ensures forall i :: 0 <= i < |payouts| && payouts[i].1 == m ==> k <= payouts[i].0
  {
    var front, last := payouts[..|payouts| - 1], payouts[|payouts| - 1];
    if exists i :: 0 <= i < |front| && front[i].1 == m then
      var rest := LowestWithPayout(front, m);
      assert exists i :: 0 <= i < |front| && front[i] == (rest, m) && payouts[i] == front[i];
      assert forall i :: 0 <= i < |front| ==> payouts[i] == front[i];
      if last.1 == m then Min(rest, last.0) else rest
    else
      assert forall i :: 0 <= i < |front| ==> payouts[i] == front[i];
      last.0
  }

  method CalculateMaxPain(rows: seq<ChainRow>) returns (r: MaxPainResult)
    ensures r.strike.None? <==> rows == []
    ensures |r.payouts| == |rows|
    ensures forall i :: 0 <= i < |rows| ==> r.payouts[i].1 == HolderPayout(OiByStrike(rows), r.payouts[i].0)
    ensures forall k :: Listed(rows, k) <==> exists i :: 0 <= i < |r.payouts| && r.payouts[i].0 == k
    ensures r.strike.Some? ==> Listed(rows, r.strike.value)
    ensures r.strike.Some? ==> forall k :: Listed(rows, k) ==>
              var table := OiByStrike(rows);
              && HolderPayout(table, r.strike.value) <= HolderPayout(table, k)
              && (HolderPayout(table, r.strike.value) == HolderPayout(table, k) ==> r.strike.value <= k)
    ensures r.strike.Some? && NonNegativeOi(rows) ==>
              forall s :: HolderPayout(OiByStrike(rows), r.strike.value) <= HolderPayout(OiByStrike(rows), s)
  {
    hide Times, HolderPayout, Sort, OiByStrike, Assign, MinPayout, LowestWithPayout, Listed, NonNegativeOi;
    var strikes := Sort(seq(|rows|, i requires 0 <= i < |rows| => rows[i].strike));
    ListedSorted(rows);
    if strikes == [] { return MaxPainResult(None, []); }

    var table := [];
    var i := 0;
    OiStart(rows);
    while i < |rows|
      invariant 0 <= i <= |rows| && table == OiByStrike(rows[..i])
    {
      OiNext(rows, i);
      table := Assign(table, RowOi(rows[i]));
      i := i + 1;
    }
    assert rows[..i] == rows;

    var payouts := [];
    i := 0;
    while i < |strikes|
      invariant 0 <= i <= |strikes| == |rows| && |payouts| == i
      invariant forall j :: 0 <= j < i ==> payouts[j] == (strikes[j], HolderPayout(table, strikes[j]))
    {
      var total := 0.0;
      var j := 0;
      NoEntries(table, strikes[i]);
      while j < |table|
        invariant 0 <= j <= |table|
        invariant total == HolderPayout(table[..j], strikes[i])
      {
        AddEntry(table, j, strikes[i]);
        total := total + Times(table[j].call, Max(strikes[i] - table[j].strike, 0.0));
        total := total + Times(table[j].put, Max(table[j].strike - strikes[i], 0.0));
        j := j + 1;
      }
      assert table[..j] == table;
      payouts := payouts + [(strikes[i], total)];
      i := i + 1;
    }
    var best := LowestWithPayout(payouts, MinPayout(payouts));
    r := MaxPainResult(Some(best), payouts);
    BestOfListed(rows, strikes, payouts, best);
  }

  lemma OiStart(rows: seq<ChainRow>)
    ensures OiByStrike(rows[..0]) == []
  {}

  lemma OiNext(rows: seq<ChainRow>, i: int)
    requires 0 <= i < |rows|
    ensures OiByStrike(rows[..i + 1]) == Assign(OiByStrike(rows[..i]), RowOi(rows[i]))
  {
    assert rows[..i + 1][..i] == rows[..i];
  }

  lemma NoEntries(table: seq<StrikeOi>, s: real)
    ensures HolderPayout(table[..0], s) == 0.0
  {}

  lemma AddEntry(table: seq<StrikeOi>, j: int, s: real)
    requires 0 <= j < |table|
    ensures HolderPayout(table[..j + 1], s) == HolderPayout(table[..j], s) + EntryPayout(table[j], s)
  {
    assert table[..j + 1][..j] == table[..j];
  }

  lemma ListedSorted(rows: seq<ChainRow>)
    ensures var strikes := Sort(seq(|rows|, i requires 0 <= i < |rows| => rows[i].strike));
            |strikes| == |rows| && forall k :: Listed(rows, k) <==> k in strikes
  {
    var raw := seq(|rows|, i requires 0 <= i < |rows| => rows[i].strike);
    assert forall i :: 0 <= i < |rows| ==> raw[i] == rows[i].strike;
    forall k ensures Listed(rows, k) <==> k in raw {}
  }

  lemma BestOfListed(rows: seq<ChainRow>, strikes: seq<real>, payouts: seq<(real, real)>, best: real)
    requires |payouts| == |strikes| > 0 && forall k :: Listed(rows, k) <==> k in strikes
    requires forall j :: 0 <= j < |strikes| ==> payouts[j] == (strikes[j], HolderPayout(OiByStrike(rows), strikes[j]))
    requires best == LowestWithPayout(payouts, MinPayout(payouts))
    ensures Listed(rows, best)
    ensures forall k :: Listed(rows, k) <==> exists i :: 0 <= i < |payouts| && payouts[i].0 == k
    ensures forall k :: Listed(rows, k) ==>
              var table := OiByStrike(rows);
              && HolderPayout(table, best) <= HolderPayout(table, k)
              && (HolderPayout(table, best) == HolderPayout(table, k) ==> best <= k)
    ensures NonNegativeOi(rows) ==>
            forall s :: HolderPayout(OiByStrike(rows), best) <= HolderPayout(OiByStrike(rows), s)
  {
    hide HolderPayout, OiByStrike;
    var table := OiByStrike(rows);
    forall k ensures InTable(table, k) <==> Listed(rows, k) { TableKeys(rows, k); }
    var n :| 0 <= n < |payouts| && payouts[n] == (best, MinPayout(payouts));
    assert strikes[n] in strikes;
    forall k | Listed(rows, k)
      ensures HolderPayout(table, best) <= HolderPayout(table, k)
      ensures HolderPayout(table, best) == HolderPayout(table, k) ==> best <= k
    {
      var j :| 0 <= j < |strikes| && strikes[j] == k;
      assert payouts[j].1 == HolderPayout(table, k);
    }
    if NonNegativeOi(rows) {
      forall i | 0 <= i < |table| ensures HolderPayout(table, best) <= HolderPayout(table, table[i].strike) {
        assert InTable(table, table[i].strike);
      }
      assert InTable(table, best);
      TableNonNegative(rows);
      forall s ensures HolderPayout(table, best) <= HolderPayout(table, s) {
        PayoutFloor(table, HolderPayout(table, best), s);
      }
    }
    forall k | exists i :: 0 <= i < |payouts| && payouts[i].0 == k ensures Listed(rows, k) {
      var i :| 0 <= i < |payouts| && payouts[i].0 == k;
      assert strikes[i] in strikes;
    }
    forall k | Listed(rows, k) ensures exists i :: 0 <= i < |payouts| && payouts[i].0 == k {
      var i :| 0 <= i < |strikes| && strikes[i] == k;
      assert payouts[i].0 == k;
    }
  }

  /** With distinct strikes the table is the chain itself, so the payout is the whole chain's. */
  lemma {:induction false} TableIsChain(rows: seq<ChainRow>)
    requires forall i, j :: 0 <= i < j < |rows| ==> rows[i].strike != rows[j].strike
    ensures OiByStrike(rows) == seq(|rows|, i requires 0 <= i < |rows| => RowOi(rows[i]))
  {
    hide RowOi;
    if rows != [] {
      var front, last := rows[..|rows| - 1], rows[|rows| - 1];
      TableIsChain(front);
      var table := OiByStrike(front);
      RowStrike(last);
      forall i | 0 <= i < |table| ensures table[i].strike != RowOi(last).strike {
        assert front[i] == rows[i] && table[i] == RowOi(front[i]);
        RowStrike(front[i]);
      }
      NewStrike(table, RowOi(last));
    }
  }

  lemma RowStrike(row: ChainRow)
    ensures RowOi(row).strike == row.strike
  {}

  lemma NewStrike(table: seq<StrikeOi>, e: StrikeOi)
    requires forall i :: 0 <= i < |table| ==> table[i].strike != e.strike
    ensures Assign(table, e) == table + [e]
  {
    assert Find(table, e.strike) == |table|;
  }

  ghost predicate DistinctStrikes(rows: seq<ChainRow>) {
    forall i, j :: 0 <= i < j < |rows| ==> rows[i].strike != rows[j].strike
  }

  /** What the holders of a whole chain are owed at a settlement price. */
  function ChainPayout(rows: seq<ChainRow>, s: real): real { HolderPayout(OiByStrike(rows), s) }

  /** A row at a new strike adds its calls times what they are in the money by, and its puts likewise. */
  lemma PayoutAdds(rows: seq<ChainRow>, row: ChainRow, s: real)
    requires DistinctStrikes(rows + [row])
    ensures ChainPayout([], s) == 0.0
    ensures ChainPayout(rows + [row], s) == ChainPayout(rows, s)
              + row.callOi.GetOr(0) as real * Max(s - row.strike, 0.0)
              + row.putOi.GetOr(0) as real * Max(row.strike - s, 0.0)
  {
    var all := rows + [row];
    assert all[..|rows|] == rows;
    assert DistinctStrikes(rows) by { assert forall i :: 0 <= i < |rows| ==> all[i] == rows[i]; }
    var table := OiByStrike(rows);
    TableIsChain(rows);
    forall i | 0 <= i < |table| ensures table[i].strike != row.strike {
      assert all[i] == rows[i] && all[|rows|] == row;
    }
    NewStrike(table, RowOi(row));
    assert (table + [RowOi(row)])[..|table|] == table;
  }

  /** A row at a strike already there takes the earlier row's place. */
  lemma PayoutReplaces(rows: seq<ChainRow>, row: ChainRow, i: int, s: real)
    requires DistinctStrikes(rows) && 0 <= i < |rows| && rows[i].strike == row.strike
    ensures ChainPayout(rows + [row], s) == ChainPayout(rows[i := row], s)
  {
    var all, changed := rows + [row], rows[i := row];
    assert all[..|rows|] == rows;
    TableIsChain(rows);
    TableIsChain(changed);
    var table := OiByStrike(rows);
    forall j | 0 <= j < |table| ensures table[j].strike == rows[j].strike { assert table[j] == RowOi(rows[j]); }
    assert Find(table, row.strike) == i;
    assert OiByStrike(all) == table[i := RowOi(row)];
    assert table[i := RowOi(row)] == OiByStrike(changed);
  }
}
