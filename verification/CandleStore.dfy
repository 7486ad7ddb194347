/** The batched, insert-only candle writes of trading/market_data/aggregator.py, racing other writers. */
module CandleStore {
  import opened CandleSeries

  /**
    The unique key of a candle row. `group` is the column the pre-check filters on (symbol or
    contract), `detail` the other non-time columns (exchange and interval), empty for options.
  */
  datatype Key = Key(group: string, detail: string, timestamp: int)

  type Rows = map<Key, Candle>

  type Item = (Key, Candle)

  /** What the other sessions commit before our n-th transaction. */
  type Others = nat -> Rows

  /**
    A table with a unique key constraint; a failed insert changes nothing. `ours` is the set of keys
    this session's own inserts have added: other sessions never touch it.
  */
  class Table {
    var rows: Rows
    ghost var ours: set<Key>

    ghost predicate Valid()
      reads this
    {
      ours <= rows.Keys
    }

    /** Rows another session inserts; the constraint keeps the rows already there. */
    method Interfere(foreign: Rows)
      requires Valid()
      modifies this`rows
      ensures Valid() && rows == foreign + old(rows)
    {
      rows := foreign + rows;
    }

    method Insert(key: Key, row: Candle) returns (ok: bool)
      requires Valid()
      modifies this
      ensures Valid() && (ok <==> key !in old(rows))
      ensures rows == if ok then old(rows)[key := row] else old(rows)
      ensures ours == if ok then old(ours) + {key} else old(ours)
    {
      ok := key !in rows;
      if ok {
        rows := rows[key := row];
        ours := ours + {key};
      }
    }

    /** One transaction of ours after another session's: the constraint decides on the merged rows. */
    method RacedInsert(foreign: Rows, key: Key, row: Candle) returns (ok: bool)
      requires Valid()
      modifies this
      ensures Valid() && (ok <==> key !in foreign + old(rows))
      ensures rows == if ok then (foreign + old(rows))[key := row] else foreign + old(rows)
      ensures ours == if ok then old(ours) + {key} else old(ours)
    {
      Interfere(foreign);
      ok := Insert(key, row);
    }

    /** All the rows or none of them. */
    method InsertAll(items: seq<Item>) returns (ok: bool)
      requires Valid()
      modifies this
      ensures Valid() && (ok <==> DistinctKeys(items) && forall i :: 0 <= i < |items| ==> items[i].0 !in old(rows))
      ensures !ok ==> rows == old(rows) && ours == old(ours)
      ensures ok ==> rows == old(rows) + ToRows(items) && ours == old(ours) + ToRows(items).Keys
    {
      ok := DistinctKeys(items) && forall i :: 0 <= i < |items| ==> items[i].0 !in rows;
      if ok {
        rows := rows + ToRows(items);
        ours := ours + ToRows(items).Keys;
      }
    }
  }

  predicate DistinctKeys(items: seq<Item>) {
    forall i, j :: 0 <= i < j < |items| ==> items[i].0 != items[j].0
  }

  function ToRows(items: seq<Item>): Rows {
    if items == [] then map[] else ToRows(items[..|items| - 1])[items[|items| - 1].0 := items[|items| - 1].1]
  }

  lemma {:induction false} ToRowsKeys(items: seq<Item>, k: Key)
    ensures k in ToRows(items) <==> exists i :: 0 <= i < |items| && items[i].0 == k
    ensures k in ToRows(items) ==> (k, ToRows(items)[k]) in items
  {
    if items != [] {
      var front, last := items[..|items| - 1], items[|items| - 1];
      ToRowsKeys(front, k);
      assert forall i :: 0 <= i < |front| ==> front[i] == items[i];
      assert items[|front|] == last;
    }
  }

  lemma {:induction false} ToRowsSize(items: seq<Item>)
    requires DistinctKeys(items)
    ensures |ToRows(items).Keys| == |items|
  {
    if items != [] {
      var front, last := items[..|items| - 1], items[|items| - 1];
      ToRowsSize(front);
      ToRowsKeys(front, last.0);
      assert ToRows(items).Keys == ToRows(front).Keys + {last.0};
    }
  }

  ghost predicate FromOthers(others: Others, k: Key, row: Candle) {
    exists n :: k in others(n) && others(n)[k] == row
  }

  /** `after` kept every row of `before`, and each new row is one of ours or of another session's. */
  ghost predicate OnlyInserts(before: Rows, after: Rows, items: seq<Item>, mine: set<Key>, others: Others) {
    && (forall k :: k in before ==> k in after && after[k] == before[k])
    && (forall k :: k in mine ==> k !in before && k in after && (k, after[k]) in items)
    && (forall k :: k in after ==> k in before || k in mine || FromOthers(others, k, after[k]))
  }

  lemma InsertsForeign(before: Rows, after: Rows, items: seq<Item>, mine: set<Key>, others: Others, n: nat)
    requires OnlyInserts(before, after, items, mine, others)
    ensures OnlyInserts(before, others(n) + after, items, mine, others)
  {}

  lemma InsertsOwn(before: Rows, after: Rows, items: seq<Item>, mine: set<Key>, others: Others, item: Item)
    requires OnlyInserts(before, after, items, mine, others) && item in items && item.0 !in after
    ensures OnlyInserts(before, after[item.0 := item.1], items, mine + {item.0}, others)
    ensures item.0 !in mine
  {}

  // ----- which rows a commit adds -----

  /** One of the first `n` items has the key. */
  ghost predicate Among(items: seq<Item>, n: int, k: Key)
    requires n <= |items|
  {
    exists j :: 0 <= j < n && items[j].0 == k
  }

  /** Another session commits the key no later than before our n-th transaction. */
  ghost predicate Claimed(others: Others, n: int, k: Key) {
    exists m :: 0 <= m <= n && k in others(m)
  }

  /** The batch goes in as a whole: no key twice, and none there when its transaction starts. */
  ghost predicate BatchFits(before: Rows, items: seq<Item>, others: Others) {
    DistinctKeys(items) && forall i :: 0 <= i < |items| ==> items[i].0 !in others(0) + before
  }

  /** The i-th single insert, transaction i + 1, is the first for its key: of the table, the others and the items. */
  ghost predicate Wins(before: Rows, items: seq<Item>, others: Others, i: int)
    requires 0 <= i < |items|
  {
    var k := items[i].0;
    k !in before && !Claimed(others, i + 1, k) && !Among(items, i, k)
  }

  /** The keys won by the first `n` single inserts. */
  ghost predicate WonBy(before: Rows, items: seq<Item>, others: Others, n: int, k: Key)
    requires n <= |items|
  {
    exists i :: 0 <= i < n && items[i].0 == k && Wins(before, items, others, i)
  }

  /** The keys a commit adds itself, in terms of what was there and what other sessions commit when. */
  ghost predicate Won(before: Rows, items: seq<Item>, others: Others, k: Key) {
    if BatchFits(before, items, others) then Among(items, |items|, k)
    else WonBy(before, items, others, |items|, k)
  }

  /** What the table holds after `n` single inserts: the old rows, the others' so far, and the items tried. */
  ghost predicate Tried(before: Rows, rows: Rows, items: seq<Item>, others: Others, n: int)
    requires n <= |items|
  {
    forall k :: k in rows <==> k in before || Claimed(others, n, k) || Among(items, n, k)
  }

  lemma TriedFirst(before: Rows, items: seq<Item>, others: Others)
    ensures Tried(before, others(0) + before, items, others, 0)
  {
    forall k ensures Claimed(others, 0, k) <==> k in others(0) {}
  }

  lemma AmongMore(items: seq<Item>, n: int, k: Key)
    requires 0 <= n < |items|
    ensures Among(items, n + 1, k) <==> Among(items, n, k) || items[n].0 == k
  {}

  lemma ClaimedMore(others: Others, n: int, k: Key)
    requires n >= 0
    ensures Claimed(others, n + 1, k) <==> Claimed(others, n, k) || k in others(n + 1)
  {}

  lemma WonMore(before: Rows, items: seq<Item>, others: Others, n: int, k: Key)
    requires 0 <= n < |items|
    ensures WonBy(before, items, others, n + 1, k) <==>
            WonBy(before, items, others, n, k) || (items[n].0 == k && Wins(before, items, others, n))
  {
    hide Wins;
  }

  /** At insert n, after the others' commits: its key is missing exactly when that insert wins. */
  lemma TriedDecides(before: Rows, rows: Rows, items: seq<Item>, others: Others, n: int)
    requires 0 <= n < |items| && Tried(before, rows, items, others, n)
    ensures items[n].0 !in others(n + 1) + rows <==> Wins(before, items, others, n)
  {
    hide Claimed, Among;
    ClaimedMore(others, n, items[n].0);
  }

  lemma TriedMore(before: Rows, rows: Rows, after: Rows, items: seq<Item>, others: Others, n: int)
    requires 0 <= n < |items| && Tried(before, rows, items, others, n)
    requires after.Keys == others(n + 1).Keys + rows.Keys + {items[n].0}
    ensures Tried(before, after, items, others, n + 1)
  {
    hide Claimed, Among;
    forall k ensures k in after <==> k in before || Claimed(others, n + 1, k) || Among(items, n + 1, k) {
      ClaimedMore(others, n, k);
      AmongMore(items, n, k);
    }
  }

  /**
    Whatever the other sessions do: every requested key is there, no row is altered, and the count
    returned is the number of rows this session added, which are exactly the ones it wins.
  */
  method CommitRows(db: Table, items: seq<Item>, others: Others) returns (written: nat)
    requires db.Valid()
    modifies db
    ensures db.Valid() && old(db.ours) <= db.ours
    ensures forall i :: 0 <= i < |items| ==> items[i].0 in db.rows
    ensures OnlyInserts(old(db.rows), db.rows, items, db.ours - old(db.ours), others)
    ensures written == |db.ours - old(db.ours)|
    ensures forall k :: k in db.ours - old(db.ours) <==> Won(old(db.rows), items, others, k)
    ensures items == [] ==> db.rows == old(db.rows)
  {
    hide OnlyInserts, ToRows, Progress, WonBy, Won;
    ghost var before, was := db.rows, db.ours;
    if items == [] {
      NothingInserted(before, items, others);
      NothingWon(before, others);
      assert db.ours - was == {};
      return 0;
    }
    StartProgress(before, items, others);
    db.Interfere(others(0));
    var ok := db.InsertAll(items);
    if ok {
      InsertsBatch(before, items, others);
      Added(was, before, ToRows(items).Keys, db.ours);
      return |items|;
    }
    assert !BatchFits(before, items, others);
    ghost var mine;
    written, mine := InsertEach(db, items, others, before);
    MineIsNew(before, db.rows, items, mine, others);
    Added(was, before, mine, db.ours);
    forall k ensures k in mine <==> Won(before, items, others, k) { WonSingly(before, items, others, k); }
  }

  /** Where the fallback loop is after `n` rows. */
  ghost predicate Progress(before: Rows, rows: Rows, items: seq<Item>, mine: set<Key>, others: Others, n: int)
    requires n <= |items|
  {
    && OnlyInserts(before, rows, items, mine, others)
    && Tried(before, rows, items, others, n)
    && forall k :: k in mine <==> WonBy(before, items, others, n, k)
  }

  lemma ProgressMore(before: Rows, rows: Rows, items: seq<Item>, mine: set<Key>, others: Others, n: int)
    requires 0 <= n < |items| && Progress(before, rows, items, mine, others, n)
    ensures var raced, item := others(n + 1) + rows, items[n];
            if item.0 in raced then Progress(before, raced, items, mine, others, n + 1)
            else item.0 !in mine && Progress(before, raced[item.0 := item.1], items, mine + {item.0}, others, n + 1)
  {
    hide OnlyInserts, Tried, Wins, WonBy;
    var raced, item := others(n + 1) + rows, items[n];
    InsertsForeign(before, rows, items, mine, others, n + 1);
    TriedDecides(before, rows, items, others, n);
    forall k ensures WonBy(before, items, others, n + 1, k) <==>
                     WonBy(before, items, others, n, k) || (item.0 == k && Wins(before, items, others, n))
    {
      WonMore(before, items, others, n, k);
    }
    if item.0 in raced {
      assert raced.Keys == others(n + 1).Keys + rows.Keys + {item.0};
      TriedMore(before, rows, raced, items, others, n);
    } else {
      InsertsOwn(before, raced, items, mine, others, item);
      TriedMore(before, rows, raced[item.0 := item.1], items, others, n);
    }
  }

  lemma ProgressDone(before: Rows, rows: Rows, items: seq<Item>, mine: set<Key>, others: Others)
    requires Progress(before, rows, items, mine, others, |items|)
    ensures OnlyInserts(before, rows, items, mine, others)
    ensures forall i :: 0 <= i < |items| ==> items[i].0 in rows
    ensures forall k :: k in mine <==> WonBy(before, items, others, |items|, k)
  {
    hide OnlyInserts, WonBy, Claimed;
    forall i | 0 <= i < |items| ensures items[i].0 in rows { assert Among(items, |items|, items[i].0); }
  }

  /** The fallback loop: one transaction per row, skipping those that break the constraint. */
  method InsertEach(db: Table, items: seq<Item>, others: Others, ghost before: Rows)
      returns (written: nat, ghost mine: set<Key>)
    requires db.Valid() && Progress(before, db.rows, items, {}, others, 0)
    modifies db
    ensures db.Valid() && db.ours == old(db.ours) + mine
    ensures forall i :: 0 <= i < |items| ==> items[i].0 in db.rows
    ensures OnlyInserts(before, db.rows, items, mine, others)
    ensures written == |mine|
    ensures forall k :: k in mine <==> WonBy(before, items, others, |items|, k)
  {
    hide OnlyInserts, Progress, WonBy, Table.Valid;
    written, mine := 0, {};
    var i := 0;
    while i < |items|
      invariant 0 <= i <= |items| && db.Valid()
      invariant written == |mine| && db.ours == old(db.ours) + mine
      invariant Progress(before, db.rows, items, mine, others, i)
    {
      ProgressMore(before, db.rows, items, mine, others, i);
      var ok := db.RacedInsert(others(i + 1), items[i].0, items[i].1);
      if ok { written, mine := written + 1, mine + {items[i].0}; }
      i := i + 1;
    }
    ProgressDone(before, db.rows, items, mine, others);
  }

  lemma NothingWon(before: Rows, others: Others)
    ensures forall k :: !Won(before, [], others, k)
  {}

  lemma NoneWonYet(before: Rows, items: seq<Item>, others: Others)
    ensures forall k :: !WonBy(before, items, others, 0, k)
  {}

  lemma StartProgress(before: Rows, items: seq<Item>, others: Others)
    ensures Progress(before, others(0) + before, items, {}, others, 0)
  {
    hide OnlyInserts, Tried, WonBy;
    NothingInserted(before, items, others);
    InsertsForeign(before, before, items, {}, others, 0);
    TriedFirst(before, items, others);
    NoneWonYet(before, items, others);
  }

  lemma WonSingly(before: Rows, items: seq<Item>, others: Others, k: Key)
    requires !BatchFits(before, items, others)
    ensures Won(before, items, others, k) <==> WonBy(before, items, others, |items|, k)
  {}

  lemma MineIsNew(before: Rows, after: Rows, items: seq<Item>, mine: set<Key>, others: Others)
    requires OnlyInserts(before, after, items, mine, others)
    ensures mine !! before.Keys
  {}

  lemma Added(was: set<Key>, before: Rows, mine: set<Key>, now: set<Key>)
    requires was <= before.Keys && mine !! before.Keys && now == was + mine
    ensures now - was == mine
  {}

  lemma NothingInserted(before: Rows, items: seq<Item>, others: Others)
    ensures OnlyInserts(before, before, items, {}, others)
  {}

  lemma InsertsBatch(before: Rows, items: seq<Item>, others: Others)
    requires BatchFits(before, items, others)
    ensures OnlyInserts(before, others(0) + before + ToRows(items), items, ToRows(items).Keys, others)
    ensures |ToRows(items).Keys| == |items| && ToRows(items).Keys !! before.Keys
    ensures forall i :: 0 <= i < |items| ==> items[i].0 in ToRows(items)
    ensures forall k :: k in ToRows(items) <==> Won(before, items, others, k)
  {
    hide ToRows, DistinctKeys, Among, OnlyInserts;
    ToRowsSize(items);
    forall k ensures k in ToRows(items) <==> Among(items, |items|, k)
             ensures k in ToRows(items) ==> (k, ToRows(items)[k]) in items && k !in others(0) + before
    {
      ToRowsKeys(items, k);
      AmongAll(items, k);
    }
    forall i | 0 <= i < |items| ensures items[i].0 in ToRows(items) { AmongAll(items, items[i].0); }
    BatchInserts(before, ToRows(items), items, others);
  }

  lemma AmongAll(items: seq<Item>, k: Key)
    ensures Among(items, |items|, k) <==> exists i :: 0 <= i < |items| && items[i].0 == k
  {}

  lemma BatchInserts(before: Rows, batch: Rows, items: seq<Item>, others: Others)
    requires forall k :: k in batch ==> (k, batch[k]) in items && k !in others(0) + before
    ensures OnlyInserts(before, others(0) + before + batch, items, batch.Keys, others)
  {}

  /** The rows the pre-check query selects: the items' groups, between their first and last timestamps. */
  predicate Selected(key: Key, items: seq<Item>) {
    && (exists i :: 0 <= i < |items| && items[i].0.group == key.group)
    && (exists i :: 0 <= i < |items| && items[i].0.timestamp <= key.timestamp)
    && (exists i :: 0 <= i < |items| && key.timestamp <= items[i].0.timestamp)
  }

  function ExistingKeys(rows: Rows, items: seq<Item>): set<Key> {
    set k | k in rows && Selected(k, items)
  }

  function NewRows(items: seq<Item>, existing: set<Key>): seq<Item> {
    if items == [] then []
    else
      var front, last := NewRows(items[..|items| - 1], existing), items[|items| - 1];
      if last.0 in existing then front else front + [last]
  }

  lemma {:induction false} NewRowsMembers(items: seq<Item>, existing: set<Key>, x: Item)
    ensures x in NewRows(items, existing) <==> x in items && x.0 !in existing
  {
    if items != [] {
      NewRowsMembers(items[..|items| - 1], existing, x);
      assert x in items <==> x in items[..|items| - 1] || x == items[|items| - 1];
    }
  }

  /** The pre-check query misses no requested row, so what is left to write is what the table lacks. */
  lemma NewRowsAreMissing(items: seq<Item>, rows: Rows)
    ensures forall x :: x in NewRows(items, ExistingKeys(rows, items)) <==> x in items && x.0 !in rows
  {
    hide NewRows, Selected;
    var existing := ExistingKeys(rows, items);
    forall x ensures x in NewRows(items, existing) <==> x in items && x.0 !in rows {
      NewRowsMembers(items, existing, x);
      if x in items {
        var i :| 0 <= i < |items| && items[i] == x;
        SelectedItem(items, i);
      }
    }
  }

  /** The same for a requested batch; and a batch already there adds nothing. */
  method Persist(db: Table, items: seq<Item>, others: Others) returns (written: nat)
    requires db.Valid()
    modifies db
    ensures db.Valid() && old(db.ours) <= db.ours
    ensures forall i :: 0 <= i < |items| ==> items[i].0 in db.rows
    ensures OnlyInserts(old(db.rows), db.rows, items, db.ours - old(db.ours), others)
    ensures written == |db.ours - old(db.ours)|
    ensures forall k :: k in db.ours - old(db.ours) <==>
              Won(old(db.rows), NewRows(items, ExistingKeys(old(db.rows), items)), others, k)
    ensures (forall i :: 0 <= i < |items| ==> items[i].0 in old(db.rows)) ==> written == 0 && db.rows == old(db.rows)
  {
    hide OnlyInserts, Selected, NewRows, Won;
    var missing := NewRows(items, ExistingKeys(db.rows, items));
    NewRowsAreMissing(items, db.rows);
    if missing != [] { assert missing[0] in missing; }
    ghost var before := db.rows;
    written := CommitRows(db, missing, others);
    ghost var mine := db.ours - old(db.ours);
    MoreItems(before, db.rows, missing, items, mine, others);
    forall j | 0 <= j < |items| ensures items[j].0 in db.rows {
      if items[j].0 in before {
        KeepsRow(before, db.rows, missing, mine, others, items[j].0);
      } else {
        assert items[j] in missing;
      }
    }
    if missing == [] {
      NothingWon(before, others);
      assert mine == {};
    }
  }

  lemma SelectedItem(items: seq<Item>, i: int)
    requires 0 <= i < |items|
    ensures Selected(items[i].0, items)
  {}

  lemma MoreItems(before: Rows, after: Rows, few: seq<Item>, items: seq<Item>, mine: set<Key>, others: Others)
    requires OnlyInserts(before, after, few, mine, others) && forall x :: x in few ==> x in items
    ensures OnlyInserts(before, after, items, mine, others)
  {}

  lemma KeepsRow(before: Rows, after: Rows, items: seq<Item>, mine: set<Key>, others: Others, k: Key)
    requires OnlyInserts(before, after, items, mine, others) && k in before
    ensures k in after
  {}
}
