/** Applying a delta to a table with a unique key, one update at a time. */
module DeletionsFirst {
  import opened CursorViews
  import opened Sequences

  // A table of records; `id` gives the key of a record.
  type Table = multiset<DynData>

  ghost predicate Unique(table: Table, id: DynData -> int) {
    && (forall r :: table[r] <= 1)
    && forall r, s :: r in table && s in table && id(r) == id(s) ==> r == s
  }

  datatype Update = Delete(record: DynData) | Insert(record: DynData)

  // A record is updated as many times as its weight says.
  function Repeat(update: Update, times: nat): seq<Update> {
    if times == 0 then [] else Repeat(update, times - 1) + [update]
  }

  function UpdatesOf(row: Row): seq<Update> {
    if row.weight < 0 then Repeat(Delete(row.key), -row.weight) else Repeat(Insert(row.key), row.weight)
  }

  function Updates(rows: seq<Row>): seq<Update> {
    if |rows| == 0 then [] else Updates(rows[..|rows| - 1]) + UpdatesOf(rows[|rows| - 1])
  }

  ghost function Apply(table: Table, update: Update): Table {
    match update
    case Delete(r) => table - multiset{r}
    case Insert(r) => table + multiset{r}
  }

  ghost function ApplyAll(table: Table, updates: seq<Update>): Table {
    if |updates| == 0 then table else Apply(ApplyAll(table, updates[..|updates| - 1]), updates[|updates| - 1])
  }

  // The key is unique in every state on the way, and only records that are there are deleted.
  ghost predicate Safe(table: Table, updates: seq<Update>, id: DynData -> int) {
    && Unique(ApplyAll(table, updates), id)
    && (|updates| > 0 ==>
          var before, last := updates[..|updates| - 1], updates[|updates| - 1];
          Safe(table, before, id) && (last.Delete? ==> last.record in ApplyAll(table, before)))
  }

  ghost function Count(updates: seq<Update>, update: Update): nat {
    if |updates| == 0 then 0
    else Count(updates[..|updates| - 1], update) + if updates[|updates| - 1] == update then 1 else 0
  }

  lemma {:induction false} CountAppend(a: seq<Update>, b: seq<Update>, update: Update)
    ensures Count(a + b, update) == Count(a, update) + Count(b, update)
  {
    if |b| == 0 {
      assert a + b == a;
    } else {
      assert (a + b)[..|a| + |b| - 1] == a + b[..|b| - 1];
      CountAppend(a, b[..|b| - 1], update);
    }
  }

  lemma {:induction false} CountRepeat(update: Update, times: nat, other: Update)
    ensures Count(Repeat(update, times), other) == if update == other then times else 0
  {
    if times > 0 {
      CountRepeat(update, times - 1, other);
      assert Repeat(update, times)[..|Repeat(update, times)| - 1] == Repeat(update, times - 1);
    }
  }

  lemma SmallerIsUnique(small: Table, large: Table, id: DynData -> int)
    requires Unique(large, id) && small <= large
    ensures Unique(small, id)
  {
    forall r ensures small[r] <= 1 { assert small[r] <= large[r]; }
    assert forall r :: r in small ==> r in large;
  }

  // ---- Deletions only, insertions only ----

  ghost predicate All(updates: seq<Update>, delete: bool) { forall u :: u in updates ==> u.Delete? == delete }

  lemma {:induction false} DeletionsSafe(table: Table, updates: seq<Update>, id: DynData -> int)
    requires Unique(table, id) && All(updates, true) && forall r :: Count(updates, Delete(r)) <= table[r]
    ensures Safe(table, updates, id)
    ensures forall r :: ApplyAll(table, updates)[r] == table[r] - Count(updates, Delete(r))
  {
    if |updates| > 0 {
      var before, last := updates[..|updates| - 1], updates[|updates| - 1];
      assert last in updates;
      forall r ensures Count(before, Delete(r)) <= table[r] {
        assert Count(before, Delete(r)) <= Count(updates, Delete(r));
      }
      DeletionsSafe(table, before, id);
      assert Count(updates, Delete(last.record)) == Count(before, Delete(last.record)) + 1;
    }
    SmallerIsUnique(ApplyAll(table, updates), table, id);
  }

  lemma {:induction false} InsertionsSafe(table: Table, updates: seq<Update>, goal: Table, id: DynData -> int)
    requires Unique(goal, id) && All(updates, false) && forall r :: table[r] + Count(updates, Insert(r)) <= goal[r]
    ensures Safe(table, updates, id)
    ensures forall r :: ApplyAll(table, updates)[r] == table[r] + Count(updates, Insert(r))
  {
    if |updates| > 0 {
      var before, last := updates[..|updates| - 1], updates[|updates| - 1];
      assert last in updates;
      forall r ensures table[r] + Count(before, Insert(r)) <= goal[r] {
        assert Count(before, Insert(r)) <= Count(updates, Insert(r));
      }
      InsertionsSafe(table, before, goal, id);
    }
    forall r ensures ApplyAll(table, updates)[r] <= goal[r] {
      assert table[r] + Count(updates, Insert(r)) <= goal[r];
    }
    SmallerIsUnique(ApplyAll(table, updates), goal, id);
  }

  lemma {:induction false} ApplyAllAppend(table: Table, a: seq<Update>, b: seq<Update>)
    ensures ApplyAll(table, a + b) == ApplyAll(ApplyAll(table, a), b)
  {
    hide Apply;
    if |b| == 0 {
      assert a + b == a;
    } else {
      assert (a + b)[..|a| + |b| - 1] == a + b[..|b| - 1];
      ApplyAllAppend(table, a, b[..|b| - 1]);
    }
  }

  lemma {:induction false} SafeAppend(table: Table, a: seq<Update>, b: seq<Update>, id: DynData -> int)
    requires Safe(table, a, id) && Safe(ApplyAll(table, a), b, id)
    ensures Safe(table, a + b, id)
  {
    hide Apply, Unique;
    ApplyAllAppend(table, a, b);
    if |b| == 0 {
      assert a + b == a;
    } else {
      var before := b[..|b| - 1];
      assert (a + b)[..|a| + |b| - 1] == a + before;
      ApplyAllAppend(table, a, before);
      SafeAppend(table, a, before, id);
    }
  }

  // ---- The stream of a cursor with polarity ----

  // How often a record is deleted, or inserted, by rows of that sign.
  ghost function Sum(rows: seq<Row>, r: DynData, positive: bool): nat {
    if |rows| == 0 then 0
    else
      var row := rows[|rows| - 1];
      Sum(rows[..|rows| - 1], r, positive) +
      if row.key != r then 0
      else if positive && row.weight > 0 then row.weight
      else if !positive && row.weight < 0 then -row.weight else 0
  }

  function Of(r: DynData, positive: bool): Update { if positive then Insert(r) else Delete(r) }

  lemma {:induction false} UpdatesAppend(a: seq<Row>, b: seq<Row>)
    ensures Updates(a + b) == Updates(a) + Updates(b)
  {
    hide UpdatesOf;
    if |b| == 0 {
      assert a + b == a;
    } else {
      var before, row := b[..|b| - 1], b[|b| - 1];
      assert (a + b)[..|a| + |b| - 1] == a + before;
      UpdatesAppend(a, before);
      Associative(Updates(a), Updates(before), UpdatesOf(row));
    }
  }

  lemma {:induction false} RepeatAll(update: Update, times: nat)
    ensures All(Repeat(update, times), update.Delete?)
  {
    if times > 0 { RepeatAll(update, times - 1); }
  }

  lemma UpdatesSnoc(rows: seq<Row>, row: Row)
    ensures Updates(rows + [row]) == Updates(rows) + UpdatesOf(row)
  {
    hide UpdatesOf;
    assert (rows + [row])[..|rows|] == rows;
  }

  // What one row of a sign adds.
  lemma UpdatesOfSigned(row: Row, r: DynData, positive: bool)
    requires OfSign(row.weight, positive)
    ensures All(UpdatesOf(row), !positive)
    ensures Count(UpdatesOf(row), Of(r, positive))
         == if row.key != r then 0 else if positive then row.weight else -row.weight
  {
    var times := if positive then row.weight else -row.weight;
    CountRepeat(Of(row.key, positive), times, Of(r, positive));
    RepeatAll(Of(row.key, positive), times);
  }

  lemma NoUpdates(rows: seq<Row>, update: Update)
    requires |rows| == 0
    ensures Count(Updates(rows), update) == 0 && All(Updates(rows), true) && All(Updates(rows), false)
  {
  }

  lemma AllAppend(a: seq<Update>, b: seq<Update>, delete: bool)
    requires All(a, delete) && All(b, delete)
    ensures All(a + b, delete)
  {
  }

  lemma SignedRowsStep(rows: seq<Row>, positive: bool)
    requires |rows| > 0
    ensures var before, row := rows[..|rows| - 1], rows[|rows| - 1];
            SignedRows(rows, positive) ==
            if OfSign(row.weight, positive) then SignedRows(before, positive) + [row] else SignedRows(before, positive)
  {
  }

  lemma NoSignedUpdates(rows: seq<Row>, r: DynData, positive: bool)
    requires |rows| == 0
    ensures Count(Updates(SignedRows(rows, positive)), Of(r, positive)) == 0
    ensures All(Updates(SignedRows(rows, positive)), !positive)
  {
    NoUpdates(SignedRows(rows, positive), Of(r, positive));
  }

  ghost function Times(row: Row, r: DynData, positive: bool): nat {
    if row.key == r && OfSign(row.weight, positive) then (if positive then row.weight else -row.weight) else 0
  }

  // What one more row of the sign adds to the updates.
  lemma OneMoreRow(kept: seq<Row>, row: Row, r: DynData, positive: bool)
    requires OfSign(row.weight, positive) && All(Updates(kept), !positive)
    ensures Count(Updates(kept + [row]), Of(r, positive))
         == Count(Updates(kept), Of(r, positive)) + Times(row, r, positive)
    ensures All(Updates(kept + [row]), !positive)
  {
    UpdatesSnoc(kept, row);
    UpdatesOfSigned(row, r, positive);
    hide UpdatesOf, Updates, Count, All;
    CountAppend(Updates(kept), UpdatesOf(row), Of(r, positive));
    AllAppend(Updates(kept), UpdatesOf(row), !positive);
  }

  lemma SumStep(rows: seq<Row>, r: DynData, positive: bool)
    requires |rows| > 0
    ensures Sum(rows, r, positive) == Sum(rows[..|rows| - 1], r, positive) + Times(rows[|rows| - 1], r, positive)
  {
  }

  lemma {:induction false} SignedUpdates(rows: seq<Row>, r: DynData, positive: bool)
    ensures Count(Updates(SignedRows(rows, positive)), Of(r, positive)) == Sum(rows, r, positive)
    ensures All(Updates(SignedRows(rows, positive)), !positive)
  {
    if |rows| == 0 {
      NoSignedUpdates(rows, r, positive);
    } else {
      hide Updates, Count, All, SignedRows, Sum, Of;
      var before, row := rows[..|rows| - 1], rows[|rows| - 1];
      SignedUpdates(before, r, positive);
      SignedRowsStep(rows, positive);
      SumStep(rows, r, positive);
      if OfSign(row.weight, positive) { OneMoreRow(SignedRows(before, positive), row, r, positive); }
    }
  }

  ghost predicate Distinct(rows: seq<Row>) { forall a, b :: 0 <= a < b < |rows| ==> rows[a].key != rows[b].key }

  lemma {:induction false} AbsentSum(rows: seq<Row>, r: DynData, positive: bool)
    requires forall a :: 0 <= a < |rows| ==> rows[a].key != r
    ensures Sum(rows, r, positive) == 0
  {
    if |rows| > 0 { AbsentSum(rows[..|rows| - 1], r, positive); }
  }

  // A record has one weight: it is deleted, or inserted, or neither.
  lemma {:induction false} OneSided(rows: seq<Row>, r: DynData)
    requires Distinct(rows)
    ensures Sum(rows, r, false) == 0 || Sum(rows, r, true) == 0
  {
    if |rows| > 0 {
      var before := rows[..|rows| - 1];
      if rows[|rows| - 1].key == r {
        AbsentSum(before, r, false);
        AbsentSum(before, r, true);
      } else {
        OneSided(before, r);
      }
    }
  }

  // If the key is unique in the table before and after a delta, it is unique in every state on the
  // way when deletions come first.
  lemma DeletionsFirstIsSafe(rows: seq<Row>, before: Table, after: Table, id: DynData -> int)
    requires Distinct(rows) && Unique(before, id) && Unique(after, id)
    requires forall r :: after[r] == before[r] + Sum(rows, r, true) - Sum(rows, r, false)
    ensures var updates := Updates(SignedRows(rows, false) + SignedRows(rows, true));
            Safe(before, updates, id) && ApplyAll(before, updates) == after
  {
    hide Unique, Distinct, Safe, ApplyAll, Updates, SignedRows, Sum, Count, All;
    var deletions, insertions := Updates(SignedRows(rows, false)), Updates(SignedRows(rows, true));
    UpdatesAppend(SignedRows(rows, false), SignedRows(rows, true));
    SignedUpdates(rows, Unit, false);
    SignedUpdates(rows, Unit, true);
    forall r ensures Count(deletions, Delete(r)) <= before[r] {
      SignedUpdates(rows, r, false);
      OneSided(rows, r);
    }
    DeletionsSafe(before, deletions, id);
    var middle := ApplyAll(before, deletions);
    forall r ensures middle[r] + Count(insertions, Insert(r)) == after[r] {
      SignedUpdates(rows, r, false);
      SignedUpdates(rows, r, true);
    }
    InsertionsSafe(middle, insertions, after, id);
    SafeAppend(before, deletions, insertions, id);
    ApplyAllAppend(before, deletions, insertions);
  }

  // In the order of the batch it need not be: replacing a record by a smaller one with the same key.
  lemma BatchOrderIsUnsafe(a: DynData, b: DynData, id: DynData -> int)
    requires a != b && id(a) == id(b)
    ensures var rows := [Row(a, Unit, 1), Row(b, Unit, -1)];
            && Distinct(rows) && Unique(multiset{b}, id) && Unique(multiset{a}, id)
            && (forall r :: multiset{a}[r] == multiset{b}[r] + Sum(rows, r, true) - Sum(rows, r, false))
            && !Safe(multiset{b}, Updates(rows), id)
  {
    var rows := [Row(a, Unit, 1), Row(b, Unit, -1)];
    UpdatesSnoc([rows[0]], rows[1]);
    UpdatesSnoc([], rows[0]);
    assert Repeat(Insert(a), 0) == Repeat(Delete(b), 0) == [];
    assert rows == [rows[0]] + [rows[1]] && [rows[0]] == [] + [rows[0]];
    var updates := Updates(rows);
    assert updates == [Insert(a), Delete(b)];
    assert updates[..1] == [Insert(a)] && updates[..1][..0] == [];
    var start := multiset{b};
    assert ApplyAll(start, updates[..1][..0]) == start;
    var one := ApplyAll(start, updates[..1]);
    assert a in one && b in one;
    assert rows[..1] == [rows[0]] && rows[..1][..0] == [];
    forall r ensures multiset{a}[r] == multiset{b}[r] + Sum(rows, r, true) - Sum(rows, r, false) {
      assert Sum(rows[..1][..0], r, true) == Sum(rows[..1][..0], r, false) == 0;
    }
  }
}
