/** What a cursor goes through: groups, each a key with its values and their weights. */
module CursorViews {
  import opened Sequences

  // Type-erased data; `Unit` is the value of every key of a flattened cursor.
  datatype DynData = Unit | Datum(rank: int)

  datatype Item = Item(val: DynData, weight: int)

  datatype Group = Group(key: DynData, items: seq<Item>)

  datatype Row = Row(key: DynData, val: DynData, weight: int)

  // A place among the groups; k == |groups| and i == |items| are the ends.
  datatype View = View(groups: seq<Group>, k: nat, i: nat)
  {
    predicate KeyValid() { k < |groups| }

    predicate ValValid() { k < |groups| && i < |groups[k].items| }

    function Next(): View { View(groups, k, i + 1) }

    ghost function Remaining(): nat { if ValValid() then |groups[k].items| - i else 0 }

    // The values of the key from the current one on.
    ghost function Ahead(): seq<Item>
      requires KeyValid() && i <= |groups[k].items|
    {
      groups[k].items[i..]
    }

    ghost predicate Within() { k <= |groups| && (k < |groups| ==> i <= |groups[k].items|) }
  }

  // ---- Everything a traversal emits ----

  ghost function GroupRows(key: DynData, items: seq<Item>, n: nat): seq<Row>
    requires n <= |items|
  {
    if n == 0 then [] else GroupRows(key, items, n - 1) + [Row(key, items[n - 1].val, items[n - 1].weight)]
  }

  ghost function Rows(groups: seq<Group>): seq<Row> {
    if |groups| == 0 then []
    else
      var last := groups[|groups| - 1];
      Rows(groups[..|groups| - 1]) + GroupRows(last.key, last.items, |last.items|)
  }

  lemma RowsStep(groups: seq<Group>, k: nat)
    requires k < |groups|
    ensures Rows(groups[..k + 1]) == Rows(groups[..k]) + GroupRows(groups[k].key, groups[k].items, |groups[k].items|)
  {
    assert groups[..k + 1][..k] == groups[..k];
  }

  lemma {:induction false} RowsAppend(a: seq<Group>, b: seq<Group>)
    ensures Rows(a + b) == Rows(a) + Rows(b)
  {
    hide GroupRows;
    if |b| == 0 {
      assert a + b == a;
    } else {
      var n, last := |b| - 1, b[|b| - 1];
      RowsAppend(a, b[..n]);
      assert (a + b)[..|a| + n] == a + b[..n];
      Associative(Rows(a), Rows(b[..n]), GroupRows(last.key, last.items, |last.items|));
    }
  }

  // ---- Flattening: every value becomes a key of its own ----

  function Single(item: Item): Group { Group(item.val, [Item(Unit, item.weight)]) }

  ghost function Singles(items: seq<Item>): seq<Group> {
    seq(|items|, j requires 0 <= j < |items| => Single(items[j]))
  }

  ghost function Flatten(groups: seq<Group>): seq<Group> {
    if |groups| == 0 then [] else Flatten(groups[..|groups| - 1]) + Singles(groups[|groups| - 1].items)
  }

  // How many values come before group k.
  ghost function Before(groups: seq<Group>, k: nat): nat
    requires k <= |groups|
  {
    if k == 0 then 0 else Before(groups, k - 1) + |groups[k - 1].items|
  }

  lemma {:induction false} BeforePrefix(groups: seq<Group>, n: nat, k: nat)
    requires k <= n <= |groups|
    ensures Before(groups[..n], k) == Before(groups, k)
  {
    if k > 0 { BeforePrefix(groups, n, k - 1); }
  }

  lemma {:induction false} FlattenLength(groups: seq<Group>)
    ensures |Flatten(groups)| == Before(groups, |groups|)
  {
    if |groups| > 0 {
      FlattenLength(groups[..|groups| - 1]);
      BeforePrefix(groups, |groups| - 1, |groups| - 1);
    }
  }

  lemma {:induction false} FlattenAt(groups: seq<Group>, k: nat, i: nat)
    requires k < |groups| && i < |groups[k].items|
    ensures Before(groups, k) + i < |Flatten(groups)|
    ensures Flatten(groups)[Before(groups, k) + i] == Single(groups[k].items[i])
    decreases |groups|
  {
    var n := |groups| - 1;
    FlattenLength(groups[..n]);
    BeforePrefix(groups, n, n);
    if k < n {
      FlattenAt(groups[..n], k, i);
      BeforePrefix(groups, n, k);
    }
  }

  // ---- Polarity: one sign after the other ----

  predicate OfSign(weight: int, positive: bool) { if positive then weight > 0 else weight < 0 }

  predicate Wanted(item: Item, positive: bool) { OfSign(item.weight, positive) }

  ghost function KeepTo(items: seq<Item>, n: nat, positive: bool): seq<Item>
    requires n <= |items|
  {
    if n == 0 then []
    else KeepTo(items, n - 1, positive) + if Wanted(items[n - 1], positive) then [items[n - 1]] else []
  }

  ghost function Keep(items: seq<Item>, positive: bool): seq<Item> { KeepTo(items, |items|, positive) }

  ghost function Signed(groups: seq<Group>, positive: bool): seq<Group> {
    seq(|groups|, j requires 0 <= j < |groups| => Group(groups[j].key, Keep(groups[j].items, positive)))
  }

  ghost function Polarized(groups: seq<Group>): seq<Group> { Signed(groups, false) + Signed(groups, true) }

  lemma {:induction false} KeepMore(items: seq<Item>, n: nat, m: nat, positive: bool)
    requires n <= m <= |items|
    ensures KeepTo(items, n, positive) <= KeepTo(items, m, positive)
  {
    if n < m { KeepMore(items, n, m - 1, positive); }
  }

  // At a wanted item stands the next item kept; past an unwanted one nothing changes.
  lemma KeepAt(items: seq<Item>, n: nat, positive: bool)
    requires n < |items|
    ensures var m := |KeepTo(items, n, positive)|;
            && |KeepTo(items, n + 1, positive)| == (if Wanted(items[n], positive) then m + 1 else m)
            && (Wanted(items[n], positive) ==> m < |Keep(items, positive)| && Keep(items, positive)[m] == items[n])
  {
    KeepMore(items, n + 1, |items|, positive);
  }

  // ---- What the wrappers emit ----

  function Flat(row: Row): Row { Row(row.val, Unit, row.weight) }

  ghost function FlatRows(rows: seq<Row>): seq<Row> {
    if |rows| == 0 then [] else FlatRows(rows[..|rows| - 1]) + [Flat(rows[|rows| - 1])]
  }

  ghost function SignedRows(rows: seq<Row>, positive: bool): seq<Row> {
    if |rows| == 0 then []
    else
      var row := rows[|rows| - 1];
      SignedRows(rows[..|rows| - 1], positive)
      + if OfSign(row.weight, positive) then [row] else []
  }

  lemma {:induction false} FlatRowsAppend(a: seq<Row>, b: seq<Row>)
    ensures FlatRows(a + b) == FlatRows(a) + FlatRows(b)
  {
    if |b| == 0 {
      assert a + b == a;
    } else {
      assert (a + b)[..|a| + |b| - 1] == a + b[..|b| - 1];
      FlatRowsAppend(a, b[..|b| - 1]);
    }
  }

  lemma {:induction false} SignedRowsAppend(a: seq<Row>, b: seq<Row>, positive: bool)
    ensures SignedRows(a + b, positive) == SignedRows(a, positive) + SignedRows(b, positive)
  {
    if |b| == 0 {
      assert a + b == a;
    } else {
      assert (a + b)[..|a| + |b| - 1] == a + b[..|b| - 1];
      SignedRowsAppend(a, b[..|b| - 1], positive);
    }
  }

  lemma SingleRows(key: DynData, item: Item)
    ensures var g := Single(item); GroupRows(g.key, g.items, |g.items|) == [Flat(Row(key, item.val, item.weight))]
  {
    var g := Single(item);
    assert GroupRows(g.key, g.items, 0) == [];
  }

  lemma FlatRowsSnoc(rows: seq<Row>, row: Row)
    ensures FlatRows(rows + [row]) == FlatRows(rows) + [Flat(row)]
  {
    assert (rows + [row])[..|rows|] == rows;
  }

  lemma {:induction false} SinglesRows(key: DynData, items: seq<Item>, n: nat)
    requires n <= |items|
    ensures Rows(Singles(items)[..n]) == FlatRows(GroupRows(key, items, n))
  {
    if n > 0 {
      SinglesRows(key, items, n - 1);
      RowsStep(Singles(items), n - 1);
      SingleRows(key, items[n - 1]);
      FlatRowsSnoc(GroupRows(key, items, n - 1), Row(key, items[n - 1].val, items[n - 1].weight));
    }
  }

  lemma {:induction false} FlattenRows(groups: seq<Group>)
    ensures Rows(Flatten(groups)) == FlatRows(Rows(groups))
  {
    if |groups| > 0 {
      var n, last := |groups| - 1, groups[|groups| - 1];
      FlattenRows(groups[..n]);
      RowsAppend(Flatten(groups[..n]), Singles(last.items));
      SinglesRows(last.key, last.items, |last.items|);
      assert Singles(last.items)[..|last.items|] == Singles(last.items);
      FlatRowsAppend(Rows(groups[..n]), GroupRows(last.key, last.items, |last.items|));
    }
  }

  lemma {:induction false} KeepRows(key: DynData, items: seq<Item>, n: nat, positive: bool)
    requires n <= |items|
    ensures var kept := KeepTo(items, n, positive);
            GroupRows(key, kept, |kept|) == SignedRows(GroupRows(key, items, n), positive)
  {
    if n > 0 {
      KeepRows(key, items, n - 1, positive);
      var item, less := items[n - 1], KeepTo(items, n - 1, positive);
      var rows, row := GroupRows(key, items, n - 1), Row(key, item.val, item.weight);
      assert GroupRows(key, items, n) == rows + [row];
      hide GroupRows, SignedRows;
      SignedRowsSnoc(rows, row, positive);
      GroupRowsSnoc(key, less, item);
      assert less + [] == less && SignedRows(rows, positive) + [] == SignedRows(rows, positive);
    }
  }

  lemma SignedRowsSnoc(rows: seq<Row>, row: Row, positive: bool)
    ensures SignedRows(rows + [row], positive)
         == SignedRows(rows, positive) + if OfSign(row.weight, positive) then [row] else []
  {
    assert (rows + [row])[..|rows|] == rows;
  }

  lemma GroupRowsSnoc(key: DynData, items: seq<Item>, item: Item)
    ensures GroupRows(key, items + [item], |items| + 1)
         == GroupRows(key, items, |items|) + [Row(key, item.val, item.weight)]
  {
    GroupRowsPrefix(key, items + [item], items, |items|);
  }

  lemma {:induction false} GroupRowsPrefix(key: DynData, items: seq<Item>, less: seq<Item>, n: nat)
    requires less <= items && n <= |less|
    ensures GroupRows(key, items, n) == GroupRows(key, less, n)
  {
    if n > 0 { GroupRowsPrefix(key, items, less, n - 1); }
  }

  lemma {:induction false} SignedGroupsRows(groups: seq<Group>, positive: bool)
    ensures Rows(Signed(groups, positive)) == SignedRows(Rows(groups), positive)
  {
    if |groups| > 0 {
      var n, last := |groups| - 1, groups[|groups| - 1];
      SignedGroupsRows(groups[..n], positive);
      assert Signed(groups, positive)[..n] == Signed(groups[..n], positive);
      KeepRows(last.key, last.items, |last.items|, positive);
      SignedRowsAppend(Rows(groups[..n]), GroupRows(last.key, last.items, |last.items|), positive);
    }
  }

  // Every deletion once, in the order of the cursor underneath, then every insertion; nothing of weight 0.
  lemma DeletionsThenInsertions(groups: seq<Group>)
    ensures Rows(Polarized(groups)) == SignedRows(Rows(groups), false) + SignedRows(Rows(groups), true)
  {
    RowsAppend(Signed(groups, false), Signed(groups, true));
    SignedGroupsRows(groups, false);
    SignedGroupsRows(groups, true);
  }

  // The same for the values of an indexed Z-set.
  lemma FlatDeletionsThenInsertions(groups: seq<Group>)
    ensures var rows := FlatRows(Rows(groups));
            Rows(Polarized(Flatten(groups))) == SignedRows(rows, false) + SignedRows(rows, true)
  {
    FlattenRows(groups);
    DeletionsThenInsertions(Flatten(groups));
  }
}
