/** Telling from the values of one key whether a record is inserted, deleted or replaced. */
module OperationType {
  import opened CursorViews
  import opened Options
  import opened SerCursors

  datatype Operation = Insert | Delete | Upsert

  datatype Outcome = NonUnique | Unique(operation: Option<Operation>)

  ghost predicate HasSign(items: seq<Item>, positive: bool) {
    exists j :: 0 <= j < |items| && Wanted(items[j], positive)
  }

  // Two values of the same sign, or one value more than once.
  ghost predicate Ambiguous(items: seq<Item>) {
    || (exists j :: 0 <= j < |items| && (items[j].weight > 1 || items[j].weight < -1))
    || exists j, l, positive :: 0 <= j < l < |items| && Wanted(items[j], positive) && Wanted(items[l], positive)
  }

  function OperationOf(insert: bool, delete: bool): Option<Operation> {
    if insert then Some(if delete then Upsert else Insert) else if delete then Some(Delete) else None
  }

  lemma AmbiguousMore(items: seq<Item>, n: nat)
    requires n < |items| && !Ambiguous(items[..n])
    ensures Ambiguous(items[..n + 1]) <==>
            || items[n].weight > 1 || items[n].weight < -1
            || (items[n].weight > 0 && HasSign(items[..n], true))
            || (items[n].weight < 0 && HasSign(items[..n], false))
  {
    var before, now := items[..n], items[..n + 1];
    assert forall j :: 0 <= j < n ==> now[j] == before[j];
    assert now[n] == items[n];
    if exists positive :: Wanted(items[n], positive) && HasSign(before, positive) {
      var positive :| Wanted(items[n], positive) && HasSign(before, positive);
      var j :| 0 <= j < |before| && Wanted(before[j], positive);
      assert Wanted(now[j], positive) && Wanted(now[n], positive);
    }
  }

  lemma SomeMore(items: seq<Item>, n: nat, positive: bool)
    requires n < |items|
    ensures HasSign(items[..n + 1], positive) <==> HasSign(items[..n], positive) || Wanted(items[n], positive)
  {
    var before, now := items[..n], items[..n + 1];
    assert forall j :: 0 <= j < n ==> now[j] == before[j];
    assert now[n] == items[n];
  }

  predicate Clashes(weight: int, insert: bool, delete: bool) {
    weight > 1 || weight < -1 || (weight == 1 && insert) || (weight == -1 && delete)
  }

  datatype Flags = Clash | Flags(insert: bool, delete: bool)

  function Add(flags: Flags, weight: int): Flags {
    match flags
    case Clash => Clash
    case Flags(i, d) => if Clashes(weight, i, d) then Clash else Flags(i || weight == 1, d || weight == -1)
  }

  // The flags after some values, unless there was a clash.
  ghost function Scan(items: seq<Item>): Flags {
    if |items| == 0 then Flags(false, false) else Add(Scan(items[..|items| - 1]), items[|items| - 1].weight)
  }

  lemma ScanNothing(items: seq<Item>)
    requires |items| == 0
    ensures Scan(items) == Flags(false, false)
  {
  }

  lemma ScanStep(items: seq<Item>, n: nat)
    requires n < |items|
    ensures Scan(items[..n + 1]) == Add(Scan(items[..n]), items[n].weight)
  {
    assert items[..n + 1][..n] == items[..n];
  }

  lemma {:induction false} ClashStays(items: seq<Item>, n: nat)
    requires n <= |items| && Scan(items[..n]) == Clash
    ensures Scan(items) == Clash
    decreases |items| - n
  {
    if n < |items| {
      ScanStep(items, n);
      ClashStays(items, n + 1);
    } else {
      assert items[..n] == items;
    }
  }

  // What the next value does to the flags.
  lemma ScanOn(items: seq<Item>, n: nat, insert: bool, delete: bool)
    requires n < |items| && Scan(items[..n]) == Flags(insert, delete)
    ensures var weight := items[n].weight;
            if Clashes(weight, insert, delete) then Scan(items) == Clash
            else Scan(items[..n + 1]) == Flags(insert || weight == 1, delete || weight == -1)
  {
    ScanStep(items, n);
    hide Scan;
    if Clashes(items[n].weight, insert, delete) { ClashStays(items, n + 1); }
  }

  lemma {:induction false} AmbiguousStays(items: seq<Item>, n: nat)
    requires n < |items| && Ambiguous(items[..n])
    ensures Ambiguous(items[..n + 1])
  {
    var before, now := items[..n], items[..n + 1];
    if j :| 0 <= j < n && (before[j].weight > 1 || before[j].weight < -1) {
      assert now[j] == before[j];
    } else {
      var j, l, positive :| 0 <= j < l < n && Wanted(before[j], positive) && Wanted(before[l], positive);
      assert now[j] == before[j] && now[l] == before[l];
    }
  }

  // The flags say what the values say.
  lemma {:induction false} ScanMeans(items: seq<Item>, n: nat)
    requires n <= |items|
    ensures Scan(items[..n])
         == if Ambiguous(items[..n]) then Clash else Flags(HasSign(items[..n], true), HasSign(items[..n], false))
  {
    if n > 0 {
      ScanMeans(items, n - 1);
      ScanStep(items, n - 1);
      hide Ambiguous, HasSign, Scan;
      if Ambiguous(items[..n - 1]) {
        AmbiguousStays(items, n - 1);
      } else {
        AmbiguousMore(items, n - 1);
        SomeMore(items, n - 1, true);
        SomeMore(items, n - 1, false);
      }
    }
  }

  // The outcome the values of a key call for.
  ghost function Expected(items: seq<Item>): Outcome {
    if Ambiguous(items) then NonUnique else Unique(OperationOf(HasSign(items, true), HasSign(items, false)))
  }

  lemma ScanIsExpected(items: seq<Item>)
    ensures Expected(items) == match Scan(items) case Clash => NonUnique case Flags(i, d) => Unique(OperationOf(i, d))
  {
    ScanMeans(items, |items|);
    assert items[..|items|] == items;
  }

  // One value noted: weights beyond one, and a second value of the same sign, are a clash.
  method Note(weight: int, insert: bool, delete: bool) returns (flags: Flags)
    ensures flags == Add(Flags(insert, delete), weight)
  {
    if weight == 0 { return Flags(insert, delete); }
    if weight > 1 { return Clash; }
    if weight < -1 { return Clash; }
    if weight == 1 {
      if insert { return Clash; }
      return Flags(true, delete);
    }
    if delete { return Clash; }
    return Flags(insert, true);
  }

  // One value on.
  method StepOn(cursor: SerCursor, ghost at: View, ghost n: nat) returns (more: bool)
    requires cursor.Valid() && at.KeyValid() && at.Within() && n < |at.Ahead()|
    requires cursor.view == View(at.groups, at.k, at.i + n)
    modifies cursor.Repr
    ensures cursor.Valid() && cursor.view == View(at.groups, at.k, at.i + (n + 1)) && more == (n + 1 < |at.Ahead()|)
  {
    hide SerCursor.Valid, SerCursor.Shaped;
    AheadAt(at, n);
    AheadAt(at, n + 1);
    cursor.StepVal();
    more := cursor.ValValid();
  }

  // What happened to the key the cursor is at, by its values from the current one on.
  method IndexedOperationType(cursor: SerCursor) returns (outcome: Outcome)
    requires cursor.Valid() && cursor.view.KeyValid()
    modifies cursor.Repr
    ensures cursor.Valid() && cursor.view.groups == old(cursor.view).groups && cursor.view.k == old(cursor.view).k
    ensures outcome == Expected(old(cursor.view).Ahead())
  {
    ghost var at := cursor.view;
    assert at.Within();
    hide SerCursor.Valid, SerCursor.Shaped, Expected, Scan, View.Ahead;
    var insert, delete := false, false;
    ghost var items, n := at.Ahead(), 0;
    ScanIsExpected(items);
    ScanNothing(items[..0]);
    AheadAt(at, 0);
    var more := cursor.ValValid();
    while more
      invariant cursor.Valid() && n <= |items| && more == (n < |items|)
      invariant cursor.view == View(at.groups, at.k, at.i + n)
      invariant Scan(items[..n]) == Flags(insert, delete)
      decreases |items| - n
    {
      AheadAt(at, n);
      var weight := cursor.Weight();
      ScanOn(items, n, insert, delete);
      var flags := Note(weight, insert, delete);
      if flags.Clash? { return NonUnique; }
      insert, delete := flags.insert, flags.delete;
      more := StepOn(cursor, at, n);
      n := n + 1;
    }
    assert items[..n] == items;
    outcome := Unique(OperationOf(insert, delete));
  }

  // The place n values ahead.
  lemma AheadAt(at: View, n: nat)
    requires at.KeyValid() && at.Within() && n <= |at.Ahead()|
    ensures var v := View(at.groups, at.k, at.i + n);
            v.KeyValid() && (v.ValValid() <==> n < |at.Ahead()|)
            && (n < |at.Ahead()| ==> at.Ahead()[n] == at.groups[at.k].items[at.i + n])
  {
  }

  // ---- A key with at most one record before and after ----

  function Present(record: Option<DynData>, val: DynData): int { if record == Some(val) then 1 else 0 }

  // The items are the change from one record to the other; an item may have weight 0.
  ghost predicate Change(items: seq<Item>, before: Option<DynData>, after: Option<DynData>) {
    && (forall j :: 0 <= j < |items| ==>
          items[j].weight == Present(after, items[j].val) - Present(before, items[j].val))
    && (forall j, l :: 0 <= j < l < |items| ==> items[j].val != items[l].val)
    && (before != after && before.Some? ==> exists j :: 0 <= j < |items| && items[j].val == before.value)
    && (before != after && after.Some? ==> exists j :: 0 <= j < |items| && items[j].val == after.value)
  }

  // Then the operation is exactly what happened to the record.
  lemma ClassificationIsExact(items: seq<Item>, before: Option<DynData>, after: Option<DynData>)
    requires Change(items, before, after)
    ensures !Ambiguous(items)
    ensures OperationOf(HasSign(items, true), HasSign(items, false)) ==
            if before == after then None
            else if before.None? then Some(Insert)
            else if after.None? then Some(Delete)
            else Some(Upsert)
  {
    assert forall j :: 0 <= j < |items| && Wanted(items[j], true) ==> after == Some(items[j].val);
    assert forall j :: 0 <= j < |items| && Wanted(items[j], false) ==> before == Some(items[j].val);
    if before != after {
      if before.Some? {
        var j :| 0 <= j < |items| && items[j].val == before.value;
        assert Wanted(items[j], false);
      }
      if after.Some? {
        var j :| 0 <= j < |items| && items[j].val == after.value;
        assert Wanted(items[j], true);
      }
    }
  }
}
