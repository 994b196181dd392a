/** Splitting a batch into key ranges for several threads. */
module Partitions {
  import opened CursorLayers
  import opened CursorViews
  import opened Options
  import opened Sequences
  import opened SerCursors

  datatype SplitCursorBuilder = SplitCursorBuilder(start: DynData, end: Option<DynData>)

  // Bounds are keys of the batch, in order; they may repeat.
  ghost predicate Bounds(groups: seq<Group>, bounds: seq<DynData>) {
    && (forall j :: 0 <= j < |bounds| ==> exists m :: 0 <= m < |groups| && groups[m].key == bounds[j])
    && forall j, l :: 0 <= j <= l < |bounds| ==> AtLeast(bounds[l], bounds[j])
  }

  // Where part n begins; part n ends where part n + 1 begins.
  ghost function First(groups: seq<Group>, bounds: seq<DynData>, n: nat): nat
    requires n <= |bounds| + 1
  {
    if n == 0 then 0 else if n <= |bounds| then Seek(groups, bounds[n - 1], 0) else |groups|
  }

  ghost function Part(groups: seq<Group>, bounds: seq<DynData>, n: nat): seq<Group>
    requires Batch(groups) && Bounds(groups, bounds) && n <= |bounds|
  {
    FirstOrdered(groups, bounds, n);
    groups[First(groups, bounds, n)..First(groups, bounds, n + 1)]
  }

  lemma SeekOrdered(groups: seq<Group>, a: DynData, b: DynData)
    requires Batch(groups) && AtLeast(b, a)
    ensures Seek(groups, a, 0) <= Seek(groups, b, 0)
  {
    SeekDivides(groups, a, 0);
    var m := Seek(groups, b, 0);
    if m < |groups| { assert AtLeast(groups[m].key, a); }
  }

  lemma FirstOrdered(groups: seq<Group>, bounds: seq<DynData>, n: nat)
    requires Batch(groups) && Bounds(groups, bounds) && n <= |bounds|
    ensures First(groups, bounds, n) <= First(groups, bounds, n + 1) <= |groups|
  {
    if 0 < n < |bounds| { SeekOrdered(groups, bounds[n - 1], bounds[n]); }
  }

  lemma {:induction false} SeekFrom(groups: seq<Group>, key: DynData, n: nat, m: nat)
    requires n <= |groups| && n <= m <= Seek(groups, key, n)
    ensures Seek(groups, key, m) == Seek(groups, key, n)
    decreases m - n
  {
    if n < m { SeekFrom(groups, key, n + 1, m); }
  }

  // The range a builder stands for is its part.
  lemma RangeIsPart(groups: seq<Group>, bounds: seq<DynData>, n: nat, start: DynData, end: Option<DynData>)
    requires Batch(groups) && Bounds(groups, bounds) && n <= |bounds| && |groups| > 0
    requires start == if n == 0 then groups[0].key else bounds[n - 1]
    requires end == if n < |bounds| then Some(bounds[n]) else None
    ensures Range(groups, start, end) == Part(groups, bounds, n)
  {
    var lo := Seek(groups, start, 0);
    assert lo == First(groups, bounds, n);
    if n < |bounds| {
      FirstOrdered(groups, bounds, n);
      SeekFrom(groups, bounds[n], 0, lo);
    }
  }

  // A builder for part n, which beyond the last part is the batch; none if the batch is empty.
  method FromBounds(groups: seq<Group>, bounds: seq<DynData>, n: nat) returns (builder: Option<SplitCursorBuilder>)
    requires Batch(groups) && Bounds(groups, bounds)
    ensures builder.None? <==> |groups| == 0
    ensures builder.Some? ==> Range(groups, builder.value.start, builder.value.end)
                              == if n <= |bounds| then Part(groups, bounds, n) else groups
  {
    var cursor := new SerCursor.Over(groups);
    if 0 < n <= |bounds| {
      cursor.SeekKey(bounds[n - 1]);
      SeekFinds(groups, bounds[n - 1]);
    }
    var valid := cursor.KeyValid();
    if !valid { return None; }
    var start := cursor.Key();
    var end := if n < |bounds| then Some(bounds[n]) else None;
    if n <= |bounds| { RangeIsPart(groups, bounds, n, start, end); }
    builder := Some(SplitCursorBuilder(start, end));
  }

  lemma SeekFinds(groups: seq<Group>, key: DynData)
    requires Batch(groups) && exists m :: 0 <= m < |groups| && groups[m].key == key
    ensures Seek(groups, key, 0) < |groups| && groups[Seek(groups, key, 0)].key == key
  {
    var m :| 0 <= m < |groups| && groups[m].key == key;
    SeekDivides(groups, key, 0);
    var f := Seek(groups, key, 0);
    assert f <= m && AtLeast(groups[f].key, key);
  }

  lemma RangeStartable(groups: seq<Group>, start: DynData, end: Option<DynData>)
    requires Batch(groups)
    ensures Startable(Range(groups, start, end))
  {
  }

  method Build(groups: seq<Group>, builder: SplitCursorBuilder) returns (cursor: SerCursor)
    requires Batch(groups)
    ensures cursor.Valid() && fresh(cursor.Repr) && cursor.view == View(Range(groups, builder.start, builder.end), 0, 0)
    ensures Startable(cursor.view.groups)
  {
    RangeStartable(groups, builder.start, builder.end);
    var base := new SerCursor.Over(groups);
    assert base.layer.Base? && base.groups == groups;
    hide Batch, Startable, Range, SerCursor.Valid, SerCursor.Shaped;
    cursor := new SerCursor.Part(base, builder.start, builder.end);
  }

  // ---- The parts make up the batch ----

  ghost function PartsFrom(groups: seq<Group>, bounds: seq<DynData>, n: nat): seq<Group>
    requires Batch(groups) && Bounds(groups, bounds) && n <= |bounds| + 1
    decreases |bounds| + 1 - n
  {
    if n == |bounds| + 1 then [] else Part(groups, bounds, n) + PartsFrom(groups, bounds, n + 1)
  }

  lemma PartsStep(groups: seq<Group>, bounds: seq<DynData>, n: nat)
    requires Batch(groups) && Bounds(groups, bounds) && n <= |bounds|
    ensures var a, b := First(groups, bounds, n), First(groups, bounds, n + 1);
            a <= b <= |groups| && PartsFrom(groups, bounds, n) == groups[a..b] + PartsFrom(groups, bounds, n + 1)
  {
    FirstOrdered(groups, bounds, n);
    hide Batch, Bounds, First;
  }

  lemma {:induction false} PartsFromFirst(groups: seq<Group>, bounds: seq<DynData>, n: nat)
    requires Batch(groups) && Bounds(groups, bounds) && n <= |bounds| + 1
    ensures First(groups, bounds, n) <= |groups| && PartsFrom(groups, bounds, n) == groups[First(groups, bounds, n)..]
    decreases |bounds| + 1 - n
  {
    hide Batch, Bounds;
    if n <= |bounds| {
      PartsStep(groups, bounds, n);
      hide First, Part, PartsFrom;
      PartsFromFirst(groups, bounds, n + 1);
      SlicesMeet(groups, First(groups, bounds, n), First(groups, bounds, n + 1));
    }
  }

  // One part after another is the batch: nothing is skipped or visited twice.
  lemma PartsAreTheBatch(groups: seq<Group>, bounds: seq<DynData>)
    requires Batch(groups) && Bounds(groups, bounds)
    ensures PartsFrom(groups, bounds, 0) == groups
  {
    PartsFromFirst(groups, bounds, 0);
    assert groups[0..] == groups;
  }

  // A part of a batch with keys is empty exactly if the bound it ends at is the key it begins
  // with, which for part 0 is the first key of the batch.
  lemma EmptyPartExactly(groups: seq<Group>, bounds: seq<DynData>, n: nat)
    requires Batch(groups) && Bounds(groups, bounds) && n <= |bounds| && |groups| > 0
    ensures Part(groups, bounds, n) == [] <==>
            n < |bounds| && bounds[n] == if n == 0 then groups[0].key else bounds[n - 1]
  {
    FirstOrdered(groups, bounds, n);
    if n > 0 { SeekFinds(groups, bounds[n - 1]); }
    if n < |bounds| { SeekFinds(groups, bounds[n]); }
  }

  // What is documented of `from_bounds`, that exactly an empty part has no builder, ...
  ghost predicate NoneIfEmpty(groups: seq<Group>, bounds: seq<DynData>, n: nat, builder: Option<SplitCursorBuilder>)
    requires Batch(groups) && Bounds(groups, bounds) && n <= |bounds|
  {
    builder.None? <==> Part(groups, bounds, n) == []
  }

  // ... holds exactly unless the batch has keys and the part begins where it ends.
  lemma DocumentedNoneExactly(groups: seq<Group>, bounds: seq<DynData>, n: nat, builder: Option<SplitCursorBuilder>)
    requires Batch(groups) && Bounds(groups, bounds) && n <= |bounds|
    requires builder.None? <==> |groups| == 0
    ensures NoneIfEmpty(groups, bounds, n, builder) <==>
            !(|groups| > 0 && n < |bounds| && bounds[n] == if n == 0 then groups[0].key else bounds[n - 1])
  {
    if |groups| == 0 { FirstOrdered(groups, bounds, n); } else { EmptyPartExactly(groups, bounds, n); }
  }

  // One key for two threads: its key is the only bound, and part 0 has a builder but no keys.
  lemma OneKeyForTwoThreads(g: Group)
    requires Batch([g])
    ensures Bounds([g], [g.key]) && Part([g], [g.key], 0) == [] && Part([g], [g.key], 1) == [g]
  {
    assert [g][0].key == g.key;
    EmptyPartExactly([g], [g.key], 0);
    SeekFinds([g], g.key);
  }

  // What the thread for part n emits.
  method TraversePart(groups: seq<Group>, bounds: seq<DynData>, n: nat) returns (rows: seq<Row>)
    requires Batch(groups) && Bounds(groups, bounds) && n <= |bounds|
    ensures rows == Rows(Part(groups, bounds, n))
  {
    hide Batch, Bounds;
    var builder := FromBounds(groups, bounds, n);
    if builder.None? {
      assert Part(groups, bounds, n) == [];
      return [];
    }
    var cursor := Build(groups, builder.value);
    rows := cursor.Traverse();
  }

  // All threads together, part after part, emit what one cursor over the batch does.
  method TraverseParts(groups: seq<Group>, bounds: seq<DynData>) returns (rows: seq<Row>)
    requires Batch(groups) && Bounds(groups, bounds)
    ensures rows == Rows(groups)
  {
    hide Batch, Bounds, Part;
    rows := [];
    ghost var passed: seq<Group> := [];
    PartsAreTheBatch(groups, bounds);
    for n := 0 to |bounds| + 1
      invariant rows == Rows(passed) && passed + PartsFrom(groups, bounds, n) == groups
    {
      var part := TraversePart(groups, bounds, n);
      ghost var next := Part(groups, bounds, n);
      RowsAppend(passed, next);
      Associative(passed, next, PartsFrom(groups, bounds, n + 1));
      rows := rows + part;
      passed := passed + next;
    }
    assert passed + [] == passed;
  }

  method BuildFlat(groups: seq<Group>, builder: SplitCursorBuilder) returns (cursor: SerCursor)
    requires Batch(groups)
    ensures cursor.Valid() && fresh(cursor.Repr)
    ensures cursor.view == View(Flatten(Range(groups, builder.start, builder.end)), 0, 0)
  {
    hide Batch, Range, Flatten, Flattens, Restricts, Polarizes, SerCursor.Valid, SerCursor.Shaped;
    var split := Build(groups, builder);
    cursor := new SerCursor.Flat(split);
  }

  // The cursor an output connector uses for one part of an indexed batch.
  method BuildOutput(groups: seq<Group>, builder: SplitCursorBuilder) returns (cursor: SerCursor)
    requires Batch(groups)
    ensures cursor.Valid() && fresh(cursor.Repr)
    ensures cursor.view == View(Polarized(Flatten(Range(groups, builder.start, builder.end))), 0, 0)
  {
    hide Batch, Startable, Range, Flatten, Polarized, Flattens, Restricts, Polarizes, SerCursor.Valid, SerCursor.Shaped;
    var flat := BuildFlat(groups, builder);
    cursor := new SerCursor.WithPolarity(flat);
  }

  // It emits the deletions of the part, each once and in its order, then the insertions.
  method OutputPart(groups: seq<Group>, builder: SplitCursorBuilder) returns (rows: seq<Row>)
    requires Batch(groups)
    ensures var all := FlatRows(Rows(Range(groups, builder.start, builder.end)));
            rows == SignedRows(all, false) + SignedRows(all, true)
  {
    hide Batch, Startable, Range, Flatten, Polarized, Flattens, Restricts, Polarizes, SerCursor.Valid, SerCursor.Shaped;
    FlatDeletionsThenInsertions(Range(groups, builder.start, builder.end));
    var cursor := BuildOutput(groups, builder);
    rows := cursor.Traverse();
  }
}
