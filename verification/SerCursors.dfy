/** How the place of a wrapped cursor follows from that of the cursor underneath. */
module CursorLayers {
  import opened Arithmetic
  import opened CursorViews
  import opened Options

  // ---- Key ranges ----

  predicate AtLeast(a: DynData, b: DynData) { b.Unit? || (a.Datum? && a.rank >= b.rank) }

  // A batch: keys in strictly increasing order, every key with at least one value.
  ghost predicate Batch(groups: seq<Group>) {
    && (forall j :: 0 <= j < |groups| ==> groups[j].key.Datum? && |groups[j].items| > 0)
    && forall j, l :: 0 <= j < l < |groups| ==> groups[j].key.rank < groups[l].key.rank
  }

  // Where a search for the first key that is at least `key` ends, going forward from group n.
  function Seek(groups: seq<Group>, key: DynData, n: nat): (m: nat)
    requires n <= |groups|
    ensures n <= m <= |groups| && (m < |groups| ==> AtLeast(groups[m].key, key))
    decreases |groups| - n
  {
    if n == |groups| || AtLeast(groups[n].key, key) then n else Seek(groups, key, n + 1)
  }

  lemma {:induction false} SeekDivides(groups: seq<Group>, key: DynData, n: nat)
    requires Batch(groups) && n <= |groups|
    ensures forall j :: n <= j < |groups| ==> (AtLeast(groups[j].key, key) <==> Seek(groups, key, n) <= j)
    decreases |groups| - n
  {
    if n < |groups| && !AtLeast(groups[n].key, key) { SeekDivides(groups, key, n + 1); }
  }

  function SeekEnd(groups: seq<Group>, end: Option<DynData>, n: nat): nat
    requires n <= |groups|
  {
    if end.None? then |groups| else Seek(groups, end.value, n)
  }

  // The groups with keys from `start` on that are less than `end`.
  ghost function Range(groups: seq<Group>, start: DynData, end: Option<DynData>): seq<Group> {
    var lo := Seek(groups, start, 0);
    groups[lo..SeekEnd(groups, end, lo)]
  }

  // A search may take the cursor underneath past the end of the range.
  ghost predicate Restricts(under: View, start: DynData, end: Option<DynData>, v: View) {
    var lo := Seek(under.groups, start, 0);
    && Batch(under.groups) && lo <= under.k <= |under.groups|
    && v == View(Range(under.groups, start, end), Min(under.k, SeekEnd(under.groups, end, lo)) - lo, under.i)
  }

  predicate Finished(under: View, end: Option<DynData>) {
    end.Some? && under.KeyValid() && AtLeast(under.groups[under.k].key, end.value)
  }

  lemma RestrictedPlace(under: View, start: DynData, end: Option<DynData>, v: View)
    requires Restricts(under, start, end, v)
    ensures v.KeyValid() <==> under.KeyValid() && !Finished(under, end)
    ensures v.i == under.i && (v.KeyValid() ==> v.groups[v.k] == under.groups[under.k])
  {
    var lo := Seek(under.groups, start, 0);
    if end.Some? { SeekDivides(under.groups, end.value, lo); }
  }

  lemma RestrictedStep(under: View, start: DynData, end: Option<DynData>, v: View)
    requires Restricts(under, start, end, v) && v.KeyValid()
    ensures Restricts(View(under.groups, under.k + 1, 0), start, end, View(v.groups, v.k + 1, 0))
  {
  }

  lemma RestrictedMove(under: View, start: DynData, end: Option<DynData>, v: View)
    requires Restricts(under, start, end, v)
    ensures forall n: nat :: Restricts(View(under.groups, under.k, n), start, end, View(v.groups, v.k, n))
  {
  }

  lemma RestrictedStart(under: View, start: DynData, end: Option<DynData>, v: View)
    requires Restricts(under, start, end, v)
    ensures Restricts(View(under.groups, Seek(under.groups, start, 0), 0), start, end, View(v.groups, 0, 0))
  {
  }

  lemma {:induction false} SeekInRange(groups: seq<Group>, lo: nat, hi: nat, k: nat, key: DynData)
    requires lo <= k <= hi <= |groups|
    ensures lo + Seek(groups[lo..hi], key, k - lo) == Min(Seek(groups, key, k), hi)
    decreases hi - k
  {
    if k < hi && !AtLeast(groups[k].key, key) { SeekInRange(groups, lo, hi, k + 1, key); }
  }

  // Searching underneath is searching in the range.
  lemma RestrictedSeek(under: View, start: DynData, end: Option<DynData>, v: View, key: DynData, n: nat)
    requires Restricts(under, start, end, v)
    ensures var u, w := Seek(under.groups, key, under.k), Seek(v.groups, key, v.k);
            && Restricts(View(under.groups, u, n), start, end, View(v.groups, w, n))
            && (w < |v.groups| ==> u - under.k == w - v.k)
  {
    hide Batch, Seek;
    var lo := Seek(under.groups, start, 0);
    var hi := SeekEnd(under.groups, end, lo);
    if under.k <= hi { SeekInRange(under.groups, lo, hi, under.k, key); }
  }

  // ---- Flattening ----

  // The first group is nonempty, if there is one: where a flattened cursor can start.
  ghost predicate Startable(groups: seq<Group>) { |groups| > 0 ==> |groups[0].items| > 0 }

  // A flattened cursor takes its first place for the end exactly when the first group is empty and
  // there are values in others.
  lemma StartsUnlessFirstIsEmpty(groups: seq<Group>)
    ensures (View(groups, 0, 0).ValValid() <==> View(Flatten(groups), 0, 0).KeyValid()) <==>
            Startable(groups) || Flatten(groups) == []
  {
    if |groups| > 0 && |groups[0].items| > 0 { FlattenAt(groups, 0, 0); }
  }

  // Polarity makes such groups: flattening it can miss every insertion.
  lemma FlattenedPolarityMisses(key: DynData, val: DynData)
    ensures var groups := Polarized([Group(key, [Item(val, 1)])]);
            !Startable(groups) && Flatten(groups) == [Single(Item(val, 1))]
  {
    var items := [Item(val, 1)];
    var g := [Group(key, items)];
    assert KeepTo(items, 0, false) == KeepTo(items, 0, true) == [];
    assert Keep(items, false) == [] && Keep(items, true) == items;
    assert Polarized(g) == [Group(key, []), Group(key, items)];
    var p := Polarized(g);
    assert p[..1] == [Group(key, [])] && p[..1][..0] == [];
    assert Flatten(p[..1]) == Flatten([]) + Singles([]);
    assert Singles(items) == [Single(Item(val, 1))];
  }

  ghost predicate Flattens(under: View, valValid: bool, v: View) {
    && v.groups == Flatten(under.groups) && under.Within() && (under.KeyValid() ==> under.ValValid())
    && v.k == Before(under.groups, under.k) + (if under.KeyValid() then under.i else 0)
    && v.i == (if valValid then 0 else 1)
  }

  lemma FlattenedPlace(under: View, valValid: bool, v: View)
    requires Flattens(under, valValid, v)
    ensures v.KeyValid() <==> under.KeyValid()
    ensures v.KeyValid() ==> under.ValValid() && v.groups[v.k] == Single(under.groups[under.k].items[under.i])
    ensures v.Within() && v.i == if valValid then 0 else 1
  {
    if under.KeyValid() { FlattenAt(under.groups, under.k, under.i); } else { FlattenLength(under.groups); }
  }

  // From past the last value of a key to the first value of a later key, or to the end.
  ghost predicate Skipping(a: View, b: View) {
    && b.groups == a.groups && b.Within() && a.k <= b.k
    && a.KeyValid() && Before(b.groups, b.k) + (if b.KeyValid() then b.i else 0) == Before(a.groups, a.k) + a.i
  }

  ghost predicate Skips(a: View, b: View) { Skipping(a, b) && (b.KeyValid() ==> b.ValValid()) }

  lemma FlattenedStep(under: View, valValid: bool, next: View, v: View)
    requires Flattens(under, valValid, v) && under.KeyValid() && Skips(under.Next(), next)
    ensures Flattens(next, true, View(v.groups, v.k + 1, 0))
  {
  }

  lemma FlattenedMove(under: View, valValid: bool, v: View)
    requires Flattens(under, valValid, v)
    ensures Flattens(under, false, View(v.groups, v.k, 1)) && Flattens(under, true, View(v.groups, v.k, 0))
  {
  }

  lemma FlattenedStart(under: View, valValid: bool, v: View)
    requires Flattens(under, valValid, v) && Startable(under.groups)
    ensures Flattens(View(under.groups, 0, 0), true, View(v.groups, 0, 0))
  {
  }

  // ---- Polarity ----

  ghost predicate Polarizes(under: View, secondPass: bool, v: View) {
    && v.groups == Polarized(under.groups) && under.Within()
    && v.k == under.k + (if secondPass then |under.groups| else 0)
    && (under.KeyValid() ==> v.i == |KeepTo(under.groups[under.k].items, under.i, secondPass)|)
    && (under.ValValid() ==> Wanted(under.groups[under.k].items[under.i], secondPass))
    && (!secondPass ==> under.KeyValid() || |under.groups| == 0)
  }

  lemma PolarizedPlace(under: View, secondPass: bool, v: View)
    requires Polarizes(under, secondPass, v)
    ensures v.KeyValid() <==> under.KeyValid()
    ensures v.KeyValid() ==>
            v.groups[v.k] == Group(under.groups[under.k].key, Keep(under.groups[under.k].items, secondPass))
    ensures v.Within() && (v.ValValid() <==> under.ValValid())
    ensures v.ValValid() ==> v.groups[v.k].items[v.i] == under.groups[under.k].items[under.i]
  {
    if under.KeyValid() {
      assert v.groups[v.k] == Signed(under.groups, secondPass)[under.k];
      var items := under.groups[under.k].items;
      if under.ValValid() { KeepAt(items, under.i, secondPass); }
    }
  }

  // From one place in a key to a later one, past unwanted values.
  ghost predicate Passes(a: View, b: View, positive: bool) {
    && a.KeyValid() && a.Within() && b.Within() && b.groups == a.groups && b.k == a.k && a.i <= b.i
    && |KeepTo(b.groups[b.k].items, b.i, positive)| == |KeepTo(a.groups[a.k].items, a.i, positive)|
  }

  ghost predicate Settled(v: View, positive: bool) { v.ValValid() ==> Wanted(v.groups[v.k].items[v.i], positive) }

  lemma PassesMore(a: View, b: View, c: View, positive: bool)
    requires Passes(a, b, positive) && b.ValValid() && !Wanted(b.groups[b.k].items[b.i], positive)
             && Passes(b.Next(), c, positive)
    ensures Passes(a, c, positive)
  {
    KeepAt(b.groups[b.k].items, b.i, positive);
  }

  // To the first wanted value of the next key, which after the last key is the first key of the second pass.
  lemma PolarizedStep(under: View, wasSecond: bool, reached: View, next: View, secondPass: bool, v: View)
    requires Polarizes(under, wasSecond, v) && under.KeyValid()
    requires if under.k + 1 == |under.groups| && !wasSecond then secondPass && reached == View(under.groups, 0, 0)
             else secondPass == wasSecond && reached == View(under.groups, under.k + 1, 0)
    requires if reached.KeyValid() then Passes(reached, next, secondPass) && Settled(next, secondPass)
             else next == reached
    ensures Polarizes(next, secondPass, View(v.groups, v.k + 1, 0))
  {
  }

  lemma PolarizedMove(under: View, next: View, secondPass: bool, v: View)
    requires Polarizes(under, secondPass, v) && under.ValValid()
    requires Passes(under.Next(), next, secondPass) && Settled(next, secondPass)
    ensures Polarizes(next, secondPass, View(v.groups, v.k, v.i + 1))
  {
    KeepAt(under.groups[under.k].items, under.i, secondPass);
  }

  lemma PolarizedBack(under: View, reached: View, next: View, secondPass: bool, v: View)
    requires Polarizes(under, secondPass, v) && under.KeyValid() && reached == View(under.groups, under.k, 0)
    requires Passes(reached, next, secondPass) && Settled(next, secondPass)
    ensures Polarizes(next, secondPass, View(v.groups, v.k, 0))
  {
  }

  // The place in the first pass that belongs to a place underneath.
  ghost function InFirstPass(under: View): View
    requires under.Within()
  {
    View(Polarized(under.groups), under.k,
         if under.KeyValid() then |KeepTo(under.groups[under.k].items, under.i, false)| else under.i)
  }

  lemma PolarizedInit(reached: View, next: View, v: View)
    requires reached.Within() && v == InFirstPass(reached) && (reached.KeyValid() || |reached.groups| == 0)
    requires if reached.KeyValid() then Passes(reached, next, false) && Settled(next, false) else next == reached
    ensures Polarizes(next, false, v)
  {
  }

  lemma PolarizedStart(under: View, secondPass: bool, reached: View, next: View, v: View)
    requires Polarizes(under, secondPass, v) && reached == View(under.groups, 0, 0)
    requires if reached.KeyValid() then Passes(reached, next, false) && Settled(next, false) else next == reached
    ensures Polarizes(next, false, View(v.groups, 0, 0))
  {
  }
}

/** Cursors and the wrappers that restrict, flatten or reorder what they go through. */
module SerCursors {
  import opened CursorLayers
  import opened CursorViews
  import opened Options

  datatype Layer = Base | Split(start: DynData, end: Option<DynData>) | Flattened | Polarity

  class SerCursor {
    const layer: Layer
    const inner: SerCursor?
    const groups: seq<Group>
    var k: nat
    var i: nat
    var valValid: bool
    var secondPass: bool

    ghost const height: nat
    ghost const Repr: set<object>
    ghost var view: View

    ghost predicate Shaped()
      reads Repr
      decreases height, 0
    {
      if layer.Base? then
        Repr == {this} && Batch(groups)
      else
        && inner != null && inner.height < height && inner in Repr && this !in inner.Repr && Repr == {this} + inner.Repr
        && inner.Valid() && (layer.Split? ==> inner.layer.Base?)
    }

    ghost predicate Valid()
      reads Repr
      decreases height, 1
    {
      && this in Repr && Shaped() && view.Within()
      && match layer
         case Base => view == View(groups, k, i)
         case Split(start, end) => Restricts(inner.view, start, end, view)
         case Flattened => Startable(inner.view.groups) && Flattens(inner.view, valValid, view)
         case Polarity => Polarizes(inner.view, secondPass, view)
    }

    // A cursor over a batch.
    constructor Over(groups: seq<Group>)
      requires Batch(groups)
      ensures Valid() && fresh(Repr) && layer.Base? && view == View(groups, 0, 0)
    {
      layer, inner, this.groups, k, i := Base, null, groups, 0, 0;
      height, Repr, view := 0, {this}, View(groups, 0, 0);
    }

    // A cursor over the keys of a batch from `start` on that are less than `end`.
    constructor Part(cursor: SerCursor, start: DynData, end: Option<DynData>)
      requires cursor.Valid() && cursor.layer.Base? && cursor.view == View(cursor.groups, 0, 0)
      modifies cursor.Repr
      ensures Valid() && Repr == {this} + cursor.Repr && view == View(Range(cursor.groups, start, end), 0, 0)
    {
      layer, inner, groups := Split(start, end), cursor, [];
      height, Repr, view := cursor.height + 1, {this} + cursor.Repr, View(Range(cursor.groups, start, end), 0, 0);
      new;
      cursor.SeekKey(start);
    }

    // The flattened cursor goes on from the value the cursor is at.
    constructor Flat(cursor: SerCursor)
      requires cursor.Valid() && Startable(cursor.view.groups) && (cursor.view.KeyValid() ==> cursor.view.ValValid())
      ensures Valid() && Repr == {this} + cursor.Repr && Flattens(cursor.view, true, view)
      ensures cursor.view == View(cursor.view.groups, 0, 0) ==> view == View(Flatten(cursor.view.groups), 0, 0)
    {
      layer, inner, groups, valValid := Flattened, cursor, [], true;
      ghost var under := cursor.view;
      height, Repr := cursor.height + 1, {this} + cursor.Repr;
      view := View(Flatten(under.groups), Before(under.groups, under.k) + if under.KeyValid() then under.i else 0, 0);
      new;
      FlattenedPlace(cursor.view, true, view);
    }

    // The cursor with polarity goes on from the key the cursor is at, in the first pass.
    constructor WithPolarity(cursor: SerCursor)
      requires cursor.Valid() && (cursor.view.KeyValid() || |cursor.view.groups| == 0)
      modifies cursor.Repr
      ensures Valid() && Repr == {this} + cursor.Repr && view == InFirstPass(old(cursor.view))
      ensures old(cursor.view) == View(old(cursor.view).groups, 0, 0) ==>
              view == View(Polarized(old(cursor.view).groups), 0, 0)
    {
      layer, inner, groups, secondPass := Polarity, cursor, [], false;
      height, Repr, view := cursor.height + 1, {this} + cursor.Repr, InFirstPass(cursor.view);
      new;
      hide Batch, Startable, Flattens, Polarizes, Restricts, Passes, Settled;
      ghost var reached := cursor.view;
      var valid := cursor.KeyValid();
      if valid { AdvanceVal(); }
      PolarizedInit(reached, inner.view, view);
      PolarizedPlace(inner.view, false, view);
    }

    method KeyValid() returns (valid: bool)
      requires Valid()
      ensures valid == view.KeyValid()
      decreases height, 0
    {
      hide Batch, Startable, Flattens, Polarizes, Restricts;
      match layer
      case Base => valid := k < |groups|;
      case Split(start, end) =>
        valid := inner.KeyValid();
        if valid && end.Some? {
          var key := inner.Key();
          valid := !AtLeast(key, end.value);
        }
        RestrictedPlace(inner.view, start, end, view);
      case Flattened =>
        valid := inner.KeyValid();
        if valid { valid := inner.ValValid(); }
        FlattenedPlace(inner.view, valValid, view);
      case Polarity =>
        valid := inner.KeyValid();
        PolarizedPlace(inner.view, secondPass, view);
    }

    // Without a valid key nothing is promised.
    method ValValid() returns (valid: bool)
      requires Valid()
      ensures view.KeyValid() ==> valid == view.ValValid()
      decreases height, 0
    {
      hide Batch, Startable, Flattens, Polarizes, Restricts;
      match layer
      case Base => valid := k < |groups| && i < |groups[k].items|;
      case Split(start, end) =>
        RestrictedPlace(inner.view, start, end, view);
        valid := inner.ValValid();
      case Flattened =>
        FlattenedPlace(inner.view, valValid, view);
        valid := valValid;
      case Polarity =>
        PolarizedPlace(inner.view, secondPass, view);
        valid := inner.ValValid();
    }

    method Key() returns (key: DynData)
      requires Valid() && view.KeyValid()
      ensures key == view.groups[view.k].key
      decreases height, 0
    {
      hide Batch, Startable, Flattens, Polarizes, Restricts;
      match layer
      case Base => key := groups[k].key;
      case Split(start, end) =>
        RestrictedPlace(inner.view, start, end, view);
        key := inner.Key();
      case Flattened =>
        FlattenedPlace(inner.view, valValid, view);
        key := inner.Val();
      case Polarity =>
        PolarizedPlace(inner.view, secondPass, view);
        key := inner.Key();
    }

    method Val() returns (val: DynData)
      requires Valid() && view.ValValid()
      ensures val == view.groups[view.k].items[view.i].val
      decreases height, 0
    {
      hide Batch, Startable, Flattens, Polarizes, Restricts;
      match layer
      case Base => val := groups[k].items[i].val;
      case Split(start, end) =>
        RestrictedPlace(inner.view, start, end, view);
        val := inner.Val();
      case Flattened =>
        FlattenedPlace(inner.view, valValid, view);
        val := Unit;
      case Polarity =>
        PolarizedPlace(inner.view, secondPass, view);
        val := inner.Val();
    }

    method Weight() returns (weight: int)
      requires Valid() && view.ValValid()
      ensures weight == view.groups[view.k].items[view.i].weight
      decreases height, 0
    {
      hide Batch, Startable, Flattens, Polarizes, Restricts;
      match layer
      case Base => weight := groups[k].items[i].weight;
      case Split(start, end) =>
        RestrictedPlace(inner.view, start, end, view);
        weight := inner.Weight();
      case Flattened =>
        FlattenedPlace(inner.view, valValid, view);
        weight := inner.Weight();
      case Polarity =>
        PolarizedPlace(inner.view, secondPass, view);
        weight := inner.Weight();
    }

    method StepKey()
      requires Valid() && view.KeyValid()
      modifies Repr
      ensures Valid() && view == View(old(view).groups, old(view).k + 1, 0)
      decreases height, 2
    {
      hide Batch, Startable, Flattens, Polarizes, Restricts;
      match layer {
        case Base => k, i := k + 1, 0;
        case Split(start, end) =>
          RestrictedPlace(inner.view, start, end, view);
          RestrictedStep(inner.view, start, end, view);
          inner.StepKey();
        case Flattened =>
          FlattenedPlace(inner.view, valValid, view);
          ghost var under := inner.view;
          inner.StepVal();
          SkipEmpty();
          valValid := true;
          FlattenedStep(under, old(valValid), inner.view, view);
        case Polarity => PolarityStepKey();
      }
      view := View(view.groups, view.k + 1, 0);
    }

    // To the next key, which after the last key is the first one again, in the second pass.
    method PolarityStepKey()
      requires Valid() && layer.Polarity? && inner != null && view.KeyValid()
      modifies inner.Repr, this`secondPass
      ensures Shaped() && Polarizes(inner.view, secondPass, View(view.groups, view.k + 1, 0))
      decreases height, 1
    {
      hide Batch, Startable, Flattens, Polarizes, Restricts, Passes, Settled;
      PolarizedPlace(inner.view, secondPass, view);
      ghost var under := inner.view;
      inner.StepKey();
      var valid := inner.KeyValid();
      if !valid && !secondPass {
        inner.RewindKeys();
        secondPass := true;
        valid := inner.KeyValid();
      }
      ghost var reached := inner.view;
      if valid { AdvanceVal(); }
      PolarizedStep(under, old(secondPass), reached, inner.view, secondPass, view);
    }

    method StepVal()
      requires Valid() && view.ValValid()
      modifies Repr
      ensures Valid() && view == View(old(view).groups, old(view).k, old(view).i + 1)
      decreases height, 2
    {
      hide Batch, Startable, Flattens, Polarizes, Restricts;
      match layer {
        case Base => i := i + 1;
        case Split(start, end) =>
          RestrictedPlace(inner.view, start, end, view);
          RestrictedMove(inner.view, start, end, view);
          inner.StepVal();
        case Flattened =>
          FlattenedPlace(inner.view, valValid, view);
          FlattenedMove(inner.view, valValid, view);
          valValid := false;
        case Polarity =>
          PolarizedPlace(inner.view, secondPass, view);
          ghost var under := inner.view;
          PolarityStepVal();
          PolarizedMove(under, inner.view, secondPass, view);
      }
      view := View(view.groups, view.k, view.i + 1);
    }

    method RewindKeys()
      requires Valid()
      modifies Repr
      ensures Valid() && view == View(old(view).groups, 0, 0)
      decreases height, 2
    {
      hide Batch, Startable, Flattens, Polarizes, Restricts;
      match layer {
        case Base => k, i := 0, 0;
        case Split(start, end) =>
          RestrictedStart(inner.view, start, end, view);
          inner.RewindKeys();
          inner.SeekKey(start);
        case Flattened =>
          FlattenedStart(inner.view, valValid, view);
          inner.RewindKeys();
          valValid := true;
        case Polarity =>
          ghost var under := inner.view;
          inner.RewindKeys();
          secondPass := false;
          ghost var reached := inner.view;
          var valid := inner.KeyValid();
          if valid { AdvanceVal(); }
          PolarizedStart(under, old(secondPass), reached, inner.view, view);
      }
      view := View(view.groups, 0, 0);
    }

    method RewindVals()
      requires Valid() && view.KeyValid()
      modifies Repr
      ensures Valid() && view == View(old(view).groups, old(view).k, 0)
      decreases height, 2
    {
      hide Batch, Startable, Flattens, Polarizes, Restricts, Passes, Settled;
      match layer {
        case Base => i := 0;
        case Split(start, end) =>
          RestrictedPlace(inner.view, start, end, view);
          RestrictedMove(inner.view, start, end, view);
          inner.RewindVals();
        case Flattened =>
          FlattenedMove(inner.view, valValid, view);
          valValid := true;
        case Polarity =>
          PolarizedPlace(inner.view, secondPass, view);
          ghost var under := inner.view;
          inner.RewindVals();
          ghost var reached := inner.view;
          AdvanceVal();
          PolarizedBack(under, reached, inner.view, secondPass, view);
      }
      view := View(view.groups, view.k, 0);
    }

    // Goes forward to the first key that is at least `key`.
    method SeekKey(key: DynData)
      requires Valid() && (layer.Base? || layer.Split?)
      modifies Repr
      ensures Valid() && view.groups == old(view).groups && view.k == Seek(view.groups, key, old(view).k)
      ensures layer.Base? || view.KeyValid() ==> view.i == if view.k == old(view).k then old(view).i else 0
      decreases height, 2
    {
      match layer {
        case Base => SeekInBatch(key);
        case Split(start, end) =>
          ghost var under := inner.view;
          inner.SeekKey(key);
          RestrictedSeek(under, start, end, view, key, inner.view.i);
          view := View(view.groups, Seek(view.groups, key, view.k), inner.view.i);
      }
    }

    method SeekInBatch(key: DynData)
      requires Valid() && layer.Base?
      modifies Repr
      ensures Valid() && view.groups == old(view).groups && view.k == Seek(view.groups, key, old(view).k)
      ensures view.i == if view.k == old(view).k then old(view).i else 0
      decreases height, 1
    {
      while k < |groups| && !AtLeast(groups[k].key, key)
        invariant Valid() && view.k <= |groups| && Seek(groups, key, view.k) == Seek(groups, key, old(view).k)
        invariant old(view).k <= view.k && view.i == if view.k == old(view).k then old(view).i else 0
        decreases |groups| - k
      {
        k, i := k + 1, 0;
        view := View(groups, k, 0);
      }
    }

    // From past the last value of a key to the next value, if there is one.
    method SkipEmpty()
      requires layer.Flattened? && Shaped() && inner.view.KeyValid()
      modifies inner.Repr
      ensures Shaped() && Skips(old(inner.view), inner.view)
      decreases height, 0
    {
      hide Batch, Startable, Flattens, Polarizes, Restricts;
      var valid := true;
      while valid
        invariant Shaped() && valid == inner.view.KeyValid() && Skipping(old(inner.view), inner.view)
        invariant !valid || inner.view.k == old(inner.view).k || inner.view.i == 0
        decreases |inner.view.groups| - inner.view.k
      {
        var valValid := inner.ValValid();
        if valValid { break; }
        inner.StepKey();
        valid := inner.KeyValid();
      }
    }

    // Goes on to the next wanted value of the key, or past its last value.
    method AdvanceVal()
      requires layer.Polarity? && Shaped() && inner.view.KeyValid()
      modifies inner.Repr
      ensures Shaped() && Passes(old(inner.view), inner.view, secondPass) && Settled(inner.view, secondPass)
      decreases height, 0, inner.view.Remaining(), 1
    {
      hide Batch, Startable, Flattens, Polarizes, Restricts;
      while true
        invariant Shaped() && Passes(old(inner.view), inner.view, secondPass)
        decreases inner.view.Remaining()
      {
        var valid := inner.ValValid();
        if !valid { break; }
        var weight := inner.Weight();
        if OfSign(weight, secondPass) { break; }
        ghost var before := inner.view;
        PolarityStepVal();
        PassesMore(old(inner.view), before, inner.view, secondPass);
      }
    }

    method PolarityStepVal()
      requires layer.Polarity? && Shaped() && inner.view.ValValid()
      modifies inner.Repr
      ensures Shaped() && Passes(old(inner.view).Next(), inner.view, secondPass) && Settled(inner.view, secondPass)
      decreases height, 0, inner.view.Remaining(), 0
    {
      hide Batch, Startable, Flattens, Polarizes, Restricts, Passes, Settled;
      inner.StepVal();
      AdvanceVal();
    }

    // The usual way to go through everything.
    method Traverse() returns (rows: seq<Row>)
      requires Valid() && view == View(view.groups, 0, 0)
      modifies Repr
      ensures Valid() && view.groups == old(view).groups && rows == Rows(view.groups)
    {
      hide Shaped, Valid;
      rows := [];
      var more := KeyValid();
      while more
        invariant Valid() && view.groups == old(view).groups && more == view.KeyValid() && view.i == 0
        invariant view.k <= |view.groups| && rows == Rows(view.groups[..view.k])
        decreases |view.groups| - view.k
      {
        var values := TraverseKey();
        RowsStep(view.groups, view.k);
        rows := rows + values;
        StepKey();
        more := KeyValid();
      }
      assert view.groups[..view.k] == view.groups;
    }

    // Goes through the values of a key.
    method TraverseKey() returns (rows: seq<Row>)
      requires Valid() && view.KeyValid() && view.i == 0
      modifies Repr
      ensures Valid() && view.groups == old(view).groups && view.k == old(view).k
      ensures var g := view.groups[view.k]; rows == GroupRows(g.key, g.items, |g.items|)
    {
      hide Shaped, Valid;
      rows := [];
      ghost var g := view.groups[view.k];
      var more := ValValid();
      while more
        invariant Valid() && view.groups == old(view).groups && view.k == old(view).k && more == view.ValValid()
        invariant view.i <= |g.items| && rows == GroupRows(g.key, g.items, view.i)
        decreases |g.items| - view.i
      {
        var key := Key();
        var val := Val();
        var weight := Weight();
        rows := rows + [Row(key, val, weight)];
        StepVal();
        more := ValValid();
      }
    }
  }
}
