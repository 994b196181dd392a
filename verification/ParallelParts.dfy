/** The parts of a batch are written by several threads at once. */
module ParallelParts {
  import opened CursorLayers
  import opened CursorViews
  import opened DeletionsFirst
  import opened Partitions
  import opened Sequences

  // ---- Any interleaving of streams for different keys ----

  // `owner` says which stream updates the records with a key. An interleaving of the streams is a
  // sequence of updates of which the ones each stream owns, in order, are that stream.
  ghost function Owned(updates: seq<Update>, id: DynData -> int, owner: int -> int, p: int): seq<Update> {
    if |updates| == 0 then []
    else
      var last := updates[|updates| - 1];
      Owned(updates[..|updates| - 1], id, owner, p) + if owner(id(last.record)) == p then [last] else []
  }

  // A record is where the stream that owns it alone would have it.
  lemma {:induction false} OwnCount(table: Table, updates: seq<Update>, id: DynData -> int, owner: int -> int,
                                    r: DynData)
    ensures ApplyAll(table, updates)[r] == ApplyAll(table, Owned(updates, id, owner, owner(id(r))))[r]
    decreases |updates|
  {
    if |updates| > 0 {
      var before, last, p := updates[..|updates| - 1], updates[|updates| - 1], owner(id(r));
      OwnCount(table, before, id, owner, r);
      OwnedStep(updates, id, owner, p);
      if owner(id(last.record)) == p {
        ApplyAllSnoc(table, Owned(before, id, owner, p), last);
        SameCount(ApplyAll(table, before), ApplyAll(table, Owned(before, id, owner, p)), last, r);
      }
    }
  }

  lemma OwnedStep(updates: seq<Update>, id: DynData -> int, owner: int -> int, p: int)
    requires |updates| > 0
    ensures var before, last := updates[..|updates| - 1], updates[|updates| - 1];
            Owned(updates, id, owner, p) ==
            if owner(id(last.record)) == p then Owned(before, id, owner, p) + [last] else Owned(before, id, owner, p)
  {
  }

  lemma ApplyAllSnoc(table: Table, updates: seq<Update>, last: Update)
    ensures ApplyAll(table, updates + [last]) == Apply(ApplyAll(table, updates), last)
  {
    assert (updates + [last])[..|updates|] == updates;
  }

  lemma SameCount(a: Table, b: Table, update: Update, r: DynData)
    requires a[r] == b[r]
    ensures Apply(a, update)[r] == Apply(b, update)[r]
  {
  }

  lemma SafeBefore(table: Table, updates: seq<Update>, last: Update, id: DynData -> int)
    requires Safe(table, updates + [last], id)
    ensures Safe(table, updates, id) && (last.Delete? ==> last.record in ApplyAll(table, updates))
  {
    assert (updates + [last])[..|updates|] == updates;
  }

  lemma UniqueByOwner(table: Table, updates: seq<Update>, id: DynData -> int, owner: int -> int)
    requires forall p: int :: Unique(ApplyAll(table, Owned(updates, id, owner, p)), id)
    ensures Unique(ApplyAll(table, updates), id)
  {
    var now := ApplyAll(table, updates);
    forall r ensures now[r] <= 1 {
      OwnCount(table, updates, id, owner, r);
    }
    forall r, s | r in now && s in now && id(r) == id(s) ensures r == s {
      var mine := ApplyAll(table, Owned(updates, id, owner, owner(id(r))));
      OwnCount(table, updates, id, owner, r);
      OwnCount(table, updates, id, owner, s);
      assert r in mine && s in mine;
    }
  }

  // If each stream alone is safe, so is every interleaving of them.
  lemma {:induction false} InterleavingIsSafe(table: Table, updates: seq<Update>, id: DynData -> int, owner: int -> int)
    requires forall p: int :: Safe(table, Owned(updates, id, owner, p), id)
    ensures Safe(table, updates, id)
    decreases |updates|
  {
    hide Unique;
    forall p: int ensures Unique(ApplyAll(table, Owned(updates, id, owner, p)), id) {
      assert Safe(table, Owned(updates, id, owner, p), id);
    }
    UniqueByOwner(table, updates, id, owner);
    if |updates| > 0 {
      var before, last := updates[..|updates| - 1], updates[|updates| - 1];
      forall p: int ensures Safe(table, Owned(before, id, owner, p), id) {
        assert Safe(table, Owned(updates, id, owner, p), id);
        OwnedStep(updates, id, owner, p);
        if owner(id(last.record)) == p { SafeBefore(table, Owned(before, id, owner, p), last, id); }
      }
      InterleavingIsSafe(table, before, id, owner);
      var p := owner(id(last.record));
      assert Safe(table, Owned(updates, id, owner, p), id);
      OwnedStep(updates, id, owner, p);
      SafeBefore(table, Owned(before, id, owner, p), last, id);
      OwnCount(table, before, id, owner, last.record);
    }
  }

  // ---- The streams of a delta ----

  ghost function OwnRows(rows: seq<Row>, id: DynData -> int, owner: int -> int, p: int): seq<Row> {
    if |rows| == 0 then []
    else
      var last := rows[|rows| - 1];
      OwnRows(rows[..|rows| - 1], id, owner, p) + if owner(id(last.key)) == p then [last] else []
  }

  // What the thread for a part emits.
  ghost function Stream(rows: seq<Row>): seq<Update> { Updates(SignedRows(rows, false) + SignedRows(rows, true)) }

  lemma {:induction false} OwnSum(rows: seq<Row>, id: DynData -> int, owner: int -> int, p: int, r: DynData,
                                  positive: bool)
    ensures Sum(OwnRows(rows, id, owner, p), r, positive) == if owner(id(r)) == p then Sum(rows, r, positive) else 0
    decreases |rows|
  {
    if |rows| > 0 {
      var before, last := rows[..|rows| - 1], rows[|rows| - 1];
      OwnSum(before, id, owner, p, r, positive);
      var own := OwnRows(before, id, owner, p);
      if owner(id(last.key)) == p { assert (own + [last])[..|own|] == own; } else { assert own + [] == own; }
    }
  }

  lemma {:induction false} OwnDistinct(rows: seq<Row>, id: DynData -> int, owner: int -> int, p: int)
    requires Distinct(rows)
    ensures Distinct(OwnRows(rows, id, owner, p))
    ensures forall a :: 0 <= a < |OwnRows(rows, id, owner, p)| ==> OwnRows(rows, id, owner, p)[a] in rows
    decreases |rows|
  {
    if |rows| > 0 {
      var before := rows[..|rows| - 1];
      OwnDistinct(before, id, owner, p);
      assert forall row :: row in before ==> exists a :: 0 <= a < |rows| - 1 && rows[a] == row;
    }
  }

  // The table after the updates of one part: the new records of that part, the old ones of others.
  ghost predicate Half(before: Table, after: Table, mine: Table, id: DynData -> int, owner: int -> int, p: int) {
    forall r :: mine[r] == if owner(id(r)) == p then after[r] else before[r]
  }

  lemma HalfUnique(before: Table, after: Table, mine: Table, id: DynData -> int, owner: int -> int, p: int)
    requires Unique(before, id) && Unique(after, id) && Half(before, after, mine, id, owner, p)
    ensures Unique(mine, id)
  {
    forall r ensures mine[r] <= 1 {
    }
    forall r, s | r in mine && s in mine && id(r) == id(s) ensures r == s {
      if owner(id(r)) == p { assert r in after && s in after; } else { assert r in before && s in before; }
    }
  }

  lemma {:induction false} InsertionCounts(table: Table, updates: seq<Update>, r: DynData)
    requires All(updates, false)
    ensures ApplyAll(table, updates)[r] == table[r] + Count(updates, Insert(r))
    decreases |updates|
  {
    if |updates| > 0 {
      assert updates[|updates| - 1] in updates;
      InsertionCounts(table, updates[..|updates| - 1], r);
    }
  }

  // The records of the rows, and how the delta changes them.
  ghost predicate Delta(rows: seq<Row>, before: Table, after: Table) {
    forall r :: after[r] == before[r] + Sum(rows, r, true) - Sum(rows, r, false)
  }

  lemma StreamCounts(rows: seq<Row>, before: Table, id: DynData -> int, r: DynData)
    requires Unique(before, id) && forall x :: Sum(rows, x, false) <= before[x]
    ensures ApplyAll(before, Stream(rows))[r] == before[r] + Sum(rows, r, true) - Sum(rows, r, false)
  {
    hide Unique, Safe, ApplyAll, Updates, SignedRows, Sum, Count, All;
    var deletions, insertions := Updates(SignedRows(rows, false)), Updates(SignedRows(rows, true));
    UpdatesAppend(SignedRows(rows, false), SignedRows(rows, true));
    forall x ensures Count(deletions, Delete(x)) <= before[x] { SignedUpdates(rows, x, false); }
    SignedUpdates(rows, r, false);
    SignedUpdates(rows, r, true);
    DeletionsSafe(before, deletions, id);
    InsertionCounts(ApplyAll(before, deletions), insertions, r);
    ApplyAllAppend(before, deletions, insertions);
  }

  // One part alone is safe, and brings its own records up to date.
  lemma PartIsSafe(rows: seq<Row>, before: Table, after: Table, id: DynData -> int, owner: int -> int, p: int)
    requires Distinct(rows) && Unique(before, id) && Unique(after, id) && Delta(rows, before, after)
    ensures var stream := Stream(OwnRows(rows, id, owner, p));
            Safe(before, stream, id) && Half(before, after, ApplyAll(before, stream), id, owner, p)
  {
    hide Unique, Distinct, Safe, ApplyAll, Updates, SignedRows, Sum, OwnRows;
    var own := OwnRows(rows, id, owner, p);
    var mine := ApplyAll(before, Stream(own));
    OwnDistinct(rows, id, owner, p);
    forall x ensures Sum(own, x, false) <= before[x] {
      OwnSum(rows, id, owner, p, x, false);
      OneSided(rows, x);
    }
    forall r ensures mine[r] == before[r] + Sum(own, r, true) - Sum(own, r, false)
             ensures mine[r] == if owner(id(r)) == p then after[r] else before[r] {
      StreamCounts(own, before, id, r);
      OwnSum(rows, id, owner, p, r, true);
      OwnSum(rows, id, owner, p, r, false);
    }
    HalfUnique(before, after, mine, id, owner, p);
    DeletionsFirstIsSafe(own, before, mine, id);
  }

  // Whatever the threads' order, applying the streams of all parts keeps the key unique throughout
  // and ends at the table after the delta.
  lemma PartsInAnyOrderAreSafe(rows: seq<Row>, before: Table, after: Table, id: DynData -> int, owner: int -> int,
                               updates: seq<Update>)
    requires Distinct(rows) && Unique(before, id) && Unique(after, id) && Delta(rows, before, after)
    requires forall p: int :: Owned(updates, id, owner, p) == Stream(OwnRows(rows, id, owner, p))
    ensures Safe(before, updates, id) && ApplyAll(before, updates) == after
  {
    hide Unique, Distinct, Delta, Safe, ApplyAll, Stream, Owned, OwnRows;
    forall p: int ensures Safe(before, Owned(updates, id, owner, p), id) {
      PartIsSafe(rows, before, after, id, owner, p);
    }
    InterleavingIsSafe(before, updates, id, owner);
    forall r ensures ApplyAll(before, updates)[r] == after[r] {
      PartIsSafe(rows, before, after, id, owner, owner(id(r)));
      OwnCount(before, updates, id, owner, r);
    }
  }

  // ---- The parts of a batch ----

  // The records of a key have that key for their id, as in a batch indexed by a unique key.
  ghost predicate Indexed(groups: seq<Group>, id: DynData -> int) {
    forall j :: 0 <= j < |groups| ==> IndexedGroup(groups[j], id)
  }

  ghost predicate IndexedGroup(group: Group, id: DynData -> int) {
    group.key.Datum? && forall i :: 0 <= i < |group.items| ==> id(group.items[i].val) == group.key.rank
  }

  // The part that a key belongs to: how many bounds are at most the key.
  ghost function PartOf(bounds: seq<DynData>, key: int): int {
    if |bounds| == 0 then 0
    else PartOf(bounds[..|bounds| - 1], key) + if AtLeast(Datum(key), bounds[|bounds| - 1]) then 1 else 0
  }

  ghost function Owner(bounds: seq<DynData>): int -> int { key => PartOf(bounds, key) }

  lemma {:induction false} PartOfIs(bounds: seq<DynData>, key: int, n: nat)
    requires n <= |bounds|
    requires forall j :: 0 <= j < |bounds| ==> (AtLeast(Datum(key), bounds[j]) <==> j < n)
    ensures PartOf(bounds, key) == n
    decreases |bounds|
  {
    if |bounds| > 0 {
      var less := bounds[..|bounds| - 1];
      PartOfIs(less, key, if n == |bounds| then n - 1 else n);
    }
  }

  // A group is in the part its key belongs to.
  lemma GroupInPart(groups: seq<Group>, bounds: seq<DynData>, j: nat, n: nat)
    requires Batch(groups) && Bounds(groups, bounds) && n <= |bounds|
    requires First(groups, bounds, n) <= j < First(groups, bounds, n + 1) && j < |groups|
    ensures PartOf(bounds, groups[j].key.rank) == n
  {
    var key := groups[j].key;
    forall i | 0 <= i < |bounds| ensures AtLeast(key, bounds[i]) <==> i < n {
      SeekDivides(groups, bounds[i], 0);
      if i < n { SeekOrdered(groups, bounds[i], bounds[n - 1]); } else { SeekOrdered(groups, bounds[n], bounds[i]); }
    }
    PartOfIs(bounds, key.rank, n);
  }

  lemma {:induction false} FindPart(groups: seq<Group>, bounds: seq<DynData>, j: nat, m: nat) returns (n: nat)
    requires Batch(groups) && Bounds(groups, bounds) && m <= |bounds| && j < First(groups, bounds, m + 1)
             && j < |groups|
    ensures n <= m && First(groups, bounds, n) <= j < First(groups, bounds, n + 1)
    decreases m
  {
    if First(groups, bounds, m) <= j { n := m; } else { n := FindPart(groups, bounds, j, m - 1); }
  }

  // ... and in no other.
  lemma GroupInItsPartOnly(groups: seq<Group>, bounds: seq<DynData>, j: nat, n: nat)
    requires Batch(groups) && Bounds(groups, bounds) && n <= |bounds| && j < |groups|
    ensures First(groups, bounds, n) <= j < First(groups, bounds, n + 1) <==> PartOf(bounds, groups[j].key.rank) == n
  {
    var m := FindPart(groups, bounds, j, |bounds|);
    GroupInPart(groups, bounds, j, m);
    if First(groups, bounds, n) <= j < First(groups, bounds, n + 1) { GroupInPart(groups, bounds, j, n); }
  }

  lemma {:induction false} OwnRowsAppend(a: seq<Row>, b: seq<Row>, id: DynData -> int, owner: int -> int, p: int)
    ensures OwnRows(a + b, id, owner, p) == OwnRows(a, id, owner, p) + OwnRows(b, id, owner, p)
    decreases |b|
  {
    if |b| == 0 {
      assert a + b == a;
    } else {
      var before, last := b[..|b| - 1], b[|b| - 1];
      assert (a + b)[..|a| + |b| - 1] == a + before;
      OwnRowsAppend(a, before, id, owner, p);
      Associative(OwnRows(a, id, owner, p), OwnRows(before, id, owner, p),
                  if owner(id(last.key)) == p then [last] else []);
    }
  }

  lemma {:induction false} OwnGroupRows(group: Group, n: nat, id: DynData -> int, owner: int -> int, p: int)
    requires IndexedGroup(group, id) && n <= |group.items|
    ensures var rows := FlatRows(GroupRows(group.key, group.items, n));
            OwnRows(rows, id, owner, p) == if owner(group.key.rank) == p then rows else []
  {
    if n > 0 {
      OwnGroupRows(group, n - 1, id, owner, p);
      var rows, item := GroupRows(group.key, group.items, n - 1), group.items[n - 1];
      var row := Row(group.key, item.val, item.weight);
      FlatRowsSnoc(rows, row);
      OwnRowsAppend(FlatRows(rows), [Flat(row)], id, owner, p);
      assert [Flat(row)][..0] == [];
    }
  }

  ghost predicate AllOwned(groups: seq<Group>, owner: int -> int, p: int, mine: bool) {
    forall j :: 0 <= j < |groups| ==> groups[j].key.Datum? && (owner(groups[j].key.rank) == p) == mine
  }

  lemma {:induction false} OwnRowsOfGroups(groups: seq<Group>, id: DynData -> int, owner: int -> int, p: int,
                                           mine: bool)
    requires Indexed(groups, id) && AllOwned(groups, owner, p, mine)
    ensures OwnRows(FlatRows(Rows(groups)), id, owner, p) == if mine then FlatRows(Rows(groups)) else []
    decreases |groups|
  {
    if |groups| > 0 {
      var n, last := |groups| - 1, groups[|groups| - 1];
      OwnRowsOfGroups(groups[..n], id, owner, p, mine);
      OwnGroupRows(last, |last.items|, id, owner, p);
      FlatRowsAppend(Rows(groups[..n]), GroupRows(last.key, last.items, |last.items|));
      OwnRowsAppend(FlatRows(Rows(groups[..n])), FlatRows(GroupRows(last.key, last.items, |last.items|)), id, owner, p);
    }
  }

  lemma ThreeRanges(groups: seq<Group>, a: nat, b: nat, id: DynData -> int, owner: int -> int, p: int)
    requires a <= b <= |groups| && Indexed(groups, id)
    requires AllOwned(groups[..a], owner, p, false) && AllOwned(groups[a..b], owner, p, true)
             && AllOwned(groups[b..], owner, p, false)
    ensures OwnRows(FlatRows(Rows(groups)), id, owner, p) == FlatRows(Rows(groups[a..b]))
  {
    hide OwnRows, FlatRows, Rows;
    var x, y, z := FlatRows(Rows(groups[..a])), FlatRows(Rows(groups[a..b])), FlatRows(Rows(groups[b..]));
    InThree(groups, a, b);
    assert [] + y == y && y + [] == y;
    RowsAppend(groups[..a] + groups[a..b], groups[b..]);
    RowsAppend(groups[..a], groups[a..b]);
    FlatRowsAppend(Rows(groups[..a]) + Rows(groups[a..b]), Rows(groups[b..]));
    FlatRowsAppend(Rows(groups[..a]), Rows(groups[a..b]));
    OwnRowsAppend(x + y, z, id, owner, p);
    OwnRowsAppend(x, y, id, owner, p);
    OwnRowsOfGroups(groups[..a], id, owner, p, false);
    OwnRowsOfGroups(groups[a..b], id, owner, p, true);
    OwnRowsOfGroups(groups[b..], id, owner, p, false);
  }

  // The rows of a part are the rows whose keys belong to it.
  lemma PartRowsAreOwn(groups: seq<Group>, bounds: seq<DynData>, id: DynData -> int, n: nat)
    requires Batch(groups) && Bounds(groups, bounds) && Indexed(groups, id) && n <= |bounds|
    ensures FlatRows(Rows(Part(groups, bounds, n)))
         == OwnRows(FlatRows(Rows(groups)), id, Owner(bounds), n)
  {
    var a, b, owner := First(groups, bounds, n), First(groups, bounds, n + 1), Owner(bounds);
    FirstOrdered(groups, bounds, n);
    forall j | 0 <= j < |groups| ensures owner(groups[j].key.rank) == n <==> a <= j < b {
      GroupInItsPartOnly(groups, bounds, j, n);
    }
    ThreeRanges(groups, a, b, id, owner, n);
  }

  lemma {:induction false} PartOfRange(bounds: seq<DynData>, key: int)
    ensures 0 <= PartOf(bounds, key) <= |bounds|
  {
    if |bounds| > 0 { PartOfRange(bounds[..|bounds| - 1], key); }
  }

  lemma {:induction false} NothingOwned(updates: seq<Update>, id: DynData -> int, owner: int -> int, p: int)
    requires forall key :: owner(key) != p
    ensures Owned(updates, id, owner, p) == []
  {
    if |updates| > 0 { NothingOwned(updates[..|updates| - 1], id, owner, p); }
  }

  lemma {:induction false} NoOwnRows(rows: seq<Row>, id: DynData -> int, owner: int -> int, p: int)
    requires forall key :: owner(key) != p
    ensures OwnRows(rows, id, owner, p) == []
  {
    if |rows| > 0 { NoOwnRows(rows[..|rows| - 1], id, owner, p); }
  }

  lemma NoRowsNoStream(rows: seq<Row>)
    requires |rows| == 0
    ensures Stream(rows) == []
  {
    assert SignedRows(rows, false) + SignedRows(rows, true) == [];
  }

  // A batch indexed by a unique key, written part by part by threads that run in any order: the
  // key is unique in every state on the way, and the table after all of them is the right one.
  lemma PartsWrittenInParallel(groups: seq<Group>, bounds: seq<DynData>, id: DynData -> int,
                               before: Table, after: Table, updates: seq<Update>)
    requires Batch(groups) && Bounds(groups, bounds) && Indexed(groups, id)
    requires Distinct(FlatRows(Rows(groups))) && Delta(FlatRows(Rows(groups)), before, after)
    requires Unique(before, id) && Unique(after, id)
    requires forall n :: 0 <= n <= |bounds| ==>
               Owned(updates, id, Owner(bounds), n) == Stream(FlatRows(Rows(Part(groups, bounds, n))))
    ensures Safe(before, updates, id) && ApplyAll(before, updates) == after
  {
    var rows, owner := FlatRows(Rows(groups)), Owner(bounds);
    hide Batch, Bounds, Indexed, Distinct, Delta, Unique, Safe, ApplyAll, Stream, Owned, OwnRows, FlatRows, Rows, Part;
    forall p: int ensures Owned(updates, id, owner, p) == Stream(OwnRows(rows, id, owner, p)) {
      if 0 <= p <= |bounds| {
        PartRowsAreOwn(groups, bounds, id, p);
      } else {
        forall key ensures owner(key) != p { PartOfRange(bounds, key); }
        NothingOwned(updates, id, owner, p);
        NoOwnRows(rows, id, owner, p);
        NoRowsNoStream(OwnRows(rows, id, owner, p));
      }
    }
    PartsInAnyOrderAreSafe(rows, before, after, id, owner, updates);
  }
}
