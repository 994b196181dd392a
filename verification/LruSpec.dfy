/** The specification of the LRU cache: a list of distinct keys, least recently used first. */
module RecencyList {
  import opened Arithmetic
  import opened Sequences

  // A cached value and what `CacheEntry::cost` says about it.
  datatype Value<T> = Value(data: T, cost: nat)

  datatype Entry<K, T> = Entry(key: K, value: Value<T>)

  type List<K, T> = seq<Entry<K, T>>

  ghost predicate Has<K, T>(l: List<K, T>, k: K) {
    exists i :: 0 <= i < |l| && l[i].key == k
  }

  ghost predicate Distinct<K, T>(l: List<K, T>) {
    forall i, j :: 0 <= i < j < |l| ==> l[i].key != l[j].key
  }

  ghost function Total<K, T>(l: List<K, T>): nat {
    if |l| == 0 then 0 else l[0].value.cost + Total(l[1..])
  }

  // The entries whose keys are not in `gone`, in order.
  ghost function Drop<K, T>(l: List<K, T>, gone: set<K>): List<K, T> {
    if |l| == 0 then []
    else if l[0].key in gone then Drop(l[1..], gone)
    else [l[0]] + Drop(l[1..], gone)
  }

  ghost function Lookup<K, T>(l: List<K, T>, k: K): Value<T>
    requires Has(l, k)
  {
    var i :| 0 <= i < |l| && l[i].key == k; l[i].value
  }

  // A hit makes the key the most recently used one.
  ghost function Touch<K, T>(l: List<K, T>, k: K): List<K, T> {
    if Has(l, k) then Drop(l, {k}) + [Entry(k, Lookup(l, k))] else l
  }

  // Least recently used entries go until the rest costs at most `bound`.
  ghost function EvictTo<K, T>(l: List<K, T>, bound: nat): List<K, T> {
    if Total(l) <= bound then l else EvictTo(l[1..], bound)
  }

  ghost function Insert<K, T>(l: List<K, T>, max: nat, k: K, v: Value<T>): List<K, T> {
    Drop(EvictTo(l, SaturatingSub(max, v.cost)), {k}) + [Entry(k, v)]
  }

  // ---- What an insertion keeps ----

  // The entries from n on are those that an insertion at cost `cost` leaves room for: n is the least
  // place from which on the entries cost at most the rest of the capacity.
  ghost predicate KeepsFrom<K, T>(l: List<K, T>, max: nat, cost: nat, n: nat) {
    && n <= |l| && Total(l[n..]) <= SaturatingSub(max, cost)
    && forall j :: 0 <= j < n ==> Total(l[j..]) > SaturatingSub(max, cost)
  }

  // An insertion keeps exactly those entries, except the one of the same key, in their order, and
  // puts the new one last; whether the key was there makes no difference to the others.
  lemma InsertExactly<K, T>(l: List<K, T>, max: nat, k: K, v: Value<T>) returns (n: nat)
    requires Distinct(l)
    ensures KeepsFrom(l, max, v.cost, n) && (Total(l) + v.cost <= max ==> n == 0)
    ensures forall i :: n <= i < |l| && l[i].key == k ==>
              Insert(l, max, k, v) == l[n..i] + l[i + 1..] + [Entry(k, v)]
    ensures !Has(l[n..], k) ==> Insert(l, max, k, v) == l[n..] + [Entry(k, v)]
  {
    n := EvictToIsShortestPrefix(l, SaturatingSub(max, v.cost));
    if Total(l) + v.cost <= max { assert l[0..] == l; }
    var kept := l[n..];
    forall i | n <= i < |l| && l[i].key == k
      ensures Insert(l, max, k, v) == l[n..i] + l[i + 1..] + [Entry(k, v)]
    {
      assert kept[i - n] == l[i];
      DropAt(kept, i - n);
      assert kept[..i - n] == l[n..i] && kept[i - n + 1..] == l[i + 1..];
    }
    if !Has(kept, k) { DropAbsent(kept, k); }
  }

  // ---- Facts about the list operations ----

  lemma {:induction false} TotalAppend<K, T>(a: List<K, T>, b: List<K, T>)
    ensures Total(a + b) == Total(a) + Total(b)
  {
    if |a| == 0 {
      assert a + b == b;
    } else {
      assert (a + b)[1..] == a[1..] + b;
      TotalAppend(a[1..], b);
    }
  }

  lemma TotalFirst<K, T>(e: Entry<K, T>, l: List<K, T>)
    ensures Total([e] + l) == e.value.cost + Total(l)
  {
    assert ([e] + l)[1..] == l;
  }

  // The cost of one entry can be taken out of the total.
  lemma TotalSplit<K, T>(l: List<K, T>, i: nat)
    requires i < |l|
    ensures Total(l) == Total(l[..i] + l[i + 1..]) + l[i].value.cost
  {
    hide Total;
    SliceAround(l, i);
    TotalAppend(l[..i], [l[i]] + l[i + 1..]);
    TotalAppend(l[..i], l[i + 1..]);
    TotalFirst(l[i], l[i + 1..]);
  }

  lemma TotalSnoc<K, T>(l: List<K, T>, e: Entry<K, T>)
    ensures Total(l + [e]) == Total(l) + e.value.cost
  {
    TotalAppend(l, [e]);
    assert [e][1..] == [];
  }

  lemma {:induction false} DropAppend<K, T>(a: List<K, T>, b: List<K, T>, gone: set<K>)
    ensures Drop(a + b, gone) == Drop(a, gone) + Drop(b, gone)
  {
    if |a| == 0 {
      assert a + b == b;
    } else {
      assert (a + b)[1..] == a[1..] + b;
      DropAppend(a[1..], b, gone);
    }
  }

  lemma {:induction false} DropNone<K, T>(l: List<K, T>, gone: set<K>)
    requires forall i :: 0 <= i < |l| ==> l[i].key !in gone
    ensures Drop(l, gone) == l
  {
    if |l| > 0 { DropNone(l[1..], gone); }
  }

  lemma {:induction false} DropTwice<K, T>(l: List<K, T>, a: set<K>, b: set<K>)
    ensures Drop(Drop(l, a), b) == Drop(l, a + b)
  {
    if |l| > 0 {
      DropTwice(l[1..], a, b);
      if l[0].key !in a {
        assert Drop(l, a)[1..] == Drop(l[1..], a);
      }
    }
  }

  // Every remaining entry was there before, and under a key that is not gone.
  lemma {:induction false} DropMembers<K, T>(l: List<K, T>, gone: set<K>, i: nat) returns (o: nat)
    requires i < |Drop(l, gone)|
    ensures o < |l| && l[o] == Drop(l, gone)[i] && l[o].key !in gone && i <= o
  {
    if l[0].key in gone {
      o := DropMembers(l[1..], gone, i);
      o := o + 1;
    } else if i == 0 {
      o := 0;
    } else {
      o := DropMembers(l[1..], gone, i - 1);
      o := o + 1;
    }
  }

  lemma {:induction false} DropDistinct<K, T>(l: List<K, T>, gone: set<K>)
    requires Distinct(l)
    ensures Distinct(Drop(l, gone))
  {
    if |l| > 0 {
      DropDistinct(l[1..], gone);
      forall j | 0 <= j < |Drop(l[1..], gone)| ensures Drop(l[1..], gone)[j].key != l[0].key {
        var o := DropMembers(l[1..], gone, j);
        assert l[o + 1] == l[1..][o];
      }
    }
  }

  lemma {:induction false} DropTotal<K, T>(l: List<K, T>, gone: set<K>)
    ensures Total(Drop(l, gone)) <= Total(l) && |Drop(l, gone)| <= |l|
  {
    if |l| > 0 {
      DropTotal(l[1..], gone);
      assert l[0].key !in gone ==> Drop(l, gone)[1..] == Drop(l[1..], gone);
    }
  }

  // With distinct keys, dropping the key at position i drops exactly that position.
  lemma {:induction false} DropAt<K, T>(l: List<K, T>, i: nat)
    requires Distinct(l) && i < |l|
    ensures Drop(l, {l[i].key}) == l[..i] + l[i + 1..]
  {
    if i == 0 {
      DropNone(l[1..], {l[0].key});
      assert l[..0] + l[1..] == l[1..];
    } else {
      assert Drop(l, {l[i].key}) == [l[0]] + Drop(l[1..], {l[i].key});
      hide Drop;
      WithoutLater(l, i);
      DropAt(l[1..], i - 1);
    }
  }

  lemma DropAbsent<K, T>(l: List<K, T>, k: K)
    requires !Has(l, k)
    ensures Drop(l, {k}) == l
  {
    DropNone(l, {k});
  }

  // Eviction drops the shortest prefix whose removal brings the cost within the bound.
  lemma {:induction false} EvictToIsShortestPrefix<K, T>(l: List<K, T>, bound: nat) returns (n: nat)
    ensures n <= |l| && EvictTo(l, bound) == l[n..]
    ensures Total(l[n..]) <= bound
    ensures forall j :: 0 <= j < n ==> Total(l[j..]) > bound
  {
    if Total(l) <= bound {
      n := 0;
      assert l[0..] == l;
    } else {
      n := EvictToIsShortestPrefix(l[1..], bound);
      n := n + 1;
      assert l[n..] == l[1..][n - 1..];
      forall j | 0 <= j < n ensures Total(l[j..]) > bound {
        assert l[j..] == if j == 0 then l else l[1..][j - 1..];
      }
    }
  }

  // ---- Runs ----

  datatype Op<K, T> = Get(key: K) | Put(key: K, value: Value<T>) | Remove(keys: set<K>)

  ghost function Apply<K, T>(l: List<K, T>, max: nat, op: Op<K, T>): List<K, T> {
    match op
    case Get(k) => Touch(l, k)
    case Put(k, v) => Insert(l, max, k, v)
    case Remove(gone) => Drop(l, gone)
  }

  ghost function Run<K, T>(max: nat, ops: seq<Op<K, T>>): List<K, T> {
    if |ops| == 0 then [] else Apply(Run(max, ops[..|ops| - 1]), max, ops[|ops| - 1])
  }

  ghost function LastPutCost<K, T>(ops: seq<Op<K, T>>): nat {
    if |ops| == 0 then 0
    else if ops[|ops| - 1].Put? then ops[|ops| - 1].value.cost
    else LastPutCost(ops[..|ops| - 1])
  }

  lemma SnocDistinct<K, T>(l: List<K, T>, k: K, v: Value<T>)
    requires Distinct(l)
    ensures Distinct(Drop(l, {k}) + [Entry(k, v)])
  {
    DropDistinct(l, {k});
    forall i | 0 <= i < |Drop(l, {k})| ensures Drop(l, {k})[i].key != k {
      var _ := DropMembers(l, {k}, i);
    }
  }

  lemma TouchTotal<K, T>(l: List<K, T>, k: K)
    requires Distinct(l)
    ensures Distinct(Touch(l, k)) && Total(Touch(l, k)) == Total(l)
  {
    if Has(l, k) {
      var i :| 0 <= i < |l| && l[i].key == k;
      SnocDistinct(l, k, l[i].value);
      DropAt(l, i);
      TotalSplit(l, i);
      TotalSnoc(Drop(l, {k}), l[i]);
      assert Entry(k, l[i].value) == l[i];
    }
  }

  lemma InsertTotal<K, T>(l: List<K, T>, max: nat, k: K, v: Value<T>)
    requires Distinct(l)
    ensures Distinct(Insert(l, max, k, v))
    ensures Total(Insert(l, max, k, v)) <= Max(max, v.cost)
  {
    var n := EvictToIsShortestPrefix(l, SaturatingSub(max, v.cost));
    SnocDistinct(l[n..], k, v);
    DropTotal(l[n..], {k});
    TotalSnoc(Drop(l[n..], {k}), Entry(k, v));
  }

  // In every run keys stay distinct and the resident cost is at most the capacity, or the
  // cost of the value inserted last when that value alone exceeds it.
  lemma {:induction false} CostBound<K, T>(max: nat, ops: seq<Op<K, T>>)
    ensures Distinct(Run(max, ops))
    ensures Total(Run(max, ops)) <= Max(max, LastPutCost(ops))
  {
    if |ops| > 0 {
      var before := Run(max, ops[..|ops| - 1]);
      CostBound(max, ops[..|ops| - 1]);
      match ops[|ops| - 1]
      case Get(k) => TouchTotal(before, k);
      case Put(k, v) => InsertTotal(before, max, k, v);
      case Remove(gone) =>
        DropDistinct(before, gone);
        DropTotal(before, gone);
    }
  }
}

/** Read-through use of the cache (get, and insert on a miss): LRU is a stack algorithm. */
module LruInclusion {
  import opened Arithmetic
  import opened RecencyList
  import opened Sequences

  // One access: a hit refreshes the key, a miss inserts the value fetched for it.
  ghost function Access<K, T>(l: List<K, T>, max: nat, fetch: K -> Value<T>, k: K): List<K, T> {
    if Has(l, k) then Touch(l, k) else Insert(l, max, k, fetch(k))
  }

  ghost function Trace<K, T>(max: nat, fetch: K -> Value<T>, t: seq<K>): List<K, T> {
    if |t| == 0 then [] else Access(Trace(max, fetch, t[..|t| - 1]), max, fetch, t[|t| - 1])
  }

  ghost predicate Suffix<T>(a: seq<T>, b: seq<T>) {
    |a| <= |b| && a == b[|b| - |a|..]
  }

  ghost predicate Fetched<K, T>(l: List<K, T>, fetch: K -> Value<T>) {
    forall i :: 0 <= i < |l| ==> l[i].value == fetch(l[i].key)
  }

  lemma DropSuffix<K, T>(a: List<K, T>, b: List<K, T>, k: K)
    requires Suffix(a, b)
    ensures Suffix(Drop(a, {k}), Drop(b, {k}))
  {
    var p := b[..|b| - |a|];
    assert b == p + a;
    DropAppend(p, a, {k});
  }

  // A smaller bound evicts at least as much, also from a shorter list.
  lemma EvictSuffix<K, T>(a: List<K, T>, b: List<K, T>, small: nat, large: nat)
    requires Suffix(a, b) && small <= large
    ensures Suffix(EvictTo(a, small), EvictTo(b, large))
  {
    var i := EvictToIsShortestPrefix(a, small);
    var j := EvictToIsShortestPrefix(b, large);
    var d := |b| - |a|;
    assert a[i..] == b[d + i..];
    assert Total(b[d + i..]) <= large;
    assert j <= d + i;
  }

  lemma HasSuffix<K, T>(a: List<K, T>, b: List<K, T>, k: K)
    requires Suffix(a, b) && Has(a, k)
    ensures Has(b, k)
  {
    var i :| 0 <= i < |a| && a[i].key == k;
    assert b[|b| - |a| + i].key == k;
  }

  lemma SnocSuffix<T>(a: seq<T>, b: seq<T>, x: T)
    requires Suffix(a, b)
    ensures Suffix(a + [x], b + [x])
  {
  }

  // What the smaller cache still holds after evicting is a suffix of what the larger holds.
  lemma MissSuffix<K, T>(a: List<K, T>, b: List<K, T>, bound: nat, k: K)
    requires Suffix(a, b)
    ensures Suffix(Drop(EvictTo(a, bound), {k}), Drop(b, {k}))
  {
    var n := EvictToIsShortestPrefix(a, bound);
    assert a[n..] == b[|b| - |a| + n..];
    DropSuffix(a[n..], b, k);
  }

  lemma AccessSuffix<K, T>(a: List<K, T>, b: List<K, T>, small: nat, large: nat, fetch: K -> Value<T>, k: K)
    requires small <= large && Suffix(a, b) && Fetched(a, fetch) && Fetched(b, fetch)
    ensures Suffix(Access(a, small, fetch, k), Access(b, large, fetch, k))
  {
    var c, e := fetch(k).cost, Entry(k, fetch(k));
    if Has(a, k) {
      HasSuffix(a, b, k);
      DropSuffix(a, b, k);
      SnocSuffix(Drop(a, {k}), Drop(b, {k}), e);
    } else if Has(b, k) {
      MissSuffix(a, b, SaturatingSub(small, c), k);
      SnocSuffix(Drop(EvictTo(a, SaturatingSub(small, c)), {k}), Drop(b, {k}), e);
    } else {
      var a', b' := EvictTo(a, SaturatingSub(small, c)), EvictTo(b, SaturatingSub(large, c));
      EvictSuffix(a, b, SaturatingSub(small, c), SaturatingSub(large, c));
      DropSuffix(a', b', k);
      SnocSuffix(Drop(a', {k}), Drop(b', {k}), e);
    }
  }

  lemma DropFetched<K, T>(l: List<K, T>, k: K, fetch: K -> Value<T>)
    requires Fetched(l, fetch)
    ensures Fetched(Drop(l, {k}) + [Entry(k, fetch(k))], fetch)
  {
    forall i | 0 <= i < |Drop(l, {k})| ensures Drop(l, {k})[i].value == fetch(Drop(l, {k})[i].key) {
      var _ := DropMembers(l, {k}, i);
    }
  }

  lemma {:induction false} TraceFetched<K, T>(max: nat, fetch: K -> Value<T>, t: seq<K>)
    ensures Fetched(Trace(max, fetch, t), fetch)
  {
    if |t| > 0 {
      var l := Trace(max, fetch, t[..|t| - 1]);
      var k := t[|t| - 1];
      TraceFetched(max, fetch, t[..|t| - 1]);
      DropFetched(l, k, fetch);
      var n := EvictToIsShortestPrefix(l, SaturatingSub(max, fetch(k).cost));
      DropFetched(l[n..], k, fetch);
    }
  }

  // Inclusion, for entries of any cost: on the same trace the smaller cache holds a suffix of
  // what the larger one holds, so the larger hits whenever the smaller does.
  lemma {:induction false} Inclusion<K, T>(small: nat, large: nat, fetch: K -> Value<T>, t: seq<K>)
    requires small <= large
    ensures Suffix(Trace(small, fetch, t), Trace(large, fetch, t))
    ensures forall k :: Has(Trace(small, fetch, t), k) ==> Has(Trace(large, fetch, t), k)
  {
    var a, b := Trace(small, fetch, t), Trace(large, fetch, t);
    if |t| > 0 {
      var s := t[..|t| - 1];
      Inclusion(small, large, fetch, s);
      TraceFetched(small, fetch, s);
      TraceFetched(large, fetch, s);
      AccessSuffix(Trace(small, fetch, s), Trace(large, fetch, s), small, large, fetch, t[|t| - 1]);
    }
    forall k | Has(a, k) ensures Has(b, k) { HasSuffix(a, b, k); }
  }

  // ---- Unit costs: exactly which keys are resident ----

  // The distinct keys of a trace, ordered by their last access, each with its fetched value.
  ghost function LastAccesses<K, T>(fetch: K -> Value<T>, t: seq<K>): List<K, T> {
    if |t| == 0 then []
    else Drop(LastAccesses(fetch, t[..|t| - 1]), {t[|t| - 1]}) + [Entry(t[|t| - 1], fetch(t[|t| - 1]))]
  }

  // How many of `len` entries are older than the last n.
  ghost function Older(len: nat, n: nat): nat { if len <= n then 0 else len - n }

  ghost function LastN<T>(s: seq<T>, n: nat): seq<T> { s[Older(|s|, n)..] }

  ghost predicate UnitCosts<K(!new), T>(fetch: K -> Value<T>) {
    forall k :: fetch(k).cost == 1
  }

  lemma {:induction false} UnitTotal<K(!new), T>(l: List<K, T>, fetch: K -> Value<T>)
    requires Fetched(l, fetch) && UnitCosts(fetch)
    ensures Total(l) == |l|
  {
    if |l| > 0 { UnitTotal(l[1..], fetch); }
  }

  lemma UnitEvict<K(!new), T>(l: List<K, T>, bound: nat, fetch: K -> Value<T>)
    requires Fetched(l, fetch) && UnitCosts(fetch)
    ensures EvictTo(l, bound) == LastN(l, bound)
  {
    var n := EvictToIsShortestPrefix(l, bound);
    UnitTotal(l[n..], fetch);
    if n > 0 { UnitTotal(l[n - 1..], fetch); }
    assert n == Older(|l|, bound);
  }

  lemma {:induction false} LastAccessesInvariant<K, T>(fetch: K -> Value<T>, t: seq<K>)
    ensures Distinct(LastAccesses(fetch, t)) && Fetched(LastAccesses(fetch, t), fetch)
  {
    if |t| > 0 {
      var l := LastAccesses(fetch, t[..|t| - 1]);
      LastAccessesInvariant(fetch, t[..|t| - 1]);
      SnocDistinct(l, t[|t| - 1], fetch(t[|t| - 1]));
      DropFetched(l, t[|t| - 1], fetch);
    }
  }

  lemma SuffixDistinct<K, T>(r: List<K, T>, d: nat)
    requires Distinct(r) && d <= |r|
    ensures Distinct(r[d..])
  {
  }

  lemma MoveLastN<T>(r: seq<T>, m: nat, i: nat, e: T)
    requires Older(|r|, m) <= i < |r|
    ensures LastN(r[..i] + r[i + 1..] + [e], m)
         == LastN(r, m)[..i - Older(|r|, m)] + LastN(r, m)[i - Older(|r|, m) + 1..] + [e]
  {
    var d := Older(|r|, m);
    Associative(r[..i], r[i + 1..], [e]);
    CutInFirst(r[..i], r[i + 1..] + [e], d);
    assert r[..i][d..] == r[d..][..i - d] && r[i + 1..] == r[d..][i - d + 1..];
    Associative(r[d..][..i - d], r[i + 1..], [e]);
  }

  // Moving a resident key to the end commutes with taking the last m.
  lemma HitLastN<K, T>(r: List<K, T>, m: nat, i: nat, e: Entry<K, T>)
    requires Distinct(r) && Older(|r|, m) <= i < |r|
    ensures Drop(LastN(r, m), {r[i].key}) + [e] == LastN(Drop(r, {r[i].key}) + [e], m)
  {
    hide Drop, Distinct;
    var d := Older(|r|, m);
    DropAt(r, i);
    SuffixDistinct(r, d);
    DropAt(r[d..], i - d);
    MoveLastN(r, m, i, e);
  }

  lemma RemoveOlderLastN<T>(r: seq<T>, m: nat, i: nat, e: T)
    requires m >= 1 && i < Older(|r|, m)
    ensures LastN(r[..i] + r[i + 1..] + [e], m) == LastN(LastN(r, m), m - 1) + [e]
  {
  }

  lemma NewLastN<T>(r: seq<T>, m: nat, e: T)
    requires m >= 1
    ensures LastN(r + [e], m) == LastN(LastN(r, m), m - 1) + [e]
  {
  }

  // A missing key goes to the end, and the oldest entry of a full cache is evicted.
  lemma MissLastN<K, T>(r: List<K, T>, m: nat, e: Entry<K, T>)
    requires m >= 1 && Distinct(r)
    requires forall j :: Older(|r|, m) <= j < |r| ==> r[j].key != e.key
    ensures LastN(LastN(r, m), m - 1) + [e] == LastN(Drop(r, {e.key}) + [e], m)
  {
    if i :| 0 <= i < |r| && r[i].key == e.key {
      DropAt(r, i);
      RemoveOlderLastN(r, m, i, e);
    } else {
      DropNone(r, {e.key});
      NewLastN(r, m, e);
    }
  }

  // An eviction to make room for k, which is not resident, leaves nothing to replace.
  lemma InsertMissing<K(!new), T>(l: List<K, T>, m: nat, fetch: K -> Value<T>, k: K)
    requires UnitCosts(fetch) && Fetched(l, fetch) && !Has(l, k)
    ensures Insert(l, m, k, fetch(k)) == LastN(l, Max(m, 1) - 1) + [Entry(k, fetch(k))]
  {
    UnitEvict(l, Max(m, 1) - 1, fetch);
    DropNone(LastN(l, Max(m, 1) - 1), {k});
  }

  lemma UnitHit<K, T>(r: List<K, T>, m: nat, fetch: K -> Value<T>, i: nat)
    requires Distinct(r) && Fetched(r, fetch) && Older(|r|, m) <= i < |r|
    ensures var l, k := LastN(r, m), r[i].key;
            Has(l, k) && Touch(l, k) == LastN(Drop(r, {k}) + [Entry(k, fetch(k))], m)
  {
    HitLastN(r, m, i, r[i]);
    SuffixDistinct(r, Older(|r|, m));
    assert LastN(r, m)[i - Older(|r|, m)] == r[i];
    hide Drop;
  }

  lemma UnitMiss<K(!new), T>(r: List<K, T>, m: nat, fetch: K -> Value<T>, k: K)
    requires UnitCosts(fetch) && Distinct(r) && Fetched(r, fetch)
    requires forall j :: Older(|r|, Max(m, 1)) <= j < |r| ==> r[j].key != k
    ensures var l := LastN(r, Max(m, 1));
            !Has(l, k) && Insert(l, m, k, fetch(k)) == LastN(Drop(r, {k}) + [Entry(k, fetch(k))], Max(m, 1))
  {
    hide Drop, Distinct, UnitCosts, Insert;
    InsertMissing(LastN(r, Max(m, 1)), m, fetch, k);
    MissLastN(r, Max(m, 1), Entry(k, fetch(k)));
  }

  // One access, when the cache holds the last n of the recency order r.
  lemma UnitAccess<K(!new), T>(r: List<K, T>, m: nat, fetch: K -> Value<T>, k: K)
    requires UnitCosts(fetch) && Distinct(r) && Fetched(r, fetch)
    ensures Access(LastN(r, Max(m, 1)), m, fetch, k) == LastN(Drop(r, {k}) + [Entry(k, fetch(k))], Max(m, 1))
  {
    var d, l := Older(|r|, Max(m, 1)), LastN(r, Max(m, 1));
    assert forall j :: d <= j < |r| ==> r[j] == l[j - d];
    if i :| d <= i < |r| && r[i].key == k {
      UnitHit(r, Max(m, 1), fetch, i);
    } else {
      UnitMiss(r, m, fetch, k);
    }
  }

  // With unit costs the resident entries are exactly the max(m, 1) most recently accessed
  // distinct keys; a cache of capacity 0 still keeps the entry inserted last.
  lemma {:induction false} UnitResidents<K(!new), T>(m: nat, fetch: K -> Value<T>, t: seq<K>)
    requires UnitCosts(fetch)
    ensures Trace(m, fetch, t) == LastN(LastAccesses(fetch, t), Max(m, 1))
  {
    if |t| > 0 {
      var s := t[..|t| - 1];
      UnitResidents(m, fetch, s);
      LastAccessesInvariant(fetch, s);
      UnitAccess(LastAccesses(fetch, s), m, fetch, t[|t| - 1]);
    }
  }
}
