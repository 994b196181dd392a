/** The cache itself: two maps kept in step, serial numbers for recency, cost accounting. */
module LruCache {
  import opened Arithmetic
  import opened Options
  import opened RecencyList

  datatype CacheValue<T> = CacheValue(aux: Value<T>, serial: nat)

  // The two maps hold exactly the entries of `list`, and serials[i] is the serial of list[i];
  // the last entry is the one with the greatest serial.
  ghost predicate Represents<K, T>(cache: map<K, CacheValue<T>>, lru: map<nat, K>, nextSerial: nat,
                                   list: List<K, T>, serials: seq<nat>)
    decreases |list|
  {
    if |list| == 0 then cache == map[] && lru == map[] && serials == []
    else
      && |serials| == |list|
      && var n := |list| - 1; var e, s := list[n], serials[n];
      && s < nextSerial && s in lru && lru[s] == e.key
      && e.key in cache && cache[e.key] == CacheValue(e.value, s)
      && Represents(cache - {e.key}, lru - {s}, s, list[..n], serials[..n])
  }

  lemma {:induction false} EntryAt<K, T>(cache: map<K, CacheValue<T>>, lru: map<nat, K>, nextSerial: nat,
                                         list: List<K, T>, serials: seq<nat>, i: nat)
    requires Represents(cache, lru, nextSerial, list, serials) && i < |list|
    ensures |serials| == |list| && serials[i] in lru && lru[serials[i]] == list[i].key
    ensures list[i].key in cache && cache[list[i].key] == CacheValue(list[i].value, serials[i])
    decreases |list|
  {
    var n := |list| - 1;
    if i < n {
      EntryAt(cache - {list[n].key}, lru - {serials[n]}, serials[n], list[..n], serials[..n], i);
    }
  }

  lemma {:induction false} IndexOf<K, T>(cache: map<K, CacheValue<T>>, lru: map<nat, K>, nextSerial: nat,
                                         list: List<K, T>, serials: seq<nat>, key: K) returns (i: nat)
    requires Represents(cache, lru, nextSerial, list, serials) && key in cache
    ensures i < |list| == |serials| && list[i] == Entry(key, cache[key].aux) && serials[i] == cache[key].serial
    decreases |list|
  {
    var n := |list| - 1;
    if list[n].key == key {
      i := n;
    } else {
      i := IndexOf(cache - {list[n].key}, lru - {serials[n]}, serials[n], list[..n], serials[..n], key);
    }
  }

  // The least serial in `lru` is that of the least recently used entry.
  lemma {:induction false} LeastSerial<K, T>(cache: map<K, CacheValue<T>>, lru: map<nat, K>, nextSerial: nat,
                                             list: List<K, T>, serials: seq<nat>)
    requires Represents(cache, lru, nextSerial, list, serials)
    ensures |serials| == |list| && forall t :: t in lru ==> |list| > 0 && serials[0] <= t < nextSerial
    decreases |list|
  {
    if |list| > 0 {
      var n := |list| - 1;
      LeastSerial(cache - {list[n].key}, lru - {serials[n]}, serials[n], list[..n], serials[..n]);
      if n > 0 {
        EntryAt(cache - {list[n].key}, lru - {serials[n]}, serials[n], list[..n], serials[..n], 0);
      }
      forall t | t in lru ensures serials[0] <= t < nextSerial {
        if t != serials[n] { assert t in lru - {serials[n]}; }
      }
    }
  }

  lemma {:induction false} SizesAgree<K, T>(cache: map<K, CacheValue<T>>, lru: map<nat, K>, nextSerial: nat,
                                            list: List<K, T>, serials: seq<nat>)
    requires Represents(cache, lru, nextSerial, list, serials)
    ensures |cache| == |list| == |lru|
    decreases |list|
  {
    if |list| > 0 {
      var n := |list| - 1;
      var k, s := list[n].key, serials[n];
      SizesAgree(cache - {k}, lru - {s}, s, list[..n], serials[..n]);
      OneFewer(cache, k);
      OneFewer(lru, s);
    }
  }

  lemma OneFewer<X, Y>(m: map<X, Y>, x: X)
    requires x in m
    ensures |m - {x}| == |m| - 1
  {
    assert m.Keys == (m - {x}).Keys + {x};
  }

  lemma {:induction false} KeysDistinct<K, T>(cache: map<K, CacheValue<T>>, lru: map<nat, K>, nextSerial: nat,
                                              list: List<K, T>, serials: seq<nat>)
    requires Represents(cache, lru, nextSerial, list, serials)
    ensures Distinct(list)
    decreases |list|
  {
    if |list| > 0 {
      var n := |list| - 1;
      var k, s := list[n].key, serials[n];
      KeysDistinct(cache - {k}, lru - {s}, s, list[..n], serials[..n]);
      forall i | 0 <= i < n ensures list[i].key != k {
        EntryAt(cache - {k}, lru - {s}, s, list[..n], serials[..n], i);
      }
    }
  }

  // Both maps know about a key, or neither does.
  ghost predicate KeyInverse<K, T>(cache: map<K, CacheValue<T>>, lru: map<nat, K>, k: K) {
    k in cache ==> cache[k].serial in lru && lru[cache[k].serial] == k
  }

  ghost predicate SerialInverse<K, T>(cache: map<K, CacheValue<T>>, lru: map<nat, K>, s: nat) {
    s in lru ==> lru[s] in cache && cache[lru[s]].serial == s
  }

  lemma {:induction false} MapsInverse<K, T>(cache: map<K, CacheValue<T>>, lru: map<nat, K>, nextSerial: nat,
                                             list: List<K, T>, serials: seq<nat>, k: K, s: nat)
    requires Represents(cache, lru, nextSerial, list, serials)
    ensures KeyInverse(cache, lru, k) && SerialInverse(cache, lru, s)
    decreases |list|
  {
    if |list| > 0 {
      var n := |list| - 1;
      MapsInverse(cache - {list[n].key}, lru - {serials[n]}, serials[n], list[..n], serials[..n], k, s);
    }
  }

  // The assertions of `check_invariants`: the maps are mutually inverse and of equal size.
  lemma InvariantsHold<K, T>(cache: map<K, CacheValue<T>>, lru: map<nat, K>, nextSerial: nat,
                             list: List<K, T>, serials: seq<nat>)
    requires Represents(cache, lru, nextSerial, list, serials)
    ensures |cache| == |list| == |lru| && Distinct(list)
    ensures forall k :: k in cache ==> KeyInverse(cache, lru, k)
    ensures forall s :: s in lru ==> SerialInverse(cache, lru, s)
  {
    SizesAgree(cache, lru, nextSerial, list, serials);
    KeysDistinct(cache, lru, nextSerial, list, serials);
    hide Represents;
    forall k | k in cache ensures KeyInverse(cache, lru, k) {
      MapsInverse(cache, lru, nextSerial, list, serials, k, 0);
    }
    forall s | s in lru ensures SerialInverse(cache, lru, s) {
      if |list| > 0 { MapsInverse(cache, lru, nextSerial, list, serials, list[0].key, s); }
    }
  }

  lemma {:induction false} RemoveAt<K, T>(cache: map<K, CacheValue<T>>, lru: map<nat, K>, nextSerial: nat,
                                          list: List<K, T>, serials: seq<nat>, i: nat)
    requires Represents(cache, lru, nextSerial, list, serials) && i < |list|
    ensures |serials| == |list|
    ensures Represents(cache - {list[i].key}, lru - {serials[i]}, nextSerial,
                       list[..i] + list[i + 1..], serials[..i] + serials[i + 1..])
    decreases |list|
  {
    var n := |list| - 1;
    var k, s := list[n].key, serials[n];
    var l', s' := list[..i] + list[i + 1..], serials[..i] + serials[i + 1..];
    if i == n {
      assert l' == list[..n] && s' == serials[..n];
    } else {
      EntryAt(cache - {k}, lru - {s}, s, list[..n], serials[..n], i);
      RemoveAt(cache - {k}, lru - {s}, s, list[..n], serials[..n], i);
      assert l'[..n - 1] == list[..n][..i] + list[..n][i + 1..];
      assert s'[..n - 1] == serials[..n][..i] + serials[..n][i + 1..];
      assert cache - {list[i].key} - {k} == cache - {k} - {list[i].key};
      assert lru - {serials[i]} - {s} == lru - {s} - {serials[i]};
    }
  }

  // Removing one entry from both maps removes it from the list.
  lemma RemoveEntry<K, T>(cache: map<K, CacheValue<T>>, lru: map<nat, K>, nextSerial: nat,
                          list: List<K, T>, serials: seq<nat>, i: nat)
    requires Represents(cache, lru, nextSerial, list, serials) && i < |list|
    ensures |serials| == |list| && serials[i] in lru
    ensures Represents(cache - {list[i].key}, lru - {serials[i]}, nextSerial,
                       Drop(list, {list[i].key}), serials[..i] + serials[i + 1..])
    ensures Total(list) == Total(Drop(list, {list[i].key})) + list[i].value.cost
    ensures |Drop(list, {list[i].key})| == |list| - 1
  {
    KeysDistinct(cache, lru, nextSerial, list, serials);
    EntryAt(cache, lru, nextSerial, list, serials, i);
    hide Represents;
    DropAt(list, i);
    TotalSplit(list, i);
    RemoveAt(cache, lru, nextSerial, list, serials, i);
  }

  lemma RemoveOldest<K, T>(cache: map<K, CacheValue<T>>, lru: map<nat, K>, nextSerial: nat,
                           list: List<K, T>, serials: seq<nat>)
    requires Represents(cache, lru, nextSerial, list, serials) && |list| > 0
    ensures |serials| == |list| && list[0].key in cache && cache[list[0].key].aux == list[0].value
    ensures Represents(cache - {list[0].key}, lru - {serials[0]}, nextSerial, list[1..], serials[1..])
    ensures Total(list) == list[0].value.cost + Total(list[1..])
  {
    EntryAt(cache, lru, nextSerial, list, serials, 0);
    RemoveAt(cache, lru, nextSerial, list, serials, 0);
    hide Represents;
    assert list[..0] + list[0 + 1..] == list[1..] && serials[..0] + serials[0 + 1..] == serials[1..];
  }

  // Adding an entry whose key is absent, under the next serial, appends it to the list.
  lemma AppendEntry<K, T>(cache: map<K, CacheValue<T>>, lru: map<nat, K>, nextSerial: nat,
                          list: List<K, T>, serials: seq<nat>, k: K, v: Value<T>)
    requires Represents(cache, lru, nextSerial, list, serials) && k !in cache
    ensures Represents(cache[k := CacheValue(v, nextSerial)], lru[nextSerial := k], nextSerial + 1,
                       list + [Entry(k, v)], serials + [nextSerial])
  {
    LeastSerial(cache, lru, nextSerial, list, serials);
    assert cache[k := CacheValue(v, nextSerial)] - {k} == cache;
    assert lru[nextSerial := k] - {nextSerial} == lru;
    assert (list + [Entry(k, v)])[..|list|] == list && (serials + [nextSerial])[..|serials|] == serials;
  }

  // Giving an entry a new value and the next serial moves it to the end of the list.
  lemma ReplaceEntry<K, T>(cache: map<K, CacheValue<T>>, lru: map<nat, K>, nextSerial: nat, list: List<K, T>,
                           serials: seq<nat>, i: nat, v: Value<T>) returns (list': List<K, T>, serials': seq<nat>)
    requires Represents(cache, lru, nextSerial, list, serials) && i < |list|
    ensures |serials| == |list| && serials[i] in lru && list[i].value.cost <= Total(list)
    ensures list' == Drop(list, {list[i].key}) + [Entry(list[i].key, v)]
    ensures Represents(cache[list[i].key := CacheValue(v, nextSerial)],
                       (lru - {serials[i]})[nextSerial := list[i].key], nextSerial + 1, list', serials')
    ensures Total(list') == Total(list) - list[i].value.cost + v.cost
  {
    RemoveEntry(cache, lru, nextSerial, list, serials, i);
    hide Represents, Total, Drop;
    var k, less, c := list[i].key, Drop(list, {list[i].key}), cache - {list[i].key};
    AppendEntry(c, lru - {serials[i]}, nextSerial, less, serials[..i] + serials[i + 1..], k, v);
    TotalSnoc(less, Entry(k, v));
    assert c[k := CacheValue(v, nextSerial)] == cache[k := CacheValue(v, nextSerial)];
    list', serials' := less + [Entry(k, v)], serials[..i] + serials[i + 1..] + [nextSerial];
  }

  class CacheInner<K(==), T> {
    var cache: map<K, CacheValue<T>>
    var lru: map<nat, K>
    var nextSerial: nat
    var curCost: nat
    const maxCost: nat

    ghost var list: List<K, T>
    ghost var serials: seq<nat>

    ghost predicate Valid()
      reads this
    {
      && Represents(cache, lru, nextSerial, list, serials)
      && curCost == Total(list)
    }

    constructor (maxCost: nat)
      ensures Valid() && list == [] && this.maxCost == maxCost
    {
      cache, lru, nextSerial, curCost := map[], map[], 0, 0;
      this.maxCost := maxCost;
      list, serials := [], [];
    }

    lemma Resident(key: K)
      requires Valid()
      ensures key in cache <==> Has(list, key)
      ensures key in cache ==> Lookup(list, key) == cache[key].aux
    {
      if key in cache {
        var i := IndexOf(cache, lru, nextSerial, list, serials, key);
        KeysDistinct(cache, lru, nextSerial, list, serials);
      }
      if i :| 0 <= i < |list| && list[i].key == key {
        EntryAt(cache, lru, nextSerial, list, serials, i);
      }
    }

    method Get(key: K) returns (r: Option<Value<T>>)
      requires Valid()
      modifies this
      ensures Valid() && list == Touch(old(list), key) && curCost == old(curCost)
      ensures r == if Has(old(list), key) then Some(Lookup(old(list), key)) else None
    {
      Resident(key);
      hide Represents, Total, Drop, Has, Lookup, Distinct;
      if key in cache {
        var value := cache[key];
        ghost var i := IndexOf(cache, lru, nextSerial, list, serials, key);
        ghost var l', s' := ReplaceEntry(cache, lru, nextSerial, list, serials, i, value.aux);
        assert value.serial in lru;
        lru := lru - {value.serial};
        cache := cache[key := CacheValue(value.aux, nextSerial)];
        lru := lru[nextSerial := key];
        list, serials := l', s';
        nextSerial := nextSerial + 1;
        r := Some(value.aux);
      } else {
        r := None;
      }
    }

    // `pop_first` on a nonempty map: the least serial is that of the head of the list.
    method PopFirst() returns (serial: nat, key: K)
      requires Represents(cache, lru, nextSerial, list, serials) && list != []
      modifies this`lru
      ensures |serials| > 0 && serial == serials[0] && key == list[0].key && lru == old(lru) - {serial}
    {
      LeastSerial(cache, lru, nextSerial, list, serials);
      EntryAt(cache, lru, nextSerial, list, serials, 0);
      serial :| serial in lru && forall t :: t in lru ==> serial <= t;
      key := lru[serial];
      lru := lru - {serial};
    }

    method EvictFirst()
      requires Valid() && list != []
      modifies this
      ensures Valid() && list == old(list)[1..]
    {
      hide Represents, Total;
      RemoveOldest(cache, lru, nextSerial, list, serials);
      var _, key := PopFirst();
      var value := cache[key];
      cache := cache - {key};
      curCost := curCost - value.aux.cost;
      list, serials := list[1..], serials[1..];
    }

    method EvictTo(bound: nat)
      requires Valid()
      modifies this
      ensures Valid() && list == RecencyList.EvictTo(old(list), bound) && curCost <= bound
    {
      while curCost > bound
        invariant Valid()
        invariant RecencyList.EvictTo(list, bound) == RecencyList.EvictTo(old(list), bound)
        decreases |list|
      {
        EvictFirst();
      }
    }

    method Insert(key: K, aux: Value<T>)
      requires Valid()
      modifies this
      ensures Valid() && list == RecencyList.Insert(old(list), maxCost, key, aux)
      ensures curCost <= Max(maxCost, aux.cost)
    {
      hide Represents, Total, Drop, Has, Lookup, Distinct, RecencyList.EvictTo;
      var cost := aux.cost;
      EvictTo(SaturatingSub(maxCost, cost));
      Resident(key);
      ghost var l', s' := list + [Entry(key, aux)], serials + [nextSerial];
      if key in cache {
        var oldValue := cache[key];
        ghost var i := IndexOf(cache, lru, nextSerial, list, serials, key);
        l', s' := ReplaceEntry(cache, lru, nextSerial, list, serials, i, aux);
        assert oldValue.serial in lru;
        lru := lru - {oldValue.serial};
        curCost := curCost - oldValue.aux.cost;
      } else {
        DropAbsent(list, key);
        AppendEntry(cache, lru, nextSerial, list, serials, key, aux);
        TotalSnoc(list, Entry(key, aux));
      }
      cache := cache[key := CacheValue(aux, nextSerial)];
      lru := lru[nextSerial := key];
      curCost := curCost + cost;
      list, serials := l', s';
      nextSerial := nextSerial + 1;
    }

    method Remove(key: K) returns (r: Option<Value<T>>)
      requires Valid()
      modifies this
      ensures Valid() && list == Drop(old(list), {key})
      ensures r == if Has(old(list), key) then Some(Lookup(old(list), key)) else None
    {
      hide Represents, Total, Drop, Has, Lookup, Distinct;
      Resident(key);
      if key !in cache {
        DropAbsent(list, key);
        return None;
      }
      var value := cache[key];
      ghost var i := IndexOf(cache, lru, nextSerial, list, serials, key);
      RemoveEntry(cache, lru, nextSerial, list, serials, i);
      cache := cache - {key};
      assert value.serial in lru;
      lru := lru - {value.serial};
      curCost := curCost - value.aux.cost;
      list, serials := Drop(list, {key}), serials[..i] + serials[i + 1..];
      r := Some(value.aux);
    }

    // The keys are collected first and then removed one by one.
    method RemoveIf(matches: K -> bool)
      requires Valid()
      modifies this
      ensures Valid() && list == Drop(old(list), set k | k in old(cache) && matches(k))
    {
      var keys := set k | k in cache && matches(k);
      ghost var all, gone := keys, {};
      DropNone(list, {});
      while keys != {}
        invariant Valid()
        invariant gone + keys == all && list == Drop(old(list), gone)
        decreases keys
      {
        var key :| key in keys;
        DropTwice(old(list), gone, {key});
        var _ := Remove(key);
        keys, gone := keys - {key}, gone + {key};
      }
      assert gone == all;
    }

    method RemoveVictim(key: K, serial: nat)
      requires Valid() && key in cache && cache[key].serial == serial
      modifies this
      ensures Valid() && list == Drop(old(list), {key})
      ensures cache == old(cache) - {key} && |list| == |old(list)| - 1
    {
      hide Represents, Total, Drop;
      ghost var i := IndexOf(cache, lru, nextSerial, list, serials, key);
      RemoveEntry(cache, lru, nextSerial, list, serials, i);
      assert serial in lru;
      lru := lru - {serial};
      curCost := curCost - cache[key].aux.cost;
      cache := cache - {key};
      list, serials := Drop(list, {key}), serials[..i] + serials[i + 1..];
    }

    // Removes straight from both maps, by the serials collected beforehand.
    method RemoveRange(inRange: K -> bool) returns (removed: nat)
      requires Valid()
      modifies this
      ensures Valid() && list == Drop(old(list), set k | k in old(cache) && inRange(k))
      ensures removed == |old(list)| - |list|
    {
      hide Represents, Total, Drop;
      var victims := map k | k in cache && inRange(k) :: cache[k].serial;
      removed := |victims|;
      ghost var all, gone := victims.Keys, {};
      DropNone(list, {});
      while victims.Keys != {}
        invariant Valid()
        invariant gone + victims.Keys == all && list == Drop(old(list), gone)
        invariant forall k :: k in victims ==> k in cache && cache[k].serial == victims[k]
        invariant removed == |victims| + |old(list)| - |list|
        decreases |victims|
      {
        var key :| key in victims.Keys;
        var serial := victims[key];
        DropTwice(old(list), gone, {key});
        RemoveVictim(key, serial);
        ghost var was := victims;
        OneFewer(victims, key);
        victims := victims - {key};
        assert victims.Keys == was.Keys - {key};
        gone := gone + {key};
      }
      assert gone == all == set k | k in old(cache) && inRange(k);
    }
  }
}
