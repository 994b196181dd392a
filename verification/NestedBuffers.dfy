/** Input buffers nested in vectors, and taking the first records out of them. */
module NestedBuffers {
  import opened Arithmetic
  import opened Options
  import opened Sequences

  // A leaf takes with full granularity; a vector of buffers is itself a buffer.
  datatype BufferTree<R> = Leaf(records: seq<R>, bytes: nat) | Nested(buffers: seq<BufferTree<R>>)

  // The records of a buffer, in the order in which it flushes them.
  function Records<R>(b: BufferTree<R>): seq<R>
    decreases b, 1
  {
    match b
    case Leaf(records, _) => records
    case Nested(buffers) => RecordsAll(buffers)
  }

  function RecordsAll<R>(bs: seq<BufferTree<R>>): seq<R>
    decreases bs, 0
  {
    if |bs| == 0 then [] else Records(bs[0]) + RecordsAll(bs[1..])
  }

  function Bytes<R>(b: BufferTree<R>): nat
    decreases b, 1
  {
    match b
    case Leaf(_, bytes) => bytes
    case Nested(buffers) => BytesAll(buffers)
  }

  function BytesAll<R>(bs: seq<BufferTree<R>>): nat
    decreases bs, 0
  {
    if |bs| == 0 then 0 else Bytes(bs[0]) + BytesAll(bs[1..])
  }

  // ---- What the code does ----

  // The share of `all` that goes with num of denom records, rounded down.
  function Fraction(num: nat, denom: nat, all: nat): (share: nat)
    requires num <= denom
    ensures share <= all && (num == denom > 0 ==> share == all)
    ensures 0 < all && num < denom ==> share < all
  {
    if denom == 0 then 0
    else
      ShareBound(num, denom, all);
      num * all / denom
  }

  lemma ShareBound(num: nat, denom: nat, all: nat)
    requires num <= denom && denom > 0
    ensures num * all / denom <= all
    ensures num == denom ==> num * all / denom == all
    ensures 0 < all && num < denom ==> num * all / denom < all
  {
    var q := num * all / denom;
    assert q * denom <= num * all < (q + 1) * denom by { assert num * all == q * denom + num * all % denom; }
    MulMono(num, denom, all);
    assert denom * all == all * denom;
    MulMono(all + 1, q, denom);
    MulMono(q + 1, all, denom);
    MulMono(all, q, denom);
    MulMono(num + 1, denom, all);
    assert (num + 1) * all == num * all + all;
  }

  // It is the greatest share that is not more than num/denom of all.
  lemma FractionRoundsDown(num: nat, denom: nat, all: nat)
    requires num <= denom && denom > 0
    ensures Fraction(num, denom, all) * denom <= num * all < (Fraction(num, denom, all) + 1) * denom
  {
    var whole := num * all;
    assert whole == whole / denom * denom + whole % denom;
  }

  // The buffer with the first n records, and the buffer that stays.
  ghost function Taken<R>(b: BufferTree<R>, n: nat): Option<BufferTree<R>>
    decreases b, 1
  {
    match b
    case Leaf(records, bytes) =>
      if |records| == 0 then None
      else var k := Min(n, |records|); Some(Leaf(records[..k], Fraction(k, |records|, bytes)))
    case Nested(buffers) =>
      var taken := TakenAll(buffers, n);
      if |taken| == 0 then None else Some(Nested(taken))
  }

  // A leaf with records gives the first of them, with their share of the bytes, and keeps the rest.
  lemma LeafSplit<R>(records: seq<R>, bytes: nat, n: nat)
    requires |records| > 0
    ensures var taken, rest, k := Taken(Leaf(records, bytes), n), Rest(Leaf(records, bytes), n), Min(n, |records|);
            && taken.Some? && taken.value.Leaf? && rest.Leaf?
            && taken.value.records == records[..k] && rest.records == records[k..]
            && taken.value.bytes + rest.bytes == bytes
            && taken.value.bytes * |records| <= k * bytes < (taken.value.bytes + 1) * |records|
  {
    FractionRoundsDown(Min(n, |records|), |records|, bytes);
  }

  ghost function Rest<R>(b: BufferTree<R>, n: nat): BufferTree<R>
    decreases b, 1
  {
    match b
    case Leaf(records, bytes) =>
      if |records| == 0 then b
      else var k := Min(n, |records|); Leaf(records[k..], bytes - Fraction(k, |records|, bytes))
    case Nested(buffers) => Nested(RestAll(buffers, n))
  }

  // How many records remain to be taken after the first buffer gave what it has.
  ghost function Less<R>(b: BufferTree<R>, n: nat): nat { SaturatingSub(n, |Records(b)|) }

  ghost function TakenAll<R>(bs: seq<BufferTree<R>>, n: nat): seq<BufferTree<R>>
    decreases bs, 0
  {
    if n == 0 || |bs| == 0 then []
    else
      var first := Taken(bs[0], n);
      (if first.Some? then [first.value] else []) + TakenAll(bs[1..], Less(bs[0], n))
  }

  // The buffers, before any is discarded.
  ghost function After<R>(bs: seq<BufferTree<R>>, n: nat): (r: seq<BufferTree<R>>)
    ensures |r| == |bs|
    decreases bs, 0
  {
    if n == 0 || |bs| == 0 then bs else [Rest(bs[0], n)] + After(bs[1..], Less(bs[0], n))
  }

  // How many buffers are visited, and how many of them had records.
  ghost function Visited<R>(bs: seq<BufferTree<R>>, n: nat): (v: nat)
    ensures v <= |bs|
  {
    if n == 0 || |bs| == 0 then 0 else 1 + Visited(bs[1..], Less(bs[0], n))
  }

  ghost function Used<R>(bs: seq<BufferTree<R>>, n: nat): (u: nat)
    ensures u <= Visited(bs, n)
  {
    if n == 0 || |bs| == 0 then 0
    else (if |Records(bs[0])| > 0 then 1 else 0) + Used(bs[1..], Less(bs[0], n))
  }

  // As many buffers as were used are discarded, from the front, whichever they are.
  ghost function RestAll<R>(bs: seq<BufferTree<R>>, n: nat): seq<BufferTree<R>>
    decreases bs, 1
  {
    After(bs, n)[Used(bs, n)..]
  }

  // `take_some`: the first records go into a new buffer, the rest stays.
  method TakeSome<R>(b: BufferTree<R>, n: nat) returns (taken: Option<BufferTree<R>>, rest: BufferTree<R>)
    ensures taken == Taken(b, n) && rest == Rest(b, n)
    decreases b, 1
  {
    match b
    case Leaf(records, bytes) =>
      if |records| == 0 {
        return None, b;
      }
      var k := Min(n, |records|);
      var head := Fraction(k, |records|, bytes);
      return Some(Leaf(records[..k], head)), Leaf(records[k..], bytes - head);
    case Nested(buffers) =>
      var result, left := TakeFirst(buffers, n);
      taken := if |result| == 0 then None else Some(Nested(result));
      rest := Nested(left);
  }

  // How far the loop is.
  ghost predicate Loop<R>(bs: seq<BufferTree<R>>, n: nat, i: nat, remaining: nat, index: nat,
                          result: seq<BufferTree<R>>, left: seq<BufferTree<R>>)
  {
    && i <= |bs| && |left| == i
    && result + TakenAll(bs[i..], remaining) == TakenAll(bs, n)
    && left + After(bs[i..], remaining) == After(bs, n)
    && index + Used(bs[i..], remaining) == Used(bs, n)
  }

  lemma LoopStep<R>(bs: seq<BufferTree<R>>, n: nat, i: nat, remaining: nat, index: nat, result: seq<BufferTree<R>>,
                    left: seq<BufferTree<R>>)
    requires Loop(bs, n, i, remaining, index, result, left) && i < |bs| && remaining > 0
    ensures var first := Taken(bs[i], remaining);
            Loop(bs, n, i + 1, Less(bs[i], remaining), index + if |Records(bs[i])| > 0 then 1 else 0,
                 result + (if first.Some? then [first.value] else []), left + [Rest(bs[i], remaining)])
  {
    var first, less := Taken(bs[i], remaining), Less(bs[i], remaining);
    assert bs[i..][0] == bs[i] && bs[i..][1..] == bs[i + 1..];
    Associative(result, if first.Some? then [first.value] else [], TakenAll(bs[i + 1..], less));
    Associative(left, [Rest(bs[i], remaining)], After(bs[i + 1..], less));
  }

  method TakeFirst<R>(bs: seq<BufferTree<R>>, n: nat) returns (result: seq<BufferTree<R>>, rest: seq<BufferTree<R>>)
    ensures result == TakenAll(bs, n) && rest == RestAll(bs, n)
    decreases bs, 0
  {
    result := [];
    var left: seq<BufferTree<R>> := [];
    var remaining: nat, i: nat := n, 0;
    // the number of buffers at the front to discard
    var index: nat := 0;
    assert bs[0..] == bs;
    while i < |bs| && remaining != 0
      invariant Loop(bs, n, i, remaining, index, result, left)
      decreases |bs| - i
    {
      var buf, v := TakeSome(bs[i], remaining);
      LoopStep(bs, n, i, remaining, index, result, left);
      TakenRecords(bs[i], remaining);
      if buf.Some? {
        var len := |Records(buf.value)|;
        if remaining >= len {
          index := index + 1;
        }
        remaining := SaturatingSub(remaining, len);
        result := result + [buf.value];
      } else {
        assert result + [] == result;
      }
      left := left + [v];
      i := i + 1;
    }
    assert result + [] == result;
    rest := (left + bs[i..])[index..];
  }

  // ---- What is taken: exactly the first records ----

  ghost function RecordsOf<R>(b: Option<BufferTree<R>>): seq<R> { if b.Some? then Records(b.value) else [] }

  lemma {:induction false} TakenRecords<R>(b: BufferTree<R>, n: nat)
    ensures RecordsOf(Taken(b, n)) == Records(b)[..Min(n, |Records(b)|)]
    ensures n > 0 ==> (Taken(b, n).Some? <==> |Records(b)| > 0)
    decreases b, 1
  {
    match b
    case Leaf(_, _) =>
    case Nested(buffers) => TakenAllRecords(buffers, n);
  }

  lemma PrefixOfSum<T>(a: seq<T>, b: seq<T>, n: nat)
    ensures (a + b)[..Min(n, |a + b|)] == a[..Min(n, |a|)] + b[..Min(SaturatingSub(n, |a|), |b|)]
    ensures (a + b)[Min(n, |a + b|)..] == a[Min(n, |a|)..] + b[Min(SaturatingSub(n, |a|), |b|)..]
  {
    if n <= |a| {
      CutInFirst(a, b, n);
      assert a[..n] + b[..0] == a[..n] && b[0..] == b;
    } else {
      CutInSecond(a, b, Min(n - |a|, |b|));
      assert a[..|a|] == a && a[|a|..] + b[Min(n - |a|, |b|)..] == b[Min(n - |a|, |b|)..];
    }
  }

  lemma {:induction false} TakenAllRecords<R>(bs: seq<BufferTree<R>>, n: nat)
    ensures RecordsAll(TakenAll(bs, n)) == RecordsAll(bs)[..Min(n, |RecordsAll(bs)|)]
    ensures n > 0 ==> (|TakenAll(bs, n)| > 0 <==> |RecordsAll(bs)| > 0)
    decreases bs, 0
  {
    if n > 0 && |bs| > 0 {
      TakenRecords(bs[0], n);
      TakenAllRecords(bs[1..], Less(bs[0], n));
      PrefixOfSum(Records(bs[0]), RecordsAll(bs[1..]), n);
      var first, more := Taken(bs[0], n), TakenAll(bs[1..], Less(bs[0], n));
      if first.Some? { assert ([first.value] + more)[1..] == more; } else { assert [] + more == more; }
    }
  }

  // ---- What stays of the records ----

  // Without the loss everything but the records taken stays.
  ghost predicate Conserved<R>(kept: seq<R>, all: seq<R>, n: nat) { kept == all[Min(n, |all|)..] }

  // The condition for no record to be lost: n falls on a boundary between buffers (or beyond the
  // last), or the buffer it falls into comes after one without records, at every level.
  ghost predicate Lossless<R>(b: BufferTree<R>, n: nat)
    decreases b, 1
  {
    match b
    case Leaf(_, _) => true
    case Nested(buffers) => LosslessAll(buffers, n, false)
  }

  ghost predicate LosslessAll<R>(bs: seq<BufferTree<R>>, n: nat, passedEmpty: bool)
    decreases bs, 0
  {
    if n == 0 || |bs| == 0 then true
    else
      var c := |Records(bs[0])|;
      if c <= n then LosslessAll(bs[1..], n - c, passedEmpty || c == 0) else passedEmpty && Lossless(bs[0], n)
  }

  // n falls inside the last buffer visited, and whether that one is lossless by itself.
  ghost predicate Partial<R>(bs: seq<BufferTree<R>>, n: nat) {
    n > 0 && |bs| > 0 && (n < |Records(bs[0])| || Partial(bs[1..], Less(bs[0], n)))
  }

  ghost predicate Inner<R>(bs: seq<BufferTree<R>>, n: nat)
    decreases bs, 0
  {
    n > 0 && |bs| > 0 ==> if n < |Records(bs[0])| then Lossless(bs[0], n) else Inner(bs[1..], Less(bs[0], n))
  }

  lemma {:induction false} LosslessForm<R>(bs: seq<BufferTree<R>>, n: nat, passedEmpty: bool)
    ensures LosslessAll(bs, n, passedEmpty) <==>
            (Partial(bs, n) ==> (passedEmpty || Used(bs, n) < Visited(bs, n)) && Inner(bs, n))
    decreases bs
  {
    if n > 0 && |bs| > 0 {
      var c := |Records(bs[0])|;
      if c <= n { LosslessForm(bs[1..], n - c, passedEmpty || c == 0); }
    }
  }

  // A buffer with at most n records has none left.
  lemma {:induction false} NothingStays<R>(b: BufferTree<R>, n: nat)
    requires n >= |Records(b)|
    ensures |Records(Rest(b, n))| == 0
    decreases b, 1
  {
    if b.Nested? {
      NothingStaysAll(b.buffers, n);
      NoneInSuffix(After(b.buffers, n), Used(b.buffers, n));
    }
  }

  lemma {:induction false} NothingStaysAll<R>(bs: seq<BufferTree<R>>, n: nat)
    requires n >= |RecordsAll(bs)|
    ensures |RecordsAll(After(bs, n))| == 0
    decreases bs, 0
  {
    if n > 0 && |bs| > 0 {
      NothingStays(bs[0], n);
      NothingStaysAll(bs[1..], Less(bs[0], n));
    }
  }

  lemma {:induction false} NoneInSuffix<R>(bs: seq<BufferTree<R>>, k: nat)
    requires k <= |bs| && |RecordsAll(bs)| == 0
    ensures |RecordsAll(bs[k..])| == 0
    decreases k
  {
    if k == 0 {
      assert bs[0..] == bs;
    } else {
      NoneInSuffix(bs[1..], k - 1);
      assert bs[1..][k - 1..] == bs[k..];
    }
  }

  // Among the buffers visited only the last can have records left.
  lemma {:induction false} TailRecords<R>(bs: seq<BufferTree<R>>, n: nat, d: nat)
    requires d <= Visited(bs, n)
    ensures d < Visited(bs, n) ==> RecordsAll(After(bs, n)[d..]) == RecordsAll(After(bs, n))
    ensures d == Visited(bs, n) ==> RecordsAll(After(bs, n)[d..]) == RecordsAll(bs[d..])
    decreases bs
  {
    if d == 0 {
      assert After(bs, n)[0..] == After(bs, n) && bs[0..] == bs;
    } else {
      var less := Less(bs[0], n);
      TailRecords(bs[1..], less, d - 1);
      assert After(bs, n)[d..] == After(bs[1..], less)[d - 1..] && bs[d..] == bs[1..][d - 1..];
      if less > 0 { NothingStays(bs[0], n); }
      assert d < Visited(bs, n) ==> less > 0;
      assert After(bs, n)[1..] == After(bs[1..], less);
    }
  }

  // The buffers not visited hold what is to stay, unless n falls inside one that is.
  lemma {:induction false} UnvisitedRecords<R>(bs: seq<BufferTree<R>>, n: nat)
    ensures var all, rest := RecordsAll(bs), RecordsAll(bs[Visited(bs, n)..]);
            if Partial(bs, n) then |rest| < |all| - Min(n, |all|) else Conserved(rest, all, n)
    decreases bs
  {
    if n > 0 && |bs| > 0 {
      var less := Less(bs[0], n);
      UnvisitedRecords(bs[1..], less);
      assert bs[Visited(bs, n)..] == bs[1..][Visited(bs[1..], less)..];
      PrefixOfSum(Records(bs[0]), RecordsAll(bs[1..]), n);
      if n >= |Records(bs[0])| { assert Records(bs[0])[Min(n, |Records(bs[0])|)..] == []; }
    } else {
      assert bs[0..] == bs;
    }
  }

  // The records that stay are the rest of the records exactly if the condition holds; otherwise
  // some are missing.
  lemma {:induction false} RestExactly<R>(b: BufferTree<R>, n: nat)
    ensures Conserved(Records(Rest(b, n)), Records(b), n) <==> Lossless(b, n)
    ensures !Lossless(b, n) ==> |Records(Rest(b, n))| < |Records(b)| - Min(n, |Records(b)|)
    decreases b, 2
  {
    if b.Nested? { RestAllExactly(b.buffers, n); }
  }

  lemma {:induction false} AfterExactly<R>(bs: seq<BufferTree<R>>, n: nat)
    ensures Conserved(RecordsAll(After(bs, n)), RecordsAll(bs), n) <==> Inner(bs, n)
    ensures !Inner(bs, n) ==> |RecordsAll(After(bs, n))| < |RecordsAll(bs)| - Min(n, |RecordsAll(bs)|)
    decreases bs, 0
  {
    if n > 0 && |bs| > 0 {
      var less, first, more := Less(bs[0], n), Records(bs[0]), RecordsAll(bs[1..]);
      PrefixOfSum(first, more, n);
      assert After(bs, n)[1..] == After(bs[1..], less);
      if n < |first| {
        RestExactly(bs[0], n);
        assert more[Min(0, |more|)..] == more;
        SuffixCancels(Records(Rest(bs[0], n)), first[n..], more);
      } else {
        NothingStays(bs[0], n);
        AfterExactly(bs[1..], less);
        assert first[Min(n, |first|)..] == [] && Records(Rest(bs[0], n)) == [];
        assert [] + more[Min(less, |more|)..] == more[Min(less, |more|)..];
      }
    }
  }

  lemma RestAllExactly<R>(bs: seq<BufferTree<R>>, n: nat)
    ensures Conserved(RecordsAll(RestAll(bs, n)), RecordsAll(bs), n) <==> LosslessAll(bs, n, false)
    ensures !LosslessAll(bs, n, false) ==> |RecordsAll(RestAll(bs, n))| < |RecordsAll(bs)| - Min(n, |RecordsAll(bs)|)
    decreases bs, 1
  {
    TailRecords(bs, n, Used(bs, n));
    LosslessForm(bs, n, false);
    AfterExactly(bs, n);
    UnvisitedRecords(bs, n);
    if !Partial(bs, n) { NotPartialInner(bs, n); }
  }

  lemma {:induction false} NotPartialInner<R>(bs: seq<BufferTree<R>>, n: nat)
    requires !Partial(bs, n)
    ensures Inner(bs, n)
    decreases bs
  {
    if n > 0 && |bs| > 0 { NotPartialInner(bs[1..], Less(bs[0], n)); }
  }

  // For a vector of leaves the loss is exactly the rest of the leaf that n falls into.
  lemma {:induction false} FlatLoss<R>(bs: seq<BufferTree<R>>, n: nat) returns (p: nat, m: nat)
    requires (forall i :: 0 <= i < |bs| ==> bs[i].Leaf?) && !LosslessAll(bs, n, false)
    ensures p < |bs| && 0 < m < |bs[p].records| && n == |RecordsAll(bs[..p])| + m
    ensures forall i :: 0 <= i < p ==> |bs[i].records| > 0
    ensures RecordsAll(RestAll(bs, n)) == RecordsAll(bs[p + 1..])
  {
    LosslessForm(bs, n, false);
    p, m := PartialAt(bs, n);
    TailRecords(bs, n, Used(bs, n));
  }

  // Where n falls inside a buffer.
  lemma {:induction false} PartialAt<R>(bs: seq<BufferTree<R>>, n: nat) returns (p: nat, m: nat)
    requires Partial(bs, n)
    ensures p + 1 == Visited(bs, n) <= |bs| && 0 < m < |Records(bs[p])| && n == |RecordsAll(bs[..p])| + m
    ensures Used(bs, n) == Visited(bs, n) ==> forall i :: 0 <= i < p ==> |Records(bs[i])| > 0
    ensures (forall i :: 0 <= i < |bs| ==> bs[i].Leaf?) ==> Inner(bs, n)
    decreases bs
  {
    if n < |Records(bs[0])| {
      p, m := 0, n;
    } else {
      p, m := PartialAt(bs[1..], Less(bs[0], n));
      assert bs[..p + 1][1..] == bs[1..][..p];
      p := p + 1;
    }
  }

  // Take-all never loses a record.
  lemma TakeAllLossless<R>(b: BufferTree<R>, n: nat)
    requires n >= |Records(b)|
    ensures Lossless(b, n)
  {
    NothingStays(b, n);
    RestExactly(b, n);
  }

  // The documented contract fails: two records of one buffer of a vector, of which one is taken.
  // If there are no bytes, only records are lost.
  lemma DocumentedContractFails(bytes: nat)
    ensures var b := Nested([Leaf([10, 20], bytes)]);
            && Records(b) == [10, 20] && |Records(Rest(b, 1))| == 0 && !Lossless(b, 1)
            && (BytesSafe(b, 1) <==> bytes == 0)
  {
    var bs := [Leaf([10, 20], bytes)];
    assert bs[1..] == [] && Records(bs[0]) == [10, 20];
    assert Used(bs[1..], Less(bs[0], 1)) == 0 && Used(bs, 1) == 1;
    assert |RestAll(bs, 1)| == 0;
    assert RecordsAll(bs) == [10, 20] + RecordsAll(bs[1..]);
    assert Rest(bs[0], 1).bytes == bytes - Fraction(1, 2, bytes);
    assert LostAll(bs, 1, 1) == Rest(bs[0], 1).bytes;
    LostExactly(Nested(bs), 1);
  }

  // ---- What stays of the bytes ----

  ghost function BytesOf<R>(b: Option<BufferTree<R>>): nat { if b.Some? then Bytes(b.value) else 0 }

  // The bytes that are neither taken nor stay: those left in the buffers that are discarded, of
  // which d are still to come, and those lost inside a buffer.
  ghost function Lost<R>(b: BufferTree<R>, n: nat): nat
    decreases b, 1
  {
    match b
    case Leaf(_, _) => 0
    case Nested(buffers) => LostAll(buffers, n, Used(buffers, n))
  }

  ghost function LostAll<R>(bs: seq<BufferTree<R>>, n: nat, d: nat): nat
    decreases bs, 0
  {
    if n == 0 || |bs| == 0 then 0
    else
      Lost(bs[0], n) + (if d > 0 then Bytes(Rest(bs[0], n)) else 0)
      + LostAll(bs[1..], Less(bs[0], n), SaturatingSub(d, 1))
  }

  lemma {:induction false} BytesBalance<R>(b: BufferTree<R>, n: nat)
    ensures BytesOf(Taken(b, n)) + Bytes(Rest(b, n)) + Lost(b, n) == Bytes(b)
    decreases b, 1
  {
    match b
    case Leaf(_, _) =>
    case Nested(buffers) => BytesBalanceAll(buffers, n, Used(buffers, n));
  }

  lemma {:induction false} BytesBalanceAll<R>(bs: seq<BufferTree<R>>, n: nat, d: nat)
    requires d <= Visited(bs, n)
    ensures BytesAll(TakenAll(bs, n)) + BytesAll(After(bs, n)[d..]) + LostAll(bs, n, d) == BytesAll(bs)
    decreases bs, 0
  {
    if n == 0 || |bs| == 0 {
      assert After(bs, n)[0..] == bs;
    } else {
      var less, d' := Less(bs[0], n), SaturatingSub(d, 1);
      BytesBalance(bs[0], n);
      BytesBalanceAll(bs[1..], less, d');
      var first, more := Taken(bs[0], n), TakenAll(bs[1..], less);
      if first.Some? { assert ([first.value] + more)[1..] == more; } else { assert [] + more == more; }
      if d == 0 {
        assert After(bs, n)[0..] == After(bs, n) && After(bs, n)[1..] == After(bs[1..], less)[0..];
      } else {
        assert After(bs, n)[d..] == After(bs[1..], less)[d - 1..];
      }
    }
  }

  // No bytes stay in a buffer of which n > 0 records are taken.
  ghost predicate LeavesNoBytes<R>(b: BufferTree<R>, n: nat)
    decreases b, 1
  {
    match b
    case Leaf(records, bytes) => 0 < |records| <= n || bytes == 0
    case Nested(buffers) => LeavesNoBytesAll(buffers, n, Used(buffers, n))
  }

  ghost predicate LeavesNoBytesAll<R>(bs: seq<BufferTree<R>>, n: nat, d: nat)
    decreases bs, 0
  {
    if n == 0 || |bs| == 0 then BytesAll(bs) == 0
    else (d > 0 || LeavesNoBytes(bs[0], n)) && LeavesNoBytesAll(bs[1..], Less(bs[0], n), SaturatingSub(d, 1))
  }

  // The condition for the number of bytes to be kept: no bytes stay in a buffer that is discarded,
  // at every level. In a vector of leaves, of which u were used, these are the first u: none of
  // them has bytes but no records, and n does not fall inside one of them, unless it has no bytes.
  ghost predicate BytesSafe<R>(b: BufferTree<R>, n: nat)
    decreases b, 1
  {
    match b
    case Leaf(_, _) => true
    case Nested(buffers) => BytesSafeAll(buffers, n, Used(buffers, n))
  }

  ghost predicate BytesSafeAll<R>(bs: seq<BufferTree<R>>, n: nat, d: nat)
    decreases bs, 0
  {
    n > 0 && |bs| > 0 ==>
      && BytesSafe(bs[0], n) && (d > 0 ==> LeavesNoBytes(bs[0], n))
      && BytesSafeAll(bs[1..], Less(bs[0], n), SaturatingSub(d, 1))
  }

  lemma {:induction false} LeavesNoBytesExactly<R>(b: BufferTree<R>, n: nat)
    requires n > 0
    ensures LeavesNoBytes(b, n) <==> Bytes(Rest(b, n)) == 0
    decreases b, 1
  {
    if b.Nested? { LeavesNoBytesAllExactly(b.buffers, n, Used(b.buffers, n)); }
  }

  lemma {:induction false} LeavesNoBytesAllExactly<R>(bs: seq<BufferTree<R>>, n: nat, d: nat)
    requires d <= Visited(bs, n)
    ensures LeavesNoBytesAll(bs, n, d) <==> BytesAll(After(bs, n)[d..]) == 0
    decreases bs, 0
  {
    if n == 0 || |bs| == 0 {
      assert After(bs, n)[0..] == bs;
    } else {
      var less := Less(bs[0], n);
      LeavesNoBytesExactly(bs[0], n);
      LeavesNoBytesAllExactly(bs[1..], less, SaturatingSub(d, 1));
      if d == 0 {
        assert After(bs, n)[0..] == After(bs, n) && After(bs, n)[1..] == After(bs[1..], less)[0..];
      } else {
        assert After(bs, n)[d..] == After(bs[1..], less)[d - 1..];
      }
    }
  }

  lemma {:induction false} LostExactly<R>(b: BufferTree<R>, n: nat)
    ensures Lost(b, n) == 0 <==> BytesSafe(b, n)
    decreases b, 1
  {
    if b.Nested? { LostAllExactly(b.buffers, n, Used(b.buffers, n)); }
  }

  lemma {:induction false} LostAllExactly<R>(bs: seq<BufferTree<R>>, n: nat, d: nat)
    ensures LostAll(bs, n, d) == 0 <==> BytesSafeAll(bs, n, d)
    decreases bs, 0
  {
    if n > 0 && |bs| > 0 {
      LostExactly(bs[0], n);
      LeavesNoBytesExactly(bs[0], n);
      LostAllExactly(bs[1..], Less(bs[0], n), SaturatingSub(d, 1));
    }
  }

  // The number of bytes never grows, and is kept exactly if the condition holds.
  lemma BytesExactly<R>(b: BufferTree<R>, n: nat)
    ensures BytesOf(Taken(b, n)) + Bytes(Rest(b, n)) == Bytes(b) - Lost(b, n)
    ensures BytesOf(Taken(b, n)) + Bytes(Rest(b, n)) == Bytes(b) <==> BytesSafe(b, n)
  {
    BytesBalance(b, n);
    LostExactly(b, n);
  }

  // The bytes of the buffers that have no records.
  ghost function BytesWithoutRecords<R>(bs: seq<BufferTree<R>>): nat {
    if |bs| == 0 then 0 else (if |Records(bs[0])| == 0 then Bytes(bs[0]) else 0) + BytesWithoutRecords(bs[1..])
  }

  // The bytes left in the buffer that n falls into.
  ghost function PartialBytes<R>(bs: seq<BufferTree<R>>, n: nat): nat {
    if n == 0 || |bs| == 0 then 0
    else if n < |Records(bs[0])| then Bytes(Rest(bs[0], n))
    else PartialBytes(bs[1..], Less(bs[0], n))
  }

  // In a vector of leaves exactly the bytes of those without records among the first ones
  // discarded are lost, and those left in the leaf that n falls into if that is discarded too.
  lemma {:induction false} FlatBytesLoss<R>(bs: seq<BufferTree<R>>, n: nat, d: nat)
    requires (forall i :: 0 <= i < |bs| ==> bs[i].Leaf?) && d <= Visited(bs, n)
    ensures LostAll(bs, n, d) == BytesWithoutRecords(bs[..d]) + if d == Visited(bs, n) then PartialBytes(bs, n) else 0
    decreases bs
  {
    if n > 0 && |bs| > 0 {
      var less, d' := Less(bs[0], n), SaturatingSub(d, 1);
      FlatBytesLoss(bs[1..], less, d');
      if d > 0 { assert bs[..d][1..] == bs[1..][..d']; }
      if d > 0 && less == 0 { assert bs[1..][..d'] == []; }
    }
  }

  // The other half of the contract can fail alone, too: here every record is kept, and the bytes of
  // the buffer without records are lost.
  lemma BytesLostWithoutRecords(bytes: nat, more: nat)
    requires bytes > 0
    ensures var b := Nested([Leaf([], bytes), Leaf([10, 20], more)]);
            Lossless(b, 1) && !BytesSafe(b, 1) && Lost(b, 1) == bytes
  {
    var bs := [Leaf([], bytes), Leaf([10, 20], more)];
    assert bs[1..] == [bs[1]] && bs[1..][1..] == [];
    assert Less(bs[0], 1) == 1 && Less(bs[1], 1) == 0;
    assert Used(bs[1..][1..], 0) == 0 && Used(bs[1..], 1) == 1 && Used(bs, 1) == 1;
    assert LostAll(bs[1..], 1, 0) == 0;
    assert Rest(bs[0], 1) == bs[0] && LostAll(bs, 1, 1) == Lost(bs[0], 1) + bytes + LostAll(bs[1..], 1, 0);
    LostExactly(Nested(bs), 1);
    assert LosslessAll(bs[1..], 1, true);
  }
}
