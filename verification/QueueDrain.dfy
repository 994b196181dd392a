/** When repeated calls of `queue`, without new entries, drain the queue. */
module QueueDrain {
  import opened NestedBuffers
  import opened Options
  import opened VectorQueue

  // The queue after k calls with n records to go in each.
  ghost function Calls<R>(queue: seq<VectorEntry<R>>, n: nat, k: nat): seq<VectorEntry<R>>
    decreases k
  {
    if k == 0 then queue else Calls(Left(queue, n), n, k - 1)
  }

  // A buffer with bytes but no records, of which nothing can be taken.
  ghost predicate Bare<R>(b: BufferTree<R>) { |Records(b)| == 0 && Bytes(b) > 0 }

  ghost predicate Stuck<R>(queue: seq<VectorEntry<R>>) {
    |queue| > 0 && queue[0].buffer.Some? && Bare(queue[0].buffer.value)
  }

  lemma {:induction false} RestOfNone<R>(b: BufferTree<R>, n: nat)
    requires |Records(b)| == 0
    ensures Rest(b, n) == b
    decreases b, 1
  {
    if b.Nested? {
      AfterNone(b.buffers, n);
      assert After(b.buffers, n)[0..] == b.buffers;
    }
  }

  lemma {:induction false} AfterNone<R>(bs: seq<BufferTree<R>>, n: nat)
    requires |RecordsAll(bs)| == 0
    ensures After(bs, n) == bs && Used(bs, n) == 0
    decreases bs, 0
  {
    if n > 0 && |bs| > 0 {
      RestOfNone(bs[0], n);
      AfterNone(bs[1..], n);
    }
  }

  // Something can be taken of the entry so that nothing stays.
  ghost predicate Passes<R>(e: VectorEntry<R>) { exists k: nat :: !Stays(e, k) }

  // What a call leaves: the entries from d on, of which the first one was put back, if `split`,
  // after it gave m records; the entries before did not stay.
  ghost predicate LeavesFrom<R>(queue: seq<VectorEntry<R>>, left: seq<VectorEntry<R>>, d: nat, m: nat, split: bool) {
    && d <= |queue| && (forall j :: 0 <= j < d ==> Passes(queue[j]))
    && (!split ==> left == queue[d..])
    && (split ==> d < |queue| && queue[d].buffer.Some? && left == [PutBack(queue[d], m)] + queue[d + 1..])
  }

  lemma LeavesLater<R>(queue: seq<VectorEntry<R>>, left: seq<VectorEntry<R>>, n: nat, d: nat, m: nat, split: bool)
    requires |queue| > 0 && !Stays(queue[0], n) && LeavesFrom(queue[1..], left, d, m, split)
    ensures LeavesFrom(queue, left, d + 1, m, split)
  {
    assert Passes(queue[0]);
    hide Stays, PutBack, Passes;
    var more := queue[1..];
    assert more[d..] == queue[d + 1..];
    if split { assert more[d + 1..] == queue[d + 2..] && more[d] == queue[d + 1]; }
    forall j | 0 <= j < d + 1 ensures Passes(queue[j]) { assert j > 0 ==> queue[j] == more[j - 1]; }
  }

  lemma {:induction false} LeftForm<R>(queue: seq<VectorEntry<R>>, n: nat) returns (d: nat, m: nat, split: bool)
    ensures LeavesFrom(queue, Left(queue, n), d, m, split)
    decreases |queue|
  {
    d, m, split := 0, n, false;
    if n == 0 || |queue| == 0 {
      assert queue[0..] == queue;
    } else {
      var e, given := queue[0], |Gives(queue[0], n)|;
      CallStep(queue, n);
      assert Stays(e, n) ==> e.buffer.Some?;
      assert !Stays(e, n) ==> Passes(e);
      hide Left, Stays, Gives, PutBack, Passes;
      if Stays(e, n) {
        split := true;
      } else if e.commit {
        d := 1;
      } else {
        hide LeavesFrom;
        d, m, split := LeftForm(queue[1..], if n >= given then n - given else 0);
        LeavesLater(queue, Left(queue, n), n, d, m, split);
        d := d + 1;
      }
    }
  }

  // ---- A bare entry in front ----

  lemma StuckStays<R>(queue: seq<VectorEntry<R>>, n: nat)
    requires n > 0 && Stuck(queue)
    ensures Flushed(queue, n) == [] && Left(queue, n) == [queue[0].(start := None)] + queue[1..]
  {
    var b := queue[0].buffer.value;
    RestOfNone(b, n);
    TakenRecords(b, n);
    assert |Gives(queue[0], n)| == 0;
    CallStep(queue, n);
  }

  // From then on every call flushes nothing and leaves the queue as it is.
  lemma {:induction false} StuckForever<R>(queue: seq<VectorEntry<R>>, n: nat, k: nat)
    requires n > 0 && Stuck(queue)
    ensures Stuck(Calls(queue, n, k)) && Flushed(Calls(queue, n, k), n) == []
    ensures Calls(queue, n, k + 1) == [queue[0].(start := None)] + queue[1..]
    decreases k
  {
    StuckStays(queue, n);
    var next := Left(queue, n);
    assert Calls(queue, n, k + 1) == Calls(next, n, k);
    if k > 0 {
      StuckForever(next, n, k - 1);
      assert next[1..] == queue[1..];
    }
  }

  // ---- Progress otherwise ----

  ghost function Size<R>(queue: seq<VectorEntry<R>>): nat { |queue| + |AllIn(queue)| }

  lemma EntryShrinks<R>(e: VectorEntry<R>, n: nat)
    requires n > 0 && Stays(e, n)
    ensures |RecordsIn(PutBack(e, n))| <= |RecordsIn(e)|
    ensures !Bare(e.buffer.value) ==> |RecordsIn(PutBack(e, n))| < |RecordsIn(e)|
  {
    var b := e.buffer.value;
    RestExactly(b, n);
    if |Records(b)| == 0 { RestOfNone(b, n); }
  }

  lemma {:induction false} CallShrinks<R>(queue: seq<VectorEntry<R>>, n: nat)
    ensures Size(Left(queue, n)) <= Size(queue)
    ensures n > 0 && |queue| > 0 && !Stuck(queue) ==> Size(Left(queue, n)) < Size(queue)
    decreases |queue|
  {
    if n > 0 && |queue| > 0 {
      var e, more := queue[0], queue[1..];
      CallStep(queue, n);
      hide Left, Stays, Gives, PutBack, Bare;
      assert |AllIn(queue)| == |RecordsIn(e)| + |AllIn(more)|;
      if Stays(e, n) {
        EntryShrinks(e, n);
        AllInCons(PutBack(e, n), more);
      } else if !e.commit {
        CallShrinks(more, if n >= |Gives(e, n)| then n - |Gives(e, n)| else 0);
      }
    }
  }

  lemma {:induction false} EmptyStays<R>(queue: seq<VectorEntry<R>>, n: nat, k: nat)
    requires |queue| == 0
    ensures |Calls(queue, n, k)| == 0
    decreases k
  {
    if k > 0 { EmptyStays(queue, n, k - 1); }
  }

  lemma {:induction false} CallsOn<R>(queue: seq<VectorEntry<R>>, n: nat, j: nat, k: nat)
    ensures Calls(queue, n, j + k) == Calls(Calls(queue, n, j), n, k)
    decreases j
  {
    if j > 0 { CallsOn(Left(queue, n), n, j - 1, k); }
  }

  lemma {:induction false} NeverStuckDrains<R>(queue: seq<VectorEntry<R>>, n: nat)
    requires n > 0 && forall k: nat :: !Stuck(Calls(queue, n, k))
    ensures |Calls(queue, n, Size(queue))| == 0
    decreases Size(queue)
  {
    if |queue| == 0 {
      EmptyStays(queue, n, Size(queue));
    } else {
      var next := Left(queue, n);
      assert Calls(queue, n, 0) == queue;
      CallShrinks(queue, n);
      forall k: nat ensures !Stuck(Calls(next, n, k)) { assert Calls(queue, n, k + 1) == Calls(next, n, k); }
      NeverStuckDrains(next, n);
      var k := Size(queue) - 1 - Size(next);
      CallsOn(next, n, Size(next), k);
      EmptyStays(Calls(next, n, Size(next)), n, k);
    }
  }

  ghost predicate Drains<R>(queue: seq<VectorEntry<R>>, n: nat) { exists k: nat :: |Calls(queue, n, k)| == 0 }

  ghost predicate NeverStuck<R>(queue: seq<VectorEntry<R>>, n: nat) { forall k: nat :: !Stuck(Calls(queue, n, k)) }

  lemma DrainedNeverStuck<R>(queue: seq<VectorEntry<R>>, n: nat, k: nat, j: nat)
    requires n > 0 && |Calls(queue, n, k)| == 0
    ensures !Stuck(Calls(queue, n, j))
  {
    if j <= k {
      CallsOn(queue, n, j, k - j);
      if Stuck(Calls(queue, n, j)) { StuckForever(Calls(queue, n, j), n, k - j); }
    } else {
      CallsOn(queue, n, k, j - k);
      EmptyStays(Calls(queue, n, k), n, j - k);
    }
  }

  // Repeated calls drain the queue exactly if a bare entry never comes to the front, and then as
  // many calls suffice as there are entries and records.
  lemma DrainsExactly<R>(queue: seq<VectorEntry<R>>, n: nat)
    requires n > 0
    ensures Drains(queue, n) <==> NeverStuck(queue, n)
    ensures Drains(queue, n) ==> |Calls(queue, n, Size(queue))| == 0
  {
    if k: nat :| |Calls(queue, n, k)| == 0 {
      forall j: nat ensures !Stuck(Calls(queue, n, j)) { DrainedNeverStuck(queue, n, k, j); }
    }
    if NeverStuck(queue, n) { NeverStuckDrains(queue, n); }
  }

  // ---- What can be told from the entries ----

  // Every leaf that has bytes has records.
  ghost predicate NoBareLeaf<R>(b: BufferTree<R>)
    decreases b
  {
    match b
    case Leaf(records, bytes) => |records| == 0 ==> bytes == 0
    case Nested(buffers) => forall i :: 0 <= i < |buffers| ==> NoBareLeaf(buffers[i])
  }

  lemma {:induction false} NoBareRest<R>(b: BufferTree<R>, n: nat)
    requires NoBareLeaf(b)
    ensures NoBareLeaf(Rest(b, n))
    decreases b, 1
  {
    if b.Nested? {
      var after, left := After(b.buffers, n), RestAll(b.buffers, n);
      NoBareAfter(b.buffers, n);
      forall i | 0 <= i < |left| ensures NoBareLeaf(left[i]) { assert left[i] == after[Used(b.buffers, n) + i]; }
    }
  }

  lemma {:induction false} NoBareAfter<R>(bs: seq<BufferTree<R>>, n: nat)
    requires forall i :: 0 <= i < |bs| ==> NoBareLeaf(bs[i])
    ensures forall i :: 0 <= i < |bs| ==> NoBareLeaf(After(bs, n)[i])
    decreases bs, 0
  {
    if n > 0 && |bs| > 0 {
      NoBareRest(bs[0], n);
      NoBareAfter(bs[1..], Less(bs[0], n));
    }
  }

  lemma {:induction false} NoBareLeafNotBare<R>(b: BufferTree<R>)
    requires NoBareLeaf(b)
    ensures !Bare(b)
    decreases b, 1
  {
    if b.Nested? && |Records(b)| == 0 { NoBytesWithout(b.buffers); }
  }

  lemma {:induction false} NoBytesWithout<R>(bs: seq<BufferTree<R>>)
    requires (forall i :: 0 <= i < |bs| ==> NoBareLeaf(bs[i])) && |RecordsAll(bs)| == 0
    ensures BytesAll(bs) == 0
    decreases bs, 0
  {
    if |bs| > 0 {
      NoBareLeafNotBare(bs[0]);
      NoBytesWithout(bs[1..]);
    }
  }

  ghost predicate Clean<R>(e: VectorEntry<R>) { e.buffer.Some? ==> NoBareLeaf(e.buffer.value) }

  lemma CleanLeft<R>(queue: seq<VectorEntry<R>>, n: nat)
    requires forall i :: 0 <= i < |queue| ==> Clean(queue[i])
    ensures forall i :: 0 <= i < |Left(queue, n)| ==> Clean(Left(queue, n)[i])
  {
    var d, m, split := LeftForm(queue, n);
    if split { NoBareRest(queue[d].buffer.value, m); }
    hide Left, Stays, NoBareLeaf;
  }

  lemma {:induction false} CleanNeverStuck<R>(queue: seq<VectorEntry<R>>, n: nat, k: nat)
    requires forall i :: 0 <= i < |queue| ==> Clean(queue[i])
    ensures !Stuck(Calls(queue, n, k))
    decreases k
  {
    if k == 0 {
      if |queue| > 0 && queue[0].buffer.Some? { NoBareLeafNotBare(queue[0].buffer.value); }
    } else {
      CleanLeft(queue, n);
      CleanNeverStuck(Left(queue, n), n, k - 1);
    }
  }

  // A queue without bare leaves is drained, whatever the nesting and the limit.
  lemma CleanQueueDrains<R>(queue: seq<VectorEntry<R>>, n: nat)
    requires n > 0 && forall i :: 0 <= i < |queue| ==> Clean(queue[i])
    ensures Drains(queue, n) && |Calls(queue, n, Size(queue))| == 0
  {
    forall k: nat ensures !Stuck(Calls(queue, n, k)) { CleanNeverStuck(queue, n, k); }
    NeverStuckDrains(queue, n);
  }

  // A bare buffer, or a vector whose last buffer is bare.
  ghost predicate Stubborn<R>(b: BufferTree<R>) {
    Bare(b) || (b.Nested? && |b.buffers| > 0 && Bare(b.buffers[|b.buffers| - 1]))
  }

  lemma {:induction false} LastUnused<R>(bs: seq<BufferTree<R>>, n: nat)
    requires |bs| > 0 && |Records(bs[|bs| - 1])| == 0
    ensures Used(bs, n) < |bs| && After(bs, n)[|bs| - 1] == bs[|bs| - 1]
    decreases bs
  {
    if n > 0 {
      if |bs| == 1 {
        RestOfNone(bs[0], n);
      } else {
        LastUnused(bs[1..], Less(bs[0], n));
      }
    }
  }

  lemma {:induction false} BytesOfLast<R>(bs: seq<BufferTree<R>>)
    requires |bs| > 0
    ensures BytesAll(bs) >= Bytes(bs[|bs| - 1])
  {
    if |bs| > 1 { BytesOfLast(bs[1..]); }
  }

  lemma LastOfRest<R>(bs: seq<BufferTree<R>>, n: nat)
    requires |bs| > 0 && |Records(bs[|bs| - 1])| == 0
    ensures var left := RestAll(bs, n); |left| > 0 && left[|left| - 1] == bs[|bs| - 1]
  {
    LastUnused(bs, n);
    hide After, Used, Records;
  }

  lemma StubbornRest<R>(b: BufferTree<R>, n: nat)
    requires Stubborn(b)
    ensures Stubborn(Rest(b, n)) && !IsEmpty(Rest(b, n))
  {
    if Bare(b) {
      RestOfNone(b, n);
    } else {
      hide RestAll, Records, RecordsAll;
      LastOfRest(b.buffers, n);
      BytesOfLast(RestAll(b.buffers, n));
    }
  }

  lemma StubbornPutBack<R>(e: VectorEntry<R>, n: nat)
    requires StubbornAt([e], 0)
    ensures Stays(e, n) && StubbornAt([PutBack(e, n)], 0)
  {
    StubbornRest(e.buffer.value, n);
  }

  ghost predicate StubbornAt<R>(queue: seq<VectorEntry<R>>, i: nat) {
    i < |queue| && queue[i].buffer.Some? && Stubborn(queue[i].buffer.value)
  }

  lemma StubbornLeft<R>(queue: seq<VectorEntry<R>>, n: nat, i: nat) returns (j: nat)
    requires StubbornAt(queue, i)
    ensures StubbornAt(Left(queue, n), j)
  {
    var d, m, split := LeftForm(queue, n);
    hide Left, Stubborn, Stays, PutBack;
    if i < d {
      assert Passes(queue[i]);
      var k: nat :| !Stays(queue[i], k);
      StubbornPutBack(queue[i], k);
    }
    j := i - d;
    if split && i == d { StubbornPutBack(queue[i], m); }
  }

  // An entry whose last buffer is bare never leaves the queue.
  lemma {:induction false} StubbornNeverDrains<R>(queue: seq<VectorEntry<R>>, n: nat, i: nat, k: nat)
    requires StubbornAt(queue, i)
    ensures |Calls(queue, n, k)| > 0
    decreases k
  {
    if k > 0 {
      var j := StubbornLeft(queue, n, i);
      StubbornNeverDrains(Left(queue, n), n, j, k - 1);
    }
  }

  // For entries that are no vectors the two meet: they drain exactly if none is bare.
  lemma LeavesDrainExactly<R>(queue: seq<VectorEntry<R>>, n: nat)
    requires n > 0 && forall i :: 0 <= i < |queue| && queue[i].buffer.Some? ==> queue[i].buffer.value.Leaf?
    ensures Drains(queue, n) <==>
            forall i :: 0 <= i < |queue| && queue[i].buffer.Some? ==> !Bare(queue[i].buffer.value)
  {
    if i :| 0 <= i < |queue| && queue[i].buffer.Some? && Bare(queue[i].buffer.value) {
      assert StubbornAt(queue, i);
      forall k: nat ensures |Calls(queue, n, k)| > 0 { StubbornNeverDrains(queue, n, i, k); }
    } else {
      assert forall i :: 0 <= i < |queue| ==> Clean(queue[i]);
      CleanQueueDrains(queue, n);
    }
  }

  // ---- Vectors of leaves, and every limit ----

  // How many buffers have records.
  ghost function With<R>(bs: seq<BufferTree<R>>): nat {
    if |bs| == 0 then 0 else (if |Records(bs[0])| > 0 then 1 else 0) + With(bs[1..])
  }

  ghost predicate Leaves<R>(bs: seq<BufferTree<R>>) { forall i :: 0 <= i < |bs| ==> bs[i].Leaf? }

  // As many buffers are discarded from the front as have records, so a bare leaf further back stays.
  ghost predicate BareBehind<R>(bs: seq<BufferTree<R>>, i: nat) { With(bs) <= i < |bs| && Bare(bs[i]) }

  ghost predicate NoneBehind<R>(bs: seq<BufferTree<R>>) { forall i: nat :: !BareBehind(bs, i) }

  lemma {:induction false} AfterLeaf<R>(bs: seq<BufferTree<R>>, n: nat, i: nat)
    requires Leaves(bs) && i < |bs|
    ensures After(bs, n)[i].Leaf? && (Bare(After(bs, n)[i]) <==> Bare(bs[i]))
    decreases bs
  {
    if n > 0 && i > 0 { AfterLeaf(bs[1..], Less(bs[0], n), i - 1); }
  }

  // What is discarded takes away no more buffers with records than were used.
  lemma {:induction false} WithTail<R>(bs: seq<BufferTree<R>>, n: nat, d: nat)
    requires Leaves(bs) && d <= Used(bs, n)
    ensures With(After(bs, n)[d..]) + Used(bs, n) >= With(bs)
    decreases bs
  {
    if n == 0 || |bs| == 0 {
      assert After(bs, n)[d..] == bs;
    } else {
      var less, after := Less(bs[0], n), After(bs, n);
      assert after[1..] == After(bs[1..], less);
      WithTail(bs[1..], less, if d > 0 then d - 1 else 0);
      if d > 0 {
        assert after[d..] == after[1..][d - 1..];
      } else {
        assert after[d..] == after && after[1..][0..] == after[1..];
      }
    }
  }

  lemma NoneBehindRest<R>(bs: seq<BufferTree<R>>, n: nat)
    requires Leaves(bs) && NoneBehind(bs)
    ensures Leaves(RestAll(bs, n)) && NoneBehind(RestAll(bs, n))
  {
    var u, left := Used(bs, n), RestAll(bs, n);
    WithTail(bs, n, u);
    forall i: nat | i < |left| ensures left[i].Leaf? && !BareBehind(left, i) {
      AfterLeaf(bs, n, u + i);
      assert !BareBehind(bs, u + i);
    }
  }

  lemma {:induction false} WithNone<R>(bs: seq<BufferTree<R>>)
    requires |RecordsAll(bs)| == 0
    ensures With(bs) == 0 && forall i :: 0 <= i < |bs| ==> |Records(bs[i])| == 0
  {
    if |bs| > 0 { WithNone(bs[1..]); }
  }

  lemma {:induction false} SomeBytes<R>(bs: seq<BufferTree<R>>)
    ensures BytesAll(bs) > 0 <==> exists i :: 0 <= i < |bs| && Bytes(bs[i]) > 0
  {
    if |bs| > 0 {
      SomeBytes(bs[1..]);
      assert forall i :: 0 < i < |bs| ==> bs[i] == bs[1..][i - 1];
    }
  }

  ghost predicate Settles<R>(e: VectorEntry<R>) {
    e.buffer.Some? ==> Flat(e.buffer.value) && NoneBehind(e.buffer.value.buffers)
  }

  lemma SettlesNotBare<R>(b: BufferTree<R>)
    requires Flat(b) && NoneBehind(b.buffers)
    ensures !Bare(b)
  {
    var bs := b.buffers;
    if |RecordsAll(bs)| == 0 {
      WithNone(bs);
      SomeBytes(bs);
      forall i: nat | i < |bs| ensures Bytes(bs[i]) == 0 { assert !BareBehind(bs, i); }
    }
  }

  lemma SettlesLeft<R>(queue: seq<VectorEntry<R>>, n: nat)
    requires forall i :: 0 <= i < |queue| ==> Settles(queue[i])
    ensures forall i :: 0 <= i < |Left(queue, n)| ==> Settles(Left(queue, n)[i])
  {
    var d, m, split := LeftForm(queue, n);
    if split {
      NoneBehindRest(queue[d].buffer.value.buffers, m);
      assert Settles(PutBack(queue[d], m));
    }
    hide Left, Stays, PutBack, Settles;
  }

  lemma {:induction false} SettlesNeverStuck<R>(queue: seq<VectorEntry<R>>, n: nat, k: nat)
    requires forall i :: 0 <= i < |queue| ==> Settles(queue[i])
    ensures !Stuck(Calls(queue, n, k))
    decreases k
  {
    if k == 0 {
      if |queue| > 0 && queue[0].buffer.Some? { SettlesNotBare(queue[0].buffer.value); }
    } else {
      SettlesLeft(queue, n);
      SettlesNeverStuck(Left(queue, n), n, k - 1);
    }
  }

  // ---- A bare leaf behind, and a limit that takes everything ----

  lemma {:induction false} UsedAll<R>(bs: seq<BufferTree<R>>, n: nat)
    requires n >= |RecordsAll(bs)|
    ensures Used(bs, n) == With(bs)
    decreases bs
  {
    if n == 0 {
      WithNone(bs);
    } else if |bs| > 0 {
      UsedAll(bs[1..], Less(bs[0], n));
    }
  }

  lemma BehindRest<R>(b: BufferTree<R>, n: nat, i: nat)
    requires Flat(b) && BareBehind(b.buffers, i) && n >= |Records(b)|
    ensures var left := Rest(b, n); Flat(left) && BareBehind(left.buffers, i - With(b.buffers)) && !IsEmpty(left)
  {
    var bs, u, left := b.buffers, With(b.buffers), RestAll(b.buffers, n);
    UsedAll(bs, n);
    forall j: nat | j < |left| ensures left[j].Leaf? && (Bare(left[j]) <==> Bare(bs[u + j])) {
      AfterLeaf(bs, n, u + j);
    }
    NothingStays(b, n);
    WithNone(left);
    assert Bare(left[i - u]);
    SomeBytes(left);
  }

  ghost predicate BehindAt<R>(queue: seq<VectorEntry<R>>, e: nat, i: nat) {
    && e < |queue| && queue[e].buffer.Some? && Flat(queue[e].buffer.value)
    && BareBehind(queue[e].buffer.value.buffers, i)
  }

  lemma BehindPutBack<R>(e: VectorEntry<R>, n: nat, i: nat)
    requires BehindAt([e], 0, i) && n >= |RecordsIn(e)|
    ensures Stays(e, n) && BehindAt([PutBack(e, n)], 0, i - With(e.buffer.value.buffers))
  {
    BehindRest(e.buffer.value, n, i);
  }

  lemma {:induction false} BehindLeft<R>(queue: seq<VectorEntry<R>>, n: nat, e: nat, i: nat) returns (f: nat, j: nat)
    requires BehindAt(queue, e, i) && n >= |AllIn(queue)|
    ensures BehindAt(Left(queue, n), f, j)
    decreases |queue|
  {
    f, j := e, i;
    if n > 0 {
      var first := queue[0];
      CallStep(queue, n);
      Fits(first, n);
      if e == 0 {
        BehindPutBack(first, n, i);
        j := i - With(first.buffer.value.buffers);
      }
      hide Left, Gives, Stays, PutBack, BareBehind;
      if !Stays(first, n) {
        f := e - 1;
        if !first.commit { f, j := BehindLeft(queue[1..], n - |Gives(first, n)|, e - 1, i); }
      }
    }
  }

  lemma FewerRecords<R>(queue: seq<VectorEntry<R>>, n: nat)
    ensures |AllIn(Left(queue, n))| <= |AllIn(queue)|
  {
    ConservesExactly(queue, n);
    hide Left, Flushed, AllIn, SplitLossless;
    if Conserves(queue, n) { assert |Flushed(queue, n) + AllIn(Left(queue, n))| == |AllIn(queue)|; }
  }

  lemma {:induction false} BehindNeverDrains<R>(queue: seq<VectorEntry<R>>, n: nat, e: nat, i: nat, k: nat)
    requires BehindAt(queue, e, i) && n >= |AllIn(queue)|
    ensures |Calls(queue, n, k)| > 0
    decreases k
  {
    if k > 0 {
      var f, j := BehindLeft(queue, n, e, i);
      FewerRecords(queue, n);
      BehindNeverDrains(Left(queue, n), n, f, j, k - 1);
    }
  }

  // A queue of vectors of leaves is drained whatever the limit exactly if in no vector a bare leaf
  // comes at or after the place that is the number of leaves with records. Otherwise no limit that
  // takes all records at once drains it.
  lemma VectorsDrainExactly<R>(queue: seq<VectorEntry<R>>)
    requires forall e :: 0 <= e < |queue| ==> FlatEntry(queue[e])
    ensures (forall n: nat :: n > 0 ==> Drains(queue, n)) <==> forall e :: 0 <= e < |queue| ==> Settles(queue[e])
    ensures forall n: nat :: n >= |AllIn(queue)| && Drains(queue, n) ==>
              forall e :: 0 <= e < |queue| ==> Settles(queue[e])
  {
    if forall e :: 0 <= e < |queue| ==> Settles(queue[e]) {
      forall n: nat | n > 0 ensures Drains(queue, n) {
        forall k: nat ensures !Stuck(Calls(queue, n, k)) { SettlesNeverStuck(queue, n, k); }
        NeverStuckDrains(queue, n);
      }
    } else {
      var e :| 0 <= e < |queue| && !Settles(queue[e]);
      var i: nat :| BareBehind(queue[e].buffer.value.buffers, i);
      forall n: nat | n >= |AllIn(queue)| ensures !Drains(queue, n) {
        forall k: nat ensures |Calls(queue, n, k)| > 0 { BehindNeverDrains(queue, n, e, i, k); }
      }
      assert !Drains(queue, |AllIn(queue)| + 1);
    }
  }
}
