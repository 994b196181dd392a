/** What the losses of vector buffers mean for the input queue that flushes them. */
module VectorQueue {
  import opened Arithmetic
  import opened NestedBuffers
  import opened Options
  import QueueLedger
  import opened Sequences

  datatype VectorEntry<R> =
    VectorEntry(buffer: Option<BufferTree<R>>, start: Option<QueueLedger.Label>, commit: bool)

  predicate IsEmpty<R>(b: BufferTree<R>) { |Records(b)| == 0 && Bytes(b) == 0 }

  function RecordsIn<R>(e: VectorEntry<R>): seq<R> { if e.buffer.Some? then Records(e.buffer.value) else [] }

  function AllIn<R>(queue: seq<VectorEntry<R>>): seq<R> {
    if |queue| == 0 then [] else RecordsIn(queue[0]) + AllIn(queue[1..])
  }

  // ---- What a call does ----

  // What an entry gives of n records, and whether something of it stays.
  ghost function Gives<R>(e: VectorEntry<R>, n: nat): seq<R> {
    if e.buffer.Some? then RecordsOf(Taken(e.buffer.value, n)) else []
  }

  ghost predicate Stays<R>(e: VectorEntry<R>, n: nat) { e.buffer.Some? && !IsEmpty(Rest(e.buffer.value, n)) }

  ghost function PutBack<R>(e: VectorEntry<R>, n: nat): VectorEntry<R>
    requires e.buffer.Some?
  {
    VectorEntry(Some(Rest(e.buffer.value, n)), None, e.commit)
  }

  // What a call of `queue` with n records to go flushes, and what it leaves in the queue.
  ghost function Flushed<R>(queue: seq<VectorEntry<R>>, n: nat): seq<R>
    decreases |queue|
  {
    if n == 0 || |queue| == 0 then []
    else
      var given := Gives(queue[0], n);
      given + if Stays(queue[0], n) || queue[0].commit then [] else Flushed(queue[1..], SaturatingSub(n, |given|))
  }

  ghost function Left<R>(queue: seq<VectorEntry<R>>, n: nat): seq<VectorEntry<R>>
    decreases |queue|
  {
    if n == 0 || |queue| == 0 then queue
    else if Stays(queue[0], n) then [PutBack(queue[0], n)] + queue[1..]
    else if queue[0].commit then queue[1..]
    else Left(queue[1..], SaturatingSub(n, |Gives(queue[0], n)|))
  }

  // One entry of it.
  lemma CallStep<R>(queue: seq<VectorEntry<R>>, n: nat)
    requires n > 0 && |queue| > 0
    ensures var e, more := queue[0], SaturatingSub(n, |Gives(queue[0], n)|);
            && (Stays(e, n) || e.commit ==> Flushed(queue, n) == Gives(e, n))
            && (!Stays(e, n) && !e.commit ==>
                  && Flushed(queue, n) == Gives(e, n) + Flushed(queue[1..], more)
                  && Left(queue, n) == Left(queue[1..], more))
            && (Stays(e, n) ==> Left(queue, n) == [PutBack(e, n)] + queue[1..])
            && (!Stays(e, n) && e.commit ==> Left(queue, n) == queue[1..])
  {
    hide Gives, Stays, PutBack;
    assert Gives(queue[0], n) + [] == Gives(queue[0], n);
  }

  method Serve<R>(entry: VectorEntry<R>, n: nat) returns (records: seq<R>, back: Option<VectorEntry<R>>)
    ensures records == Gives(entry, n) && (back.Some? <==> Stays(entry, n))
    ensures back.Some? ==> entry.buffer.Some? && back.value == PutBack(entry, n)
  {
    records, back := [], None;
    if entry.buffer.Some? {
      var taken, rest := TakeSome(entry.buffer.value, n);
      records := if taken.Some? then Records(taken.value) else [];
      if !IsEmpty(rest) {
        back := Some(VectorEntry(Some(rest), None, entry.commit));
      }
    }
  }

  // The loop of `queue`.
  method Queue<R>(entries: seq<VectorEntry<R>>, n: nat) returns (flushed: seq<R>, queue: seq<VectorEntry<R>>)
    ensures flushed == Flushed(entries, n) && queue == Left(entries, n)
  {
    queue, flushed := entries, [];
    var total: nat := 0;
    NothingBefore(flushed, Flushed(entries, n));
    while total < n
      invariant flushed + Flushed(queue, SaturatingSub(n, total)) == Flushed(entries, n)
      invariant Left(queue, SaturatingSub(n, total)) == Left(entries, n)
      decreases |queue|
    {
      if |queue| == 0 { break; }
      hide Flushed, Left, Gives, Stays, PutBack;
      CallStep(queue, n - total);
      var entry := queue[0];
      queue := queue[1..];
      var records, back := Serve(entry, n - total);
      total := total + |records|;
      Associative(flushed, records, Flushed(queue, SaturatingSub(n, total)));
      flushed := flushed + records;
      if back.Some? {
        queue := [back.value] + queue;
        return;
      }
      if entry.commit { return; }
    }
    NothingAdded(flushed, Flushed(queue, SaturatingSub(n, total)), []);
  }

  // ---- When it conserves the records ----

  ghost predicate KeepsNoBytes<R>(e: VectorEntry<R>, n: nat) { e.buffer.Some? ==> LeavesNoBytes(e.buffer.value, n) }

  // The call ends with the first entry although it fits into what is to go.
  ghost predicate EndsCall<R>(e: VectorEntry<R>, n: nat) { !KeepsNoBytes(e, n) || e.commit }

  // The entry that the batch limit falls into, if the call gets so far, loses nothing.
  ghost predicate SplitLossless<R>(queue: seq<VectorEntry<R>>, n: nat)
    decreases |queue|
  {
    n > 0 && |queue| > 0 ==>
      if n < |RecordsIn(queue[0])| then Lossless(queue[0].buffer.value, n)
      else !EndsCall(queue[0], n) ==> SplitLossless(queue[1..], n - |RecordsIn(queue[0])|)
  }

  // An entry that fits into what is to go is flushed whole.
  lemma Fits<R>(e: VectorEntry<R>, n: nat)
    requires n > 0 && n >= |RecordsIn(e)|
    ensures Gives(e, n) == RecordsIn(e) && (Stays(e, n) <==> !KeepsNoBytes(e, n))
    ensures Stays(e, n) ==> |RecordsIn(PutBack(e, n))| == 0
  {
    if e.buffer.Some? {
      var b := e.buffer.value;
      TakenRecords(b, n);
      NothingStays(b, n);
      LeavesNoBytesExactly(b, n);
      assert Records(b)[..|Records(b)|] == Records(b);
    }
  }

  lemma AllInCons<R>(e: VectorEntry<R>, queue: seq<VectorEntry<R>>)
    ensures AllIn([e] + queue) == RecordsIn(e) + AllIn(queue)
  {
    assert ([e] + queue)[1..] == queue;
  }

  lemma AllInFirst<R>(queue: seq<VectorEntry<R>>)
    requires |queue| > 0
    ensures AllIn(queue) == RecordsIn(queue[0]) + AllIn(queue[1..])
  {
  }

  // It is the last one of the call ...
  lemma FlushesLast<R>(queue: seq<VectorEntry<R>>, n: nat)
    requires n > 0 && |queue| > 0 && n >= |RecordsIn(queue[0])| && EndsCall(queue[0], n)
    ensures Flushed(queue, n) == RecordsIn(queue[0]) && AllIn(Left(queue, n)) == AllIn(queue[1..])
  {
    var e := queue[0];
    Fits(e, n);
    hide Gives, Stays, KeepsNoBytes, AllIn, PutBack;
    assert RecordsIn(e) + [] == RecordsIn(e);
    if Stays(e, n) {
      AllInCons(PutBack(e, n), queue[1..]);
      NothingBefore(RecordsIn(PutBack(e, n)), AllIn(queue[1..]));
    }
  }

  lemma NothingBefore<T>(a: seq<T>, b: seq<T>)
    requires |a| == 0
    ensures a + b == b
  {
  }

  // ... or the call goes on.
  lemma FlushesOn<R>(queue: seq<VectorEntry<R>>, n: nat)
    requires n > 0 && |queue| > 0 && n >= |RecordsIn(queue[0])| && !EndsCall(queue[0], n)
    ensures Flushed(queue, n) == RecordsIn(queue[0]) + Flushed(queue[1..], n - |RecordsIn(queue[0])|)
    ensures Left(queue, n) == Left(queue[1..], n - |RecordsIn(queue[0])|)
  {
    Fits(queue[0], n);
    hide Gives, Stays, KeepsNoBytes;
  }

  // What a call comes to that ends in an entry of which it flushes the first n records.
  lemma SplitAmounts<R>(first: seq<R>, kept: seq<R>, more: seq<R>, n: nat)
    requires n < |first|
    ensures first[..n] + (kept + more) == first + more <==> kept == first[n..]
  {
    assert first == first[..n] + first[n..];
    Associative(first[..n], first[n..], more);
    PrefixCancels(first[..n], kept + more, first[n..] + more);
    SuffixCancels(kept, first[n..], more);
  }

  // The entry that the limit falls into is split, and the call ends.
  lemma SplitOne<R>(queue: seq<VectorEntry<R>>, n: nat)
    requires n > 0 && |queue| > 0 && n < |RecordsIn(queue[0])|
    ensures Flushed(queue, n) == RecordsIn(queue[0])[..n]
    ensures AllIn(Left(queue, n)) == Records(Rest(queue[0].buffer.value, n)) + AllIn(queue[1..])
  {
    var e, b := queue[0], queue[0].buffer.value;
    TakenRecords(b, n);
    assert Gives(e, n) == Records(b)[..n];
    assert Records(b)[..n] + [] == Records(b)[..n];
    if Stays(e, n) {
      AllInCons(PutBack(e, n), queue[1..]);
    } else {
      assert Flushed(queue[1..], 0) == [] && Left(queue[1..], 0) == queue[1..];
      NothingBefore(Records(Rest(b, n)), AllIn(queue[1..]));
    }
  }

  // A call conserves the records, as far as the two lists tell.
  ghost predicate Conserves<R>(queue: seq<VectorEntry<R>>, n: nat) {
    Flushed(queue, n) + AllIn(Left(queue, n)) == AllIn(queue)
  }

  ghost predicate Loses<R>(queue: seq<VectorEntry<R>>, n: nat) {
    |Flushed(queue, n)| + |AllIn(Left(queue, n))| < |AllIn(queue)|
  }

  lemma ConservesMeans<R>(queue: seq<VectorEntry<R>>, n: nat)
    ensures Conserves(queue, n) <==> Flushed(queue, n) + AllIn(Left(queue, n)) == AllIn(queue)
    ensures Loses(queue, n) <==> |Flushed(queue, n)| + |AllIn(Left(queue, n))| < |AllIn(queue)|
  {
    hide Flushed, Left, AllIn;
  }

  lemma SplitConserves<R>(queue: seq<VectorEntry<R>>, n: nat)
    requires n > 0 && |queue| > 0 && n < |RecordsIn(queue[0])|
    ensures Conserves(queue, n) <==> Lossless(queue[0].buffer.value, n)
    ensures !Lossless(queue[0].buffer.value, n) ==> Loses(queue, n)
  {
    var b := queue[0].buffer.value;
    var first, kept, more := Records(b), Records(Rest(b, n)), AllIn(queue[1..]);
    SplitOne(queue, n);
    RestExactly(b, n);
    assert AllIn(queue) == first + more;
    hide Flushed, Left, AllIn, Records, Rest, Lossless;
    SplitAmounts(first, kept, more, n);
  }

  lemma LastConserves<R>(queue: seq<VectorEntry<R>>, n: nat)
    requires n > 0 && |queue| > 0 && n >= |RecordsIn(queue[0])| && EndsCall(queue[0], n)
    ensures Conserves(queue, n)
  {
    hide Flushed, Left, EndsCall;
    FlushesLast(queue, n);
  }

  lemma OnConserves<R>(queue: seq<VectorEntry<R>>, n: nat)
    requires n > 0 && |queue| > 0 && n >= |RecordsIn(queue[0])| && !EndsCall(queue[0], n)
    ensures Conserves(queue, n) <==> Conserves(queue[1..], n - |RecordsIn(queue[0])|)
    ensures Loses(queue, n) <==> Loses(queue[1..], n - |RecordsIn(queue[0])|)
  {
    hide *;
    var first, m := RecordsIn(queue[0]), n - |RecordsIn(queue[0])|;
    FlushesOn(queue, n);
    AllInFirst(queue);
    CommonPrefix(first, Flushed(queue[1..], m), AllIn(Left(queue[1..], m)), AllIn(queue[1..]));
    ConservesMeans(queue, n);
    ConservesMeans(queue[1..], m);
  }

  lemma NothingConserves<R>(queue: seq<VectorEntry<R>>, n: nat)
    requires n == 0 || |queue| == 0
    ensures Conserves(queue, n)
  {
    hide AllIn;
    NothingBefore(Flushed(queue, n), AllIn(queue));
  }

  // A call conserves the records exactly if the entry it splits is lossless; otherwise it flushes
  // the right records and leaves fewer than are to stay.
  lemma {:induction false} ConservesExactly<R>(queue: seq<VectorEntry<R>>, n: nat)
    ensures Conserves(queue, n) <==> SplitLossless(queue, n)
    ensures !SplitLossless(queue, n) ==> Loses(queue, n)
    decreases |queue|
  {
    hide Conserves, Loses, EndsCall, Lossless, RecordsIn, Flushed, Left, AllIn;
    if n == 0 || |queue| == 0 {
      NothingConserves(queue, n);
    } else {
      if n < |RecordsIn(queue[0])| {
        SplitConserves(queue, n);
      } else if EndsCall(queue[0], n) {
        LastConserves(queue, n);
      } else {
        OnConserves(queue, n);
        ConservesExactly(queue[1..], n - |RecordsIn(queue[0])|);
      }
    }
  }

  ghost predicate EndsWith<T>(s: seq<T>, tail: seq<T>) { |tail| <= |s| && s[|s| - |tail|..] == tail }

  lemma SuffixEnds<T>(s: seq<T>, x: T, k: nat)
    requires 0 < k <= |s|
    ensures EndsWith(s, s[k..]) && EndsWith(s[1..], s[k..]) && EndsWith([x] + s[1..], s[k..])
  {
    assert ([x] + s[1..])[k..] == s[k..] && s[1..][k - 1..] == s[k..];
  }

  lemma StaysHasBuffer<R>(e: VectorEntry<R>, n: nat)
    requires Stays(e, n)
    ensures e.buffer.Some?
  {
  }

  lemma SlicesOfTail<T>(s: seq<T>, k: nat)
    requires 0 < k <= |s|
    ensures s[1..][k - 1..] == s[k..] && s[..k][1..] == s[1..][..k - 1]
  {
  }

  // Nothing behind an entry that asks for a commit is touched ...
  lemma {:induction false} CommitEndsCall<R>(queue: seq<VectorEntry<R>>, n: nat, j: nat)
    requires j < |queue| && queue[j].commit
    ensures EndsWith(Left(queue, n), queue[j + 1..])
    decreases |queue|
  {
    if n == 0 {
      SuffixEnds(queue, queue[0], j + 1);
    } else {
      hide *;
      var e, more := queue[0], queue[1..];
      CallStep(queue, n);
      if Stays(e, n) {
        StaysHasBuffer(e, n);
        SuffixEnds(queue, PutBack(e, n), j + 1);
      } else if e.commit {
        SuffixEnds(queue, e, j + 1);
      } else {
        CommitEndsCall(more, SaturatingSub(n, |Gives(e, n)|), j - 1);
        SlicesOfTail(queue, j + 1);
      }
    }
  }

  // ... or flushed.
  lemma {:induction false} CommitEndsFlush<R>(queue: seq<VectorEntry<R>>, n: nat, j: nat)
    requires j < |queue| && queue[j].commit
    ensures |Flushed(queue, n)| <= |AllIn(queue[..j + 1])|
    decreases |queue|
  {
    if n > 0 {
      var e, more := queue[0], queue[1..];
      CallStep(queue, n);
      GivesNoMore(e, n);
      AllInFirst(queue[..j + 1]);
      hide Flushed, Stays, Gives, AllIn, RecordsIn;
      if !Stays(e, n) && !e.commit {
        CommitEndsFlush(more, SaturatingSub(n, |Gives(e, n)|), j - 1);
        SlicesOfTail(queue, j + 1);
      }
    }
  }

  lemma GivesNoMore<R>(e: VectorEntry<R>, n: nat)
    ensures |Gives(e, n)| <= |RecordsIn(e)|
  {
    if e.buffer.Some? { TakenRecords(e.buffer.value, n); }
  }

  // ---- Which records are missing ----

  // A vector of leaves, as both preprocessed parsers produce it.
  ghost predicate Flat<R>(b: BufferTree<R>) { b.Nested? && forall i :: 0 <= i < |b.buffers| ==> b.buffers[i].Leaf? }

  ghost predicate FlatEntry<R>(e: VectorEntry<R>) { e.buffer.Some? ==> Flat(e.buffer.value) }

  // The records of a buffer that are missing when n records are taken.
  lemma MissingInBuffer<R>(b: BufferTree<R>, n: nat) returns (p: nat, gap: nat)
    requires Flat(b) && !Lossless(b, n)
    ensures p < |b.buffers| && 0 < gap < |b.buffers[p].records|
    ensures n + gap == |RecordsAll(b.buffers[..p + 1])| <= |Records(b)|
    ensures Records(Rest(b, n)) == Records(b)[n + gap..]
  {
    var bs, m := b.buffers, 0;
    p, m := FlatLoss(bs, n);
    gap := |bs[p].records| - m;
    LeafEnds(bs, p);
    CutInSecond(RecordsAll(bs[..p + 1]), RecordsAll(bs[p + 1..]), 0);
  }

  // Of the records of the queue the first n are flushed, and the next `gap` are gone.
  ghost predicate Misses<R>(queue: seq<VectorEntry<R>>, n: nat, gap: nat) {
    && n + gap <= |AllIn(queue)| && Flushed(queue, n) == AllIn(queue)[..n]
    && AllIn(Left(queue, n)) == AllIn(queue)[n + gap..]
  }

  // They are the rest of leaf p of entry e, into which the limit falls.
  ghost predicate RestOfLeaf<R>(queue: seq<VectorEntry<R>>, n: nat, e: nat, p: nat, gap: nat) {
    && e < |queue| && queue[e].buffer.Some? && Flat(queue[e].buffer.value)
    && var bs := queue[e].buffer.value.buffers;
    && p < |bs| && 0 < gap < |bs[p].records|
    && n + gap == |AllIn(queue[..e])| + |RecordsAll(bs[..p + 1])|
  }

  lemma MissesLater<R>(queue: seq<VectorEntry<R>>, n: nat, gap: nat)
    requires n > 0 && |queue| > 0 && n >= |RecordsIn(queue[0])| && !EndsCall(queue[0], n)
    requires Misses(queue[1..], n - |RecordsIn(queue[0])|, gap)
    ensures Misses(queue, n, gap)
  {
    hide Flushed, Left, AllIn, EndsCall, RecordsIn;
    var first, more, m := RecordsIn(queue[0]), AllIn(queue[1..]), n - |RecordsIn(queue[0])|;
    FlushesOn(queue, n);
    AllInFirst(queue);
    CutInSecond(first, more, m);
    CutInSecond(first, more, m + gap);
  }

  lemma RestOfLeafLater<R>(queue: seq<VectorEntry<R>>, n: nat, e: nat, p: nat, gap: nat)
    requires |queue| > 0 && n >= |RecordsIn(queue[0])|
    requires RestOfLeaf(queue[1..], n - |RecordsIn(queue[0])|, e, p, gap)
    ensures RestOfLeaf(queue, n, e + 1, p, gap)
  {
    assert queue[..e + 1][1..] == queue[1..][..e];
    assert AllIn(queue[..e + 1]) == RecordsIn(queue[0]) + AllIn(queue[1..][..e]);
  }

  lemma AllInNone<R>(queue: seq<VectorEntry<R>>)
    requires |queue| == 0
    ensures |AllIn(queue)| == 0
  {
  }

  lemma MissesInFirst<R>(queue: seq<VectorEntry<R>>, n: nat) returns (p: nat, gap: nat)
    requires n > 0 && |queue| > 0 && n < |RecordsIn(queue[0])| && FlatEntry(queue[0])
    requires !Lossless(queue[0].buffer.value, n)
    ensures Misses(queue, n, gap) && RestOfLeaf(queue, n, 0, p, gap)
  {
    hide Flushed, Left, Lossless, Rest, Records, RecordsAll, AllIn;
    var b := queue[0].buffer.value;
    p, gap := MissingInBuffer(b, n);
    SplitOne(queue, n);
    AllInFirst(queue);
    AllInNone(queue[..0]);
    CutInFirst(Records(b), AllIn(queue[1..]), n);
    CutInFirst(Records(b), AllIn(queue[1..]), n + gap);
  }

  // Exactly the rest of the leaf that the limit falls into is missing.
  lemma {:induction false} MissingIsRestOfLeaf<R>(queue: seq<VectorEntry<R>>, n: nat) returns (e: nat, p: nat, gap: nat)
    requires (forall i :: 0 <= i < |queue| ==> FlatEntry(queue[i])) && !SplitLossless(queue, n)
    ensures Misses(queue, n, gap) && RestOfLeaf(queue, n, e, p, gap)
    decreases |queue|
  {
    if n < |RecordsIn(queue[0])| {
      e := 0;
      p, gap := MissesInFirst(queue, n);
    } else {
      var m := n - |RecordsIn(queue[0])|;
      e, p, gap := MissingIsRestOfLeaf(queue[1..], m);
      hide Misses, RestOfLeaf, EndsCall, FlatEntry;
      MissesLater(queue, n, gap);
      RestOfLeafLater(queue, n, e, p, gap);
      e := e + 1;
    }
  }

  lemma LeafEnds<R>(bs: seq<BufferTree<R>>, p: nat)
    requires p < |bs|
    ensures RecordsAll(bs[..p + 1]) == RecordsAll(bs[..p]) + Records(bs[p])
    ensures RecordsAll(bs) == RecordsAll(bs[..p + 1]) + RecordsAll(bs[p + 1..])
  {
    hide RecordsAll;
    SliceSnoc(bs, p);
    RecordsAllAppend(bs[..p], [bs[p]]);
    RecordsAllOne(bs[p]);
    RecordsAllAppend(bs[..p + 1], bs[p + 1..]);
  }

  lemma {:induction false} RecordsAllAppend<R>(a: seq<BufferTree<R>>, b: seq<BufferTree<R>>)
    ensures RecordsAll(a + b) == RecordsAll(a) + RecordsAll(b)
  {
    if |a| == 0 {
      assert a + b == b;
    } else {
      assert (a + b)[1..] == a[1..] + b;
      RecordsAllAppend(a[1..], b);
    }
  }

  lemma RecordsAllOne<R>(b: BufferTree<R>)
    ensures RecordsAll([b]) == Records(b)
  {
    assert [b][1..] == [];
  }
}
