/** What happens to the account of a queue while the flusher makes one call. */
module QueueCalls {
  import opened Options
  import opened QueueLedger
  import opened Sequences

  function Head<T>(ss: seq<seq<T>>): seq<T> { if |ss| == 0 then [] else ss[0] }

  function Tail<T>(ss: seq<seq<T>>): seq<seq<T>> { if |ss| == 0 then [] else ss[1..] }

  // How many entries the producers have yet to push.
  ghost function Coming<A, R>(pushes: seq<seq<Entry<A, R>>>): nat {
    if |pushes| == 0 then 0 else |pushes[0]| + Coming(pushes[1..])
  }

  lemma ComingStep<A, R>(pushes: seq<seq<Entry<A, R>>>)
    ensures Coming(pushes) == |Head(pushes)| + Coming(Tail(pushes))
  {
  }

  // Only entries were pushed in between.
  ghost predicate Grown<A, R>(before: Ledger<A, R>, after: Ledger<A, R>, more: seq<Entry<A, R>>) {
    && after.pushed == before.pushed + more
    && after.done == before.done && after.part == before.part && after.begun == before.begun
    && after.flushed == before.flushed && after.flushedSize == before.flushedSize && after.told == before.told
  }

  // What happens to the account while the flusher works and commits nothing.
  ghost predicate Quiet<A, R>(before: Ledger<A, R>, after: Ledger<A, R>) {
    && before.pushed <= after.pushed && before.done <= after.done <= |after.pushed|
    && before.flushed <= after.flushed && before.told.log <= after.told.log
    && forall i :: |before.told.log| <= i < |after.told.log| ==> after.told.log[i].Started?
  }

  // What happens to it in one call of the flusher: no record is flushed after a commit.
  ghost predicate Call<A, R>(before: Ledger<A, R>, after: Ledger<A, R>) {
    && before.pushed <= after.pushed && before.done <= after.done <= |after.pushed|
    && before.flushed <= after.flushed && before.told.log <= after.told.log
    && forall i :: |before.told.log| <= i < |after.told.log| && after.told.log[i].Committed?
         ==> after.told.log[i].at == |after.flushed|
  }

  ghost predicate Commits<A, R>(before: Ledger<A, R>, after: Ledger<A, R>) {
    exists i :: |before.told.log| <= i < |after.told.log| && after.told.log[i].Committed?
  }

  datatype Turn = Next | Empty | Splitting | Committing

  lemma QuietRefl<A, R>(l: Ledger<A, R>)
    requires Good(l)
    ensures Quiet(l, l) && Consumed(l, l, [])
  {
  }

  lemma AllFinished<A, R>(l: Ledger<A, R>)
    requires Good(l) && |l.rest| == 0
    ensures l.done == |l.pushed|
  {
  }

  lemma QuietTransitive<A, R>(a: Ledger<A, R>, b: Ledger<A, R>, c: Ledger<A, R>)
    requires Quiet(a, b) && Quiet(b, c)
    ensures Quiet(a, c)
  {
    assert c.told.log[..|b.told.log|] == b.told.log;
  }

  lemma GrownQuiet<A, R>(before: Ledger<A, R>, after: Ledger<A, R>, more: seq<Entry<A, R>>)
    requires Good(before) && Grown(before, after, more)
    ensures Quiet(before, after)
  {
  }

  lemma StartQuiet<A, R>(l: Ledger<A, R>)
    requires Good(l) && |l.rest| > 0
    ensures Quiet(l, Start(l))
  {
  }

  lemma FlushQuiet<A, R>(l: Ledger<A, R>, k: nat, b: nat)
    requires Good(l) && |l.rest| > 0 && l.rest[0].buffer.Some?
    requires k <= |l.rest[0].buffer.value.records| && b <= l.rest[0].buffer.value.bytes
    ensures Quiet(l, Flush(l, k, b))
  {
  }

  lemma FinishCall<A, R>(l: Ledger<A, R>)
    requires Good(l) && |l.rest| > 0
    ensures Call(l, Finish(l)) && (Quiet(l, Finish(l)) <==> !(l.rest[0].commit && l.told.open))
    ensures l.rest[0].commit && l.told.open ==> Commits(l, Finish(l))
  {
    if l.rest[0].commit && l.told.open { assert Finish(l).told.log[|l.told.log|].Committed?; }
  }

  // An entry is what is left of the first one that is not finished.
  ghost predicate InFront<A, R>(l: Ledger<A, R>, e: Entry<A, R>) {
    && l.done < |l.pushed| && e.commit == l.pushed[l.done].commit && e.aux == l.pushed[l.done].aux
    && e.buffer.Some? == l.pushed[l.done].buffer.Some?
  }

  lemma FrontOf<A, R>(l: Ledger<A, R>)
    requires Good(l) && |l.rest| > 0
    ensures InFront(l, l.rest[0])
  {
  }

  lemma QuietCall<A, R>(a: Ledger<A, R>, b: Ledger<A, R>)
    requires Quiet(a, b)
    ensures Call(a, b)
  {
  }

  // Entries from..to-1 ask for no commit.
  ghost predicate Plain<A, R>(l: Ledger<A, R>, from: nat, to: int) {
    to <= |l.pushed| && forall i :: from <= i < to ==> !l.pushed[i].commit
  }

  // One more entry is finished, and `commit` says whether it asks for a commit.
  ghost predicate Finished<A, R>(before: Ledger<A, R>, after: Ledger<A, R>, commit: bool) {
    after.done == before.done + 1 <= |after.pushed| && after.pushed[before.done].commit == commit
  }

  lemma PlainEmpty<A, R>(l: Ledger<A, R>)
    requires Quiet(l, l)
    ensures Plain(l, l.done, l.done) && Plain(l, l.done, l.done - 1)
  {
  }

  lemma PlainStep<A, R>(a: Ledger<A, R>, b: Ledger<A, R>, c: Ledger<A, R>, commit: bool)
    requires Quiet(a, b) && Call(b, c) && Plain(b, a.done, b.done) && Plain(b, a.done, b.done - 1)
    ensures c.done == b.done ==> Plain(c, a.done, c.done) && Plain(c, a.done, c.done - 1)
    ensures Finished(b, c, commit) ==> Plain(c, a.done, c.done - 1) && (Plain(c, a.done, c.done) <==> !commit)
  {
    assert c.pushed[..b.done] == b.pushed[..b.done];
    assert forall i :: a.done <= i < b.done ==> c.pushed[i] == c.pushed[..b.done][i];
  }

  lemma CallGrows<A, R>(a: Ledger<A, R>, b: Ledger<A, R>)
    requires Call(a, b)
    ensures a.pushed <= b.pushed && a.done <= b.done <= |b.pushed|
  {
  }

  lemma CallAfterQuiet<A, R>(a: Ledger<A, R>, b: Ledger<A, R>, c: Ledger<A, R>)
    requires Quiet(a, b) && Call(b, c)
    ensures Call(a, c) && (Commits(b, c) ==> Commits(a, c)) && (Quiet(b, c) ==> Quiet(a, c))
  {
    assert c.told.log[..|b.told.log|] == b.told.log;
  }

  lemma CallFlushingNothing<A, R>(a: Ledger<A, R>, b: Ledger<A, R>, c: Ledger<A, R>)
    requires Call(a, b) && Call(b, c) && c.flushed == b.flushed
    ensures Call(a, c) && (Commits(a, b) || Commits(b, c) ==> Commits(a, c))
  {
    assert c.told.log[..|b.told.log|] == b.told.log;
  }

  // Of the entries from a up to b at most the last one commits a transaction.
  ghost predicate LastCommits<A, R>(es: seq<Entry<A, R>>, a: nat, b: nat, committed: bool) {
    && a <= b <= |es| && (committed <==> a < b && CommitsAt(es, b - 1))
    && forall i :: a <= i < b - 1 ==> !CommitsAt(es, i)
  }

  lemma LastCommitsNone<A, R>(es: seq<Entry<A, R>>, a: nat)
    requires a <= |es|
    ensures LastCommits(es, a, a, false)
  {
  }

  lemma LastCommitsGrow<A, R>(es: seq<Entry<A, R>>, more: seq<Entry<A, R>>, a: nat, b: nat, committed: bool)
    requires LastCommits(es, a, b, committed) && es <= more
    ensures LastCommits(more, a, b, committed)
  {
    forall i | a <= i < b ensures CommitsAt(more, i) <==> CommitsAt(es, i) { CommitsAtPrefix(es, more, i); }
  }

  lemma LastCommitsMore<A, R>(es: seq<Entry<A, R>>, more: seq<Entry<A, R>>, a: nat, b: nat, committed: bool)
    requires LastCommits(es, a, b, false) && es <= more && b < |more| && (committed <==> CommitsAt(more, b))
    ensures LastCommits(more, a, b + 1, committed)
  {
    LastCommitsGrow(es, more, a, b, false);
    hide CommitsAt;
  }

  // One more entry is finished, and `committed` says whether it committed; or none is.
  ghost predicate OneCommits<A, R>(before: Ledger<A, R>, after: Ledger<A, R>, one: bool, committed: bool) {
    if !one then after.done == before.done && !committed
    else after.done == before.done + 1 <= |after.pushed| && (committed <==> CommitsAt(after.pushed, before.done))
  }

  lemma NoneCommits<A, R>(before: Ledger<A, R>, after: Ledger<A, R>)
    requires after.done == before.done
    ensures OneCommits(before, after, false, false)
  {
  }

  lemma OneCommitsMore<A, R>(a: nat, b: Ledger<A, R>, c: Ledger<A, R>, one: bool, committed: bool)
    requires LastCommits(b.pushed, a, b.done, false) && Call(b, c) && OneCommits(b, c, one, committed)
    ensures LastCommits(c.pushed, a, c.done, committed)
  {
    if one {
      LastCommitsMore(b.pushed, c.pushed, a, b.done, committed);
    } else {
      LastCommitsGrow(b.pushed, c.pushed, a, b.done, committed);
    }
  }

  // The auxiliary data of the entries finished in between, all of them whole.
  ghost predicate Consumed<A, R>(before: Ledger<A, R>, after: Ledger<A, R>, aux: seq<A>) {
    && before.done + |aux| == after.done <= |after.pushed| && after.begun == (|aux| == 0 && before.begun)
    && forall i :: 0 <= i < |aux| ==> aux[i] == after.pushed[before.done + i].aux
  }

  // The data that comes with the entries a, ..., b - 1 that have a buffer.
  ghost function Stamps<A, R>(es: seq<Entry<A, R>>, a: nat, b: nat): seq<A>
    requires a <= b <= |es|
    decreases b
  {
    if a == b then [] else Stamps(es, a, b - 1) + if es[b - 1].buffer.Some? then [es[b - 1].aux] else []
  }

  // Every entry with a buffer has its mark, between those of the entries before and after it.
  lemma {:induction false} BufferIsMarked<A, R>(es: seq<Entry<A, R>>, a: nat, i: nat, b: nat)
    requires a <= i < b <= |es| && es[i].buffer.Some?
    ensures Stamps(es, a, b) == Stamps(es, a, i) + [es[i].aux] + Stamps(es, i + 1, b)
    decreases b
  {
    if i < b - 1 {
      BufferIsMarked(es, a, i, b - 1);
      var last := if es[b - 1].buffer.Some? then [es[b - 1].aux] else [];
      Associative(Stamps(es, a, i) + [es[i].aux], Stamps(es, i + 1, b - 1), last);
    }
  }

  // The watermarks of a call: one for each buffer it served, the one that was split included.
  ghost predicate Marked<A, R>(before: Ledger<A, R>, after: Ledger<A, R>, split: bool, marks: seq<A>) {
    var end := after.done + if split then 1 else 0;
    before.done <= end <= |after.pushed| && marks == Stamps(after.pushed, before.done, end)
  }

  lemma {:induction false} StampsOfPrefix<A, R>(es: seq<Entry<A, R>>, more: seq<Entry<A, R>>, a: nat, b: nat)
    requires a <= b <= |es| && es <= more
    ensures Stamps(more, a, b) == Stamps(es, a, b)
    decreases b
  {
    if a < b { StampsOfPrefix(es, more, a, b - 1); }
  }

  lemma {:induction false} StampsSplit<A, R>(es: seq<Entry<A, R>>, a: nat, b: nat, c: nat)
    requires a <= b <= c <= |es|
    ensures Stamps(es, a, c) == Stamps(es, a, b) + Stamps(es, b, c)
    decreases c
  {
    if b == c {
      assert Stamps(es, a, b) + [] == Stamps(es, a, b);
    } else {
      StampsSplit(es, a, b, c - 1);
      var last := if es[c - 1].buffer.Some? then [es[c - 1].aux] else [];
      assert Stamps(es, a, b) + Stamps(es, b, c - 1) + last == Stamps(es, a, b) + (Stamps(es, b, c - 1) + last);
    }
  }

  lemma MarkedMore<A, R>(a: Ledger<A, R>, b: Ledger<A, R>, c: Ledger<A, R>, first: seq<A>, more: seq<A>, split: bool)
    requires Marked(a, b, false, first) && Call(b, c) && Marked(b, c, split, more)
    ensures Marked(a, c, split, first + more)
  {
    StampsOfPrefix(b.pushed, c.pushed, a.done, b.done);
    StampsSplit(c.pushed, a.done, b.done, c.done + if split then 1 else 0);
  }

  lemma MarkedNone<A, R>(before: Ledger<A, R>, after: Ledger<A, R>)
    requires Call(before, after) && after.done == before.done
    ensures Marked(before, after, false, [])
  {
  }

  // One turn of `queue`: the entry it finished or split, if any, and its watermark.
  ghost predicate Turned<A, R>(before: Ledger<A, R>, after: Ledger<A, R>, turn: Turn, marks: seq<A>) {
    && Marked(before, after, turn.Splitting?, marks)
    && if turn.Next? || turn.Committing? then Finished(before, after, turn.Committing?) else after.done == before.done
  }

  function Mark<A, R>(entry: Entry<A, R>): seq<A> { if entry.buffer.Some? then [entry.aux] else [] }

  lemma TurnedParts<A, R>(before: Ledger<A, R>, after: Ledger<A, R>, turn: Turn, marks: seq<A>)
    requires Turned(before, after, turn, marks)
    ensures Marked(before, after, turn.Splitting?, marks)
    ensures if turn.Next? || turn.Committing? then Finished(before, after, turn.Committing?)
            else after.done == before.done
  {
  }

  lemma TurnedEmpty<A, R>(before: Ledger<A, R>, after: Ledger<A, R>)
    requires Call(before, after) && after.done == before.done
    ensures Turned(before, after, Empty, [])
  {
  }

  lemma TurnedWith<A, R>(before: Ledger<A, R>, locked: Ledger<A, R>, after: Ledger<A, R>, entry: Entry<A, R>,
                         turn: Turn)
    requires before.done == locked.done && InFront(locked, entry) && locked.pushed <= after.pushed && !turn.Empty?
    requires after.done == before.done + if turn.Splitting? then 0 else 1
    requires turn.Next? || turn.Committing? ==> turn.Committing? == entry.commit
    ensures Turned(before, after, turn, Mark(entry))
  {
    var es, d := after.pushed, before.done;
    assert es[d] == locked.pushed[d];
    assert Stamps(es, d, d) == [] && Stamps(es, d, d + 1) == [] + Mark(entry) == Mark(entry);
  }

  // Every entry with a buffer that was finished was begun before n records were flushed.
  ghost predicate Needed<A, R>(before: Ledger<A, R>, after: Ledger<A, R>, n: nat) {
    && after.done <= |after.pushed|
    && forall i :: before.done <= i < after.done && after.pushed[i].buffer.Some? ==>
         Count(after.pushed, i) < |before.flushed| + n
  }

  // At most the next entry is finished in between, and no record of a later one is flushed before.
  ghost predicate OneMore<A, R>(before: Ledger<A, R>, after: Ledger<A, R>) {
    && before.pushed <= after.pushed && before.done <= after.done <= before.done + 1
    && after.done <= |after.pushed| && before.done <= |before.pushed|
    && Count(after.pushed, before.done) <= |before.flushed|
  }

  lemma GoodOneMore<A, R>(before: Ledger<A, R>, after: Ledger<A, R>)
    requires Good(before) && Call(before, after) && after.done <= before.done + 1
    ensures OneMore(before, after)
  {
    CountOfPrefix(before.pushed, after.pushed, before.done);
  }

  lemma NeededMore<A, R>(a: Ledger<A, R>, b: Ledger<A, R>, c: Ledger<A, R>, n: nat)
    requires Needed(a, b, n) && OneMore(b, c) && |b.flushed| < |a.flushed| + n
    ensures Needed(a, c, n)
  {
    forall i | a.done <= i < c.done && c.pushed[i].buffer.Some? ensures Count(c.pushed, i) < |a.flushed| + n {
      if i < b.done { CountOfPrefix(b.pushed, c.pushed, i); }
    }
  }

  // One turn of the flusher: one whole entry of the given size, with its auxiliary data, or none
  // because there is none.
  ghost predicate Took<A, R>(before: Ledger<A, R>, after: Ledger<A, R>, aux: Option<A>, size: nat) {
    && OneMore(before, after) && |after.flushed| == |before.flushed| + size
    && Consumed(before, after, if aux.Some? then [aux.value] else [])
    && (aux.None? ==> after.done == |after.pushed|)
  }

  lemma TookNone<A, R>(before: Ledger<A, R>, after: Ledger<A, R>)
    requires Good(before) && Call(before, after) && after.done == before.done && after.flushed == before.flushed
    requires Consumed(before, after, []) && after.done == |after.pushed|
    ensures Took(before, after, None, 0)
  {
    GoodOneMore(before, after);
  }

  lemma TookOne<A, R>(before: Ledger<A, R>, locked: Ledger<A, R>, after: Ledger<A, R>, entry: Entry<A, R>, size: nat)
    requires Good(before) && Call(before, after) && InFront(locked, entry) && before.done == locked.done
    requires after.pushed == locked.pushed && after.done == locked.done + 1 && !after.begun
    requires locked.flushed == before.flushed && |after.flushed| == |locked.flushed| + size
    ensures Took(before, after, Some(entry.aux), size)
  {
    GoodOneMore(before, after);
  }

  // The hasher was given the records flushed, in their order.
  ghost predicate Hashed<A, R>(before: Ledger<A, R>, after: Ledger<A, R>, hashed: seq<R>) {
    after.flushed == before.flushed + hashed
  }

  lemma HashedNone<A, R>(before: Ledger<A, R>, after: Ledger<A, R>)
    requires after.flushed == before.flushed
    ensures Hashed(before, after, [])
  {
  }

  lemma HashedSince<A, R>(before: Ledger<A, R>, locked: Ledger<A, R>, after: Ledger<A, R>, hashed: seq<R>)
    requires locked.flushed == before.flushed && Hashed(locked, after, hashed)
    ensures Hashed(before, after, hashed)
  {
  }

  lemma HashedMore<A, R>(a: Ledger<A, R>, b: Ledger<A, R>, c: Ledger<A, R>, hashed: seq<R>, more: seq<R>)
    requires Hashed(a, b, hashed) && Hashed(b, c, more)
    ensures Hashed(a, c, hashed + more)
  {
    Associative(a.flushed, hashed, more);
  }

  // What the first loop knows: the auxiliary data so far, whether to stop, and that every entry
  // with a buffer was needed.
  ghost predicate Batched<A, R>(before: Ledger<A, R>, after: Ledger<A, R>, consumed: seq<A>, stopAt: A -> bool,
                                stop: bool, n: nat, records: nat)
  {
    && Consumed(before, after, consumed) && Stopped(stopAt, consumed, stop)
    && Needed(before, after, n) && |after.flushed| == |before.flushed| + records
  }

  lemma BatchedNone<A, R>(l: Ledger<A, R>, stopAt: A -> bool, n: nat)
    requires Good(l)
    ensures Batched(l, l, [], stopAt, false, n, 0)
  {
  }

  lemma BatchedMore<A, R>(a: Ledger<A, R>, b: Ledger<A, R>, c: Ledger<A, R>, consumed: seq<A>, stopAt: A -> bool,
                          n: nat, records: nat, aux: Option<A>, size: nat)
    requires Batched(a, b, consumed, stopAt, false, n, records) && records < n
    requires Call(b, c) && Took(b, c, aux, size)
    ensures aux.None? ==> Batched(a, c, consumed, stopAt, false, n, records + size) && c.done == |c.pushed|
    ensures aux.Some? ==> Batched(a, c, consumed + [aux.value], stopAt, stopAt(aux.value), n, records + size)
  {
    NeededMore(a, b, c, n);
    if aux.Some? {
      ConsumedMore(a, b, c, consumed, [aux.value]);
      StoppedMore(stopAt, consumed, aux.value);
    } else {
      ConsumedMore(a, b, c, consumed, []);
      assert consumed + [] == consumed;
    }
  }

  // No entry finished in between has a buffer.
  ghost predicate Bufferless<A, R>(before: Ledger<A, R>, after: Ledger<A, R>) {
    && before.pushed <= after.pushed && before.done <= after.done <= |after.pushed|
    && forall i :: before.done <= i < after.done ==> after.pushed[i].buffer.None?
  }

  lemma BufferlessNone<A, R>(a: Ledger<A, R>, b: Ledger<A, R>)
    requires Call(a, b) && a.done == b.done
    ensures Bufferless(a, b)
  {
  }

  lemma BufferlessMore<A, R>(a: Ledger<A, R>, b: Ledger<A, R>, c: Ledger<A, R>)
    requires Bufferless(a, b) && Bufferless(b, c)
    ensures Bufferless(a, c)
  {
    assert c.pushed[..|b.pushed|] == b.pushed;
    assert forall i :: a.done <= i < b.done ==> c.pushed[i] == b.pushed[i];
  }

  // Of the entries from a up to b, and of those from b up to c, which have no buffers, at most the
  // last one commits a transaction.
  ghost predicate Loops<A, R>(es: seq<Entry<A, R>>, a: nat, b: nat, c: nat) {
    && a <= b <= c <= |es| && (forall i :: a <= i < c - 1 && i != b - 1 ==> !CommitsAt(es, i))
    && forall i :: b <= i < c ==> es[i].buffer.None?
  }

  lemma LoopsOf<A, R>(b: Ledger<A, R>, c: Ledger<A, R>, a: nat, committed: bool, ended: bool)
    requires LastCommits(b.pushed, a, b.done, committed) && LastCommits(c.pushed, b.done, c.done, ended)
    requires Bufferless(b, c)
    ensures LastCommits(c.pushed, a, b.done, committed) && Loops(c.pushed, a, b.done, c.done)
  {
    LastCommitsGrow(b.pushed, c.pushed, a, b.done, committed);
    hide CommitsAt;
  }

  lemma NeededThenBufferless<A, R>(a: Ledger<A, R>, b: Ledger<A, R>, c: Ledger<A, R>, n: nat)
    requires Needed(a, b, n) && Bufferless(b, c)
    ensures Needed(a, c, n)
  {
    forall i | a.done <= i < c.done && c.pushed[i].buffer.Some? ensures Count(c.pushed, i) < |a.flushed| + n {
      CountOfPrefix(b.pushed, c.pushed, i);
    }
  }

  ghost predicate Stops<A>(stopAt: A -> bool, consumed: seq<A>) { |consumed| > 0 && stopAt(consumed[|consumed| - 1]) }

  // Nothing but possibly the last satisfies stopAt, and `stop` says whether that does.
  ghost predicate Stopped<A>(stopAt: A -> bool, consumed: seq<A>, stop: bool) {
    && (forall i :: 0 <= i < |consumed| - 1 ==> !stopAt(consumed[i]))
    && stop == Stops(stopAt, consumed)
  }

  lemma GrownConsumed<A, R>(before: Ledger<A, R>, after: Ledger<A, R>, more: seq<Entry<A, R>>)
    requires Good(before) && Grown(before, after, more)
    ensures Consumed(before, after, [])
  {
  }

  lemma ConsumedMore<A, R>(a: Ledger<A, R>, b: Ledger<A, R>, c: Ledger<A, R>, first: seq<A>, more: seq<A>)
    requires Consumed(a, b, first) && Call(b, c) && Consumed(b, c, more)
    ensures Consumed(a, c, first + more)
  {
    forall i | 0 <= i < |first| + |more| ensures (first + more)[i] == c.pushed[a.done + i].aux {
      if i < |first| {
        assert c.pushed[a.done + i] == b.pushed[a.done + i];
      } else {
        assert more[i - |first|] == c.pushed[b.done + (i - |first|)].aux;
      }
    }
  }

  lemma StoppedMore<A>(stopAt: A -> bool, consumed: seq<A>, aux: A)
    requires Stopped(stopAt, consumed, false)
    ensures Stopped(stopAt, consumed + [aux], stopAt(aux))
  {
  }

  lemma StoppedAppend<A>(stopAt: A -> bool, consumed: seq<A>, stop: bool, more: seq<A>, stopped: bool)
    requires Stopped(stopAt, consumed, stop) && Stopped(stopAt, more, stopped) && (stop ==> |more| == 0)
    ensures Stopped(stopAt, consumed + more, stop || stopped) && (stop || stopped) == Stops(stopAt, consumed + more)
  {
    if |more| == 0 { assert consumed + more == consumed; }
  }
}

/** The queue between the producers, which parse input, and the one thread that flushes it to the circuit. */
module InputQueue {
  import opened Options
  import opened QueueCalls
  import opened QueueLedger

  // What buffers promise of `take_some`: the first n records, or all of them if there are fewer;
  // a buffer that is not exact may give more. The rest stays, and no byte is gained or lost.
  method TakeSome<R>(buffer: Buffer<R>, n: nat, exact: bool) returns (taken: Buffer<R>, left: Buffer<R>)
    ensures taken.records + left.records == buffer.records
    ensures taken.bytes + left.bytes == buffer.bytes
    ensures |taken.records| >= n || left.records == []
    ensures exact ==> |taken.records| <= n
  {
    var least := if n <= |buffer.records| then n else |buffer.records|;
    var k :| least <= k <= |buffer.records| && (exact ==> k == least);
    var b :| 0 <= b <= buffer.bytes;
    taken, left := Buffer(buffer.records[..k], b), Buffer(buffer.records[k..], buffer.bytes - b);
  }

  /**
    * The flusher is the only one to take entries from the queue. Producers push while it does not
    * hold the lock: in a call of the flusher, `pushes[i]` is what they push, in the order they take
    * the lock, before the flusher takes it for the i-th time.
    */
  class InputQueue<A, R> {
    var queue: seq<Entry<A, R>>
    var inTransaction: bool

    // The consumer: the records in the circuit, the sizes it was told of, and the transactions.
    var circuit: seq<R>
    var buffered: Size
    var flushedSize: Size
    var calls: seq<Event>
    var stepRequests: nat

    // The entry the flusher works on, and the account of everything so far.
    ghost var hand: seq<Entry<A, R>>
    ghost var account: Ledger<A, R>

    ghost predicate Valid()
      reads this
    {
      && |hand| <= 1 && Good(account) && account.rest == hand + queue
      && account.flushed == circuit && account.reported == buffered && account.flushedSize == flushedSize
      && account.told.log == calls && account.told.open == inTransaction
    }

    constructor ()
      ensures Valid()
      ensures |hand| == |queue| == |circuit| == |calls| == |account.pushed| == 0
    {
      ghost var empty: Ledger<A, R> := NewLedger();
      hide Good;
      queue, inTransaction := [], false;
      circuit, buffered, flushedSize, calls, stepRequests := [], Size(0, 0), Size(0, 0), [], 0;
      hand, account := [], empty;
    }

    // A producer pushes an entry and, still under the lock, reports its size.
    method PushEntry(entry: Entry<A, R>)
      requires Valid()
      modifies this`queue, this`buffered, this`account, this`stepRequests
      ensures Valid() && account == Push(old(account), entry)
      ensures queue == old(queue) + [entry]
      ensures stepRequests == old(stepRequests) + if SizeOf(entry).records == 0 then 1 else 0
    {
      hide Good;
      PushGood(account, entry);
      queue := queue + [entry];
      buffered := Add(buffered, SizeOf(entry));
      account := Push(account, entry);
      assert hand + queue == old(hand + queue) + [entry];
      // without records the controller may never take another step, so it is asked to
      if SizeOf(entry).records == 0 { stepRequests := stepRequests + 1; }
    }

    // The flusher takes the lock, after the producers that came first.
    method Lock(pushes: seq<seq<Entry<A, R>>>) returns (later: seq<seq<Entry<A, R>>>)
      requires Valid()
      modifies this`queue, this`buffered, this`account, this`stepRequests
      ensures Valid() && queue == old(queue) + Head(pushes) && later == Tail(pushes)
      ensures Grown(old(account), account, Head(pushes)) && Quiet(old(account), account)
    {
      hide Good, Quiet;
      later := Tail(pushes);
      if |pushes| > 0 {
        var first := pushes[0];
        for i := 0 to |first|
          invariant Valid() && queue == old(queue) + first[..i]
          invariant Grown(old(account), account, first[..i])
        {
          PushEntry(first[i]);
          assert first[..i + 1] == first[..i] + [first[i]];
        }
        assert first[..|first|] == first;
      }
      GrownQuiet(old(account), account, Head(pushes));
    }

    method PopFront() returns (front: Option<Entry<A, R>>)
      requires Valid() && hand == []
      modifies this`queue, this`hand
      ensures Valid() && account == old(account)
      ensures old(queue) == [] ==> front == None && hand == queue == []
      ensures old(queue) != [] ==> front == Some(old(queue)[0]) && hand == [old(queue)[0]] && queue == old(queue)[1..]
    {
      hide Good;
      if |queue| == 0 { return None; }
      front := Some(queue[0]);
      hand, queue := [queue[0]], queue[1..];
      assert hand + queue == old(hand + queue);
    }

    method StartTransaction(tag: Label) returns (started: bool)
      modifies this`inTransaction, this`calls
      ensures started == old(!inTransaction) && inTransaction
      ensures calls == if started then old(calls) + [Started(tag, |circuit|)] else old(calls)
    {
      started := !inTransaction;
      if started {
        inTransaction := true;
        calls := calls + [Started(tag, |circuit|)];
      }
    }

    method CommitTransaction() returns (committed: bool)
      modifies this`inTransaction, this`calls
      ensures committed == old(inTransaction) && !inTransaction
      ensures calls == if committed then old(calls) + [Committed(|circuit|)] else old(calls)
    {
      committed := inTransaction;
      if committed {
        inTransaction := false;
        calls := calls + [Committed(|circuit|)];
      }
    }

    // The entry in hand starts the transaction it asks for.
    method BeginEntry(start: Option<Label>)
      requires Valid() && |hand| == 1 && hand[0].start == start
      modifies this`inTransaction, this`calls, this`hand, this`account
      ensures Valid() && account == Start(old(account)) && Quiet(old(account), account)
      ensures |hand| == 1 && hand[0] == old(hand[0]).(start := None)
    {
      hide Good, Quiet;
      StartQuiet(account);
      StartGood(account);
      account := Start(account);
      if start.Some? {
        var _ := StartTransaction(start.value);
      }
      hand := [hand[0].(start := None)];
      assert hand + queue == [hand[0]] + old(hand + queue)[1..];
    }

    // Records of the entry in hand go to the circuit.
    method FlushBuffer(taken: Buffer<R>, left: Buffer<R>)
      requires Valid() && |hand| == 1 && account.begun && hand[0].buffer.Some?
      requires hand[0].buffer.value == Buffer(taken.records + left.records, taken.bytes + left.bytes)
      modifies this`circuit, this`flushedSize, this`hand, this`account
      ensures Valid() && account == Flush(old(account), |taken.records|, taken.bytes)
      ensures |hand| == 1 && hand[0] == old(hand[0]).(buffer := Some(left))
      ensures circuit == old(circuit) + taken.records && Quiet(old(account), account)
    {
      hide Good, Quiet;
      FlushQuiet(account, |taken.records|, taken.bytes);
      FlushGood(account, |taken.records|, taken.bytes);
      account := Flush(account, |taken.records|, taken.bytes);
      ghost var all := taken.records + left.records;
      assert all[..|taken.records|] == taken.records && all[|taken.records|..] == left.records;
      circuit := circuit + taken.records;
      flushedSize := Add(flushedSize, taken.Len());
      hand := [hand[0].(buffer := Some(left))];
      assert hand + queue == [hand[0]] + old(hand + queue)[1..];
    }

    // The entry in hand commits the transaction if it asks for it, and is finished.
    method FinishEntry(commit: bool) returns (committed: bool)
      requires Valid() && |hand| == 1 && account.begun && hand[0].commit == commit && SizeOf(hand[0]) == Size(0, 0)
      modifies this`inTransaction, this`calls, this`hand, this`account
      ensures Valid() && account == Finish(old(account)) && |hand| == 0
      ensures committed == (commit && old(inTransaction))
      ensures Call(old(account), account)
              && (if committed then Commits(old(account), account) else Quiet(old(account), account))
    {
      hide Good, Call, Quiet, Commits;
      FinishCall(account);
      FinishGood(account);
      account := Finish(account);
      committed := false;
      if commit {
        committed := CommitTransaction();
      }
      assert (hand + queue)[1..] == [] + queue;
      hand := [];
    }

    // What is left of the entry in hand goes back to the front of the queue.
    method PutBack(entry: Entry<A, R>, pushes: seq<seq<Entry<A, R>>>) returns (later: seq<seq<Entry<A, R>>>)
      requires Valid() && hand == [entry]
      modifies this`queue, this`buffered, this`account, this`hand, this`stepRequests
      ensures Valid() && |hand| == 0 && queue == [entry] + (old(queue) + Head(pushes)) && later == Tail(pushes)
      ensures Grown(old(account), account, Head(pushes)) && Quiet(old(account), account)
    {
      hide Good, Quiet;
      later := Lock(pushes);
      assert hand + queue == [] + ([entry] + queue);
      queue := [entry] + queue;
      hand := [];
    }

    // Begins the entry in hand and flushes what its buffer gives of n records; `left` is what it keeps.
    method ServeSome(entry: Entry<A, R>, n: nat, exact: bool) returns (left: Option<Buffer<R>>, size: Size)
      requires Valid() && hand == [entry]
      modifies this`inTransaction, this`calls, this`hand, this`account, this`circuit, this`flushedSize
      ensures Valid() && |hand| == 1 && hand[0] == Entry(left, None, entry.commit, entry.aux)
      ensures account.begun && account.done == old(account.done) && account.pushed == old(account.pushed)
      ensures flushedSize == Add(old(flushedSize), size) && (exact ==> size.records <= n)
      ensures left.Some? ==> size.records >= n || |left.value.records| == 0
      ensures Quiet(old(account), account)
    {
      hide Good, Quiet;
      BeginEntry(entry.start);
      left, size := None, Size(0, 0);
      if entry.buffer.Some? {
        var taken, rest := TakeSome(entry.buffer.value, n, exact);
        ghost var begun := account;
        FlushBuffer(taken, rest);
        QuietTransitive(old(account), begun, account);
        left, size := Some(rest), taken.Len();
      }
    }

    // The flusher takes the lock and the first entry.
    method TakeFront(pushes: seq<seq<Entry<A, R>>>) returns (front: Option<Entry<A, R>>, later: seq<seq<Entry<A, R>>>)
      requires Valid() && |hand| == 0
      modifies this`queue, this`buffered, this`account, this`stepRequests, this`hand
      ensures Valid() && Quiet(old(account), account) && account.done == old(account.done)
      ensures account.flushed == old(account.flushed)
      ensures front.None? ==> |hand| == |queue| == 0 && account.done == |account.pushed|
      ensures front.None? ==> Consumed(old(account), account, [])
      ensures front.Some? ==> hand == [front.value] && InFront(account, front.value)
      ensures |queue| + |hand| + Coming(later) == old(|queue|) + Coming(pushes)
    {
      hide Good, Quiet, Coming;
      ComingStep(pushes);
      later := Lock(pushes);
      GrownConsumed(old(account), account, Head(pushes));
      front := PopFront();
      if front.Some? { FrontOf(account); } else { AllFinished(account); }
    }

    // One turn of the loop below, with n > 0 records to go.
    method QueueTurn(n: nat, pushes: seq<seq<Entry<A, R>>>, exact: bool)
      returns (turn: Turn, size: Size, marks: seq<A>, later: seq<seq<Entry<A, R>>>)
      requires Valid() && |hand| == 0 && n > 0
      modifies this
      ensures Valid() && |hand| == 0 && flushedSize == Add(old(flushedSize), size) && (exact ==> size.records <= n)
      ensures Call(old(account), account) && (!turn.Committing? ==> Quiet(old(account), account))
      ensures turn.Splitting? ==> account.begun && |queue| > 0 && (size.records >= n || |Records(queue[0])| == 0)
      ensures Turned(old(account), account, turn, marks)
      ensures turn.Empty? ==> |queue| == 0
      ensures turn.Next? ==> |queue| + Coming(later) < old(|queue|) + Coming(pushes)
    {
      hide Good, Valid, Quiet, Call, Coming, Turned, Mark;
      var front;
      front, later := TakeFront(pushes);
      QuietCall(old(account), account);
      if front.None? {
        TurnedEmpty(old(account), account);
        return Empty, Size(0, 0), [], later;
      }
      var entry := front.value;
      marks := Mark(entry);
      ghost var locked := account;
      var left;
      left, size := ServeSome(entry, n, exact);
      QuietTransitive(old(account), locked, account);
      ghost var served := account;
      if left.Some? && !left.value.IsEmpty() {
        later := PutBack(Entry(left, None, entry.commit, entry.aux), later);
        QuietTransitive(old(account), served, account);
        QuietCall(old(account), account);
        TurnedWith(old(account), locked, account, entry, Splitting);
        return Splitting, size, marks, later;
      }
      turn := if entry.commit then Committing else Next;
      var _ := FinishEntry(entry.commit);
      CallAfterQuiet(old(account), served, account);
      TurnedWith(old(account), locked, account, entry, turn);
    }

    // Flushes entries until n records are flushed, an entry is split, or one asks for a commit.
    // Returns the size flushed, the watermarks, and whether an entry was put back.
    method Queue(n: nat, pushes: seq<seq<Entry<A, R>>>, exact: bool) returns (total: Size, marks: seq<A>, split: bool)
      requires Valid() && |hand| == 0
      modifies this
      ensures Valid() && |hand| == 0
      ensures flushedSize == Add(old(flushedSize), total) && (exact ==> total.records <= n)
      ensures Call(old(account), account) && Marked(old(account), account, split, marks) && (split ==> account.begun)
      ensures Plain(account, old(account.done), account.done - 1)
      ensures || total.records >= n || |queue| == 0 || (account.begun && |Records(queue[0])| == 0)
              || !Plain(account, old(account.done), account.done)
    {
      assert Good(account);
      hide *;
      QuietRefl(account);
      PlainEmpty(account);
      QuietCall(account, account);
      MarkedNone(account, account);
      total, marks, split := Size(0, 0), [], false;
      var later := pushes;
      while total.records < n
        invariant Valid() && |hand| == 0
        invariant flushedSize == Add(old(flushedSize), total) && (exact ==> total.records <= n)
        invariant Quiet(old(account), account) && !split && Marked(old(account), account, split, marks)
        invariant Plain(account, old(account.done), account.done) && Plain(account, old(account.done), account.done - 1)
        decreases |queue| + Coming(later)
      {
        ghost var turned := account;
        var turn, size, more;
        turn, size, more, later := QueueTurn(n - total.records, later, exact);
        TurnedParts(turned, account, turn, more);
        MarkedMore(old(account), turned, account, marks, more, turn.Splitting?);
        marks, split := marks + more, turn.Splitting?;
        AddAssociative(old(flushedSize), total, size);
        total := Add(total, size);
        CallAfterQuiet(old(account), turned, account);
        PlainStep(old(account), turned, account, turn.Committing?);
        if turn.Committing? { return; }
        if !turn.Next? { return; }
        QuietTransitive(old(account), turned, account);
      }
      QuietCall(old(account), account);
    }

    // Flushes the whole entry in hand and finishes it.
    method ConsumeEntry(entry: Entry<A, R>) returns (size: Size, committed: bool)
      requires Valid() && hand == [entry]
      modifies this`inTransaction, this`calls, this`hand, this`account, this`circuit, this`flushedSize
      ensures Valid() && |hand| == 0 && flushedSize == Add(old(flushedSize), size) && size == SizeOf(entry)
      ensures Call(old(account), account)
              && (if committed then Commits(old(account), account) else Quiet(old(account), account))
      ensures account.pushed == old(account.pushed) && account.done == old(account.done) + 1 && !account.begun
      ensures OneCommits(old(account), account, true, committed)
      ensures |account.flushed| == |old(account.flushed)| + size.records
      ensures Hashed(old(account), account, Records(entry))
      ensures entry.buffer.None? ==> account.flushed == old(account.flushed)
    {
      hide Good, Quiet, Call, Commits, CommitsAt;
      BeginEntry(entry.start);
      ghost var begun := account;
      size := SizeOf(entry);
      assert account.flushed + [] == account.flushed;
      if entry.buffer.Some? {
        assert entry.buffer.value.records + [] == entry.buffer.value.records;
        FlushBuffer(entry.buffer.value, Buffer([], 0));
        QuietTransitive(old(account), begun, account);
      }
      ghost var served := account;
      CommitDecided(served);
      committed := FinishEntry(entry.commit);
      CallAfterQuiet(old(account), served, account);
    }

    // Consumes the entry in hand, after a lock that changed the account from `before` to this.
    method FlushFront(entry: Entry<A, R>, ghost before: Ledger<A, R>)
      returns (size: Size, hashed: seq<R>, committed: bool)
      requires Valid() && hand == [entry] && InFront(account, entry) && Good(before) && Quiet(before, account)
      requires account.done == before.done && account.flushed == before.flushed
      modifies this
      ensures Valid() && |hand| == 0 && flushedSize == Add(old(flushedSize), size) && queue == old(queue)
      ensures Call(before, account) && (if committed then Commits(before, account) else Quiet(before, account))
      ensures Took(before, account, Some(entry.aux), size.records) && Hashed(before, account, hashed)
      ensures OneCommits(before, account, true, committed)
    {
      hide Good, Valid, Quiet, Call, Commits, Took, Hashed, Records, CommitsAt;
      ghost var locked := account;
      hashed := Records(entry);
      size, committed := ConsumeEntry(entry);
      CallAfterQuiet(before, locked, account);
      TookOne(before, locked, account, entry, size.records);
      HashedSince(before, locked, account, hashed);
    }

    // One turn of the first loop below; no auxiliary data if the queue is empty.
    method FlushTurn(pushes: seq<seq<Entry<A, R>>>)
      returns (aux: Option<A>, size: Size, hashed: seq<R>, committed: bool, later: seq<seq<Entry<A, R>>>)
      requires Valid() && |hand| == 0
      modifies this
      ensures Valid() && |hand| == 0 && flushedSize == Add(old(flushedSize), size)
      ensures Call(old(account), account)
              && (if committed then Commits(old(account), account) else Quiet(old(account), account))
      ensures Took(old(account), account, aux, size.records) && (aux.None? ==> !committed)
      ensures Hashed(old(account), account, hashed) && OneCommits(old(account), account, aux.Some?, committed)
      ensures aux.Some? ==> |queue| + Coming(later) < old(|queue|) + Coming(pushes)
    {
      assert Good(account);
      hide *;
      var front;
      front, later := TakeFront(pushes);
      QuietCall(old(account), account);
      if front.None? {
        TookNone(old(account), account);
        HashedNone(old(account), account);
        NoneCommits(old(account), account);
        return None, Size(0, 0), [], false, later;
      }
      size, hashed, committed := FlushFront(front.value, old(account));
      aux := Some(front.value.aux);
    }

    // Flushes whole entries until n records are flushed, an entry with auxiliary data that
    // satisfies stopAt is flushed, or a transaction is committed.
    method FlushBatch(n: nat, stopAt: A -> bool, pushes: seq<seq<Entry<A, R>>>)
      returns (total: Size, hashed: seq<R>, consumed: seq<A>, stop: bool, committed: bool,
               later: seq<seq<Entry<A, R>>>)
      requires Valid() && |hand| == 0
      modifies this
      ensures Valid() && |hand| == 0 && flushedSize == Add(old(flushedSize), total)
      ensures Hashed(old(account), account, hashed)
      ensures Call(old(account), account) && (committed ==> Commits(old(account), account))
      ensures Batched(old(account), account, consumed, stopAt, stop, n, total.records)
      ensures stop || committed || total.records >= n || account.done >= |old(account.pushed)|
      ensures LastCommits(account.pushed, old(account.done), account.done, committed)
    {
      QuietRefl(account);
      HashedNone(account, account);
      LastCommitsNone(account.pushed, account.done);
      BatchedNone(account, stopAt, n);
      hide *;
      total, hashed, consumed, stop, committed, later := Size(0, 0), [], [], false, false, pushes;
      while !stop && total.records < n
        invariant Valid() && |hand| == 0 && flushedSize == Add(old(flushedSize), total)
        invariant !committed && Quiet(old(account), account) && Hashed(old(account), account, hashed)
        invariant LastCommits(account.pushed, old(account.done), account.done, false)
        invariant Batched(old(account), account, consumed, stopAt, stop, n, total.records)
        decreases |queue| + Coming(later)
      {
        ghost var turned := account;
        var aux, size, more;
        aux, size, more, committed, later := FlushTurn(later);
        HashedMore(old(account), turned, account, hashed, more);
        hashed := hashed + more;
        BatchedMore(old(account), turned, account, consumed, stopAt, n, total.records, aux, size.records);
        AddAssociative(old(flushedSize), total, size);
        total := Add(total, size);
        OneCommitsMore(old(account.done), turned, account, aux.Some?, committed);
        CallAfterQuiet(old(account), turned, account);
        CallGrows(old(account), account);
        if aux.None? { return; }
        stop := stopAt(aux.value);
        consumed := consumed + [aux.value];
        if committed { return; }
      }
      QuietCall(old(account), account);
    }

    // One turn of the second loop below.
    method BufferlessTurn() returns (aux: A, committed: bool)
      requires Valid() && |hand| == 0 && |queue| > 0 && queue[0].buffer.None?
      modifies this
      ensures Valid() && |hand| == 0 && flushedSize == old(flushedSize) && account.flushed == old(account.flushed)
      ensures |queue| == old(|queue|) - 1
      ensures Call(old(account), account) && (committed ==> Commits(old(account), account))
      ensures Consumed(old(account), account, [aux]) && Bufferless(old(account), account)
      ensures OneCommits(old(account), account, true, committed)
    {
      hide Good, Quiet, Call, Commits, CommitsAt;
      var front := PopFront();
      FrontOf(account);
      var size;
      size, committed := ConsumeEntry(front.value);
      aux := front.value.aux;
    }

    // Handles entries that have no buffer, unless `stop`, until auxiliary data satisfies stopAt or
    // a transaction is committed.
    method HandleBufferless(stopAt: A -> bool, stop: bool, pushes: seq<seq<Entry<A, R>>>)
      returns (consumed: seq<A>, stopped: bool, committed: bool)
      requires Valid() && |hand| == 0
      modifies this
      ensures Valid() && |hand| == 0 && flushedSize == old(flushedSize) && account.flushed == old(account.flushed)
      ensures Call(old(account), account) && (committed ==> Commits(old(account), account))
      ensures Consumed(old(account), account, consumed) && Stopped(stopAt, consumed, stopped)
              && (stop ==> |consumed| == 0)
      ensures Bufferless(old(account), account)
      ensures stop || stopped || committed || |queue| == 0 || queue[0].buffer.Some?
      ensures LastCommits(account.pushed, old(account.done), account.done, committed)
    {
      consumed, stopped, committed := [], false, false;
      assert Stopped(stopAt, consumed, stopped);
      var _ := Lock(pushes);
      GrownConsumed(old(account), account, Head(pushes));
      LastCommitsNone(account.pushed, account.done);
      hide *;
      QuietCall(old(account), account);
      BufferlessNone(old(account), account);
      while !stop && !stopped && |queue| > 0 && queue[0].buffer.None?
        invariant Valid() && |hand| == 0 && flushedSize == old(flushedSize) && account.flushed == old(account.flushed)
        invariant Call(old(account), account) && Bufferless(old(account), account) && !committed
        invariant LastCommits(account.pushed, old(account.done), account.done, false)
        invariant Consumed(old(account), account, consumed) && Stopped(stopAt, consumed, stopped)
                  && (stop ==> |consumed| == 0)
        decreases |queue|
      {
        ghost var turned := account;
        var aux;
        aux, committed := BufferlessTurn();
        OneCommitsMore(old(account.done), turned, account, true, committed);
        CallFlushingNothing(old(account), turned, account);
        BufferlessMore(old(account), turned, account);
        ConsumedMore(old(account), turned, account, consumed, [aux]);
        StoppedMore(stopAt, consumed, aux);
        stopped := stopAt(aux);
        consumed := consumed + [aux];
        if committed { return; }
      }
    }

    // Returns what the hasher was given, and the auxiliary data of the entries handled, all of
    // them whole. The entries from `batch` on are those of the second loop; each loop ends with an
    // entry that commits.
    method FlushWithAuxUntil(n: nat, stopAt: A -> bool, pushes: seq<seq<Entry<A, R>>>)
      returns (total: Size, hashed: seq<R>, consumed: seq<A>, ghost batch: nat)
      requires Valid() && |hand| == 0
      modifies this
      ensures Valid() && |hand| == 0
      ensures flushedSize == Add(old(flushedSize), total) && Call(old(account), account)
      ensures Hashed(old(account), account, hashed)
      ensures Consumed(old(account), account, consumed) && Needed(old(account), account, n)
      ensures Stopped(stopAt, consumed, Stops(stopAt, consumed))
      ensures || Stops(stopAt, consumed) || Commits(old(account), account)
              || ((total.records >= n || account.done >= |old(account.pushed)|)
                 && (|queue| == 0 || queue[0].buffer.Some?))
      ensures Loops(account.pushed, old(account.done), batch, account.done)
      ensures Stops(stopAt, consumed) || total.records >= n || batch >= |old(account.pushed)|
              || (old(account.done) < batch && CommitsAt(account.pushed, batch - 1))
      ensures Stops(stopAt, consumed) || |queue| == 0 || queue[0].buffer.Some?
              || (batch < account.done && CommitsAt(account.pushed, account.done - 1))
    {
      hide Good, Quiet, Call, Commits, Consumed, Stopped, Needed, Bufferless, CommitsAt;
      var stop, committed, later;
      total, hashed, consumed, stop, committed, later := FlushBatch(n, stopAt, pushes);
      assert Batched(old(account), account, consumed, stopAt, stop, n, total.records);
      ghost var flushed := account;
      batch := account.done;
      var more, stopped, ended := HandleBufferless(stopAt, stop, later);
      LoopsOf(flushed, account, old(account.done), committed, ended);
      CallFlushingNothing(old(account), flushed, account);
      CallGrows(flushed, account);
      NeededThenBufferless(old(account), flushed, account, n);
      ConsumedMore(old(account), flushed, account, consumed, more);
      StoppedAppend(stopAt, consumed, stop, more, stopped);
      consumed := consumed + more;
    }
  }
}
