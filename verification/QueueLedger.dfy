/** The account of an input queue: what was pushed, what was flushed, what the consumer was told. */
module QueueLedger {
  import opened Options

  // The size of a buffer; its number of bytes need not be exact.
  datatype Size = Size(records: nat, bytes: nat)

  function Add(a: Size, b: Size): Size { Size(a.records + b.records, a.bytes + b.bytes) }

  lemma AddAssociative(a: Size, b: Size, c: Size)
    ensures Add(Add(a, b), c) == Add(a, Add(b, c)) && Add(a, Size(0, 0)) == a
    ensures Add(b, c).records == b.records + c.records
  {
  }

  datatype Buffer<R> = Buffer(records: seq<R>, bytes: nat)
  {
    function Len(): Size { Size(|records|, bytes) }

    predicate IsEmpty() { Len() == Size(0, 0) }
  }

  // A transaction label; only passed on.
  type Label = nat

  datatype Entry<A, R> = Entry(buffer: Option<Buffer<R>>, start: Option<Label>, commit: bool, aux: A)

  function Records<A, R>(e: Entry<A, R>): seq<R> { if e.buffer.Some? then e.buffer.value.records else [] }

  function SizeOf<A, R>(e: Entry<A, R>): Size { if e.buffer.Some? then e.buffer.value.Len() else Size(0, 0) }

  ghost function AllRecords<A, R>(es: seq<Entry<A, R>>): seq<R> {
    if |es| == 0 then [] else Records(es[0]) + AllRecords(es[1..])
  }

  ghost function TotalSize<A, R>(es: seq<Entry<A, R>>): Size {
    if |es| == 0 then Size(0, 0) else Add(SizeOf(es[0]), TotalSize(es[1..]))
  }

  // How many records the first n entries have.
  ghost function Count<A, R>(es: seq<Entry<A, R>>, n: nat): nat
    requires n <= |es|
  {
    |AllRecords(es[..n])|
  }

  // What the consumer is told about transactions, with the number of records flushed by then.
  datatype Event = Started(tag: Label, at: nat) | Committed(at: nat)

  // ---- The reference: entries handled whole, one after another ----

  datatype Told = Told(log: seq<Event>, open: bool)

  // An entry starts the transaction it asks for, unless one is in progress; `at` records precede it.
  ghost function Begun<A, R>(t: Told, e: Entry<A, R>, at: nat): Told {
    if e.start.Some? && !t.open then Told(t.log + [Started(e.start.value, at)], true) else t
  }

  // It commits the transaction in progress, if it asks for it; `at` records end with its own.
  ghost function Ended<A, R>(t: Told, e: Entry<A, R>, at: nat): Told {
    if e.commit && t.open then Told(t.log + [Committed(at)], false) else t
  }

  ghost function ReplayAll<A, R>(es: seq<Entry<A, R>>): Told
    decreases |es|
  {
    if |es| == 0 then Told([], false)
    else
      var n, e := |es| - 1, es[|es| - 1];
      Ended(Begun(ReplayAll(es[..n]), e, |AllRecords(es[..n])|), e, |AllRecords(es)|)
  }

  // What the consumer was told once the first n entries were handled.
  ghost function Replay<A, R>(es: seq<Entry<A, R>>, n: nat): Told
    requires n <= |es|
  {
    ReplayAll(es[..n])
  }

  // The same, once entry n has started the transaction it asks for and before its records are flushed.
  ghost function Begin<A, R>(es: seq<Entry<A, R>>, n: nat): Told
    requires n < |es|
  {
    Begun(Replay(es, n), es[n], Count(es, n))
  }

  lemma ReplayStep<A, R>(es: seq<Entry<A, R>>, n: nat)
    requires n < |es|
    ensures Replay(es, n + 1) == Ended(Begin(es, n), es[n], Count(es, n + 1))
  {
    assert es[..n + 1][..n] == es[..n];
    hide Begun, Ended, AllRecords;
  }

  lemma CountStep<A, R>(es: seq<Entry<A, R>>, n: nat)
    requires n < |es|
    ensures Count(es, n + 1) == Count(es, n) + |Records(es[n])|
  {
    assert es[..n + 1] == es[..n] + [es[n]];
    SnocRecords(es[..n], es[n]);
  }

  // The log alternates starts and commits, beginning with a start, and `open` says whether a
  // transaction is in progress at its end.
  ghost predicate Alternating(log: seq<Event>, open: bool) {
    if |log| == 0 then !open
    else open == log[|log| - 1].Started? && Alternating(log[..|log| - 1], !open)
  }

  lemma AlternatingSnoc(log: seq<Event>, e: Event)
    requires Alternating(log, !e.Started?)
    ensures Alternating(log + [e], e.Started?)
  {
    assert (log + [e])[..|log|] == log;
  }

  lemma {:induction false} ReplayAlternates<A, R>(es: seq<Entry<A, R>>, n: nat)
    requires n <= |es|
    ensures Alternating(Replay(es, n).log, Replay(es, n).open)
    decreases n, 0
  {
    if n > 0 {
      BeginAlternates(es, n - 1);
      ReplayStep(es, n - 1);
      hide Replay, Begin, Count;
      if Begin(es, n - 1).open { AlternatingSnoc(Begin(es, n - 1).log, Committed(Count(es, n))); }
    }
  }

  lemma {:induction false} BeginAlternates<A, R>(es: seq<Entry<A, R>>, n: nat)
    requires n < |es|
    ensures Alternating(Begin(es, n).log, Begin(es, n).open)
    decreases n, 1
  {
    hide Replay, Count;
    ReplayAlternates(es, n);
    if es[n].start.Some? && !Replay(es, n).open {
      AlternatingSnoc(Replay(es, n).log, Started(es[n].start.value, Count(es, n)));
    }
  }

  // ---- What the entries call for ----

  // A transaction is in progress in front of entry n: some entry before asks for a start, and none
  // from that one on for a commit.
  ghost predicate OpenBefore<A, R>(es: seq<Entry<A, R>>, n: nat)
    requires n <= |es|
  {
    exists j :: 0 <= j < n && es[j].start.Some? && forall k :: j <= k < n ==> !es[k].commit
  }

  // The start that entry i calls for, unless a transaction is in progress, and the commit, if one is.
  ghost function StartDue<A, R>(es: seq<Entry<A, R>>, i: nat): seq<Event>
    requires i < |es|
  {
    if es[i].start.Some? && !OpenBefore(es, i) then [Started(es[i].start.value, Count(es, i))] else []
  }

  ghost predicate CommitsAt<A, R>(es: seq<Entry<A, R>>, i: nat)
    requires i < |es|
  {
    es[i].commit && (es[i].start.Some? || OpenBefore(es, i))
  }

  ghost function CommitDue<A, R>(es: seq<Entry<A, R>>, i: nat): seq<Event>
    requires i < |es|
  {
    if CommitsAt(es, i) then [Committed(Count(es, i + 1))] else []
  }

  // The events that the first n entries call for.
  ghost function Due<A, R>(es: seq<Entry<A, R>>, n: nat): seq<Event>
    requires n <= |es|
  {
    if n == 0 then [] else Due(es, n - 1) + StartDue(es, n - 1) + CommitDue(es, n - 1)
  }

  lemma OpenStep<A, R>(es: seq<Entry<A, R>>, n: nat)
    requires n < |es|
    ensures OpenBefore(es, n + 1) <==> (es[n].start.Some? || OpenBefore(es, n)) && !es[n].commit
  {
    if OpenBefore(es, n) && !es[n].commit {
      var j :| 0 <= j < n && es[j].start.Some? && forall k :: j <= k < n ==> !es[k].commit;
      assert forall k :: j <= k < n + 1 ==> !es[k].commit;
    }
    if es[n].start.Some? && !es[n].commit {
      assert forall k :: n <= k < n + 1 ==> !es[k].commit;
    }
  }

  // What one entry adds to the log.
  lemma EventsOf<A, R>(t: Told, e: Entry<A, R>, at: nat, end: nat)
    ensures var started := if e.start.Some? && !t.open then [Started(e.start.value, at)] else [];
            var committed := if e.commit && (e.start.Some? || t.open) then [Committed(end)] else [];
            && Begun(t, e, at).log == t.log + started && Begun(t, e, at).open == (e.start.Some? || t.open)
            && Ended(Begun(t, e, at), e, end).log == t.log + started + committed
            && Ended(Begun(t, e, at), e, end).open == ((e.start.Some? || t.open) && !e.commit)
  {
  }

  lemma EntryExactly<A, R>(es: seq<Entry<A, R>>, i: nat)
    requires i < |es| && (Replay(es, i).open <==> OpenBefore(es, i))
    ensures Replay(es, i + 1).log == Replay(es, i).log + StartDue(es, i) + CommitDue(es, i)
    ensures Replay(es, i + 1).open <==> OpenBefore(es, i + 1)
  {
    hide Replay, OpenBefore, Count, Begun, Ended;
    ReplayStep(es, i);
    OpenStep(es, i);
    EventsOf(Replay(es, i), es[i], Count(es, i), Count(es, i + 1));
  }

  lemma NothingReplayed<A, R>(es: seq<Entry<A, R>>, n: nat)
    requires n == 0
    ensures |Replay(es, n).log| == |Due(es, n)| == 0 && !Replay(es, n).open && !OpenBefore(es, n)
  {
  }

  // The consumer is told exactly what the entries call for.
  lemma {:induction false} ReplayExactly<A, R>(es: seq<Entry<A, R>>, n: nat)
    requires n <= |es|
    ensures Replay(es, n).log == Due(es, n) && (Replay(es, n).open <==> OpenBefore(es, n))
  {
    if n == 0 {
      NothingReplayed(es, n);
    } else {
      hide Replay, OpenBefore, StartDue, CommitDue;
      ReplayExactly(es, n - 1);
      EntryExactly(es, n - 1);
    }
  }

  lemma BeginExactly<A, R>(es: seq<Entry<A, R>>, n: nat)
    requires n < |es|
    ensures Begin(es, n).log == Due(es, n) + StartDue(es, n)
    ensures Begin(es, n).open <==> es[n].start.Some? || OpenBefore(es, n)
  {
    hide Replay, OpenBefore, Count, Due, Begun;
    ReplayExactly(es, n);
    EventsOf(Replay(es, n), es[n], Count(es, n), 0);
  }

  lemma {:induction false} DueHasAll<A, R>(es: seq<Entry<A, R>>, n: nat, i: nat, e: Event)
    requires i < n <= |es| && (e in StartDue(es, i) || e in CommitDue(es, i))
    ensures e in Due(es, n)
    decreases n
  {
    hide StartDue, CommitDue;
    if i < n - 1 { DueHasAll(es, n - 1, i, e); }
  }

  // So every start and every commit that is due is told.
  lemma DueIsTold<A, R>(es: seq<Entry<A, R>>, n: nat, i: nat, e: Event)
    requires i < n <= |es| && (e in StartDue(es, i) || e in CommitDue(es, i))
    ensures e in Replay(es, n).log
  {
    hide Replay, Due, StartDue, CommitDue;
    DueHasAll(es, n, i, e);
    ReplayExactly(es, n);
  }

  // ---- The account ----

  // `rest` is what is left of `pushed`, of which `done` entries are finished and `part` records
  // of the next one are flushed; `begun` says whether that one had its chance to start a transaction.
  datatype Ledger<A, R> = Ledger(
    pushed: seq<Entry<A, R>>,
    rest: seq<Entry<A, R>>,
    done: nat,
    part: nat,
    begun: bool,
    flushed: seq<R>,
    reported: Size,
    flushedSize: Size,
    told: Told
  )

  ghost predicate Leftover<A, R>(e: Entry<A, R>, whole: Entry<A, R>, part: nat, begun: bool) {
    && |Records(e)| + part == |Records(whole)| && e.buffer.Some? == whole.buffer.Some?
    && e.commit == whole.commit && e.aux == whole.aux
    && if begun then e.start == None else e == whole && part == 0
  }

  ghost predicate Remains<A, R>(l: Ledger<A, R>) {
    if |l.rest| == 0 then l.done == |l.pushed| && l.part == 0 && !l.begun
    else
      && l.done < |l.pushed| && l.rest[1..] == l.pushed[l.done + 1..]
      && Leftover(l.rest[0], l.pushed[l.done], l.part, l.begun)
  }

  // The records flushed and the records left, in order, are the records pushed.
  ghost predicate RecordsConserved<A, R>(l: Ledger<A, R>) {
    l.flushed + AllRecords(l.rest) == AllRecords(l.pushed)
  }

  // The size flushed and the size left add up to the size reported.
  ghost predicate SizesConserved<A, R>(l: Ledger<A, R>) {
    Add(l.flushedSize, TotalSize(l.rest)) == l.reported && l.flushedSize.records == |l.flushed|
  }

  // The consumer was told what it would have been told had no entry been split.
  ghost predicate Faithful<A, R>(l: Ledger<A, R>) {
    && l.done <= |l.pushed| && (l.begun ==> l.done < |l.pushed|)
    && l.told == (if l.begun then Begin(l.pushed, l.done) else Replay(l.pushed, l.done))
    && |l.flushed| == Count(l.pushed, l.done) + l.part
  }

  ghost predicate Good<A, R>(l: Ledger<A, R>) {
    Remains(l) && RecordsConserved(l) && SizesConserved(l) && Faithful(l)
  }

  // ---- The steps ----

  // A producer pushes an entry and reports its size.
  ghost function Push<A, R>(l: Ledger<A, R>, e: Entry<A, R>): Ledger<A, R> {
    l.(pushed := l.pushed + [e], rest := l.rest + [e], reported := Add(l.reported, SizeOf(e)))
  }

  // The entry in front starts the transaction it asks for, unless one is in progress.
  ghost function Start<A, R>(l: Ledger<A, R>): Ledger<A, R>
    requires |l.rest| > 0
  {
    var e := l.rest[0];
    var l' := l.(begun := true, rest := [e.(start := None)] + l.rest[1..]);
    if e.start.Some? && !l.told.open
    then l'.(told := Told(l.told.log + [Started(e.start.value, |l.flushed|)], true))
    else l'
  }

  // The first k records and b bytes of the entry in front are flushed.
  ghost function Flush<A, R>(l: Ledger<A, R>, k: nat, b: nat): Ledger<A, R>
    requires |l.rest| > 0 && l.rest[0].buffer.Some?
    requires k <= |l.rest[0].buffer.value.records| && b <= l.rest[0].buffer.value.bytes
  {
    var e, buf := l.rest[0], l.rest[0].buffer.value;
    l.(flushed := l.flushed + buf.records[..k], part := l.part + k, flushedSize := Add(l.flushedSize, Size(k, b)),
       rest := [e.(buffer := Some(Buffer(buf.records[k..], buf.bytes - b)))] + l.rest[1..])
  }

  // The entry in front, of which nothing is left, commits the transaction in progress if it asks
  // for it, and is finished.
  ghost function Finish<A, R>(l: Ledger<A, R>): Ledger<A, R>
    requires |l.rest| > 0
  {
    var l' := l.(rest := l.rest[1..], done := l.done + 1, part := 0, begun := false);
    if l.rest[0].commit && l.told.open then l'.(told := Told(l.told.log + [Committed(|l.flushed|)], false)) else l'
  }

  // ---- Every step keeps the account good ----

  lemma EmptyConserved<A, R>(l: Ledger<A, R>)
    requires |l.pushed| == |l.rest| == |l.flushed| == 0 && l.reported == l.flushedSize == Size(0, 0)
    ensures RecordsConserved(l) && SizesConserved(l)
  {
    assert |l.flushed + AllRecords(l.rest)| == |AllRecords(l.pushed)| == 0;
    assert TotalSize(l.rest) == Size(0, 0);
  }

  lemma EmptyFaithful<A, R>(l: Ledger<A, R>)
    requires |l.pushed| == |l.flushed| == l.done == l.part == 0 && !l.begun && l.told == Told([], false)
    ensures Faithful(l)
  {
    assert Replay(l.pushed, l.done) == l.told;
  }

  lemma EmptyGood<A, R>(l: Ledger<A, R>)
    requires |l.pushed| == |l.rest| == |l.flushed| == l.done == l.part == 0 && !l.begun
    requires l.reported == l.flushedSize == Size(0, 0) && l.told == Told([], false)
    ensures Good(l)
  {
    EmptyConserved(l);
    EmptyFaithful(l);
  }

  lemma NewLedger<A, R>() returns (l: Ledger<A, R>)
    ensures Good(l) && |l.pushed| == |l.rest| == |l.flushed| == |l.told.log| == 0 && !l.told.open
    ensures l.reported == l.flushedSize == Size(0, 0)
  {
    l := Ledger([], [], 0, 0, false, [], Size(0, 0), Size(0, 0), Told([], false));
    EmptyGood(l);
  }

  lemma {:induction false} SnocRecords<A, R>(es: seq<Entry<A, R>>, e: Entry<A, R>)
    ensures AllRecords(es + [e]) == AllRecords(es) + Records(e)
  {
    if |es| == 0 {
      assert es + [e] == [e] && [e][1..] == [];
    } else {
      assert (es + [e])[1..] == es[1..] + [e];
      SnocRecords(es[1..], e);
    }
  }

  lemma {:induction false} SnocSize<A, R>(es: seq<Entry<A, R>>, e: Entry<A, R>)
    ensures TotalSize(es + [e]) == Add(TotalSize(es), SizeOf(e))
  {
    if |es| == 0 {
      assert es + [e] == [e] && [e][1..] == [];
    } else {
      assert (es + [e])[1..] == es[1..] + [e];
      SnocSize(es[1..], e);
    }
  }

  lemma CountOfPrefix<A, R>(es: seq<Entry<A, R>>, more: seq<Entry<A, R>>, n: nat)
    requires n <= |es| && es <= more
    ensures Count(more, n) == Count(es, n)
  {
    assert more[..n] == es[..n];
  }

  lemma ReplayPrefix<A, R>(es: seq<Entry<A, R>>, e: Entry<A, R>, n: nat)
    requires n <= |es|
    ensures Count(es + [e], n) == Count(es, n) && Replay(es + [e], n) == Replay(es, n)
    ensures n < |es| ==> Begin(es + [e], n) == Begin(es, n)
  {
    assert (es + [e])[..n] == es[..n];
    hide ReplayAll, AllRecords;
  }

  lemma PushRecords<A, R>(l: Ledger<A, R>, e: Entry<A, R>)
    requires RecordsConserved(l)
    ensures RecordsConserved(Push(l, e))
  {
    SnocRecords(l.pushed, e);
    SnocRecords(l.rest, e);
    assert l.flushed + (AllRecords(l.rest) + Records(e)) == l.flushed + AllRecords(l.rest) + Records(e);
  }

  lemma PushRemains<A, R>(l: Ledger<A, R>, e: Entry<A, R>)
    requires Remains(l)
    ensures Remains(Push(l, e))
  {
    if |l.rest| == 0 {
      assert (l.rest + [e])[1..] == [] == (l.pushed + [e])[l.done + 1..];
    } else {
      assert (l.rest + [e])[1..] == l.rest[1..] + [e];
      assert (l.pushed + [e])[l.done + 1..] == l.pushed[l.done + 1..] + [e];
    }
  }

  lemma PushSizes<A, R>(l: Ledger<A, R>, e: Entry<A, R>)
    requires SizesConserved(l)
    ensures SizesConserved(Push(l, e))
  {
    hide TotalSize, SizeOf, Add;
    SnocSize(l.rest, e);
    AddAssociative(l.flushedSize, TotalSize(l.rest), SizeOf(e));
  }

  lemma PushTold<A, R>(l: Ledger<A, R>, e: Entry<A, R>)
    requires Faithful(l)
    ensures Faithful(Push(l, e))
  {
    ReplayPrefix(l.pushed, e, l.done);
  }

  lemma PushGood<A, R>(l: Ledger<A, R>, e: Entry<A, R>)
    requires Good(l)
    ensures Good(Push(l, e))
  {
    PushRemains(l, e);
    PushRecords(l, e);
    PushSizes(l, e);
    PushTold(l, e);
  }

  lemma HeadRecords<A, R>(l: Ledger<A, R>, e: Entry<A, R>)
    requires |l.rest| > 0 && Records(e) == Records(l.rest[0]) && SizeOf(e) == SizeOf(l.rest[0])
    ensures AllRecords([e] + l.rest[1..]) == AllRecords(l.rest)
    ensures TotalSize([e] + l.rest[1..]) == TotalSize(l.rest)
  {
    assert ([e] + l.rest[1..])[1..] == l.rest[1..];
  }

  lemma StartRemains<A, R>(l: Ledger<A, R>)
    requires Remains(l) && |l.rest| > 0
    ensures Remains(Start(l))
  {
    assert Start(l).rest[1..] == l.rest[1..];
  }

  lemma StartFaithful<A, R>(l: Ledger<A, R>)
    requires Remains(l) && Faithful(l) && |l.rest| > 0
    ensures Faithful(Start(l))
  {
  }

  lemma StartGood<A, R>(l: Ledger<A, R>)
    requires Good(l) && |l.rest| > 0
    ensures Good(Start(l))
  {
    HeadRecords(l, l.rest[0].(start := None));
    StartRemains(l);
    StartFaithful(l);
  }

  lemma FlushRecords<A, R>(l: Ledger<A, R>, k: nat, b: nat)
    requires RecordsConserved(l) && |l.rest| > 0 && l.rest[0].buffer.Some?
    requires k <= |l.rest[0].buffer.value.records| && b <= l.rest[0].buffer.value.bytes
    ensures RecordsConserved(Flush(l, k, b))
  {
    var l', r := Flush(l, k, b), l.rest[0].buffer.value.records;
    assert l'.rest[1..] == l.rest[1..];
    assert r == r[..k] + r[k..];
    assert l.flushed + (r[..k] + r[k..] + AllRecords(l.rest[1..])) == l'.flushed + (r[k..] + AllRecords(l.rest[1..]));
  }

  lemma FlushSizes<A, R>(l: Ledger<A, R>, k: nat, b: nat)
    requires SizesConserved(l) && |l.rest| > 0 && l.rest[0].buffer.Some?
    requires k <= |l.rest[0].buffer.value.records| && b <= l.rest[0].buffer.value.bytes
    ensures SizesConserved(Flush(l, k, b))
  {
    assert Flush(l, k, b).rest[1..] == l.rest[1..];
  }

  lemma FlushRemains<A, R>(l: Ledger<A, R>, k: nat, b: nat)
    requires Remains(l) && l.begun && |l.rest| > 0 && l.rest[0].buffer.Some?
    requires k <= |l.rest[0].buffer.value.records| && b <= l.rest[0].buffer.value.bytes
    ensures Remains(Flush(l, k, b))
  {
    assert Flush(l, k, b).rest[1..] == l.rest[1..];
  }

  lemma FlushGood<A, R>(l: Ledger<A, R>, k: nat, b: nat)
    requires Good(l) && l.begun && |l.rest| > 0 && l.rest[0].buffer.Some?
    requires k <= |l.rest[0].buffer.value.records| && b <= l.rest[0].buffer.value.bytes
    ensures Good(Flush(l, k, b))
  {
    FlushRecords(l, k, b);
    FlushSizes(l, k, b);
    FlushRemains(l, k, b);
  }

  lemma FinishRecords<A, R>(l: Ledger<A, R>)
    requires RecordsConserved(l) && |l.rest| > 0 && Records(l.rest[0]) == []
    ensures RecordsConserved(Finish(l))
  {
    assert [] + AllRecords(l.rest[1..]) == AllRecords(l.rest[1..]);
  }

  lemma FinishRemains<A, R>(l: Ledger<A, R>)
    requires Remains(l) && |l.rest| > 0 && Records(l.rest[0]) == []
    ensures Remains(Finish(l)) && l.part == |Records(l.pushed[l.done])|
  {
  }

  lemma FinishTold<A, R>(l: Ledger<A, R>)
    requires Faithful(l) && Remains(l) && l.begun && |l.rest| > 0 && l.part == |Records(l.pushed[l.done])|
    ensures Faithful(Finish(l))
  {
    hide Replay, Count, Records;
    ReplayStep(l.pushed, l.done);
    CountStep(l.pushed, l.done);
  }

  lemma FinishGood<A, R>(l: Ledger<A, R>)
    requires Good(l) && l.begun && |l.rest| > 0 && SizeOf(l.rest[0]) == Size(0, 0)
    ensures Good(Finish(l))
  {
    FinishRecords(l);
    FinishRemains(l);
    FinishTold(l);
  }

  // ---- What a good account promises ----

  // The event comes from one of the first n entries, which asks for it: a start before any of its
  // records is flushed and after all records before them, a commit after all records up to and
  // including its own.
  ghost predicate Timely<A, R>(e: Event, es: seq<Entry<A, R>>, n: nat)
    requires n <= |es|
  {
    match e
    case Started(tag, at) => exists i :: 0 <= i < n && es[i].start == Some(tag) && at == Count(es, i)
    case Committed(at) => exists i :: 0 <= i < n && es[i].commit && at == Count(es, i + 1)
  }

  ghost predicate AllTimely<A, R>(log: seq<Event>, es: seq<Entry<A, R>>, n: nat)
    requires n <= |es|
  {
    forall e :: e in log ==> Timely(e, es, n)
  }

  lemma {:induction false} ReplayTimely<A, R>(es: seq<Entry<A, R>>, n: nat)
    requires n <= |es|
    ensures AllTimely(Replay(es, n).log, es, n)
    decreases n, 0
  {
    if n > 0 {
      BeginTimely(es, n - 1);
      ReplayStep(es, n - 1);
      hide Replay, Begin, Count;
      assert es[n - 1].commit ==> Timely(Committed(Count(es, n)), es, n);
    }
  }

  lemma {:induction false} BeginTimely<A, R>(es: seq<Entry<A, R>>, n: nat)
    requires n < |es|
    ensures AllTimely(Begin(es, n).log, es, n + 1)
    decreases n, 1
  {
    hide Replay, Count;
    ReplayTimely(es, n);
    var log := Replay(es, n).log;
    forall e | e in log ensures Timely(e, es, n + 1) {
      assert Timely(e, es, n);
    }
    assert es[n].start.Some? ==> Timely(Started(es[n].start.value, Count(es, n)), es, n + 1);
  }

  // The entry in front commits exactly if it is the one to commit.
  lemma CommitDecided<A, R>(l: Ledger<A, R>)
    requires Good(l) && l.begun && |l.rest| > 0
    ensures l.done < |l.pushed| && (l.rest[0].commit && l.told.open <==> CommitsAt(l.pushed, l.done))
  {
    assert Leftover(l.rest[0], l.pushed[l.done], l.part, l.begun);
    BeginExactly(l.pushed, l.done);
    hide Begin, OpenBefore, Count, StartDue, Due;
  }

  lemma CommitsAtPrefix<A, R>(es: seq<Entry<A, R>>, more: seq<Entry<A, R>>, i: nat)
    requires es <= more && i < |es|
    ensures CommitsAt(more, i) <==> CommitsAt(es, i)
  {
    assert forall k :: 0 <= k <= i ==> more[k] == es[k];
  }

  // The consumer was told exactly what the entries finished, and the one begun, call for. Starts and
  // commits alternate and come at the right time, whatever was split; what was flushed is a prefix
  // of what was pushed and never exceeds what was reported.
  lemma Discipline<A, R>(l: Ledger<A, R>)
    requires Good(l)
    ensures l.done <= |l.pushed| && (l.begun ==> l.done < |l.pushed|)
    ensures l.told.log == Due(l.pushed, l.done) + if l.begun then StartDue(l.pushed, l.done) else []
    ensures l.told.open <==> OpenBefore(l.pushed, l.done) || (l.begun && l.pushed[l.done].start.Some?)
    ensures Alternating(l.told.log, l.told.open) && AllTimely(l.told.log, l.pushed, |l.pushed|)
    ensures l.flushed <= AllRecords(l.pushed)
    ensures l.flushedSize.records <= l.reported.records && l.flushedSize.bytes <= l.reported.bytes
  {
    var n := l.done;
    hide Replay, Begin, OpenBefore, Count, StartDue, Due;
    if l.begun {
      BeginExactly(l.pushed, n);
      BeginAlternates(l.pushed, n);
      BeginTimely(l.pushed, n);
      n := n + 1;
    } else {
      ReplayExactly(l.pushed, n);
      ReplayAlternates(l.pushed, n);
      ReplayTimely(l.pushed, n);
      assert Due(l.pushed, n) + [] == Due(l.pushed, n);
    }
    forall e | e in l.told.log ensures Timely(e, l.pushed, |l.pushed|) {
      assert Timely(e, l.pushed, n);
    }
  }
}
