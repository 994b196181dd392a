/** When messages of CSV data are framed alike by one splitter and by a new one for each. */
module CsvFraming {
  import opened ByteFraming
  import opened ByteSplitters
  import opened Framing
  import opened FramingLaws
  import opened Options
  import opened ParseLoops
  import opened Sequences

  ghost function CsvSplitter(): Input<Csv> { ScanInput(CsvStep) }

  // ---- Two states, the same data ----

  ghost predicate EndsRecord(s: Csv, c: Byte) { CsvStep(s, c).After? }

  // A new-line that ends a record in both states or in neither; the last byte makes no difference.
  ghost predicate Agree(s: Csv, t: Csv, data: seq<Byte>)
    decreases |data|
  {
    |data| > 1 ==>
      && EndsRecord(s, data[0]) == EndsRecord(t, data[0])
      && Agree(CsvStep(s, data[0]).next, CsvStep(t, data[0]).next, data[1..])
  }

  lemma {:induction false} CutsAgree(a: bool, b: bool, s: Csv, t: Csv, data: seq<Byte>)
    ensures Cuts(CsvStep, a, s, data) == Cuts(CsvStep, b, t, data) <==> (|data| > 0 ==> a == b && Agree(s, t, data))
    decreases |data|
  {
    if |data| > 0 {
      var s', t', c, rest := CsvStep(s, data[0]).next, CsvStep(t, data[0]).next, data[0], data[1..];
      CutsAgree(EndsRecord(s, c), EndsRecord(t, c), s', t', rest);
      HeadsAndTails(a, Cuts(CsvStep, EndsRecord(s, c), s', rest), b, Cuts(CsvStep, EndsRecord(t, c), t', rest));
    }
  }

  // ---- What a caller can count ----

  ghost function Quotes(data: seq<Byte>): nat {
    if |data| == 0 then 0 else (if data[0] == QUOTE then 1 else 0) + Quotes(data[1..])
  }

  ghost predicate Odd(n: nat) { n % 2 == 1 }

  // The new-lines outside quotes, when the data begins inside quotes or not ...
  ghost function Unquoted(quoted: bool, data: seq<Byte>): nat
    decreases |data|
  {
    if |data| == 0 then 0
    else (if data[0] == NEWLINE && !quoted then 1 else 0) + Unquoted(quoted != (data[0] == QUOTE), data[1..])
  }

  // ... and of those, the ones before the last byte.
  ghost function Inside(quoted: bool, data: seq<Byte>): nat
    decreases |data|
  {
    if |data| <= 1 then 0
    else (if data[0] == NEWLINE && !quoted then 1 else 0) + Inside(quoted != (data[0] == QUOTE), data[1..])
  }

  ghost function NewlinesInside(data: seq<Byte>): nat {
    if |data| <= 1 then 0 else (if data[0] == NEWLINE then 1 else 0) + NewlinesInside(data[1..])
  }

  lemma {:induction false} InsideOrOutside(data: seq<Byte>)
    ensures Inside(false, data) + Inside(true, data) == NewlinesInside(data)
    decreases |data|
  {
    if |data| > 1 { InsideOrOutside(data[1..]); }
  }

  function One(b: bool): nat { if b then 1 else 0 }

  lemma {:induction false} AgreeCount(s: Csv, t: Csv, data: seq<Byte>)
    ensures Agree(s, t, data) <==>
            if s.quoted == t.quoted then s.headers == t.headers || Inside(s.quoted, data) == 0
            else Inside(s.quoted, data) <= One(s.headers) && Inside(t.quoted, data) <= One(t.headers)
    decreases |data|
  {
    if |data| > 1 { AgreeCount(CsvStep(s, data[0]).next, CsvStep(t, data[0]).next, data[1..]); }
  }

  lemma {:induction false} AfterCount(s: Csv, data: seq<Byte>)
    ensures StateAfter(CsvStep, s, data)
         == Csv(s.quoted != Odd(Quotes(data)), s.headers && Unquoted(s.quoted, data) == 0)
    decreases |data|
  {
    if |data| > 0 { AfterCount(CsvStep(s, data[0]).next, data[1..]); }
  }

  // The new-line in front of n ends a record: it is not in quotes, and it is the first such one or,
  // with a header still to pass over, the second.
  ghost predicate RecordEnd(s: Csv, data: seq<Byte>, n: nat) {
    && 0 < n <= |data| && data[n - 1] == NEWLINE
    && s.quoted == Odd(Quotes(data[..n - 1])) && Unquoted(s.quoted, data[..n - 1]) == One(s.headers)
  }

  lemma RecordEndLater(s: Csv, data: seq<Byte>, n: nat)
    requires |data| > 0 && n > 1
    ensures RecordEnd(s, data, n) <==>
            CsvStep(s, data[0]).Continue? && RecordEnd(CsvStep(s, data[0]).next, data[1..], n - 1)
  {
    if n <= |data| {
      assert data[..n - 1][0] == data[0] && data[..n - 1][1..] == data[1..][..n - 2];
    }
  }

  // The splitter finds exactly the end of the next record.
  lemma {:induction false} RecordEndsExactly(s: Csv, data: seq<Byte>, n: nat)
    ensures Scan(CsvStep, s, data).1 == Some(n) <==> RecordEnd(s, data, n)
    decreases |data|
  {
    if |data| > 0 {
      if n > 1 {
        RecordEndLater(s, data, n);
        if CsvStep(s, data[0]).Continue? { RecordEndsExactly(CsvStep(s, data[0]).next, data[1..], n - 1); }
      } else {
        assert |data[..0]| == 0;
        if CsvStep(s, data[0]).Continue? { NeverAtStart(CsvStep(s, data[0]).next, data[1..]); }
      }
    }
  }

  lemma {:induction false} NeverAtStart(s: Csv, data: seq<Byte>)
    ensures Scan(CsvStep, s, data).1 != Some(0)
    decreases |data|
  {
    if |data| > 0 && CsvStep(s, data[0]).Continue? { NeverAtStart(CsvStep(s, data[0]).next, data[1..]); }
  }

  // ---- Messages ----

  // What the streaming parser's splitter and a new one make of a message alike, given what came
  // before it. With headers, each of them passes over the first new-line outside quotes it sees.
  ghost predicate FramedAlike(headers: bool, before: seq<Byte>, message: seq<Byte>) {
    var seen := headers && Unquoted(false, before) > 0;
    if !Odd(Quotes(before)) then !seen || Inside(false, message) == 0
    else Inside(false, message) <= One(headers) && Inside(true, message) <= One(headers && !seen)
  }

  lemma AlikeExactly(headers: bool, before: seq<Byte>, message: seq<Byte>)
    ensures var s := Csv(false, headers);
            SameCuts(CsvStep, StateAfter(CsvStep, s, before), s, message) <==> FramedAlike(headers, before, message)
  {
    var s := Csv(false, headers);
    var t := StateAfter(CsvStep, s, before);
    AfterCount(s, before);
    CutsAgree(false, false, t, s, message);
    AgreeCount(t, s, message);
  }

  lemma AlikeAt(headers: bool, messages: seq<seq<Byte>>, i: nat)
    requires i < |messages|
    ensures var s := Csv(false, headers);
            SameCuts(CsvStep, StateBefore(CsvStep, s, messages, i), s, messages[i])
            <==> FramedAlike(headers, Concat(messages[..i]), messages[i])
  {
    hide SameCuts, FramedAlike, StateAfter, Concat;
    AlikeExactly(headers, Concat(messages[..i]), messages[i]);
  }

  lemma CsvClean()
    ensures Clean(CsvStep, Never) && Lawful(ScanInput(CsvStep), Never)
  {
    CsvLawful();
  }

  lemma SplitterIsScan()
    ensures CsvSplitter() == ScanInput(CsvStep)
  {
  }

  // One splitter kept for all messages and a new one for each frame them alike exactly if each
  // message is framed alike, which is a matter of counting quotes and new-lines.
  lemma LoopsAgreeExactly(headers: bool, messages: seq<seq<Byte>>)
    ensures Lawful(CsvSplitter(), Never)
    ensures var s := Csv(false, headers);
            OneSplitter(CsvSplitter(), Never, s, messages) == FreshSplitters(CsvSplitter(), Never, s, messages) <==>
            forall i :: 0 <= i < |messages| ==> FramedAlike(headers, Concat(messages[..i]), messages[i])
  {
    CsvClean();
    hide *;
    var s := Csv(false, headers);
    MessagesExactly(CsvStep, Never, s, s, messages);
    SplitterIsScan();
    forall i | 0 <= i < |messages|
      ensures SameCuts(CsvStep, StateBefore(CsvStep, s, messages, i), s, messages[i])
              <==> FramedAlike(headers, Concat(messages[..i]), messages[i])
    {
      AlikeAt(headers, messages, i);
    }
  }

  // Without headers: exactly if no message after an odd number of quotes has a new-line before its
  // last byte.
  lemma AlikeWithoutHeaders(before: seq<Byte>, message: seq<Byte>)
    ensures FramedAlike(false, before, message) <==> (Odd(Quotes(before)) ==> NewlinesInside(message) == 0)
  {
    InsideOrOutside(message);
  }

  // An open quote at the end of one message makes the streaming parser take the new-line of the
  // next one for quoted text.
  lemma OpenQuoteCarriesOver()
    ensures Lawful(CsvSplitter(), Never)
    ensures var messages := [[QUOTE], [NEWLINE, 65]];
            OneSplitter(CsvSplitter(), Never, Csv(false, false), messages)
            != FreshSplitters(CsvSplitter(), Never, Csv(false, false), messages)
  {
    var messages: seq<seq<Byte>> := [[QUOTE], [NEWLINE, 65]];
    LoopsAgreeExactly(false, messages);
    AlikeWithoutHeaders(Concat(messages[..1]), messages[1]);
    assert messages[..1] == [messages[0]] && messages[..1][..0] == [];
    assert Concat(messages[..1]) == Concat(messages[..1][..0]) + [QUOTE] == [QUOTE];
    assert messages[0][1..] == [];
    assert Quotes(messages[0]) == 1;
    assert NewlinesInside(messages[1]) == 1 + NewlinesInside(messages[1][1..]);
  }

  // ---- Starting over ----

  // `clear` closes the quote; it does not bring the header back.
  function Clear(s: Csv): Csv { s.(quoted := false) }

  // After a seek or a reset, data is framed as by a new splitter exactly if there was no header to
  // pass over, it has not been passed over yet, or the data has no new-line outside quotes before
  // its last byte.
  lemma ResetFramesAsNew(headers: bool, seen: seq<Byte>, data: seq<Byte>)
    ensures var s := Csv(false, headers);
            Pieces(CsvStep, Clear(StateAfter(CsvStep, s, seen)), [], data) == Pieces(CsvStep, s, [], data) <==>
            !headers || Unquoted(false, seen) == 0 || Inside(false, data) == 0
  {
    var s := Csv(false, headers);
    var t := Clear(StateAfter(CsvStep, s, seen));
    AfterCount(s, seen);
    SamePlaces(Cuts(CsvStep, false, t, data), Cuts(CsvStep, false, s, data), [], data);
    CutsAgree(false, false, t, s, data);
    AgreeCount(t, s, data);
  }
}
