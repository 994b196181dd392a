/** When messages of JSON data are framed alike by one splitter and by a new one for each. */
module JsonFraming {
  import opened ByteFraming
  import opened ByteSplitters
  import opened Framing
  import opened FramingLaws
  import opened Options
  import opened ParseLoops

  ghost function JsonSplitter(): Input<Json> { ScanInput(JsonStep) }

  lemma JsonClean()
    ensures Clean(JsonStep, InWord) && Lawful(JsonSplitter(), InWord)
  {
    JsonLawful();
  }

  // ---- Two states, the same data ----

  // Where the first value ends, if that is before the end of the data.
  ghost function FirstEnd(s: Json, data: seq<Byte>): Option<nat> {
    var r := Scan(JsonStep, s, data).1;
    if r.Some? && r.value < |data| then r else None
  }

  lemma BoundaryIsStart(s: Json, c: Byte)
    ensures JsonStep(s, c).Before? || JsonStep(s, c).After? ==> JsonStep(s, c).next == Start
    ensures JsonStep(Start, c).Continue?
  {
  }

  ghost function Nowhere(n: nat): (cuts: seq<bool>)
    ensures |cuts| == n && forall i :: 0 <= i < n ==> !cuts[i]
  {
    seq(n, _ => false)
  }

  lemma NowhereMore(n: nat, cuts: seq<bool>)
    ensures [false] + (Nowhere(n) + cuts) == Nowhere(n + 1) + cuts && [false] + Nowhere(n) == Nowhere(n + 1)
  {
    hide Nowhere;
  }

  // Nothing is cut before the first boundary, and after it the splitter is at the start again.
  lemma {:induction false} CutsOfScan(s: Json, data: seq<Byte>)
    ensures var n := Scan(JsonStep, s, data).1; n.Some? ==> n.value <= |data|
    ensures var n := Scan(JsonStep, s, data).1;
            Cuts(JsonStep, false, s, data)
            == if n.None? then Nowhere(|data|)
               else Nowhere(n.value) + Cuts(JsonStep, true, Start, data[n.value..])
    decreases |data|
  {
    if |data| > 0 {
      var c, rest := data[0], data[1..];
      BoundaryIsStart(s, c);
      hide JsonStep, Nowhere;
      match JsonStep(s, c)
      case Before(_) =>
        assert data[0..] == data;
        assert Nowhere(0) + Cuts(JsonStep, true, Start, data) == Cuts(JsonStep, true, Start, data);
      case After(_) => NowhereMore(0, Cuts(JsonStep, true, Start, rest));
      case Continue(s') =>
        CutsOfScan(s', rest);
        var n := Scan(JsonStep, s', rest).1;
        assert Cuts(JsonStep, false, s, data) == [false] + Cuts(JsonStep, false, s', rest);
        hide Cuts;
        if n.Some? {
          assert rest[n.value..] == data[n.value + 1..];
          NowhereMore(n.value, Cuts(JsonStep, true, Start, rest[n.value..]));
        } else {
          NowhereMore(|rest|, []);
        }
    }
  }

  // What the splitter does with the rest does not depend on the state it was in: two states cut
  // data alike exactly if they find the same first end.
  lemma SameCutsExactly(s: Json, t: Json, data: seq<Byte>)
    ensures SameCuts(JsonStep, s, t, data) <==> FirstEnd(s, data) == FirstEnd(t, data)
  {
    FirstCut(s, data);
    FirstCut(t, data);
    CutsOfScan(s, data);
    CutsOfScan(t, data);
  }

  lemma FirstCut(s: Json, data: seq<Byte>)
    ensures var cuts := Cuts(JsonStep, false, s, data);
            match FirstEnd(s, data)
            case None => forall j :: 0 <= j < |cuts| ==> !cuts[j]
            case Some(n) => n < |cuts| && cuts[n] && forall j :: 0 <= j < n ==> !cuts[j]
  {
    CutsOfScan(s, data);
  }

  // ---- Messages ----

  // Both loops frame JSON messages alike exactly if in each message the first value ends at the
  // same place for a splitter that has seen the messages before and for a new one.
  lemma LoopsAgreeExactly(messages: seq<seq<Byte>>)
    ensures Lawful(JsonSplitter(), InWord)
    ensures OneSplitter(JsonSplitter(), InWord, Start, messages)
            == FreshSplitters(JsonSplitter(), InWord, Start, messages)
            <==> forall i :: 0 <= i < |messages| ==>
                   FirstEnd(StateBefore(JsonStep, Start, messages, i), messages[i]) == FirstEnd(Start, messages[i])
  {
    JsonClean();
    MessagesExactly(JsonStep, InWord, Start, Start, messages);
    forall i | 0 <= i < |messages|
      ensures SameCuts(JsonStep, StateBefore(JsonStep, Start, messages, i), Start, messages[i])
              <==> FirstEnd(StateBefore(JsonStep, Start, messages, i), messages[i]) == FirstEnd(Start, messages[i])
    {
      SameCutsExactly(StateBefore(JsonStep, Start, messages, i), Start, messages[i]);
    }
  }

  // After messages that end in a bare word or a complete string: exactly if the next message is
  // empty or goes on with the word.
  lemma AfterWord(message: seq<Byte>)
    ensures FirstEnd(Value(0), message) == FirstEnd(Start, message)
            <==> |message| == 0 || Classify(message[0]) == Other
  {
    if |message| > 0 {
      var rest := message[1..];
      assert JsonStep(Start, message[0]).Continue?;
      assert Scan(JsonStep, Start, message).1 == Shift(Scan(JsonStep, JsonStep(Start, message[0]).next, rest).1, 1);
      if Classify(message[0]) == Other {
        assert Scan(JsonStep, Value(0), message).1 == Shift(Scan(JsonStep, Value(0), rest).1, 1);
      } else {
        assert Scan(JsonStep, Value(0), message).1 == Some(0);
      }
    }
  }

  // Two numbers in two messages: the kept splitter ends the first one in front of the second
  // message, and the streaming loop takes an empty chunk.
  lemma NumbersDiffer()
    ensures Lawful(JsonSplitter(), InWord)
    ensures var messages := [[49], [32, 50]];
            OneSplitter(JsonSplitter(), InWord, Start, messages)
            != FreshSplitters(JsonSplitter(), InWord, Start, messages)
  {
    var messages: seq<seq<Byte>> := [[49], [32, 50]];
    LoopsAgreeExactly(messages);
    assert messages[..1] == [messages[0]] && messages[..1][..0] == [];
    assert Concat(messages[..1]) == Concat(messages[..1][..0]) + [49] == [49];
    assert [49][1..] == [];
    assert StateAfter(JsonStep, Start, [49]) == StateAfter(JsonStep, Value(0), [49][1..]) == Value(0);
    AfterWord(messages[1]);
  }
}
