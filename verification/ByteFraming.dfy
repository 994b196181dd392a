/** Framing by a byte-wise splitter, and when two splitters or two states frame data alike. */
module ByteFraming {
  import opened ByteSplitters
  import opened Framing
  import opened FramingLaws
  import opened Options
  import opened ParseLoops
  import opened Sequences

  // Keeps the splitter contract, and after a boundary is not in the middle of a record.
  ghost predicate Clean<S(!new)>(step: Stepper<S>, midRecord: S -> bool) {
    LawfulStep(step, midRecord) && forall s, c :: step(s, c).After? ==> !midRecord(step(s, c).next)
  }

  // ---- Framing byte by byte ----

  // What becomes of a byte once any boundary in front of it is found.
  ghost function Taking<S>(step: Stepper<S>, s: S, c: Byte): Verdict<S> {
    if step(s, c).Before? then step(step(s, c).next, c) else step(s, c)
  }

  ghost function StateAfter<S>(step: Stepper<S>, s: S, data: seq<Byte>): S
    decreases |data|
  {
    if |data| == 0 then s else StateAfter(step, Taking(step, s, data[0]).next, data[1..])
  }

  // In front of which bytes there is a boundary, where `ended` says that there is one already.
  ghost function Cuts<S>(step: Stepper<S>, ended: bool, s: S, data: seq<Byte>): (r: seq<bool>)
    ensures |r| == |data|
    decreases |data|
  {
    if |data| == 0 then []
    else
      var v := Taking(step, s, data[0]);
      [ended || step(s, data[0]).Before?] + Cuts(step, v.After?, v.next, data[1..])
  }

  // Complete data cut up, of which `carry` comes first.
  ghost function CutUp(cuts: seq<bool>, carry: seq<Byte>, data: seq<Byte>): seq<seq<Byte>>
    requires |cuts| == |data|
    decreases |data|
  {
    if |data| == 0 then (if |carry| == 0 then [] else [carry])
    else if cuts[0] then [carry] + CutUp(cuts[1..], [data[0]], data[1..])
    else CutUp(cuts[1..], carry + [data[0]], data[1..])
  }

  ghost function Pieces<S>(step: Stepper<S>, s: S, carry: seq<Byte>, data: seq<Byte>): seq<seq<Byte>> {
    CutUp(Cuts(step, false, s, data), carry, data)
  }

  lemma PiecesStep<S>(step: Stepper<S>, s: S, carry: seq<Byte>, data: seq<Byte>)
    requires |data| > 0
    ensures var v, c, rest := Taking(step, s, data[0]), data[0], data[1..];
            Pieces(step, s, carry, data)
            == if step(s, c).Before? then [carry] + CutUp(Cuts(step, v.After?, v.next, rest), [c], rest)
               else CutUp(Cuts(step, v.After?, v.next, rest), carry + [c], rest)
  {
  }

  // After a boundary the rest is cut up as on its own.
  lemma PiecesAfterCut<S(!new)>(step: Stepper<S>, midRecord: S -> bool, s: S, carry: seq<Byte>, data: seq<Byte>)
    requires Clean(step, midRecord) && !midRecord(s) && |carry| > 0
    ensures CutUp(Cuts(step, true, s, data), carry, data) == [carry] + Pieces(step, s, [], data)
  {
    if |data| > 0 {
      assert !step(s, data[0]).Before?;
      assert [] + [data[0]] == [data[0]];
      PiecesStep(step, s, [], data);
    }
  }

  ghost function Whole(data: seq<Byte>): seq<seq<Byte>> { if |data| == 0 then [] else [data] }

  // What a scan up to the first boundary, or to the end, says of the pieces.
  ghost predicate Matches<S>(step: Stepper<S>, s: S, carry: seq<Byte>, data: seq<Byte>, s': S, r: Option<nat>) {
    match r
    case None => s' == StateAfter(step, s, data) && Pieces(step, s, carry, data) == Whole(carry + data)
    case Some(n) =>
      && n <= |data| && StateAfter(step, s, data) == StateAfter(step, s', data[n..])
      && Pieces(step, s, carry, data) == [carry + data[..n]] + Pieces(step, s', [], data[n..])
  }

  lemma MatchesLater<S>(step: Stepper<S>, s: S, carry: seq<Byte>, data: seq<Byte>, s': S, r: Option<nat>)
    requires |data| > 0 && step(s, data[0]).Continue?
    requires Matches(step, step(s, data[0]).next, carry + [data[0]], data[1..], s', r)
    ensures Matches(step, s, carry, data, s', Shift(r, 1))
  {
    var c, rest := data[0], data[1..];
    PiecesStep(step, s, carry, data);
    hide Pieces, StateAfter;
    match r
    case None => assert carry + [c] + rest == carry + data;
    case Some(n) =>
      assert rest[n..] == data[n + 1..];
      assert carry + [c] + rest[..n] == carry + data[..n + 1];
  }

  lemma MatchesBefore<S(!new)>(step: Stepper<S>, midRecord: S -> bool, s: S, carry: seq<Byte>, data: seq<Byte>)
    requires Clean(step, midRecord) && |data| > 0 && step(s, data[0]).Before?
    ensures Matches(step, s, carry, data, step(s, data[0]).next, Some(0))
  {
    var s' := step(s, data[0]).next;
    assert !step(s', data[0]).Before?;
    assert Taking(step, s', data[0]) == Taking(step, s, data[0]);
    assert data[0..] == data && carry + data[..0] == carry && [] + [data[0]] == [data[0]];
    PiecesStep(step, s, carry, data);
    PiecesStep(step, s', [], data);
    hide Pieces;
  }

  lemma MatchesAfter<S(!new)>(step: Stepper<S>, midRecord: S -> bool, s: S, carry: seq<Byte>, data: seq<Byte>)
    requires Clean(step, midRecord) && |data| > 0 && step(s, data[0]).After?
    ensures Matches(step, s, carry, data, step(s, data[0]).next, Some(1))
  {
    assert data[..1] == [data[0]];
    PiecesStep(step, s, carry, data);
    PiecesAfterCut(step, midRecord, step(s, data[0]).next, carry + [data[0]], data[1..]);
    hide Pieces;
  }

  lemma {:induction false} PiecesOfScan<S(!new)>(step: Stepper<S>, midRecord: S -> bool, s: S, carry: seq<Byte>,
                                                 data: seq<Byte>)
    requires Clean(step, midRecord)
    ensures var (s', r) := Scan(step, s, data); Matches(step, s, carry, data, s', r)
    decreases |data|
  {
    if |data| == 0 {
      assert carry + data == carry;
    } else {
      match step(s, data[0])
      case Before(_) => MatchesBefore(step, midRecord, s, carry, data);
      case After(_) => MatchesAfter(step, midRecord, s, carry, data);
      case Continue(s') =>
        PiecesOfScan(step, midRecord, s', carry + [data[0]], data[1..]);
        var (t, r) := Scan(step, s', data[1..]);
        MatchesLater(step, s, carry, data, t, r);
    }
  }

  // The chunks of complete data are its pieces.
  lemma {:induction false} FramesArePieces<S(!new)>(step: Stepper<S>, midRecord: S -> bool, s: S, carry: seq<Byte>,
                                                    data: seq<Byte>)
    requires Clean(step, midRecord) && Lawful(ScanInput(step), midRecord)
    ensures var r := Frames(ScanInput(step), midRecord, s, carry, data);
            Complete(r) == Pieces(step, s, carry, data) && r.state == StateAfter(step, s, data)
    decreases |data|, midRecord(s)
  {
    var (s', r) := Scan(step, s, data);
    PiecesOfScan(step, midRecord, s, carry, data);
    assert ScanInput(step)(s, data) == (s', r);
    hide Pieces, StateAfter, Clean;
    match r
    case None => FramesNothing(ScanInput(step), midRecord, s, carry, data, s');
    case Some(n) =>
      CompleteCut(ScanInput(step), midRecord, s, carry, data);
      FramesArePieces(step, midRecord, s', [], data[n..]);
  }

  // ---- Two states, the same data ----

  lemma {:induction false} FirstPiece(cuts: seq<bool>, carry: seq<Byte>, data: seq<Byte>)
    requires |cuts| == |data| && |carry| > 0
    ensures var pieces := CutUp(cuts, carry, data); |pieces| > 0 && |pieces[0]| >= |carry|
    decreases |data|
  {
    if |data| > 0 && !cuts[0] { FirstPiece(cuts[1..], carry + [data[0]], data[1..]); }
  }

  // Data cut up in two ways gives the same pieces exactly if it is cut at the same places.
  lemma {:induction false} SamePlaces(a: seq<bool>, b: seq<bool>, carry: seq<Byte>, data: seq<Byte>)
    requires |a| == |b| == |data|
    ensures CutUp(a, carry, data) == CutUp(b, carry, data) <==> a == b
    decreases |data|
  {
    if |data| > 0 {
      assert a == [a[0]] + a[1..] && b == [b[0]] + b[1..];
      var c, rest := data[0], data[1..];
      if a[0] && b[0] {
        SamePlaces(a[1..], b[1..], [c], rest);
        HeadsAndTails(carry, CutUp(a[1..], [c], rest), carry, CutUp(b[1..], [c], rest));
      } else if !a[0] && !b[0] {
        SamePlaces(a[1..], b[1..], carry + [c], rest);
      } else {
        FirstPiece(if a[0] then b[1..] else a[1..], carry + [c], rest);
      }
    } else {
      assert a == b;
    }
  }

  // ---- Messages ----

  ghost function Concat(messages: seq<seq<Byte>>): seq<Byte> {
    if |messages| == 0 then [] else Concat(messages[..|messages| - 1]) + messages[|messages| - 1]
  }

  lemma {:induction false} ConcatFirst(messages: seq<seq<Byte>>)
    requires |messages| > 0
    ensures Concat(messages) == messages[0] + Concat(messages[1..])
    decreases |messages|
  {
    var n := |messages| - 1;
    if n > 0 {
      ConcatFirst(messages[..n]);
      assert messages[..n][1..] == messages[1..][..n - 1];
      Associative(messages[0], Concat(messages[1..][..n - 1]), messages[n]);
    } else {
      assert messages[..0] == [] && messages[1..] == [];
    }
  }

  lemma {:induction false} StateAppend<S>(step: Stepper<S>, s: S, a: seq<Byte>, b: seq<Byte>)
    ensures StateAfter(step, s, a + b) == StateAfter(step, StateAfter(step, s, a), b)
    decreases |a|
  {
    if |a| == 0 {
      assert a + b == b;
    } else {
      assert (a + b)[1..] == a[1..] + b;
      StateAppend(step, Taking(step, s, a[0]).next, a[1..], b);
    }
  }

  // The state of one splitter that is kept from message to message, before message i.
  ghost function StateBefore<S>(step: Stepper<S>, s: S, messages: seq<seq<Byte>>, i: nat): S
    requires i <= |messages|
  {
    StateAfter(step, s, Concat(messages[..i]))
  }

  // What came before a later message: the first one, and what came in between.
  lemma BeforeLater<S>(step: Stepper<S>, s: S, messages: seq<seq<Byte>>, i: nat)
    requires i < |messages|
    ensures StateBefore(step, s, messages, i)
         == if i == 0 then s else StateBefore(step, StateAfter(step, s, messages[0]), messages[1..], i - 1)
  {
    if i > 0 {
      ConcatFirst(messages[..i]);
      assert messages[..i][1..] == messages[1..][..i - 1];
      StateAppend(step, s, messages[0], Concat(messages[1..][..i - 1]));
    }
  }

  // In both states there is a boundary in front of the same bytes.
  ghost predicate SameCuts<S>(step: Stepper<S>, s: S, t: S, data: seq<Byte>) {
    Cuts(step, false, s, data) == Cuts(step, false, t, data)
  }

  // One splitter kept for all messages, which begins in state s, and a new one in state t for each
  // of them frame the messages alike exactly if each message is cut at the same places.
  lemma {:induction false} MessagesExactly<S(!new)>(step: Stepper<S>, midRecord: S -> bool, s: S, t: S,
                                                    messages: seq<seq<Byte>>)
    requires Clean(step, midRecord) && Lawful(ScanInput(step), midRecord)
    ensures OneSplitter(ScanInput(step), midRecord, s, messages)
            == FreshSplitters(ScanInput(step), midRecord, t, messages)
            <==> forall i :: 0 <= i < |messages| ==> SameCuts(step, StateBefore(step, s, messages, i), t, messages[i])
    decreases |messages|
  {
    if |messages| > 0 {
      var s', m, rest := StateAfter(step, s, messages[0]), messages[0], messages[1..];
      FramesArePieces(step, midRecord, s, [], m);
      FramesArePieces(step, midRecord, t, [], m);
      SamePlaces(Cuts(step, false, s, m), Cuts(step, false, t, m), [], m);
      MessagesExactly(step, midRecord, s', t, rest);
      assert Pieces(step, s, [], m) == Pieces(step, t, [], m) <==> SameCuts(step, s, t, m);
      hide Frames, Complete, Pieces, Lawful, Clean, StateAfter, StateBefore, SameCuts;
      HeadsAndTails(Pieces(step, s, [], m), OneSplitter(ScanInput(step), midRecord, s', rest),
                    Pieces(step, t, [], m), FreshSplitters(ScanInput(step), midRecord, t, rest));
      BeforeLater(step, s, messages, 0);
      forall i | 0 <= i < |rest|
        ensures StateBefore(step, s, messages, i + 1) == StateBefore(step, s', rest, i) && messages[i + 1] == rest[i]
      {
        BeforeLater(step, s, messages, i + 1);
      }
      assert forall i :: 0 < i < |messages| ==> messages[i] == rest[i - 1];
    }
  }
}
