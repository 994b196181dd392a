/** The framing loops of the two preprocessed parsers, and when they frame alike. */
module ParseLoops {
  import opened Framing
  import opened FramingLaws
  import LineSplitting
  import opened Options
  import opened Sequences

  // The chunks of a complete input: the incomplete record at its end is a chunk too.
  ghost function Complete<S>(r: Framed<S>): seq<seq<Byte>> {
    r.chunks + if |r.rest| == 0 then [] else [r.rest]
  }

  lemma CompleteThen<S>(c: seq<seq<Byte>>, r: Framed<S>)
    ensures Complete(Then(c, r)) == c + Complete(r)
  {
    var e := if |r.rest| == 0 then [] else [r.rest];
    assert c + r.chunks + e == c + (r.chunks + e);
  }

  lemma CompleteCut<S(!new)>(input: Input<S>, midRecord: S -> bool, s: S, carry: seq<Byte>, data: seq<Byte>)
    requires Lawful(input, midRecord) && input(s, data).1.Some?
    ensures var (s', r) := input(s, data);
            Complete(Frames(input, midRecord, s, carry, data))
            == [carry + data[..r.value]] + Complete(Frames(input, midRecord, s', [], data[r.value..]))
    ensures var (s', r) := input(s, data);
            Frames(input, midRecord, s, carry, data).state == Frames(input, midRecord, s', [], data[r.value..]).state
  {
    var (s', r) := input(s, data);
    CompleteThen([carry + data[..r.value]], Frames(input, midRecord, s', [], data[r.value..]));
  }

  // What a framer holds, seen as complete: the chunks, and the state they leave the splitter in.
  ghost function Chunks<S(!new)>(input: Input<S>, midRecord: S -> bool, f: Framer<S>): seq<seq<Byte>>
    requires Lawful(input, midRecord) && Ok(f)
  {
    Complete(Frames(input, midRecord, f.state, f.pending[..f.fed], f.pending[f.fed..]))
  }

  ghost function EndState<S(!new)>(input: Input<S>, midRecord: S -> bool, f: Framer<S>): S
    requires Lawful(input, midRecord) && Ok(f)
  {
    Frames(input, midRecord, f.state, f.pending[..f.fed], f.pending[f.fed..]).state
  }

  lemma NothingGiven<S(!new)>(input: Input<S>, midRecord: S -> bool, s: S, data: seq<Byte>)
    requires Lawful(input, midRecord) && |data| == 0
    ensures input(s, data) == (s, None)
  {
    assert data == [];
  }

  // Data without a boundary is all rest.
  lemma FramesNothing<S(!new)>(input: Input<S>, midRecord: S -> bool, s: S, carry: seq<Byte>, data: seq<Byte>, s': S)
    requires Lawful(input, midRecord) && input(s, data) == (s', None)
    ensures Frames(input, midRecord, s, carry, data) == Framed([], carry + data, s')
  {
  }

  lemma NothingFramed<S(!new)>(input: Input<S>, midRecord: S -> bool, s: S, carry: seq<Byte>, data: seq<Byte>)
    requires Lawful(input, midRecord) && |carry| == |data| == 0
    ensures |Complete(Frames(input, midRecord, s, carry, data))| == 0
    ensures Frames(input, midRecord, s, carry, data).state == s
  {
    NothingGiven(input, midRecord, s, data);
    FramesNothing(input, midRecord, s, carry, data, s);
    hide Lawful, Frames;
  }

  lemma NothingPending<S(!new)>(input: Input<S>, midRecord: S -> bool, f: Framer<S>)
    requires Lawful(input, midRecord) && Ok(f) && |f.pending| == 0
    ensures |Chunks(input, midRecord, f)| == 0 && EndState(input, midRecord, f) == f.state
  {
    hide Lawful, Frames, Complete;
    NothingFramed(input, midRecord, f.state, f.pending[..f.fed], f.pending[f.fed..]);
  }

  lemma CutFramer<S(!new)>(input: Input<S>, f: Framer<S>)
    requires Bounded(input) && Ok(f) && input(f.state, f.pending[f.fed..]).1.Some?
    ensures var carry, data := f.pending[..f.fed], f.pending[f.fed..];
            var (s', r) := input(f.state, data);
            Next(input, f, true) == (Framer(data[r.value..], 0, s'), Some(carry + data[..r.value]))
  {
    var (s', r) := input(f.state, f.pending[f.fed..]);
    SliceApart(f.pending, f.fed, r.value);
  }

  lemma SliceApart<T>(s: seq<T>, i: nat, n: nat)
    requires i + n <= |s|
    ensures s[..i + n] == s[..i] + s[i..][..n] && s[i + n..] == s[i..][n..]
  {
  }

  lemma ChunksFromStart<S(!new)>(input: Input<S>, midRecord: S -> bool, pending: seq<Byte>, s: S)
    requires Lawful(input, midRecord)
    ensures Chunks(input, midRecord, Framer(pending, 0, s)) == Complete(Frames(input, midRecord, s, [], pending))
    ensures EndState(input, midRecord, Framer(pending, 0, s)) == Frames(input, midRecord, s, [], pending).state
  {
    hide Lawful, Frames, Complete;
    assert pending[..0] == [] && pending[0..] == pending;
  }

  // At the end of input, a boundary found cuts off the first of the chunks ...
  lemma CutAtEnd<S(!new)>(input: Input<S>, midRecord: S -> bool, f: Framer<S>)
    requires Lawful(input, midRecord) && Ok(f) && input(f.state, f.pending[f.fed..]).1.Some?
    ensures var (f', c) := Next(input, f, true);
            && Ok(f') && c.Some?
            && Chunks(input, midRecord, f) == [c.value] + Chunks(input, midRecord, f')
            && EndState(input, midRecord, f) == EndState(input, midRecord, f')
            && (|f'.pending| < |f.pending|
                || (f'.pending == f.pending && midRecord(f.state) && !midRecord(f'.state)))
  {
    hide Frames, Complete, Next;
    var carry, data := f.pending[..f.fed], f.pending[f.fed..];
    var (s', r) := input(f.state, data);
    CompleteCut(input, midRecord, f.state, carry, data);
    CutFramer(input, f);
    ChunksFromStart(input, midRecord, data[r.value..], s');
  }

  // ... and without one what is pending is the only chunk, if it is anything.
  lemma RestAtEnd<S(!new)>(input: Input<S>, midRecord: S -> bool, f: Framer<S>)
    requires Lawful(input, midRecord) && Ok(f) && input(f.state, f.pending[f.fed..]).1.None?
    ensures var (f', c) := Next(input, f, true);
            && Ok(f') && f'.pending == [] && f'.state == EndState(input, midRecord, f)
            && Chunks(input, midRecord, f) == (if c.Some? then [c.value] else [])
            && (c.Some? ==> |f'.pending| < |f.pending|)
  {
    var carry, data := f.pending[..f.fed], f.pending[f.fed..];
    assert carry + data == f.pending;
    var (f', c) := Next(input, f, true);
    assert f.pending != [] ==> f.pending[|f.pending|..] == [];
    assert [] + [f.pending] == [f.pending];
    assert f.pending != [] ==> f.pending[..|f.pending|] == f.pending;
  }

  lemma NextAtEnd<S(!new)>(input: Input<S>, midRecord: S -> bool, f: Framer<S>)
    requires Lawful(input, midRecord) && Ok(f)
    ensures var (f', c) := Next(input, f, true);
            && Ok(f')
            && Chunks(input, midRecord, f) == (if c.Some? then [c.value] else []) + Chunks(input, midRecord, f')
            && EndState(input, midRecord, f) == EndState(input, midRecord, f')
            && (c.None? ==> f'.pending == [])
            && (c.Some? && |f'.pending| >= |f.pending| ==>
                  f'.pending == f.pending && midRecord(f.state) && !midRecord(f'.state))
  {
    if input(f.state, f.pending[f.fed..]).1.Some? {
      CutAtEnd(input, midRecord, f);
    } else {
      RestAtEnd(input, midRecord, f);
      NothingPending(input, midRecord, Next(input, f, true).0);
    }
  }

  // One turn of the loop below.
  method NextOfComplete<S(!new)>(splitter: StreamSplitter<S>, ghost midRecord: S -> bool)
    returns (chunk: Option<seq<Byte>>)
    requires splitter.Valid() && Lawful(splitter.input, midRecord)
    modifies splitter
    ensures splitter.Valid()
    ensures var before, after := old(splitter.View()), splitter.View();
            && Chunks(splitter.input, midRecord, before)
               == (if chunk.Some? then [chunk.value] else []) + Chunks(splitter.input, midRecord, after)
            && EndState(splitter.input, midRecord, before) == EndState(splitter.input, midRecord, after)
            && (chunk.None? ==> after.pending == [])
            && (chunk.Some? && |after.pending| >= |before.pending| ==>
                  after.pending == before.pending && midRecord(before.state) && !midRecord(after.state))
  {
    assert Bounded(splitter.input);
    hide Lawful, Bounded, Chunks, EndState, Next;
    NextAtEnd(splitter.input, midRecord, splitter.View());
    chunk := splitter.NextChunk(true);
  }

  // The loop of the streaming parser: it appends the data to its own splitter and takes every
  // chunk out of it, treating the data as complete.
  method StreamingParse<S(!new)>(splitter: StreamSplitter<S>, data: seq<Byte>, ghost midRecord: S -> bool)
    returns (chunks: seq<seq<Byte>>)
    requires splitter.Valid() && Lawful(splitter.input, midRecord)
    modifies splitter
    ensures splitter.Valid() && splitter.View().pending == []
    ensures var all := Append(old(splitter.View()), data);
            && chunks == Chunks(splitter.input, midRecord, all)
            && splitter.View().state == EndState(splitter.input, midRecord, all)
  {
    hide Lawful, Chunks, EndState;
    splitter.AppendData(data);
    ghost var all, input := splitter.View(), splitter.input;
    chunks := [];
    var more := true;
    while more
      invariant splitter.Valid()
      invariant Chunks(input, midRecord, all) == chunks + Chunks(input, midRecord, splitter.View())
      invariant EndState(input, midRecord, all) == EndState(input, midRecord, splitter.View())
      invariant !more ==> splitter.View().pending == []
      decreases more, |splitter.View().pending|, midRecord(splitter.View().state)
    {
      var chunk := NextOfComplete(splitter, midRecord);
      if chunk.Some? {
        Associative(chunks, [chunk.value], Chunks(input, midRecord, splitter.View()));
        chunks := chunks + [chunk.value];
      } else {
        NothingAdded(chunks, [], Chunks(input, midRecord, splitter.View()));
        more := false;
      }
    }
    NothingPending(input, midRecord, splitter.View());
    NothingAdded(chunks, Chunks(input, midRecord, splitter.View()), []);
  }

  // How much of the data the message-oriented parser takes as the next chunk.
  function Offset(r: Option<nat>, data: seq<Byte>): nat { if r.Some? then r.value else |data| }

  // Data without a boundary is one chunk.
  lemma CompleteRest<S(!new)>(input: Input<S>, midRecord: S -> bool, s: S, data: seq<Byte>, s': S)
    requires Lawful(input, midRecord) && |data| > 0 && input(s, data) == (s', None)
    ensures Complete(Frames(input, midRecord, s, [], data)) == [data]
  {
    FramesNothing(input, midRecord, s, [], data, s');
    hide Lawful, Frames;
    assert [] + data == data && [] + [data] == [data];
  }

  lemma MessageStep<S(!new)>(input: Input<S>, midRecord: S -> bool, s: S, data: seq<Byte>)
    requires Lawful(input, midRecord) && |data| > 0
    ensures var (s', r) := input(s, data);
            && Offset(r, data) <= |data|
            && Complete(Frames(input, midRecord, s, [], data))
               == [data[..Offset(r, data)]] + Complete(Frames(input, midRecord, s', [], data[Offset(r, data)..]))
  {
    hide Frames, Complete;
    var (s', r) := input(s, data);
    if r.Some? {
      CompleteCut(input, midRecord, s, [], data);
      assert [] + data[..r.value] == data[..r.value];
    } else {
      CompleteRest(input, midRecord, s, data, s');
      NothingFramed(input, midRecord, s', [], data[|data|..]);
      NothingAdded([data], Complete(Frames(input, midRecord, s', [], data[|data|..])), []);
      assert data[..|data|] == data;
    }
  }

  // The loop of the message-oriented parser: a new splitter for each message, and the data it
  // finds no boundary in is the last chunk.
  method MessageParse<S(!new)>(input: Input<S>, initial: S, data: seq<Byte>, ghost midRecord: S -> bool)
    returns (chunks: seq<seq<Byte>>)
    requires Lawful(input, midRecord)
    ensures chunks == Complete(Frames(input, midRecord, initial, [], data))
  {
    hide Complete, Frames;
    var s, remaining := initial, data;
    chunks := [];
    while |remaining| > 0
      invariant Complete(Frames(input, midRecord, initial, [], data))
             == chunks + Complete(Frames(input, midRecord, s, [], remaining))
      decreases |remaining|, midRecord(s)
    {
      var (s', r) := input(s, remaining);
      MessageStep(input, midRecord, s, remaining);
      var offset := Offset(r, remaining);
      Associative(chunks, [remaining[..offset]], Complete(Frames(input, midRecord, s', [], remaining[offset..])));
      chunks := chunks + [remaining[..offset]];
      s, remaining := s', remaining[offset..];
    }
    NothingPending(input, midRecord, Framer(remaining, 0, s));
  }

  // ---- Several messages ----

  // The chunks of each message, by one splitter kept from message to message.
  ghost function OneSplitter<S(!new)>(input: Input<S>, midRecord: S -> bool, s: S,
                                      messages: seq<seq<Byte>>): (r: seq<seq<seq<Byte>>>)
    requires Lawful(input, midRecord)
    ensures |r| == |messages|
    decreases |messages|
  {
    if |messages| == 0 then []
    else
      var r := Frames(input, midRecord, s, [], messages[0]);
      [Complete(r)] + OneSplitter(input, midRecord, r.state, messages[1..])
  }

  // ... and by a fresh splitter for each.
  ghost function FreshSplitters<S(!new)>(input: Input<S>, midRecord: S -> bool, s: S,
                                         messages: seq<seq<Byte>>): (r: seq<seq<seq<Byte>>>)
    requires Lawful(input, midRecord)
    ensures |r| == |messages|
  {
    if |messages| == 0 then []
    else [Complete(Frames(input, midRecord, s, [], messages[0]))] + FreshSplitters(input, midRecord, s, messages[1..])
  }

  // A splitter without state makes no difference between the two.
  lemma {:induction false} StatelessFramesAlike(input: Input<()>, midRecord: (()) -> bool, messages: seq<seq<Byte>>)
    requires Lawful(input, midRecord)
    ensures OneSplitter(input, midRecord, (), messages) == FreshSplitters(input, midRecord, (), messages)
  {
    if |messages| > 0 {
      assert Frames(input, midRecord, (), [], messages[0]).state == ();
      StatelessFramesAlike(input, midRecord, messages[1..]);
    }
  }

  ghost predicate NoMiddle(s: ()) { false }

  // The line splitter and the sponge are of this kind.
  lemma LinesAndSpongeFrameAlike(messages: seq<seq<Byte>>)
    ensures Lawful(LineSplitting.LineInput(), NoMiddle) && Lawful(LineSplitting.SpongeInput(), NoMiddle)
    ensures OneSplitter(LineSplitting.LineInput(), NoMiddle, (), messages)
         == FreshSplitters(LineSplitting.LineInput(), NoMiddle, (), messages)
    ensures OneSplitter(LineSplitting.SpongeInput(), NoMiddle, (), messages)
         == FreshSplitters(LineSplitting.SpongeInput(), NoMiddle, (), messages)
  {
    StatelessFramesAlike(LineSplitting.LineInput(), NoMiddle, messages);
    StatelessFramesAlike(LineSplitting.SpongeInput(), NoMiddle, messages);
  }
}
