/** What the chunks of a stream depend on: framing does not depend on how the input is cut up. */
module FramingLaws {
  import opened Framing
  import opened Options

  // Beyond being bounded: empty data has no boundary and leaves the splitter alone, and a
  // boundary before the first byte is found only in a state marked by `midRecord`, and leads
  // out of it.
  ghost predicate Lawful<S(!new)>(input: Input<S>, midRecord: S -> bool) {
    && Bounded(input)
    && (forall s :: input(s, []) == (s, None))
    && (forall s, d :: input(s, d).1 == Some(0) ==> midRecord(s) && !midRecord(input(s, d).0))
  }

  ghost function Shift(r: Option<nat>, k: nat): Option<nat> { if r.Some? then Some(k + r.value) else None }

  // Data presented in two parts is treated as if presented at once.
  ghost predicate Streams<S>(input: Input<S>, s: S, a: seq<Byte>, b: seq<Byte>) {
    var (s1, r1) := input(s, a);
    if r1.Some? then input(s, a + b) == (s1, r1)
    else input(s, a + b) == (input(s1, b).0, Shift(input(s1, b).1, |a|))
  }

  ghost predicate Streaming<S(!new)>(input: Input<S>) {
    forall s, a, b :: Streams(input, s, a, b)
  }

  // The chunks of a whole stream, the incomplete record at its end, and the splitter's state.
  datatype Framed<S> = Framed(chunks: seq<seq<Byte>>, rest: seq<Byte>, state: S)

  ghost function Then<S>(chunks: seq<seq<Byte>>, r: Framed<S>): Framed<S> { r.(chunks := chunks + r.chunks) }

  // The reference: `carry` has been seen without finding a boundary, `data` is still to be seen.
  ghost function Frames<S(!new)>(input: Input<S>, midRecord: S -> bool, s: S, carry: seq<Byte>,
                                 data: seq<Byte>): Framed<S>
    requires Lawful(input, midRecord)
    decreases |data|, midRecord(s)
  {
    var (s', r) := input(s, data);
    match r
    case None => Framed([], carry + data, s')
    case Some(n) => Then([carry + data[..n]], Frames(input, midRecord, s', [], data[n..]))
  }

  ghost function FramesOf<S(!new)>(input: Input<S>, midRecord: S -> bool, f: Framer<S>, more: seq<Byte>): Framed<S>
    requires Lawful(input, midRecord) && Ok(f)
  {
    Frames(input, midRecord, f.state, f.pending[..f.fed], f.pending[f.fed..] + more)
  }

  // ---- Any interleaving of supplying bytes and asking for chunks ----

  datatype Op = Supply(data: seq<Byte>) | Poll

  ghost function Supplied(ops: seq<Op>): seq<Byte> {
    if |ops| == 0 then [] else (if ops[0].Supply? then ops[0].data else []) + Supplied(ops[1..])
  }

  ghost function Step<S(!new)>(input: Input<S>, f: Framer<S>, op: Op): (r: (Framer<S>, seq<seq<Byte>>))
    requires Bounded(input) && Ok(f)
    ensures Ok(r.0)
  {
    match op
    case Supply(data) => (Append(f, data), [])
    case Poll =>
      var (f', chunk) := Next(input, f, false);
      (f', if chunk.Some? then [chunk.value] else [])
  }

  ghost function Run<S(!new)>(input: Input<S>, f: Framer<S>, ops: seq<Op>): (r: (Framer<S>, seq<seq<Byte>>))
    requires Bounded(input) && Ok(f)
    ensures Ok(r.0)
    decreases |ops|
  {
    if |ops| == 0 then (f, [])
    else
      var (f1, c1) := Step(input, f, ops[0]);
      var (f2, c2) := Run(input, f1, ops[1..]);
      (f2, c1 + c2)
  }

  lemma PollFrames<S(!new)>(input: Input<S>, midRecord: S -> bool, f: Framer<S>, more: seq<Byte>)
    requires Lawful(input, midRecord) && Streaming(input) && Ok(f)
    ensures var (f', c) := Step(input, f, Poll);
            FramesOf(input, midRecord, f, more) == Then(c, FramesOf(input, midRecord, f', more))
  {
    var carry, data := f.pending[..f.fed], f.pending[f.fed..];
    var (s', r) := input(f.state, data);
    assert Streams(input, f.state, data, more);
    if r.Some? {
      var n := r.value;
      PollCut(input, midRecord, f, more);
    } else {
      PollNone(input, midRecord, f.state, carry, data, more);
      var f' := Seen(f, |f.pending| - f.fed, s');
      assert f'.pending[..f'.fed] == carry + data;
      assert f'.pending[f'.fed..] + more == more;
      var g := FramesOf(input, midRecord, f', more);
      assert [] + g.chunks == g.chunks;
    }
  }

  lemma PollCut<S(!new)>(input: Input<S>, midRecord: S -> bool, f: Framer<S>, more: seq<Byte>)
    requires Lawful(input, midRecord) && Ok(f) && Streams(input, f.state, f.pending[f.fed..], more)
    requires input(f.state, f.pending[f.fed..]).1.Some?
    ensures var (f', c) := Step(input, f, Poll);
            FramesOf(input, midRecord, f, more) == Then(c, FramesOf(input, midRecord, f', more))
  {
    var carry, data := f.pending[..f.fed], f.pending[f.fed..];
    var (s', r) := input(f.state, data);
    var n := r.value;
    assert (data + more)[..n] == data[..n] && (data + more)[n..] == data[n..] + more;
    var (f', c) := Step(input, f, Poll);
    assert f'.pending == data[n..] && f'.fed == 0 && f'.state == s';
    assert f'.pending[..0] == [] && f'.pending[0..] + more == data[n..] + more;
    assert f.pending[..f.fed + n] == carry + data[..n];
  }

  // Seeing data without finding a boundary moves it from the data to the carry.
  lemma PollNone<S(!new)>(input: Input<S>, midRecord: S -> bool, s: S, carry: seq<Byte>, data: seq<Byte>,
                          more: seq<Byte>)
    requires Lawful(input, midRecord) && Streams(input, s, data, more) && input(s, data).1.None?
    ensures Frames(input, midRecord, s, carry, data + more)
         == Frames(input, midRecord, input(s, data).0, carry + data, more)
  {
    var s' := input(s, data).0;
    var r := input(s', more).1;
    if r.Some? {
      var n := r.value;
      assert (data + more)[..|data| + n] == data + more[..n];
      assert (data + more)[|data| + n..] == more[n..];
      assert carry + (data + more[..n]) == carry + data + more[..n];
    } else {
      assert carry + (data + more) == carry + data + more;
    }
  }

  lemma SupplyFrames<S(!new)>(input: Input<S>, midRecord: S -> bool, f: Framer<S>, d: seq<Byte>, more: seq<Byte>)
    requires Lawful(input, midRecord) && Ok(f)
    ensures FramesOf(input, midRecord, f, d + more) == FramesOf(input, midRecord, Append(f, d), more)
  {
    var f1 := Append(f, d);
    assert f1.pending[..f1.fed] == f.pending[..f.fed];
    assert f1.pending[f1.fed..] + more == f.pending[f.fed..] + (d + more);
  }

  lemma ThenThen<S>(a: seq<seq<Byte>>, b: seq<seq<Byte>>, r: Framed<S>)
    ensures Then(a, Then(b, r)) == Then(a + b, r) && Then([], r) == r
  {
    assert a + (b + r.chunks) == a + b + r.chunks && [] + r.chunks == r.chunks;
  }

  lemma StepFrames<S(!new)>(input: Input<S>, midRecord: S -> bool, f: Framer<S>, op: Op, more: seq<Byte>)
    requires Lawful(input, midRecord) && Streaming(input) && Ok(f)
    ensures var (f', c) := Step(input, f, op);
            FramesOf(input, midRecord, f, (if op.Supply? then op.data else []) + more)
            == Then(c, FramesOf(input, midRecord, f', more))
  {
    var (f', c) := Step(input, f, op);
    if op.Supply? {
      SupplyFrames(input, midRecord, f, op.data, more);
      ThenThen([], [], FramesOf(input, midRecord, f', more));
    } else {
      PollFrames(input, midRecord, f, more);
      assert [] + more == more;
    }
  }

  // Whatever the interleaving of supplies and polls, the chunks returned so far, followed by
  // the frames of what is left, are the frames of everything supplied, seen as one piece.
  lemma {:induction false} CutIndependence<S(!new)>(input: Input<S>, midRecord: S -> bool, f: Framer<S>, ops: seq<Op>)
    requires Lawful(input, midRecord) && Streaming(input) && Ok(f)
    ensures var (g, chunks) := Run(input, f, ops);
            FramesOf(input, midRecord, f, Supplied(ops)) == Then(chunks, FramesOf(input, midRecord, g, []))
    decreases |ops|
  {
    if |ops| == 0 {
      ThenThen([], [], FramesOf(input, midRecord, f, []));
    } else {
      var (f1, c1) := Step(input, f, ops[0]);
      var (g, c2) := Run(input, f1, ops[1..]);
      StepFrames(input, midRecord, f, ops[0], Supplied(ops[1..]));
      CutIndependence(input, midRecord, f1, ops[1..]);
      ThenThen(c1, c2, FramesOf(input, midRecord, g, []));
    }
  }

  // No boundary is left to be found.
  ghost predicate Drained<S>(input: Input<S>, f: Framer<S>)
    requires Ok(f)
  {
    input(f.state, f.pending[f.fed..]).1.None?
  }

  // Two ways of supplying the same bytes give the same chunks, once polled dry, and leave the
  // same incomplete record.
  lemma SameBytesSameChunks<S(!new)>(input: Input<S>, midRecord: S -> bool, f: Framer<S>, a: seq<Op>, b: seq<Op>)
    requires Lawful(input, midRecord) && Streaming(input) && Ok(f)
    requires Supplied(a) == Supplied(b)
    requires Drained(input, Run(input, f, a).0) && Drained(input, Run(input, f, b).0)
    ensures Run(input, f, a).1 == Run(input, f, b).1
    ensures Run(input, f, a).0.pending == Run(input, f, b).0.pending
  {
    CutIndependence(input, midRecord, f, a);
    CutIndependence(input, midRecord, f, b);
    DrainedRest(input, midRecord, Run(input, f, a).0);
    DrainedRest(input, midRecord, Run(input, f, b).0);
    assert Run(input, f, a).1 + [] == Run(input, f, a).1;
    assert Run(input, f, b).1 + [] == Run(input, f, b).1;
  }

  lemma DrainedRest<S(!new)>(input: Input<S>, midRecord: S -> bool, g: Framer<S>)
    requires Lawful(input, midRecord) && Ok(g) && Drained(input, g)
    ensures FramesOf(input, midRecord, g, []).chunks == [] && FramesOf(input, midRecord, g, []).rest == g.pending
  {
    assert g.pending[g.fed..] + [] == g.pending[g.fed..];
    assert g.pending[..g.fed] + g.pending[g.fed..] == g.pending;
  }
}
