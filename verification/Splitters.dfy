/** Splitters that decide byte by byte: CSV and JSON. */
module ByteSplitters {
  import opened Framing
  import opened FramingLaws
  import opened Options

  // What one byte does: nothing, or end a record after it or before it.
  datatype Verdict<S> = Continue(next: S) | After(next: S) | Before(next: S)

  type Stepper<!S> = (S, Byte) -> Verdict<S>

  ghost function Scan<S>(step: Stepper<S>, s: S, data: seq<Byte>): (S, Option<nat>) {
    if |data| == 0 then (s, None)
    else
      match step(s, data[0])
      case After(s') => (s', Some(1))
      case Before(s') => (s', Some(0))
      case Continue(s') => var (t, r) := Scan(step, s', data[1..]); (t, Shift(r, 1))
  }

  ghost function ScanInput<S>(step: Stepper<S>): Input<S> { (s, d) => Scan(step, s, d) }

  ghost predicate LawfulStep<S(!new)>(step: Stepper<S>, midRecord: S -> bool) {
    forall s, c :: step(s, c).Before? ==> midRecord(s) && !midRecord(step(s, c).next)
  }

  lemma {:induction false} ScanStreams<S>(step: Stepper<S>, s: S, a: seq<Byte>, b: seq<Byte>)
    ensures Streams(ScanInput(step), s, a, b)
    decreases |a|
  {
    if |a| == 0 {
      assert a + b == b;
    } else {
      assert (a + b)[1..] == a[1..] + b;
      if step(s, a[0]).Continue? {
        ScanStreams(step, step(s, a[0]).next, a[1..], b);
      }
    }
  }

  lemma {:induction false} ScanBounds<S>(step: Stepper<S>, s: S, d: seq<Byte>)
    ensures Scan(step, s, d).1.Some? ==> Scan(step, s, d).1.value <= |d|
    ensures Scan(step, s, d).1 == Some(0) ==> step(s, d[0]) == Before(Scan(step, s, d).0)
    decreases |d|
  {
    if d != [] && step(s, d[0]).Continue? {
      ScanBounds(step, step(s, d[0]).next, d[1..]);
    }
  }

  // Every byte-wise splitter treats data in parts as it treats it at once, and keeps its contract.
  lemma ScanIsLawful<S(!new)>(step: Stepper<S>, midRecord: S -> bool)
    requires LawfulStep(step, midRecord)
    ensures Streaming(ScanInput(step)) && Lawful(ScanInput(step), midRecord)
  {
    forall s, a, b ensures Streams(ScanInput(step), s, a, b) { ScanStreams(step, s, a, b); }
    forall s, d
      ensures ScanInput(step)(s, d).1.Some? ==> ScanInput(step)(s, d).1.value <= |d|
      ensures ScanInput(step)(s, d).1 == Some(0) ==> midRecord(s) && !midRecord(ScanInput(step)(s, d).0)
    {
      ScanBounds(step, s, d);
    }
  }

  // The part of a scan that starts at i.
  ghost function From<S>(step: Stepper<S>, s: S, data: seq<Byte>, i: nat): (S, Option<nat>)
    requires i <= |data|
  {
    (Scan(step, s, data[i..]).0, Shift(Scan(step, s, data[i..]).1, i))
  }

  lemma FromStep<S>(step: Stepper<S>, s: S, data: seq<Byte>, i: nat)
    requires i < |data|
    ensures From(step, s, data, i) ==
            match step(s, data[i])
            case After(s') => (s', Some(i + 1))
            case Before(s') => (s', Some(i))
            case Continue(s') => From(step, s', data, i + 1)
  {
    assert data[i..][0] == data[i] && data[i..][1..] == data[i + 1..];
  }

  lemma FromEnds<S>(step: Stepper<S>, s: S, data: seq<Byte>)
    ensures From(step, s, data, 0) == Scan(step, s, data)
    ensures From(step, s, data, |data|) == (s, None)
  {
    assert data[0..] == data && data[|data|..] == [];
  }

  // ---- CSV ----

  const QUOTE: Byte := 34
  const BACKSLASH: Byte := 92

  datatype Csv = Csv(quoted: bool, headers: bool)

  // A new-line ends a record unless it is quoted; the first record, a header, is not ended.
  function CsvStep(s: Csv, c: Byte): Verdict<Csv> {
    if c == QUOTE then Continue(s.(quoted := !s.quoted))
    else if c == NEWLINE && !s.quoted then
      if s.headers then Continue(s.(headers := false)) else After(s)
    else Continue(s)
  }

  method CsvInput(s: Csv, data: seq<Byte>) returns (s': Csv, r: Option<nat>)
    ensures (s', r) == Scan(CsvStep, s, data)
  {
    s', r := s, None;
    FromEnds(CsvStep, s, data);
    for offset := 0 to |data|
      invariant From(CsvStep, s', data, offset) == Scan(CsvStep, s, data)
    {
      var c := data[offset];
      FromStep(CsvStep, s', data, offset);
      if c == QUOTE {
        s' := s'.(quoted := !s'.quoted);
      } else if c == NEWLINE && !s'.quoted {
        if s'.headers {
          s' := s'.(headers := false);
        } else {
          return s', Some(offset + 1);
        }
      }
    }
    FromEnds(CsvStep, s', data);
  }

  // A boundary always follows the new-line it comes from.
  ghost predicate Never(s: Csv) { false }

  lemma CsvLawful()
    ensures Streaming(ScanInput(CsvStep)) && Lawful(ScanInput(CsvStep), Never)
  {
    ScanIsLawful(CsvStep, Never);
  }

  // ---- JSON ----

  datatype Json = Start | Value(nest: nat) | Quote(nest: nat) | Backslash(nest: nat)

  datatype Class = Space | Left | Right | QuoteMark | BackslashMark | Other

  function Classify(c: Byte): Class {
    if c == 9 || c == 10 || c == 12 || c == 13 || c == 32 then Space
    else if c == 91 || c == 123 then Left
    else if c == 93 || c == 125 then Right
    else if c == QUOTE then QuoteMark
    else if c == BACKSLASH then BackslashMark
    else Other
  }

  function JsonStep(s: Json, c: Byte): Verdict<Json> {
    match s
    case Quote(n) => Continue(if c == QUOTE then Value(n) else if c == BACKSLASH then Backslash(n) else s)
    case Backslash(n) => Continue(Quote(n))
    case Start =>
      Continue(match Classify(c) case Space => s case Left => Value(1) case QuoteMark => Quote(0) case _ => Value(0))
    case Value(n) =>
      var cc := Classify(c);
      if cc == Other then Continue(s)
      else if n == 0 then Before(Start)
      else if cc == Right then (if n == 1 then After(Start) else Continue(Value(n - 1)))
      else if cc == Left then Continue(Value(n + 1))
      else if cc == QuoteMark then Continue(Quote(n))
      else Continue(s)
  }

  // `parse_string`: goes over the rest of a string, up to and including its closing quote.
  method ParseString(s: Json, data: seq<Byte>, start: nat) returns (s': Json, i: nat)
    requires start <= |data| && (s.Quote? || s.Backslash?)
    ensures start <= i <= |data|
    ensures s'.Value? || (i == |data| && (s'.Quote? || s'.Backslash?))
    ensures From(JsonStep, s', data, i) == From(JsonStep, s, data, start)
  {
    s', i := s, start;
    while i < |data|
      invariant start <= i <= |data| && (s'.Quote? || s'.Backslash?)
      invariant From(JsonStep, s', data, i) == From(JsonStep, s, data, start)
    {
      var c := data[i];
      FromStep(JsonStep, s', data, i);
      i := i + 1;
      if s'.Quote? && c == QUOTE {
        s' := Value(s'.nest);
        return;
      } else if s'.Quote? && c == BACKSLASH {
        s' := Backslash(s'.nest);
      } else if s'.Backslash? {
        s' := Quote(s'.nest);
      }
    }
  }

  method JsonInput(s: Json, data: seq<Byte>) returns (s': Json, r: Option<nat>)
    ensures (s', r) == Scan(JsonStep, s, data)
  {
    s', r := s, None;
    var i: nat := 0;
    FromEnds(JsonStep, s, data);
    if s'.Quote? || s'.Backslash? {
      s', i := ParseString(s', data, i);
    }
    while i < |data|
      invariant i <= |data|
      invariant i < |data| ==> s'.Start? || s'.Value?
      invariant From(JsonStep, s', data, i) == Scan(JsonStep, s, data)
      decreases |data| - i
    {
      var c, index := Classify(data[i]), i;
      FromStep(JsonStep, s', data, i);
      i := i + 1;
      match s'
      case Start =>
        match c {
          case Space =>
          case Left => s' := Value(1);
          case QuoteMark => s', i := ParseString(Quote(0), data, i);
          case _ => s' := Value(0);
        }
      case Value(nest) =>
        if nest == 0 {
          if c != Other {
            return Start, Some(index);
          }
        } else if c == Right {
          if nest == 1 {
            return Start, Some(index + 1);
          }
          s' := Value(nest - 1);
        } else if c == Left {
          s' := Value(nest + 1);
        } else if c == QuoteMark {
          s', i := ParseString(Quote(nest), data, i);
        }
      case _ =>
        // "unexpected JsonSplitter state"
        assert false;
    }
    FromEnds(JsonStep, s', data);
  }

  // The splitter may end a number or a word in front of the first byte it is given next.
  ghost predicate InWord(s: Json) { s == Value(0) }

  lemma JsonLawful()
    ensures Streaming(ScanInput(JsonStep)) && Lawful(ScanInput(JsonStep), InWord)
  {
    ScanIsLawful(JsonStep, InWord);
  }
}

/** The line splitter groups lines into chunks, but the lines are the same however input arrives. */
module LineSplitting {
  import opened Framing
  import opened FramingLaws
  import opened Options
  import opened Sequences

  // `rposition` of a new-line, plus one: the end of the last complete line.
  function LastLineEnd(data: seq<Byte>): (r: Option<nat>)
    ensures r.Some? ==> 0 < r.value <= |data| && data[r.value - 1] == NEWLINE && NEWLINE !in data[r.value..]
    ensures r.None? ==> NEWLINE !in data
  {
    if |data| == 0 then None
    else if data[|data| - 1] == NEWLINE then Some(|data|)
    else LastLineEnd(data[..|data| - 1])
  }

  // The splitter has no state.
  ghost function LineInput(): Input<()> { (s, d) => (s, LastLineEnd(d)) }

  ghost function SpongeInput(): Input<()> { (s, d) => (s, None) }

  lemma LineBounded()
    ensures Bounded(LineInput())
  {
  }

  // ---- Lines ----

  ghost predicate EndsLine(d: seq<Byte>) { d != [] && d[|d| - 1] == NEWLINE }

  ghost function FirstLineEnd(d: seq<Byte>): (n: nat)
    requires NEWLINE in d
    ensures 0 < n <= |d| && d[n - 1] == NEWLINE && forall i :: 0 <= i < n - 1 ==> d[i] != NEWLINE
  {
    if d[0] == NEWLINE then 1 else 1 + FirstLineEnd(d[1..])
  }

  // The lines of some data, each with its new-line; the last may be incomplete.
  ghost function Lines(d: seq<Byte>): seq<seq<Byte>>
    decreases |d|
  {
    if |d| == 0 then []
    else if NEWLINE !in d then [d]
    else [d[..FirstLineEnd(d)]] + Lines(d[FirstLineEnd(d)..])
  }

  ghost function LinesAll(chunks: seq<seq<Byte>>): seq<seq<Byte>> {
    if |chunks| == 0 then [] else Lines(chunks[0]) + LinesAll(chunks[1..])
  }

  ghost function Flatten(chunks: seq<seq<Byte>>): seq<Byte> {
    if |chunks| == 0 then [] else chunks[0] + Flatten(chunks[1..])
  }

  lemma FirstLineEndUnique(d: seq<Byte>, n: nat)
    requires 0 < n <= |d| && d[n - 1] == NEWLINE && forall i :: 0 <= i < n - 1 ==> d[i] != NEWLINE
    ensures NEWLINE in d && FirstLineEnd(d) == n
  {
    assert d[n - 1] in d;
    var m := FirstLineEnd(d);
    assert d[m - 1] == NEWLINE;
  }

  // The first line of a + b, when a has one.
  lemma FirstLineOfSum(a: seq<Byte>, b: seq<Byte>)
    requires NEWLINE in a
    ensures var n := FirstLineEnd(a); Lines(a + b) == [a[..n]] + Lines(a[n..] + b)
  {
    var n := FirstLineEnd(a);
    assert (a + b)[n - 1] == NEWLINE;
    FirstLineEndUnique(a + b, n);
    assert (a + b)[..n] == a[..n] && (a + b)[n..] == a[n..] + b;
  }

  lemma LinesFirst(d: seq<Byte>)
    requires NEWLINE in d
    ensures Lines(d) == [d[..FirstLineEnd(d)]] + Lines(d[FirstLineEnd(d)..])
  {
  }

  lemma NoLines(d: seq<Byte>)
    requires |d| == 0
    ensures |Lines(d)| == 0
  {
  }

  lemma {:induction false} LinesAppend(a: seq<Byte>, b: seq<Byte>)
    requires EndsLine(a)
    ensures Lines(a + b) == Lines(a) + Lines(b)
    decreases |a|
  {
    assert a[|a| - 1] in a;
    var n := FirstLineEnd(a);
    var line, more := a[..n], a[n..];
    FirstLineOfSum(a, b);
    LinesFirst(a);
    hide Lines;
    if |more| > 0 {
      assert more[|more| - 1] == a[|a| - 1];
      LinesAppend(more, b);
    } else {
      NoLines(more);
      assert more + b == b;
      NothingAdded([line], Lines(more), Lines(b));
    }
    Associative([line], Lines(more), Lines(b));
  }

  lemma {:induction false} LinesOfChunks(chunks: seq<seq<Byte>>, rest: seq<Byte>)
    requires forall i :: 0 <= i < |chunks| ==> EndsLine(chunks[i])
    ensures Lines(Flatten(chunks) + rest) == LinesAll(chunks) + Lines(rest)
    decreases |chunks|
  {
    hide Lines;
    if |chunks| == 0 {
      assert Flatten(chunks) + rest == rest;
    } else {
      var first, tail := chunks[0], Flatten(chunks[1..]);
      LinesOfChunks(chunks[1..], rest);
      Associative(first, tail, rest);
      LinesAppend(first, tail + rest);
      Associative(Lines(first), LinesAll(chunks[1..]), Lines(rest));
    }
  }

  lemma {:induction false} FlattenAppend(a: seq<seq<Byte>>, b: seq<seq<Byte>>)
    ensures Flatten(a + b) == Flatten(a) + Flatten(b)
  {
    if |a| == 0 {
      assert a + b == b;
    } else {
      assert (a + b)[1..] == a[1..] + b;
      FlattenAppend(a[1..], b);
    }
  }

  // For any splitter: the chunks returned and the bytes pending are the bytes supplied.
  lemma {:induction false} RunConserves<S(!new)>(input: Input<S>, f: Framer<S>, ops: seq<Op>)
    requires Bounded(input) && Ok(f)
    ensures var (g, chunks) := Run(input, f, ops);
            Flatten(chunks) + g.pending == f.pending + Supplied(ops)
    decreases |ops|
  {
    if |ops| == 0 {
      assert f.pending + [] == f.pending;
    } else {
      var (f1, c1) := Step(input, f, ops[0]);
      var (g, c2) := Run(input, f1, ops[1..]);
      RunConserves(input, f1, ops[1..]);
      FlattenAppend(c1, c2);
      StepConserves(input, f, ops[0]);
      Glue(Flatten(c1), Flatten(c2), f.pending, f1.pending, g.pending,
           if ops[0].Supply? then ops[0].data else [], Supplied(ops[1..]));
    }
  }

  lemma Glue(c1: seq<Byte>, c2: seq<Byte>, p: seq<Byte>, p1: seq<Byte>, p2: seq<Byte>, x: seq<Byte>, y: seq<Byte>)
    requires c1 + p1 == p + x && c2 + p2 == p1 + y
    ensures (c1 + c2) + p2 == p + (x + y)
  {
    assert (c1 + c2) + p2 == c1 + (c2 + p2) == (c1 + p1) + y == p + (x + y);
  }

  lemma StepConserves<S(!new)>(input: Input<S>, f: Framer<S>, op: Op)
    requires Bounded(input) && Ok(f)
    ensures var (f', c) := Step(input, f, op);
            Flatten(c) + f'.pending == f.pending + if op.Supply? then op.data else []
  {
    var (f', c) := Step(input, f, op);
    if |c| > 0 { assert Flatten(c) == c[0] + Flatten(c[1..]) == c[0]; }
  }

  lemma {:induction false} ChunksEndLines(f: Framer<()>, ops: seq<Op>, i: nat)
    requires Ok(f) && Bounded(LineInput()) && i < |Run(LineInput(), f, ops).1|
    ensures EndsLine(Run(LineInput(), f, ops).1[i])
    decreases |ops|
  {
    var (f1, c1) := Step(LineInput(), f, ops[0]);
    if i >= |c1| {
      ChunksEndLines(f1, ops[1..], i - |c1|);
    } else {
      var n := LastLineEnd(f.pending[f.fed..]).value;
      assert c1[i] == f.pending[..f.fed + n];
      assert f.pending[f.fed + n - 1] == f.pending[f.fed..][n - 1];
    }
  }

  lemma {:induction false} SpongeReturnsNothing(f: Framer<()>, ops: seq<Op>)
    requires Ok(f) && Bounded(SpongeInput())
    ensures |Run(SpongeInput(), f, ops).1| == 0
    decreases |ops|
  {
    if |ops| > 0 {
      SpongeReturnsNothing(Step(SpongeInput(), f, ops[0]).0, ops[1..]);
    }
  }

  // The sponge keeps all data together until the end of input.
  lemma SpongeKeepsEverything(ops: seq<Op>)
    ensures Bounded(SpongeInput())
    ensures var (g, chunks) := Run(SpongeInput(), Framer([], 0, ()), ops);
            |chunks| == 0 && g.pending == Supplied(ops)
  {
    var f := Framer([], 0, ());
    SpongeReturnsNothing(f, ops);
    RunConserves(SpongeInput(), f, ops);
    var (g, chunks) := Run(SpongeInput(), f, ops);
    assert |Flatten(chunks)| == 0;
    assert Flatten(chunks) + g.pending == g.pending && f.pending + Supplied(ops) == Supplied(ops);
  }

  // However the input is cut up and whenever chunks are asked for, the lines of the chunks and
  // of what is pending (which `next` returns at the end of input) are the lines of the input.
  lemma LinesDoNotDependOnCuts(ops: seq<Op>)
    ensures Bounded(LineInput())
    ensures var (g, chunks) := Run(LineInput(), Framer([], 0, ()), ops);
            && LinesAll(chunks) + Lines(g.pending) == Lines(Supplied(ops))
            && forall i :: 0 <= i < |chunks| ==> EndsLine(chunks[i])
  {
    LineBounded();
    var f := Framer([], 0, ());
    var (g, chunks) := Run(LineInput(), f, ops);
    forall i | 0 <= i < |chunks| ensures EndsLine(chunks[i]) { ChunksEndLines(f, ops, i); }
    RunConserves(LineInput(), f, ops);
    LinesOfChunks(chunks, g.pending);
    assert [] + Supplied(ops) == Supplied(ops);
  }
}
