/** Where JSON values end, told from the bytes alone: by strings, brackets and white space. */
module JsonText {
  import opened ByteSplitters
  import opened Framing
  import opened FramingLaws
  import opened Options

  // ---- Strings and brackets ----

  predicate White(c: Byte) { c == 9 || c == 10 || c == 12 || c == 13 || c == 32 }

  predicate Opening(c: Byte) { c == 91 || c == 123 }

  predicate Closing(c: Byte) { c == 93 || c == 125 }

  // A byte of a number or a name.
  predicate WordByte(c: Byte) { !White(c) && !Opening(c) && !Closing(c) && c != 34 && c != 92 }

  // A quote that is not escaped begins or ends a string, and byte i is inside a string if the number
  // of those in front of it is odd.
  ghost predicate InString(data: seq<Byte>, i: nat)
    requires i <= |data|
    decreases i, 1
  {
    Delimiters(data, i) % 2 == 1
  }

  // Inside a string a backslash that is not itself escaped escapes the next byte.
  ghost predicate Escaped(data: seq<Byte>, i: nat)
    requires i <= |data|
    decreases i, 2
  {
    i > 0 && InString(data, i) && data[i - 1] == 92 && !Escaped(data, i - 1)
  }

  ghost function Delimiters(data: seq<Byte>, i: nat): nat
    requires i <= |data|
    decreases i, 0
  {
    if i == 0 then 0
    else Delimiters(data, i - 1) + if data[i - 1] == 34 && !Escaped(data, i - 1) then 1 else 0
  }

  // Opening less closing brackets outside strings, in front of byte i.
  ghost function Depth(data: seq<Byte>, i: nat): int
    requires i <= |data|
  {
    if i == 0 then 0
    else
      Depth(data, i - 1)
      + if InString(data, i - 1) then 0
        else if Opening(data[i - 1]) then 1 else if Closing(data[i - 1]) then -1 else 0
  }

  // ---- One byte ----

  // The state that the splitter is in in front of byte i of a value.
  ghost function At(data: seq<Byte>, i: nat): Json
    requires i <= |data| && Depth(data, i) >= 0
  {
    var d: nat := Depth(data, i);
    if Escaped(data, i) then Backslash(d) else if InString(data, i) then Quote(d) else Value(d)
  }

  // What byte i does to strings and brackets.
  lemma ByteAt(data: seq<Byte>, i: nat)
    requires i < |data|
    ensures InString(data, i + 1) <==> (InString(data, i) != (data[i] == 34 && !Escaped(data, i)))
    ensures Escaped(data, i + 1) <==> InString(data, i + 1) && data[i] == 92 && !Escaped(data, i)
    ensures Depth(data, i + 1) == Depth(data, i)
            + if InString(data, i) then 0 else if Opening(data[i]) then 1 else if Closing(data[i]) then -1 else 0
    ensures Escaped(data, i) ==> InString(data, i)
  {
  }

  // Inside a value a byte ends it or leads to the next state.
  lemma StepAt(data: seq<Byte>, i: nat)
    requires i < |data| && Depth(data, i) >= 0 && (Depth(data, i) > 0 || InString(data, i))
    ensures Depth(data, i + 1) >= 0
    ensures JsonStep(At(data, i), data[i])
         == if Depth(data, i) > 0 && Depth(data, i + 1) == 0 then After(Start) else Continue(At(data, i + 1))
  {
    ByteAt(data, i);
    hide InString, Escaped, Depth;
  }

  lemma ScanStep(s: Json, data: seq<Byte>, i: nat)
    requires i < |data|
    ensures match JsonStep(s, data[i])
            case After(s') => Scan(JsonStep, s, data[i..]) == (s', Some(1))
            case Before(s') => Scan(JsonStep, s, data[i..]) == (s', Some(0))
            case Continue(s') =>
              Scan(JsonStep, s, data[i..])
              == (Scan(JsonStep, s', data[i + 1..]).0, Shift(Scan(JsonStep, s', data[i + 1..]).1, 1))
  {
    assert data[i..][0] == data[i] && data[i..][1..] == data[i + 1..];
    hide JsonStep;
  }

  // ---- Arrays and objects ----

  // As many brackets are closed as were opened in front of byte i.
  ghost predicate Balanced(data: seq<Byte>, i: nat)
    requires i <= |data|
  {
    Depth(data, i) == 0
  }

  // The first place after i where no bracket is open.
  ghost function FirstZero(data: seq<Byte>, i: nat): Option<nat>
    requires i <= |data|
    decreases |data| - i
  {
    if i == |data| then None else if Balanced(data, i + 1) then Some(i + 1) else FirstZero(data, i + 1)
  }

  lemma {:induction false} FirstZeroMeans(data: seq<Byte>, i: nat, n: nat)
    requires i <= |data|
    ensures FirstZero(data, i) == Some(n) <==>
            i < n <= |data| && Balanced(data, n) && forall j :: i < j < n ==> !Balanced(data, j)
    decreases |data| - i
  {
    hide Balanced;
    if i < |data| && !Balanced(data, i + 1) { FirstZeroMeans(data, i + 1, n); }
  }

  // What a scan finds, that goes on at byte i: a boundary at n, or none.
  ghost predicate Finds(s: Json, data: seq<Byte>, i: nat, end: Option<nat>)
    requires i <= |data|
  {
    var (s', r) := Scan(JsonStep, s, data[i..]);
    match end
    case None => r == None
    case Some(n) => n >= i && r == Some(n - i) && s' == Start
  }

  lemma FindsLater(s: Json, data: seq<Byte>, i: nat, s': Json, end: Option<nat>)
    requires i < |data| && JsonStep(s, data[i]) == Continue(s') && Finds(s', data, i + 1, end)
    ensures Finds(s, data, i, end)
  {
    ScanStep(s, data, i);
    hide JsonStep, Scan;
  }

  lemma {:induction false} ContainerFrom(data: seq<Byte>, i: nat)
    requires i <= |data| && Depth(data, i) > 0
    ensures Finds(At(data, i), data, i, FirstZero(data, i))
    decreases |data| - i
  {
    if i < |data| {
      StepAt(data, i);
      if Depth(data, i + 1) == 0 {
        ScanStep(At(data, i), data, i);
      } else {
        ContainerFrom(data, i + 1);
        hide Depth, At, Finds, JsonStep;
        FindsLater(At(data, i), data, i, At(data, i + 1), FirstZero(data, i + 1));
      }
    }
  }

  // ---- Words and strings at top level ----

  // The first byte from i on that is not one of a word.
  ghost function WordEnd(data: seq<Byte>, i: nat): Option<nat>
    requires i <= |data|
    decreases |data| - i
  {
    if i == |data| then None else if !WordByte(data[i]) then Some(i) else WordEnd(data, i + 1)
  }

  lemma {:induction false} WordEndMeans(data: seq<Byte>, i: nat, n: nat)
    requires i <= |data|
    ensures WordEnd(data, i) == Some(n) <==>
            i <= n < |data| && !WordByte(data[n]) && forall j :: i <= j < n ==> WordByte(data[j])
    decreases |data| - i
  {
    if i < |data| && WordByte(data[i]) { WordEndMeans(data, i + 1, n); }
  }

  lemma {:induction false} WordFrom(data: seq<Byte>, i: nat)
    requires i <= |data|
    ensures Finds(Value(0), data, i, WordEnd(data, i))
    decreases |data| - i
  {
    if i < |data| {
      if WordByte(data[i]) {
        WordFrom(data, i + 1);
        FindsLater(Value(0), data, i, Value(0), WordEnd(data, i + 1));
      } else {
        ScanStep(Value(0), data, i);
      }
    }
  }

  ghost predicate Outside(data: seq<Byte>, i: nat)
    requires i <= |data|
  {
    !InString(data, i)
  }

  // The first place after i that is outside strings.
  ghost function StringEnd(data: seq<Byte>, i: nat): Option<nat>
    requires i <= |data|
    decreases |data| - i
  {
    if i == |data| then None else if Outside(data, i + 1) then Some(i + 1) else StringEnd(data, i + 1)
  }

  lemma {:induction false} StringEndMeans(data: seq<Byte>, i: nat, q: nat)
    requires i <= |data|
    ensures StringEnd(data, i) == Some(q) <==>
            i < q <= |data| && Outside(data, q) && forall j :: i < j < q ==> !Outside(data, j)
    ensures StringEnd(data, i).Some? ==> i < StringEnd(data, i).value <= |data|
    decreases |data| - i
  {
    hide Outside;
    if i < |data| && !Outside(data, i + 1) { StringEndMeans(data, i + 1, q); }
  }

  // A string at top level goes on as a word.
  ghost function StringWordEnd(data: seq<Byte>, i: nat): Option<nat>
    requires i <= |data|
  {
    StringEndMeans(data, i, 0);
    var q := StringEnd(data, i);
    if q.None? then None else WordEnd(data, q.value)
  }

  lemma {:induction false} StringFrom(data: seq<Byte>, i: nat)
    requires i <= |data| && Depth(data, i) == 0 && InString(data, i)
    ensures Finds(At(data, i), data, i, StringWordEnd(data, i))
    decreases |data| - i
  {
    if i < |data| {
      StepAt(data, i);
      ByteAt(data, i);
      if InString(data, i + 1) {
        StringFrom(data, i + 1);
      } else {
        WordFrom(data, i + 1);
      }
      hide Depth, InString, Escaped, Finds, JsonStep, WordEnd;
      FindsLater(At(data, i), data, i, At(data, i + 1), StringWordEnd(data, i));
    }
  }

  // ---- From the start ----

  ghost predicate Leading(data: seq<Byte>, p: nat) {
    p <= |data| && (forall i :: 0 <= i < p ==> White(data[i])) && (p < |data| ==> !White(data[p]))
  }

  lemma {:induction false} NothingInWhite(data: seq<Byte>, i: nat)
    requires i <= |data| && forall j :: 0 <= j < i ==> White(data[j])
    ensures Delimiters(data, i) == 0 && Depth(data, i) == 0 && !InString(data, i) && !Escaped(data, i)
  {
    if i > 0 { NothingInWhite(data, i - 1); }
  }

  lemma {:induction false} WhiteFrom(data: seq<Byte>, i: nat, p: nat, end: Option<nat>)
    requires i <= p <= |data| && (forall j :: i <= j < p ==> White(data[j])) && Finds(Start, data, p, end)
    ensures Finds(Start, data, i, end)
    decreases p - i
  {
    if i < p {
      WhiteFrom(data, i + 1, p, end);
      hide Finds;
      FindsLater(Start, data, i, Start, end);
    }
  }

  // Where the first value of the data ends, if it does, which begins at p.
  ghost function ValueEnd(data: seq<Byte>, p: nat): Option<nat>
    requires p <= |data|
  {
    if p == |data| then None
    else if Opening(data[p]) then FirstZero(data, p)
    else if data[p] == 34 then StringWordEnd(data, p + 1)
    else WordEnd(data, p + 1)
  }

  lemma ValueFrom(data: seq<Byte>, p: nat)
    requires Leading(data, p)
    ensures Finds(Start, data, p, ValueEnd(data, p))
  {
    if p < |data| {
      NothingInWhite(data, p);
      ByteAt(data, p);
      var c := data[p];
      if Opening(c) {
        ContainerFrom(data, p + 1);
        FindsLater(Start, data, p, Value(1), FirstZero(data, p + 1));
      } else if c == 34 {
        StringFrom(data, p + 1);
        FindsLater(Start, data, p, Quote(0), StringWordEnd(data, p + 1));
      } else {
        WordFrom(data, p + 1);
        FindsLater(Start, data, p, Value(0), WordEnd(data, p + 1));
      }
    }
  }

  // The splitter, at the start of a value, finds exactly its end: of an array or object the bracket
  // that closes the first one, of a number or a name the byte after it, and of a string the byte
  // after it and after any bytes of a word that follow it.
  lemma FirstValueEnds(data: seq<Byte>, p: nat, n: nat)
    requires Leading(data, p)
    ensures var r := Scan(JsonStep, Start, data).1;
            && (p == |data| ==> r == None)
            && (p < |data| && Opening(data[p]) ==>
                  (r == Some(n) <==>
                     p < n <= |data| && Balanced(data, n) && forall j :: p < j < n ==> !Balanced(data, j)))
            && (p < |data| && data[p] == 34 ==>
                  (r == Some(n) <==> exists q: nat :: StringAt(data, p, q) && WordAt(data, q, n)))
            && (p < |data| && !Opening(data[p]) && data[p] != 34 ==> (r == Some(n) <==> WordAt(data, p + 1, n)))
  {
    ValueFrom(data, p);
    WhiteFrom(data, 0, p, ValueEnd(data, p));
    assert data[0..] == data;
    if p < |data| {
      FirstZeroMeans(data, p, n);
      WordEndMeans(data, p + 1, n);
      if data[p] == 34 { StringWordMeans(data, p, n); }
    }
  }

  // The string that begins at p is closed right in front of q.
  ghost predicate StringAt(data: seq<Byte>, p: nat, q: nat) {
    p + 1 < q <= |data| && Outside(data, q) && forall j :: p + 1 < j < q ==> !Outside(data, j)
  }

  // The bytes from q on up to n are bytes of a word, and n is not.
  ghost predicate WordAt(data: seq<Byte>, q: nat, n: nat) {
    q <= n < |data| && !WordByte(data[n]) && forall j :: q <= j < n ==> WordByte(data[j])
  }

  lemma StringWordMeans(data: seq<Byte>, p: nat, n: nat)
    requires p < |data|
    ensures StringWordEnd(data, p + 1) == Some(n) <==> exists q: nat :: StringAt(data, p, q) && WordAt(data, q, n)
  {
    StringEndMeans(data, p + 1, 0);
    hide Outside, WordEnd;
    var end := StringEnd(data, p + 1);
    if end.Some? {
      StringEndMeans(data, p + 1, end.value);
      WordEndMeans(data, end.value, n);
      assert StringAt(data, p, end.value);
    }
    forall q: nat | StringAt(data, p, q) && WordAt(data, q, n) ensures end == Some(q) && WordEnd(data, q) == Some(n) {
      StringEndMeans(data, p + 1, q);
      WordEndMeans(data, q, n);
    }
  }
}
