/** Breaking a byte stream into chunks of whole records with a splitter. */
module Framing {
  import opened Options

  type Byte = b: int | 0 <= b < 256

  const NEWLINE: Byte := 10

  // A splitter: from its state and the data presented, its next state and the boundary found.
  type Input<!S> = (S, seq<Byte>) -> (S, Option<nat>)

  // What a splitter owes its callers: a boundary lies within the data.
  ghost predicate Bounded<S(!new)>(input: Input<S>) {
    forall s, d :: input(s, d).1.Some? ==> input(s, d).1.value <= |d|
  }

  // The unreturned bytes, how many of them the splitter has seen, and the splitter's state.
  datatype Framer<S> = Framer(pending: seq<Byte>, fed: nat, state: S)

  ghost predicate Ok<S>(f: Framer<S>) { f.fed <= |f.pending| }

  ghost function Append<S>(f: Framer<S>, data: seq<Byte>): Framer<S> { f.(pending := f.pending + data) }

  // The splitter has seen n more bytes, and is now in state s.
  ghost function Seen<S>(f: Framer<S>, n: nat, s: S): Framer<S> { Framer(f.pending, f.fed + n, s) }

  // The bytes seen are handed out.
  ghost function Cut<S>(f: Framer<S>): (Framer<S>, Option<seq<Byte>>)
    requires Ok(f)
  {
    (Framer(f.pending[f.fed..], 0, f.state), Some(f.pending[..f.fed]))
  }

  // `next`: the framer and the chunk returned.
  ghost function Next<S(!new)>(input: Input<S>, f: Framer<S>, eoi: bool): (Framer<S>, Option<seq<Byte>>)
    requires Ok(f) && Bounded(input)
  {
    var (s, r) := input(f.state, f.pending[f.fed..]);
    match r
    case Some(n) => Cut(Seen(f, n, s))
    case None =>
      var f' := Seen(f, |f.pending| - f.fed, s);
      if eoi && |f.pending| > 0 then Cut(f') else (f', None)
  }

  // Bytes written into a buffer behind its first `hi` ones, as seen from `lo` on.
  lemma Written<T>(buffer: seq<T>, lo: nat, fed: nat, hi: nat, bytes: seq<T>)
    requires lo <= fed <= hi && hi + |bytes| <= |buffer|
    ensures var after := buffer[..hi] + bytes + buffer[hi + |bytes|..];
            && |after| == |buffer| && after[lo..hi + |bytes|] == buffer[lo..hi] + bytes
            && after[lo..fed] == buffer[lo..fed]
  {
  }

  lemma Extended<T>(fragment: seq<T>, fed: nat, data: seq<T>)
    requires fed <= |fragment|
    ensures (fragment + data)[0..|fragment + data|] == fragment + data
    ensures (fragment + data)[0..fed] == fragment[0..fed] && fragment[0..|fragment|] == fragment
  {
  }

  // A fragment moved to the front of its buffer.
  lemma Moved<T>(buffer: seq<T>, lo: nat, fed: nat, hi: nat)
    requires lo <= fed <= hi <= |buffer|
    ensures var after := buffer[lo..hi] + buffer[hi - lo..];
            && |after| == |buffer| && after[..hi - lo] == after[0..hi - lo] == buffer[lo..hi]
            && after[0..fed - lo] == buffer[lo..fed]
  {
  }

  /** The stream splitter: a buffer, of which a fragment is still to be returned. */
  class StreamSplitter<S(!new)> {
    var buffer: seq<Byte>
    var start: nat
    var fragmentStart: nat
    var fragmentEnd: nat
    var fed: nat
    var state: S
    const input: Input<S>
    const clear: S -> S

    // History since the last seek: where it went to, the bytes supplied, the bytes returned, and
    // the bytes the splitter has taken in.
    ghost var origin: nat
    ghost var supplied: seq<Byte>
    ghost var returned: seq<Byte>
    ghost var takenIn: seq<Byte>

    ghost function View(): Framer<S>
      requires fragmentStart <= fed && fragmentStart <= fragmentEnd <= |buffer|
      reads this
    {
      Framer(buffer[fragmentStart..fragmentEnd], fed - fragmentStart, state)
    }

    // Bytes returned and bytes pending are the bytes supplied; the position counts the bytes
    // returned; and the splitter has taken in each byte up to `fed` once, in order.
    ghost predicate Valid()
      reads this
    {
      && fragmentStart <= fed <= fragmentEnd <= |buffer|
      && supplied == returned + buffer[fragmentStart..fragmentEnd]
      && takenIn == returned + buffer[fragmentStart..fed]
      && start + fragmentStart == origin + |returned|
    }

    constructor (input: Input<S>, clear: S -> S, initial: S)
      ensures Valid() && View() == Framer([], 0, initial) && this.input == input && this.clear == clear
      ensures origin == 0 && supplied == returned == []
    {
      buffer, start, fragmentStart, fragmentEnd, fed := [], 0, 0, 0, 0;
      this.input, this.clear, state := input, clear, initial;
      origin, supplied, returned, takenIn := 0, [], [], [];
    }

    method NextChunk(eoi: bool) returns (chunk: Option<seq<Byte>>)
      requires Valid() && Bounded(input)
      modifies this
      ensures Valid() && supplied == old(supplied) && origin == old(origin)
      ensures (View(), chunk) == Next(input, old(View()), eoi)
      ensures returned == old(returned) + if chunk.Some? then chunk.value else []
    {
      var data := buffer[fed..fragmentEnd];
      assert data == View().pending[View().fed..];
      hide Valid;
      var (s, r) := input(state, data);
      match r
      case Some(n) =>
        var c := TakeInAndReturn(n, s);
        chunk := Some(c);
      case None =>
        if eoi && fragmentStart < fragmentEnd {
          var c := TakeInAndReturn(fragmentEnd - fed, s);
          chunk := Some(c);
        } else {
          TakeIn(fragmentEnd - fed, s);
          chunk := None;
        }
    }

    method TakeInAndReturn(n: nat, s: S) returns (chunk: seq<Byte>)
      requires Valid() && fed + n <= fragmentEnd
      modifies this
      ensures Valid() && supplied == old(supplied) && origin == old(origin)
      ensures (View(), Some(chunk)) == Cut(Seen(old(View()), n, s))
      ensures returned == old(returned) + chunk
    {
      TakeIn(n, s);
      chunk := ReturnUpToFed();
    }

    // The splitter has gone over n more bytes.
    method TakeIn(n: nat, s: S)
      requires Valid() && fed + n <= fragmentEnd
      modifies this`fed, this`state, this`takenIn
      ensures Valid() && View() == Seen(old(View()), n, s)
      ensures takenIn == old(takenIn) + old(View()).pending[old(View()).fed..old(View()).fed + n]
    {
      assert buffer[fragmentStart..fed + n] == buffer[fragmentStart..fed] + buffer[fed..fed + n];
      takenIn := takenIn + buffer[fed..fed + n];
      fed, state := fed + n, s;
    }

    // Hands out the fragment up to `fed`.
    method ReturnUpToFed() returns (chunk: seq<Byte>)
      requires Valid()
      modifies this`fragmentStart, this`returned
      ensures Valid() && (View(), Some(chunk)) == Cut(old(View()))
      ensures returned == old(returned) + chunk
    {
      chunk := buffer[fragmentStart..fed];
      assert buffer[fragmentStart..fragmentEnd] == chunk + buffer[fed..fragmentEnd];
      fragmentStart := fed;
      returned := returned + chunk;
    }

    // Bytes that fit go behind the fragment.
    method Store(bytes: seq<Byte>)
      requires Valid() && fragmentEnd + |bytes| <= |buffer|
      modifies this`buffer, this`fragmentEnd, this`supplied
      ensures Valid() && View() == Append(old(View()), bytes) && supplied == old(supplied) + bytes
      ensures |buffer| == old(|buffer|) && fragmentEnd == old(fragmentEnd) + |bytes|
    {
      Written(buffer, fragmentStart, fed, fragmentEnd, bytes);
      ghost var fragment := buffer[fragmentStart..fragmentEnd];
      assert returned + (fragment + bytes) == (returned + fragment) + bytes;
      buffer := buffer[..fragmentEnd] + bytes + buffer[fragmentEnd + |bytes|..];
      fragmentEnd := fragmentEnd + |bytes|;
      supplied := supplied + bytes;
    }

    // The fragment moves to the front of the buffer.
    method MoveToFront()
      requires Valid()
      modifies this`buffer, this`fed, this`start, this`fragmentStart, this`fragmentEnd
      ensures Valid() && View() == old(View()) && fragmentStart == 0 && |buffer| == old(|buffer|)
    {
      Moved(buffer, fragmentStart, fed, fragmentEnd);
      var len := fragmentEnd - fragmentStart;
      buffer := buffer[fragmentStart..fragmentEnd] + buffer[len..];
      fed := fed - fragmentStart;
      start := start + fragmentStart;
      fragmentStart, fragmentEnd := 0, len;
    }

    method AppendData(data: seq<Byte>)
      requires Valid()
      modifies this
      ensures Valid() && View() == Append(old(View()), data)
      ensures supplied == old(supplied) + data && returned == old(returned) && origin == old(origin)
    {
      // `copy_within` to the front, `resize` to the fragment, `extend` by the data
      MoveToFront();
      ghost var fragment := buffer[..fragmentEnd];
      assert returned + (fragment + data) == (returned + fragment) + data;
      Extended(fragment, fed, data);
      buffer := buffer[..fragmentEnd];
      buffer := buffer + data;
      fragmentEnd := |buffer|;
      supplied := supplied + data;
    }

    // Space for reading: the fragment moves to the front, and a full buffer grows. `capacity`
    // is that of the vector.
    method MakeSpace(bufferSize: nat, capacity: nat)
      requires Valid() && capacity >= |buffer|
      modifies this`buffer, this`fed, this`start, this`fragmentStart, this`fragmentEnd
      ensures Valid() && View() == old(View()) && fragmentStart == 0
    {
      if fragmentStart != 0 { MoveToFront(); }
      if fragmentEnd - fragmentStart == |buffer| {
        var size := if bufferSize >= capacity * 2 then bufferSize else capacity * 2;
        buffer := buffer + seq(size - |buffer|, _ => 0);
      }
    }

    // `read`: `file` is what the file has to offer, of which the system delivers `delivered`
    // bytes or, as `failed` says, an error.
    method Read(file: seq<Byte>, bufferSize: nat, capacity: nat, limit: nat, delivered: nat, failed: bool)
      returns (n: Option<nat>)
      requires Valid() && capacity >= |buffer|
      modifies this
      ensures Valid() && returned == old(returned) && origin == old(origin)
      ensures n.None? <==> failed
      ensures n.Some? ==> n.value <= |file| && n.value <= limit && n.value <= delivered
      ensures n.Some? ==> n.value in {|file|, limit, delivered} || fragmentEnd == |buffer|
      ensures var got := if n.None? then [] else file[..n.value];
              View() == Append(old(View()), got) && supplied == old(supplied) + got
    {
      MakeSpace(bufferSize, capacity);
      var space := |buffer| - fragmentEnd;
      if space > limit {
        space := limit;
      }
      if failed {
        return None;
      }
      var k := if delivered < space then delivered else space;
      if k > |file| { k := |file|; }
      Store(file[..k]);
      n := Some(k);
    }

    function Position(): (p: nat)
      reads this
      ensures Valid() ==> p == origin + |returned|
    {
      start + fragmentStart
    }

    // `seek`, and with offset 0 `reset`.
    method Seek(offset: nat)
      requires Valid()
      modifies this
      ensures Valid() && View() == Framer([], 0, clear(old(state))) && Position() == offset
      ensures origin == offset && supplied == returned == []
    {
      start := offset;
      fragmentStart, fragmentEnd := 0, 0;
      fed := 0;
      state := clear(state);
      origin, supplied, returned, takenIn := offset, [], [], [];
    }
  }
}
