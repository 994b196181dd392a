/** Why the size of an entry is reported before the queue's lock is released. */
module QueueLock {

  // A producer between taking the lock and releasing it, with the size of its entry.
  datatype Holder = Nobody | Locked(size: nat) | Queued(size: nat) | Reported

  // The sizes in the queue, of what the flusher took from it and has neither flushed nor put
  // back, and so far reported and flushed.
  datatype State = State(holder: Holder, queue: seq<nat>, hand: nat, reported: nat, flushed: nat)

  datatype Step = Lock(size: nat) | PushBack | Report | Unlock | Pop | Flush(size: nat) | PutBack

  ghost predicate Enabled(s: State, step: Step) {
    match step
    case Lock(_) => s.holder.Nobody?
    case PushBack => s.holder.Locked?
    case Report => s.holder.Queued?
    case Unlock => s.holder.Reported?
    case Pop => s.holder.Nobody? && |s.queue| > 0
    case Flush(size) => size <= s.hand
    case PutBack => s.holder.Nobody?
  }

  ghost function Take(s: State, step: Step): State
    requires Enabled(s, step)
  {
    match step
    case Lock(size) => s.(holder := Locked(size))
    case PushBack => s.(holder := Queued(s.holder.size), queue := s.queue + [s.holder.size])
    case Report => s.(holder := Reported, reported := s.reported + s.holder.size)
    case Unlock => s.(holder := Nobody)
    case Pop => s.(queue := s.queue[1..], hand := s.hand + s.queue[0])
    case Flush(size) => s.(hand := s.hand - size, flushed := s.flushed + size)
    case PutBack => s.(hand := 0, queue := [s.hand] + s.queue)
  }

  ghost predicate Reaches(s: State, steps: seq<Step>, t: State)
    decreases |steps|
  {
    if |steps| == 0 then s == t else Enabled(s, steps[0]) && Reaches(Take(s, steps[0]), steps[1..], t)
  }

  ghost function Sum(sizes: seq<nat>): nat {
    if |sizes| == 0 then 0 else sizes[0] + Sum(sizes[1..])
  }

  lemma {:induction false} SumSnoc(sizes: seq<nat>, n: nat)
    ensures Sum(sizes + [n]) == Sum(sizes) + n
  {
    if |sizes| == 0 {
      assert (sizes + [n])[1..] == [];
    } else {
      assert (sizes + [n])[1..] == sizes[1..] + [n];
      SumSnoc(sizes[1..], n);
    }
  }

  // Everything but the entry whose size is about to be reported is reported.
  ghost predicate Balanced(s: State) {
    var pending := if s.holder.Queued? then s.holder.size else 0;
    s.flushed + s.hand + Sum(s.queue) == s.reported + pending && pending <= Sum(s.queue)
  }

  lemma StepBalanced(s: State, step: Step)
    requires Balanced(s) && Enabled(s, step)
    ensures Balanced(Take(s, step))
  {
    if step.PushBack? { SumSnoc(s.queue, s.holder.size); }
    if step.PutBack? { assert ([s.hand] + s.queue)[1..] == s.queue; }
  }

  // Whatever the interleaving, no more is flushed than was reported.
  lemma {:induction false} NeverAhead(s: State, steps: seq<Step>, t: State)
    requires Balanced(s) && Reaches(s, steps, t)
    ensures Balanced(t) && t.flushed <= t.reported
    decreases |steps|
  {
    if |steps| > 0 {
      StepBalanced(s, steps[0]);
      NeverAhead(Take(s, steps[0]), steps[1..], t);
    }
  }
}
