/** The token bucket shared by any number of threads: one step is one atomic operation. */
module TokenBucketThreads {
  import opened Arithmetic
  import opened TokenBucket

  // Where a thread is in its call of `check`; each state names its next atomic operation.
  datatype Pc =
    | Idle
    | TakeToken(now: nat, refilled: bool)
    | SwapCount
    | SwapFirst(count: nat)
    | SwapLast(count: nat, first: nat)
    | LoadRefill(now: nat)
    | ExchangeRefill(now: nat, last: nat, tokens: nat)
    | AddTokens(now: nat, tokens: nat)
    | CountSuppressed(now: nat)
    | StoreFirst(now: nat)
    | StoreLast(now: nat)

  datatype Machine = Machine(bucket: Bucket, threads: seq<Pc>, replies: seq<CheckResult>)

  ghost function Start(c: Config, t0: nat, threads: nat): Machine {
    Machine(Fresh(c.maxTokens, t0), seq(threads, _ => Idle), [])
  }

  // The effect of one atomic operation: the bucket, where the thread is next, and its reply, if any.
  datatype Effect = Effect(bucket: Bucket, pc: Pc, reply: seq<CheckResult>)

  ghost function Goto(b: Bucket, pc: Pc): Effect { Effect(b, pc, []) }

  ghost function Reply(b: Bucket, r: CheckResult): Effect { Effect(b, Idle, [r]) }

  // The next operation of a thread; an idle thread calls `check` at time `now`.
  ghost function Operation(c: Config, b: Bucket, pc: Pc, now: nat): Effect
    requires c.interval > 0
  {
    match pc
    case Idle => Goto(b, TakeToken(now, false))
    case TakeToken(n, refilled) =>
      if b.available > 0 then Goto(b.(available := b.available - 1), SwapCount)
      else Goto(b, if refilled then CountSuppressed(n) else LoadRefill(n))
    case SwapCount =>
      var b' := b.(suppressedCount := 0);
      if b.suppressedCount > 0 then Goto(b', SwapFirst(b.suppressedCount)) else Reply(b', Allowed)
    case SwapFirst(count) =>
      Goto(b.(firstSuppressionMs := 0), SwapLast(count, b.firstSuppressionMs))
    case SwapLast(count, first) =>
      Reply(b.(lastSuppressionMs := 0), AllowedAfterSuppression(count, first, b.lastSuppressionMs))
    case LoadRefill(n) =>
      if Earned(c, b, n) == 0 then Goto(b, TakeToken(n, true))
      else Goto(b, ExchangeRefill(n, b.lastRefillMs, Earned(c, b, n)))
    case ExchangeRefill(n, last, tokens) =>
      if b.lastRefillMs == last then Goto(b.(lastRefillMs := n), AddTokens(n, tokens))
      else Goto(b, TakeToken(n, true))
    case AddTokens(n, tokens) =>
      Goto(b.(available := Min(SaturatingAdd(b.available, tokens % U32_MODULUS), c.maxTokens)), TakeToken(n, true))
    case CountSuppressed(n) =>
      Goto(b.(suppressedCount := b.suppressedCount + 1),
           if b.suppressedCount == 0 then StoreFirst(n) else StoreLast(n))
    case StoreFirst(n) => Goto(b.(firstSuppressionMs := n), StoreLast(n))
    case StoreLast(n) => Reply(b.(lastSuppressionMs := n), Suppressed)
  }

  ghost function Apply(m: Machine, t: nat, e: Effect): Machine
    requires t < |m.threads|
  {
    Machine(e.bucket, m.threads[t := e.pc], m.replies + e.reply)
  }

  ghost function Step(c: Config, m: Machine, t: nat, now: nat): Machine
    requires c.interval > 0
  {
    if t < |m.threads| then Apply(m, t, Operation(c, m.bucket, m.threads[t], now)) else m
  }

  // A schedule says which thread moves next and what the clock shows; every interleaving is one.
  type Schedule = seq<(nat, nat)>

  ghost function Exec(c: Config, m: Machine, s: Schedule): Machine
    requires c.interval > 0
    decreases |s|
  {
    if |s| == 0 then m else Exec(c, Step(c, m, s[0].0, s[0].1), s[1..])
  }

  // ---- What the threads hold between their operations ----

  datatype Weight = Tokens | SwappedOut | Counted | Owed(s: nat, t: nat, max: nat)

  // Tokens: earned by a won exchange but not yet added, or taken but not yet reported granted.
  // SwappedOut: a count taken out of the bucket and not yet reported.
  // Counted: a suppression counted but not yet reported.
  // Owed: the most a thread can contribute to the grants from time s to time t by what it did
  // before: a token taken, tokens earned, or a clock reading from outside, which can still refill.
  ghost function Held(w: Weight, pc: Pc): nat {
    match w
    case Tokens =>
      if pc.AddTokens? then pc.tokens else if pc.SwapCount? || pc.SwapFirst? || pc.SwapLast? then 1 else 0
    case SwappedOut => if pc.SwapFirst? || pc.SwapLast? then pc.count else 0
    case Counted => if pc.StoreFirst? || pc.StoreLast? then 1 else 0
    case Owed(s, t, max) =>
      match pc
      case AddTokens(_, tokens) => Min(tokens, max)
      case SwapCount => 1
      case SwapFirst(_) => 1
      case SwapLast(_, _) => 1
      case TakeToken(now, refilled) => if refilled || s <= now <= t then 0 else max
      case LoadRefill(now) => if s <= now <= t then 0 else max
      case ExchangeRefill(now, _, _) => if s <= now <= t then 0 else max
      case _ => 0
  }

  ghost function Sum(w: Weight, threads: seq<Pc>): nat {
    if |threads| == 0 then 0 else Held(w, threads[0]) + Sum(w, threads[1..])
  }

  lemma {:induction false} SumUpdate(w: Weight, threads: seq<Pc>, t: nat, pc: Pc)
    requires t < |threads|
    ensures Sum(w, threads[t := pc]) + Held(w, threads[t]) == Sum(w, threads) + Held(w, pc)
  {
    if t == 0 {
      assert threads[t := pc][1..] == threads[1..];
    } else {
      SumUpdate(w, threads[1..], t - 1, pc);
      assert threads[t := pc][1..] == threads[1..][t - 1 := pc];
    }
  }

  lemma {:induction false} SumIdle(w: Weight, threads: seq<Pc>)
    requires forall t :: 0 <= t < |threads| ==> threads[t] == Idle
    ensures Sum(w, threads) == 0
  {
    if |threads| > 0 { SumIdle(w, threads[1..]); }
  }

  // What a reply says: suppressions reported, calls granted, calls refused.
  ghost function Reported(rs: seq<CheckResult>): nat {
    if |rs| == 0 then 0
    else Reported(rs[..|rs| - 1]) +
         if rs[|rs| - 1].AllowedAfterSuppression? then rs[|rs| - 1].suppressed else 0
  }

  ghost function Granted(rs: seq<CheckResult>): nat {
    if |rs| == 0 then 0 else Granted(rs[..|rs| - 1]) + if rs[|rs| - 1].Granted() then 1 else 0
  }

  ghost function Refused(rs: seq<CheckResult>): nat {
    if |rs| == 0 then 0 else Refused(rs[..|rs| - 1]) + if rs[|rs| - 1].Granted() then 0 else 1
  }

  lemma ReplyCounts(rs: seq<CheckResult>, reply: seq<CheckResult>)
    requires |reply| <= 1
    ensures Granted(rs + reply) == Granted(rs) + Granted(reply)
    ensures Refused(rs + reply) == Refused(rs) + Refused(reply)
    ensures Reported(rs + reply) == Reported(rs) + Reported(reply)
  {
    if |reply| == 0 {
      assert rs + reply == rs;
    } else {
      assert (rs + reply)[..|rs|] == rs && reply[..0] == [];
    }
  }

  // ---- The invariant ----

  ghost predicate GoodPc(c: Config, pc: Pc)
    requires c.interval > 0
  {
    pc.ExchangeRefill? ==> pc.last < pc.now && pc.tokens == (pc.now - pc.last) / c.interval
  }

  // What the time from t0 up to the last refill has earned.
  ghost function EarnedBy(c: Config, t0: nat, b: Bucket): nat
    requires c.interval > 0 && t0 <= b.lastRefillMs
  {
    (b.lastRefillMs - t0) / c.interval
  }

  // Tokens granted, held and available never exceed a full bucket plus what the time up to the
  // last refill has earned.
  ghost predicate TokensBounded(c: Config, t0: nat, m: Machine)
    requires c.interval > 0
  {
    && m.bucket.available <= c.maxTokens
    && t0 <= m.bucket.lastRefillMs
    && Granted(m.replies) + Sum(Tokens, m.threads) + m.bucket.available
       <= c.maxTokens + EarnedBy(c, t0, m.bucket)
  }

  // Suppressions reported, swapped out or stored are exactly the ones counted.
  ghost predicate SuppressionsBalance(m: Machine) {
    Reported(m.replies) + Sum(SwappedOut, m.threads) + m.bucket.suppressedCount
    == Refused(m.replies) + Sum(Counted, m.threads)
  }

  ghost predicate Inv(c: Config, t0: nat, m: Machine)
    requires c.interval > 0
  {
    && (forall t :: 0 <= t < |m.threads| ==> GoodPc(c, m.threads[t]))
    && TokensBounded(c, t0, m)
    && SuppressionsBalance(m)
  }

  // One operation grants, holds and leaves available no more tokens than before, but for the
  // time by which it moves the last refill.
  lemma OperationTokens(c: Config, t0: nat, b: Bucket, pc: Pc, now: nat)
    requires c.interval > 0 && GoodPc(c, pc) && b.available <= c.maxTokens && t0 <= b.lastRefillMs
    ensures var e := Operation(c, b, pc, now);
            && b.lastRefillMs <= e.bucket.lastRefillMs && e.bucket.available <= c.maxTokens && GoodPc(c, e.pc)
            && |e.reply| <= 1
            && Granted(e.reply) + Held(Tokens, e.pc) + e.bucket.available + EarnedBy(c, t0, b)
               <= Held(Tokens, pc) + b.available + EarnedBy(c, t0, e.bucket)
  {
    var e := Operation(c, b, pc, now);
    if |e.reply| > 0 { assert e.reply[..0] == []; }
    match pc
    case ExchangeRefill(n, last, tokens) =>
      if b.lastRefillMs == last { DivSum(last - t0, n - last, c.interval); }
    case AddTokens(n, tokens) =>
      assert tokens % U32_MODULUS <= tokens;
    case _ =>
  }

  // A refill that other threads interfere with loses tokens only to the size of the bucket: the
  // saturation of the 32-bit sum never matters.
  lemma AdditionLosesNothing(c: Config, b: Bucket, now: nat, n: nat, tokens: nat)
    requires c.interval > 0 && b.available <= c.maxTokens
    ensures var e := Operation(c, b, AddTokens(n, tokens), now);
            && e.bucket == b.(available := e.bucket.available) && e.pc == TakeToken(n, true) && e.reply == []
            && (e.bucket.available == b.available + tokens % U32_MODULUS
                || (e.bucket.available == c.maxTokens < b.available + tokens % U32_MODULUS))
  {
  }

  lemma OperationSuppressions(c: Config, b: Bucket, pc: Pc, now: nat)
    requires c.interval > 0
    ensures var e := Operation(c, b, pc, now);
            && |e.reply| <= 1
            && Reported(e.reply) + Held(SwappedOut, e.pc) + e.bucket.suppressedCount + Held(Counted, pc)
               == Held(SwappedOut, pc) + b.suppressedCount + Refused(e.reply) + Held(Counted, e.pc)
  {
    var e := Operation(c, b, pc, now);
    if |e.reply| > 0 { assert e.reply[..0] == []; }
  }

  // Replacing one thread's share of the sums by what its operation leaves.
  lemma ApplyTokens(m: Machine, t: nat, e: Effect, before: nat, after: nat, max: nat)
    requires t < |m.threads| && |e.reply| <= 1
    requires Granted(e.reply) + Held(Tokens, e.pc) + e.bucket.available + before
             <= Held(Tokens, m.threads[t]) + m.bucket.available + after
    requires Granted(m.replies) + Sum(Tokens, m.threads) + m.bucket.available <= max + before
    ensures var m' := Apply(m, t, e);
            Granted(m'.replies) + Sum(Tokens, m'.threads) + m'.bucket.available <= max + after
  {
    ReplyCounts(m.replies, e.reply);
    SumUpdate(Tokens, m.threads, t, e.pc);
  }

  lemma ApplySuppressions(m: Machine, t: nat, e: Effect)
    requires t < |m.threads| && |e.reply| <= 1 && SuppressionsBalance(m)
    requires Reported(e.reply) + Held(SwappedOut, e.pc) + e.bucket.suppressedCount + Held(Counted, m.threads[t])
             == Held(SwappedOut, m.threads[t]) + m.bucket.suppressedCount + Refused(e.reply) + Held(Counted, e.pc)
    ensures SuppressionsBalance(Apply(m, t, e))
  {
    ReplyCounts(m.replies, e.reply);
    SumUpdate(SwappedOut, m.threads, t, e.pc);
    SumUpdate(Counted, m.threads, t, e.pc);
  }

  lemma StepInv(c: Config, t0: nat, m: Machine, t: nat, now: nat)
    requires c.interval > 0 && Inv(c, t0, m)
    ensures Inv(c, t0, Step(c, m, t, now))
    ensures Step(c, m, t, now).bucket.lastRefillMs >= m.bucket.lastRefillMs
  {
    hide Operation, Sum, Held, Granted, Refused, Reported, EarnedBy, GoodPc;
    if t < |m.threads| {
      var e := Operation(c, m.bucket, m.threads[t], now);
      OperationTokens(c, t0, m.bucket, m.threads[t], now);
      OperationSuppressions(c, m.bucket, m.threads[t], now);
      ApplyTokens(m, t, e, EarnedBy(c, t0, m.bucket), EarnedBy(c, t0, e.bucket), c.maxTokens);
      ApplySuppressions(m, t, e);
    }
  }

  lemma {:induction false} ExecInv(c: Config, t0: nat, m: Machine, s: Schedule)
    requires c.interval > 0 && Inv(c, t0, m)
    ensures Inv(c, t0, Exec(c, m, s))
    ensures Exec(c, m, s).bucket.lastRefillMs >= m.bucket.lastRefillMs
    decreases |s|
  {
    if |s| > 0 {
      StepInv(c, t0, m, s[0].0, s[0].1);
      ExecInv(c, t0, Step(c, m, s[0].0, s[0].1), s[1..]);
    }
  }

  lemma StartInv(c: Config, t0: nat, threads: nat)
    requires c.interval > 0
    ensures Inv(c, t0, Start(c, t0, threads))
  {
    forall w ensures Sum(w, Start(c, t0, threads).threads) == 0 {
      SumIdle(w, Start(c, t0, threads).threads);
    }
  }

  // In every interleaving of any number of threads, at every point of it: the bucket never holds
  // more than its capacity; calls granted, tokens in flight and tokens available are bounded by
  // the capacity plus the time up to the last refill; and no suppression is lost or reported twice.
  lemma Safety(c: Config, t0: nat, threads: nat, s: Schedule)
    requires c.interval > 0
    ensures var m := Exec(c, Start(c, t0, threads), s);
            TokensBounded(c, t0, m) && SuppressionsBalance(m)
  {
    StartInv(c, t0, threads);
    ExecInv(c, t0, Start(c, t0, threads), s);
  }

  lemma {:induction false} ExecAppend(c: Config, m: Machine, s: Schedule, u: Schedule)
    requires c.interval > 0
    ensures Exec(c, m, s + u) == Exec(c, Exec(c, m, s), u)
    decreases |s|
  {
    if |s| == 0 {
      assert s + u == u;
    } else {
      assert (s + u)[1..] == s[1..] + u;
      ExecAppend(c, Step(c, m, s[0].0, s[0].1), s[1..], u);
    }
  }

  // The time of the last refill never goes back, whatever the threads' clocks show.
  lemma RefillTimeMonotone(c: Config, t0: nat, threads: nat, s: Schedule, u: Schedule)
    requires c.interval > 0
    ensures Exec(c, Start(c, t0, threads), s).bucket.lastRefillMs
         <= Exec(c, Start(c, t0, threads), s + u).bucket.lastRefillMs
  {
    StartInv(c, t0, threads);
    ExecAppend(c, Start(c, t0, threads), s, u);
    ExecInv(c, t0, Start(c, t0, threads), s);
    ExecInv(c, t0, Exec(c, Start(c, t0, threads), s), u);
  }

  // When no call is in progress, the suppressed replies are exactly those reported by granted
  // calls plus those the bucket still remembers.
  lemma QuiescentAccounting(c: Config, t0: nat, threads: nat, s: Schedule)
    requires c.interval > 0
    requires forall t :: 0 <= t < |Exec(c, Start(c, t0, threads), s).threads| ==>
                         Exec(c, Start(c, t0, threads), s).threads[t] == Idle
    ensures var m := Exec(c, Start(c, t0, threads), s);
            Reported(m.replies) + m.bucket.suppressedCount == Refused(m.replies)
  {
    Safety(c, t0, threads, s);
    SumIdle(SwappedOut, Exec(c, Start(c, t0, threads), s).threads);
    SumIdle(Counted, Exec(c, Start(c, t0, threads), s).threads);
  }

  // ---- No call is refused or granted by mistake ----

  ghost predicate Taken(pc: Pc) { pc.SwapCount? || pc.SwapFirst? || pc.SwapLast? }

  ghost predicate Refusing(pc: Pc) { pc.CountSuppressed? || pc.StoreFirst? || pc.StoreLast? }

  // Whatever the others do, a call is granted only by taking a token that is there, and refused only
  // when there is none after it has tried to refill the bucket; and both are settled by that.
  lemma DecidedByTheTake(c: Config, b: Bucket, pc: Pc, now: nat)
    requires c.interval > 0
    ensures var e := Operation(c, b, pc, now);
            && (pc.TakeToken? && b.available > 0 ==> e.bucket == b.(available := b.available - 1) && Taken(e.pc))
            && (!Taken(pc) && Taken(e.pc) ==> pc.TakeToken? && b.available > 0)
            && (!Refusing(pc) && Refusing(e.pc) ==> pc.TakeToken? && pc.refilled && b.available == 0)
            && (Taken(pc) ==> if |e.reply| == 0 then Taken(e.pc) else |e.reply| == 1 && e.reply[0].Granted())
            && (Refusing(pc) ==> if |e.reply| == 0 then Refusing(e.pc) else |e.reply| == 1 && !e.reply[0].Granted())
            && (!Taken(pc) && !Refusing(pc) ==> |e.reply| == 0)
            && (e.pc.TakeToken? && e.pc.refilled ==> pc.LoadRefill? || pc.ExchangeRefill? || pc.AddTokens?)
  {
  }

  // ---- Alone, a thread performs the sequential check ----

  ghost function Alone(t: nat, now: nat, k: nat): Schedule {
    if k == 0 then [] else [(t, now)] + Alone(t, now, k - 1)
  }

  // From m, thread t alone gets to m'.
  ghost predicate Gets(c: Config, m: Machine, t: nat, now: nat, m': Machine)
    requires c.interval > 0
  {
    exists k: nat :: Exec(c, m, Alone(t, now, k)) == m'
  }

  lemma GetsStep(c: Config, m: Machine, t: nat, now: nat, m': Machine)
    requires c.interval > 0 && Gets(c, Step(c, m, t, now), t, now, m')
    ensures Gets(c, m, t, now, m')
  {
    var k: nat :| Exec(c, Step(c, m, t, now), Alone(t, now, k)) == m';
    assert Alone(t, now, k + 1)[1..] == Alone(t, now, k);
    assert Exec(c, m, Alone(t, now, k + 1)) == m';
  }

  lemma GetsSelf(c: Config, m: Machine, t: nat, now: nat)
    requires c.interval > 0
    ensures Gets(c, m, t, now, m)
  {
    assert Exec(c, m, Alone(t, now, 0)) == m;
  }

  ghost function At(m: Machine, t: nat, b: Bucket, pc: Pc): Machine
    requires t < |m.threads|
  {
    m.(bucket := b, threads := m.threads[t := pc])
  }

  ghost function Done(m: Machine, t: nat, r: (Bucket, CheckResult)): Machine
    requires t < |m.threads|
  {
    Machine(r.0, m.threads[t := Idle], m.replies + [r.1])
  }

  // One operation of thread t standing at pc.
  lemma Move(c: Config, m: Machine, t: nat, now: nat, b: Bucket, pc: Pc, m': Machine)
    requires c.interval > 0 && t < |m.threads|
    requires var e := Operation(c, b, pc, now);
             if |e.reply| == 0 then Gets(c, At(m, t, e.bucket, e.pc), t, now, m')
             else e.pc == Idle && m' == Done(m, t, (e.bucket, e.reply[0])) && |e.reply| == 1
    ensures Gets(c, At(m, t, b, pc), t, now, m')
  {
    var e := Operation(c, b, pc, now);
    if |e.reply| == 0 {
      assert Step(c, At(m, t, b, pc), t, now) == At(m, t, e.bucket, e.pc);
    } else {
      assert e.reply == [e.reply[0]];
      assert Step(c, At(m, t, b, pc), t, now) == m';
      GetsSelf(c, m', t, now);
    }
    GetsStep(c, At(m, t, b, pc), t, now, m');
  }

  lemma AloneTakes(c: Config, m: Machine, t: nat, now: nat, b: Bucket, refilled: bool)
    requires c.interval > 0 && t < |m.threads| && b.available > 0
    ensures Gets(c, At(m, t, b, TakeToken(now, refilled)), t, now, Done(m, t, Consume(b)))
  {
    var last := Done(m, t, Consume(b));
    var b1 := b.(available := b.available - 1);
    var b2 := b1.(suppressedCount := 0);
    if b.suppressedCount > 0 {
      var b3 := b2.(firstSuppressionMs := 0);
      Move(c, m, t, now, b3, SwapLast(b.suppressedCount, b.firstSuppressionMs), last);
      Move(c, m, t, now, b2, SwapFirst(b.suppressedCount), last);
    }
    Move(c, m, t, now, b1, SwapCount, last);
    Move(c, m, t, now, b, TakeToken(now, refilled), last);
  }

  lemma AloneSuppresses(c: Config, m: Machine, t: nat, now: nat, b: Bucket)
    requires c.interval > 0 && t < |m.threads| && b.available == 0
    ensures Gets(c, At(m, t, b, TakeToken(now, true)), t, now, Done(m, t, Suppress(b, now)))
  {
    var last := Done(m, t, Suppress(b, now));
    var b1 := b.(suppressedCount := b.suppressedCount + 1);
    if b.suppressedCount == 0 {
      Move(c, m, t, now, b1.(firstSuppressionMs := now), StoreLast(now), last);
      Move(c, m, t, now, b1, StoreFirst(now), last);
    } else {
      Move(c, m, t, now, b1, StoreLast(now), last);
    }
    Move(c, m, t, now, b, CountSuppressed(now), last);
    Move(c, m, t, now, b, TakeToken(now, true), last);
  }

  lemma AloneRefills(c: Config, m: Machine, t: nat, now: nat, b: Bucket, last: Machine)
    requires c.interval > 0 && t < |m.threads| && b.available <= c.maxTokens
    requires Gets(c, At(m, t, Refill(c, b, now), TakeToken(now, true)), t, now, last)
    ensures Gets(c, At(m, t, b, LoadRefill(now)), t, now, last)
  {
    var k := Earned(c, b, now);
    if k > 0 {
      Move(c, m, t, now, b.(lastRefillMs := now), AddTokens(now, k), last);
      Move(c, m, t, now, b, ExchangeRefill(now, b.lastRefillMs, k), last);
    }
    Move(c, m, t, now, b, LoadRefill(now), last);
  }

  // A call that no other thread interferes with is the sequential `check`.
  lemma AloneIsSequential(c: Config, m: Machine, t: nat, now: nat)
    requires c.interval > 0 && t < |m.threads| && m.threads[t] == Idle
    requires m.bucket.available <= c.maxTokens
    ensures Gets(c, m, t, now, Done(m, t, Check(c, m.bucket, now)))
  {
    var b, last := m.bucket, Done(m, t, Check(c, m.bucket, now));
    if b.available > 0 {
      AloneTakes(c, m, t, now, b, false);
    } else {
      var b' := Refill(c, b, now);
      if b'.available > 0 { AloneTakes(c, m, t, now, b', true); } else { AloneSuppresses(c, m, t, now, b'); }
      AloneRefills(c, m, t, now, b, last);
      Move(c, m, t, now, b, TakeToken(now, false), last);
    }
    Move(c, m, t, now, b, Idle, last);
    assert At(m, t, b, Idle) == m;
  }

  // ---- The documented limit does not survive several threads ----

  // Right after the call that creates the bucket; the rate limiter lets no other thread in before.
  ghost function Created(c: Config, t0: nat, threads: nat): Machine
    requires c.interval > 0
  {
    var (b, r) := Check(c, Fresh(c.maxTokens, t0), t0);
    Machine(b, seq(threads, _ => Idle), [r])
  }

  lemma {:induction false} AloneAppend(t: nat, now: nat, j: nat, k: nat)
    ensures Alone(t, now, j) + Alone(t, now, k) == Alone(t, now, j + k)
  {
    if j == 0 {
      assert [] + Alone(t, now, k) == Alone(t, now, k);
    } else {
      AloneAppend(t, now, j - 1, k);
      assert [(t, now)] + Alone(t, now, j - 1) + Alone(t, now, k)
             == [(t, now)] + (Alone(t, now, j - 1) + Alone(t, now, k));
    }
  }

  lemma GetsOn(c: Config, m: Machine, t: nat, now: nat, m': Machine, m'': Machine)
    requires c.interval > 0 && Gets(c, m, t, now, m') && Gets(c, m', t, now, m'')
    ensures Gets(c, m, t, now, m'')
  {
    var j: nat :| Exec(c, m, Alone(t, now, j)) == m';
    var k: nat :| Exec(c, m', Alone(t, now, k)) == m'';
    ExecAppend(c, m, Alone(t, now, j), Alone(t, now, k));
    AloneAppend(t, now, j, k);
    assert Exec(c, m, Alone(t, now, j + k)) == m'';
  }

  // What n calls of thread t at one instant, all of them granted, lead to.
  ghost predicate Bursts(c: Config, m: Machine, t: nat, now: nat, n: nat, m': Machine)
    requires c.interval > 0
  {
    && Gets(c, m, t, now, m') && m'.threads == m.threads && Granted(m'.replies) == Granted(m.replies) + n
    && (Earned(c, m.bucket, now) == 0 ==>
          m'.bucket.available + n == m.bucket.available && m'.bucket.lastRefillMs == m.bucket.lastRefillMs)
  }

  lemma OneGrant(c: Config, m: Machine, t: nat, now: nat)
    requires c.interval > 0 && t < |m.threads| && m.threads[t] == Idle
    requires m.bucket.available <= c.maxTokens && CanGrantAt(c, m.bucket, now) > 0
    requires Earned(c, m.bucket, now) == 0 ==> m.bucket.available > 0
    ensures var m' := Done(m, t, Check(c, m.bucket, now));
            && Bursts(c, m, t, now, 1, m') && m'.bucket.available <= c.maxTokens
            && CanGrantAt(c, m'.bucket, now) >= CanGrantAt(c, m.bucket, now) - 1
            && (Earned(c, m.bucket, now) == 0 ==> Earned(c, m'.bucket, now) == 0)
  {
    AloneIsSequential(c, m, t, now);
    CheckAtInstant(c, m.bucket, now);
    var r := Check(c, m.bucket, now).1;
    assert (m.replies + [r])[..|m.replies|] == m.replies;
    assert m.threads[t := Idle] == m.threads;
  }

  lemma {:induction false} AloneBurst(c: Config, m: Machine, t: nat, now: nat, n: nat) returns (m': Machine)
    requires c.interval > 0 && t < |m.threads| && m.threads[t] == Idle
    requires m.bucket.available <= c.maxTokens && n <= CanGrantAt(c, m.bucket, now)
    requires Earned(c, m.bucket, now) == 0 ==> n <= m.bucket.available
    ensures Bursts(c, m, t, now, n, m')
    decreases n
  {
    if n == 0 {
      GetsSelf(c, m, t, now);
      m' := m;
    } else {
      var next := Done(m, t, Check(c, m.bucket, now));
      OneGrant(c, m, t, now);
      m' := AloneBurst(c, next, t, now, n - 1);
      GetsOn(c, m, t, now, next, m');
    }
  }

  // A thread refills an empty bucket and stops before it takes its token.
  lemma AloneRefillsAndStops(c: Config, m: Machine, t: nat, now: nat)
    requires c.interval > 0 && t < |m.threads| && m.threads[t] == Idle && m.bucket.available == 0
    ensures Gets(c, m, t, now, At(m, t, Refill(c, m.bucket, now), TakeToken(now, true)))
  {
    var last := At(m, t, Refill(c, m.bucket, now), TakeToken(now, true));
    GetsSelf(c, last, t, now);
    AloneRefills(c, m, t, now, m.bucket, last);
    Move(c, m, t, now, m.bucket, TakeToken(now, false), last);
    Move(c, m, t, now, m.bucket, Idle, last);
    assert At(m, t, m.bucket, Idle) == m;
  }

  // Whatever the size, as long as it is not 0, two threads get twice the size at one instant:
  // thread 1 takes what is left at t0; a full load later thread 0 adds it and stops; and another
  // full load later thread 1 makes 2 * maxTokens calls, and all of them are granted.
  lemma TwiceAtOneInstant(c: Config, t0: nat) returns (emptied: Machine, refilled: Machine, burst: Machine)
    requires c.interval > 0 && c.maxTokens > 0
    ensures var load := c.maxTokens * c.interval;
            && Gets(c, Created(c, t0, 2), 1, t0, emptied)
            && Gets(c, emptied, 0, t0 + load, refilled)
            && |refilled.threads| == 2 && refilled.threads[1] == Idle
            && Gets(c, refilled, 1, t0 + 2 * load, burst)
            && Granted(burst.replies) == Granted(refilled.replies) + 2 * c.maxTokens
  {
    var m, load := Created(c, t0, 2), c.maxTokens * c.interval;
    emptied := AloneBurst(c, m, 1, t0, c.maxTokens - 1);
    EarnedExactly(c, emptied.bucket, c.maxTokens);
    AloneRefillsAndStops(c, emptied, 0, t0 + load);
    assert c.maxTokens % U32_MODULUS == c.maxTokens;
    refilled := At(emptied, 0, Refill(c, emptied.bucket, t0 + load), TakeToken(t0 + load, true));
    EarnedExactly(c, refilled.bucket, c.maxTokens);
    burst := AloneBurst(c, refilled, 1, t0 + 2 * load, 2 * c.maxTokens);
  }
}
