/** How many calls several threads are granted in a stretch of time, and the documented limit. */
module ThreadedLimits {
  import opened Arithmetic
  import opened TokenBucket
  import opened TokenBucketThreads

  // ---- A bucket of size 0 ----

  ghost predicate NoToken(pc: Pc) { !pc.SwapCount? && !pc.SwapFirst? && !pc.SwapLast? }

  ghost predicate Barren(m: Machine) {
    && m.bucket.available == 0 && Granted(m.replies) == 0
    && forall t :: 0 <= t < |m.threads| ==> NoToken(m.threads[t])
  }

  lemma BarrenOperation(c: Config, b: Bucket, pc: Pc, now: nat)
    requires c.interval > 0 && c.maxTokens == 0 && b.available == 0 && NoToken(pc)
    ensures var e := Operation(c, b, pc, now);
            e.bucket.available == 0 && NoToken(e.pc) && |e.reply| <= 1 && Granted(e.reply) == 0
  {
  }

  lemma BarrenStep(c: Config, m: Machine, t: nat, now: nat)
    requires c.interval > 0 && c.maxTokens == 0 && Barren(m)
    ensures Barren(Step(c, m, t, now))
  {
    hide Operation, Granted;
    if t < |m.threads| {
      var e := Operation(c, m.bucket, m.threads[t], now);
      BarrenOperation(c, m.bucket, m.threads[t], now);
      ReplyCounts(m.replies, e.reply);
    }
  }

  // Whatever the threads do, a bucket of size 0 grants nothing.
  lemma {:induction false} SizeZeroGrantsNothing(c: Config, m: Machine, s: Schedule)
    requires c.interval > 0 && c.maxTokens == 0 && Barren(m)
    ensures Barren(Exec(c, m, s))
    decreases |s|
  {
    if |s| > 0 {
      BarrenStep(c, m, s[0].0, s[0].1);
      SizeZeroGrantsNothing(c, Step(c, m, s[0].0, s[0].1), s[1..]);
    }
  }

  // ---- A stretch of time ----

  ghost predicate Within(v: Schedule, s: nat, t: nat) {
    forall i :: 0 <= i < |v| ==> s <= v[i].1 <= t
  }

  // What is granted, what the bucket can still give from s to t, and what the threads owe.
  ghost function Prospect(c: Config, m: Machine, s: nat, t: nat): nat
    requires c.interval > 0 && s <= t
  {
    Granted(m.replies) + Outlook(c, m.bucket, s, t) + Sum(Owed(s, t, c.maxTokens), m.threads)
  }

  // A refill whose exchange succeeds at a time in the stretch takes what it earns from the outlook.
  lemma ExchangeInside(c: Config, b: Bucket, now: nat, k: nat, s: nat, t: nat)
    requires c.interval > 0 && s <= t && b.lastRefillMs < now && k == (now - b.lastRefillMs) / c.interval
    requires s <= now <= t
    ensures Outlook(c, b.(lastRefillMs := now), s, t) + Min(k, c.maxTokens) <= Outlook(c, b, s, t)
  {
    if b.lastRefillMs < s {
      DivMono(t - now, t - s, c.interval);
    } else {
      DivSum(now - b.lastRefillMs, t - now, c.interval);
    }
  }

  lemma ExchangeOutside(c: Config, b: Bucket, now: nat, s: nat, t: nat)
    requires c.interval > 0 && s <= t && b.lastRefillMs < now && !(s <= now <= t)
    ensures Outlook(c, b.(lastRefillMs := now), s, t) <= Outlook(c, b, s, t)
  {
    if t < now {
      assert Outlook(c, b.(lastRefillMs := now), s, t) == b.available;
      hide Outlook;
      OutlookAtLeast(c, b, s, t);
    }
  }

  lemma OutlookAtLeast(c: Config, b: Bucket, s: nat, t: nat)
    requires c.interval > 0 && s <= t
    ensures Outlook(c, b, s, t) >= b.available
  {
  }

  lemma Addition(c: Config, available: u32, tokens: nat)
    requires available <= c.maxTokens
    ensures var sum := Min(SaturatingAdd(available, tokens % U32_MODULUS), c.maxTokens);
            available <= sum <= c.maxTokens && sum <= available + Min(tokens, c.maxTokens)
  {
    assert tokens % U32_MODULUS <= tokens;
  }

  lemma OperationProspect(c: Config, b: Bucket, pc: Pc, now: nat, s: nat, t: nat)
    requires c.interval > 0 && GoodPc(c, pc) && b.available <= c.maxTokens && s <= now <= t
    ensures var e, w := Operation(c, b, pc, now), Owed(s, t, c.maxTokens);
            && e.bucket.available <= c.maxTokens && GoodPc(c, e.pc) && |e.reply| <= 1
            && Granted(e.reply) + Held(w, e.pc) + Outlook(c, e.bucket, s, t)
               <= Held(w, pc) + Outlook(c, b, s, t)
  {
    var e := Operation(c, b, pc, now);
    if |e.reply| > 0 { assert e.reply[..0] == []; }
    match pc
    case ExchangeRefill(n, last, k) =>
      if b.lastRefillMs == last {
        if s <= n <= t { ExchangeInside(c, b, n, k, s, t); } else { ExchangeOutside(c, b, n, s, t); }
        hide Outlook;
      }
    case AddTokens(_, tokens) => Addition(c, b.available, tokens);
    case _ =>
  }

  ghost predicate Sound(c: Config, m: Machine)
    requires c.interval > 0
  {
    m.bucket.available <= c.maxTokens && forall t :: 0 <= t < |m.threads| ==> GoodPc(c, m.threads[t])
  }

  lemma StepProspect(c: Config, m: Machine, i: nat, now: nat, s: nat, t: nat)
    requires c.interval > 0 && Sound(c, m) && s <= now <= t
    ensures Sound(c, Step(c, m, i, now)) && Prospect(c, Step(c, m, i, now), s, t) <= Prospect(c, m, s, t)
  {
    hide Operation, Sum, Held, Granted, Outlook;
    if i < |m.threads| {
      var e := Operation(c, m.bucket, m.threads[i], now);
      OperationProspect(c, m.bucket, m.threads[i], now, s, t);
      ReplyCounts(m.replies, e.reply);
      SumUpdate(Owed(s, t, c.maxTokens), m.threads, i, e.pc);
    }
  }

  lemma {:induction false} ExecProspect(c: Config, m: Machine, v: Schedule, s: nat, t: nat)
    requires c.interval > 0 && Sound(c, m) && s <= t && Within(v, s, t)
    ensures Prospect(c, Exec(c, m, v), s, t) <= Prospect(c, m, s, t)
    decreases |v|
  {
    if |v| > 0 {
      StepProspect(c, m, v[0].0, v[0].1, s, t);
      ExecProspect(c, Step(c, m, v[0].0, v[0].1), v[1..], s, t);
    }
  }

  // How many threads are inside a call.
  ghost function Busy(threads: seq<Pc>): (n: nat)
    ensures n <= |threads|
  {
    if |threads| == 0 then 0 else (if threads[0] == Idle then 0 else 1) + Busy(threads[1..])
  }

  lemma {:induction false} OwedByBusy(threads: seq<Pc>, s: nat, t: nat, max: nat)
    requires max > 0
    ensures Sum(Owed(s, t, max), threads) <= Busy(threads) * max
  {
    if |threads| > 0 {
      OwedByBusy(threads[1..], s, t, max);
      assert (1 + Busy(threads[1..])) * max == max + Busy(threads[1..]) * max;
    }
  }

  // What a machine can still grant from s to t, beyond what it has granted.
  ghost function Allowance(c: Config, busy: nat, s: nat, t: nat): nat
    requires c.interval > 0 && s <= t
  {
    (2 + busy) * c.maxTokens + (t - s) / c.interval
  }

  lemma ProspectBound(c: Config, m: Machine, s: nat, t: nat)
    requires c.interval > 0 && c.maxTokens > 0 && s <= t && m.bucket.available <= c.maxTokens
    ensures Prospect(c, m, s, t) <= Granted(m.replies) + Allowance(c, Busy(m.threads), s, t)
  {
    hide Outlook, Sum, Granted, Busy;
    OwedByBusy(m.threads, s, t, c.maxTokens);
    OutlookBound(c, m.bucket, s, t);
    assert (2 + Busy(m.threads)) * c.maxTokens == 2 * c.maxTokens + Busy(m.threads) * c.maxTokens;
  }

  lemma ReachableSound(c: Config, t0: nat, threads: nat, before: Schedule)
    requires c.interval > 0
    ensures Sound(c, Exec(c, Start(c, t0, threads), before))
  {
    StartInv(c, t0, threads);
    ExecInv(c, t0, Start(c, t0, threads), before);
  }

  // However the threads got where they are, what they do while their clocks show s to t is granted
  // at most (2 + busy) * maxTokens + floor((t - s) / interval) times, where `busy` threads were
  // inside a call before. With none it is the bound for one thread.
  lemma ThreadedStretchBound(c: Config, t0: nat, threads: nat, before: Schedule, v: Schedule, s: nat, t: nat)
    requires c.interval > 0 && s <= t && Within(v, s, t)
    ensures var m := Exec(c, Start(c, t0, threads), before);
            Granted(Exec(c, m, v).replies) <= Granted(m.replies) + Allowance(c, Busy(m.threads), s, t)
  {
    assert c.maxTokens == 0 ==> Barren(Start(c, t0, threads));
    hide Exec, Allowance, Outlook, Sum, Granted, Busy, Start;
    var m := Exec(c, Start(c, t0, threads), before);
    if c.maxTokens == 0 {
      SizeZeroGrantsNothing(c, Start(c, t0, threads), before);
      SizeZeroGrantsNothing(c, m, v);
    } else {
      ReachableSound(c, t0, threads, before);
      ExecProspect(c, m, v, s, t);
      ProspectBound(c, m, s, t);
    }
  }

  // ---- The documented limit ----

  // The clock shows at least t0 and does not go back.
  ghost predicate Clock(s: Schedule, t0: nat) {
    && (forall i :: 0 <= i < |s| ==> t0 <= s[i].1)
    && forall i, j :: 0 <= i <= j < |s| ==> s[i].1 <= s[j].1
  }

  // Only threads that are idle at first make calls.
  ghost predicate NewCalls(m: Machine, v: Schedule) {
    forall i :: 0 <= i < |v| && v[i].0 < |m.threads| ==> m.threads[v[i].0] == Idle
  }

  // After the call that creates a key's bucket at t0 and any schedule `before`, the calls that
  // begin and end in `v`, all of them within a window, are granted at most maxTokens times.
  ghost predicate KeepsLimit(c: Config, windowMs: nat, t0: nat, threads: nat, before: Schedule, v: Schedule, s: nat)
    requires c.interval > 0 && windowMs >= 1
  {
    var m := Exec(c, Created(c, t0, threads), before);
    Clock(before + v, t0) && NewCalls(m, v) && Within(v, s, s + windowMs - 1) ==>
      Granted(Exec(c, m, v).replies) <= Granted(m.replies) + c.maxTokens
  }

  ghost predicate ThreadsKeepLimit(c: Config, windowMs: nat)
    requires c.interval > 0 && windowMs >= 1
  {
    forall t0, threads, before, v, s :: KeepsLimit(c, windowMs, t0, threads, before, v, s)
  }

  lemma CreatedBarren(c: Config, t0: nat, threads: nat)
    requires c.interval > 0 && c.maxTokens == 0
    ensures Barren(Created(c, t0, threads))
  {
    assert Created(c, t0, threads).replies[..0] == [];
  }

  lemma {:induction false} AloneForms(t: nat, now: nat, k: nat)
    ensures |Alone(t, now, k)| == k && forall i :: 0 <= i < k ==> Alone(t, now, k)[i] == (t, now)
  {
    if k > 0 { AloneForms(t, now, k - 1); }
  }

  // The run of two threads in which twice the size is granted at one instant.
  lemma AnySizeBreaksTheLimit(c: Config, windowMs: nat, t0: nat)
    requires c.interval > 0 && c.maxTokens > 0 && windowMs >= 1
    ensures exists before, v, s :: !KeepsLimit(c, windowMs, t0, 2, before, v, s)
  {
    hide Exec, Created, Alone, Granted;
    var load := c.maxTokens * c.interval;
    var emptied, refilled, burst := TwiceAtOneInstant(c, t0);
    var m := Created(c, t0, 2);
    var i: nat :| Exec(c, m, Alone(1, t0, i)) == emptied;
    var j: nat :| Exec(c, emptied, Alone(0, t0 + load, j)) == refilled;
    var k: nat :| Exec(c, refilled, Alone(1, t0 + 2 * load, k)) == burst;
    var before, v := Alone(1, t0, i) + Alone(0, t0 + load, j), Alone(1, t0 + 2 * load, k);
    ExecAppend(c, m, Alone(1, t0, i), Alone(0, t0 + load, j));
    ClockOfThree(i, j, k, t0, load);
    AloneForms(1, t0 + 2 * load, k);
    assert !KeepsLimit(c, windowMs, t0, 2, before, v, t0 + 2 * load);
  }

  lemma ClockOfThree(i: nat, j: nat, k: nat, t0: nat, load: nat)
    ensures Clock(Alone(1, t0, i) + Alone(0, t0 + load, j) + Alone(1, t0 + 2 * load, k), t0)
  {
    hide Alone;
    AloneForms(1, t0, i);
    AloneForms(0, t0 + load, j);
    AloneForms(1, t0 + 2 * load, k);
  }

  // Under threads the documented limit holds exactly for a bucket of size 0.
  lemma ThreadedDocumentedLimit(maxTokens: u32, windowMs: nat)
    requires windowMs >= 1
    ensures RefillInterval(maxTokens, windowMs) > 0
    ensures ThreadsKeepLimit(Config(maxTokens, RefillInterval(maxTokens, windowMs)), windowMs) <==> maxTokens == 0
  {
    RefillIntervalPositive(maxTokens, windowMs);
    var c := Config(maxTokens, RefillInterval(maxTokens, windowMs));
    if maxTokens == 0 {
      forall t0, threads, before, v, s ensures KeepsLimit(c, windowMs, t0, threads, before, v, s) {
        var m := Exec(c, Created(c, t0, threads), before);
        CreatedBarren(c, t0, threads);
        SizeZeroGrantsNothing(c, Created(c, t0, threads), before);
        SizeZeroGrantsNothing(c, m, v);
      }
    } else {
      AnySizeBreaksTheLimit(c, windowMs, 0);
    }
  }
}
