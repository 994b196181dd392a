/** The token bucket rate limiter, called by one thread at a time. */
module TokenBucket {
  import opened Arithmetic
  import opened Sequences

  const U32_MODULUS: nat := 0x1_0000_0000

  type u32 = n: nat | n < U32_MODULUS

  datatype CheckResult =
    | Allowed
    | AllowedAfterSuppression(suppressed: nat, firstSuppression: nat, lastSuppression: nat)
    | Suppressed
  {
    predicate Granted() { !Suppressed? }
  }

  datatype Config = Config(maxTokens: u32, interval: nat)

  // The five atomics of a bucket.
  datatype Bucket = Bucket(available: u32, lastRefillMs: nat, suppressedCount: nat,
                           firstSuppressionMs: nat, lastSuppressionMs: nat)

  // `u64::div_ceil`, with the special case for an empty bucket.
  function RefillInterval(maxTokens: u32, windowMs: nat): nat {
    if maxTokens == 0 then 1 else (windowMs + maxTokens - 1) / maxTokens
  }

  function SaturatingAdd(a: u32, b: u32): u32 { Min(a + b, U32_MODULUS - 1) }

  function Fresh(maxTokens: u32, now: nat): Bucket { Bucket(maxTokens, now, 0, 0, 0) }

  // The tokens earned since the last refill; the caller gets only their low 32 bits.
  ghost function Earned(c: Config, b: Bucket, now: nat): nat
    requires c.interval > 0
  {
    if now <= b.lastRefillMs then 0 else (now - b.lastRefillMs) / c.interval
  }

  ghost function Refill(c: Config, b: Bucket, now: nat): Bucket
    requires c.interval > 0 && b.available <= c.maxTokens
  {
    var k := Earned(c, b, now);
    if k == 0 then b
    else b.(lastRefillMs := now,
            available := Min(SaturatingAdd(b.available, k % U32_MODULUS), c.maxTokens))
  }

  ghost function Consume(b: Bucket): (r: (Bucket, CheckResult))
    requires b.available > 0
    ensures r.1.Granted()
  {
    var b' := b.(available := b.available - 1, suppressedCount := 0);
    if b.suppressedCount == 0 then (b', Allowed)
    else (b'.(firstSuppressionMs := 0, lastSuppressionMs := 0),
          AllowedAfterSuppression(b.suppressedCount, b.firstSuppressionMs, b.lastSuppressionMs))
  }

  ghost function Suppress(b: Bucket, now: nat): (Bucket, CheckResult) {
    (b.(suppressedCount := b.suppressedCount + 1,
        firstSuppressionMs := if b.suppressedCount == 0 then now else b.firstSuppressionMs,
        lastSuppressionMs := now),
     Suppressed)
  }

  // One call of `check`.
  ghost function Check(c: Config, b: Bucket, now: nat): (r: (Bucket, CheckResult))
    requires c.interval > 0 && b.available <= c.maxTokens
    ensures r.0.available <= c.maxTokens
  {
    if b.available > 0 then Consume(b)
    else
      var b' := Refill(c, b, now);
      if b'.available > 0 then Consume(b') else Suppress(b', now)
  }

  // The interval rounds the window up, and is positive, so that the division in the refill is
  // safe, exactly when the bucket is empty for good or the window is at least one millisecond.
  lemma RefillIntervalPositive(maxTokens: u32, windowMs: nat)
    ensures RefillInterval(maxTokens, windowMs) > 0 <==> maxTokens == 0 || windowMs >= 1
    ensures maxTokens > 0 ==> RefillInterval(maxTokens, windowMs) * maxTokens >= windowMs
    ensures maxTokens > 0 && windowMs > 0 ==> (RefillInterval(maxTokens, windowMs) - 1) * maxTokens < windowMs
  {
    if maxTokens > 0 {
      var q := RefillInterval(maxTokens, windowMs);
      CeilBounds(windowMs, maxTokens);
      MulMono(q, 0, maxTokens);
      MulMono(1, q, maxTokens);
      assert (q - 1) * maxTokens == q * maxTokens - maxTokens;
    }
  }

  lemma CeilBounds(a: nat, n: nat)
    requires n > 0
    ensures a <= (a + n - 1) / n * n < a + n
  {
    var d := a + n - 1;
    assert d == d / n * n + d % n;
  }

  class TokenBucket {
    var available: u32
    var lastRefillMs: nat
    var suppressedCount: nat
    var firstSuppressionMs: nat
    var lastSuppressionMs: nat
    const maxTokens: u32
    const interval: nat

    ghost function State(): Bucket
      reads this
    {
      Bucket(available, lastRefillMs, suppressedCount, firstSuppressionMs, lastSuppressionMs)
    }

    ghost function Cfg(): Config { Config(maxTokens, interval) }

    ghost predicate Valid()
      reads this
    {
      interval > 0 && available <= maxTokens
    }

    constructor (maxTokens: u32, windowMs: nat, now: nat)
      ensures State() == Fresh(maxTokens, now)
      ensures Cfg() == Config(maxTokens, RefillInterval(maxTokens, windowMs))
      ensures Valid() <==> maxTokens == 0 || windowMs >= 1
    {
      RefillIntervalPositive(maxTokens, windowMs);
      this.maxTokens, interval := maxTokens, RefillInterval(maxTokens, windowMs);
      available, lastRefillMs := maxTokens, now;
      suppressedCount, firstSuppressionMs, lastSuppressionMs := 0, 0, 0;
    }

    method TryConsumeToken() returns (taken: bool, result: CheckResult)
      requires Valid()
      modifies this
      ensures Valid() && taken == old(available > 0)
      ensures taken ==> (State(), result) == Consume(old(State()))
      ensures !taken ==> State() == old(State())
    {
      result := Suppressed;
      taken := available > 0;
      if taken {
        available := available - 1;
        var suppressed := suppressedCount;
        suppressedCount := 0;
        if suppressed > 0 {
          var first, last := firstSuppressionMs, lastSuppressionMs;
          firstSuppressionMs, lastSuppressionMs := 0, 0;
          result := AllowedAfterSuppression(suppressed, first, last);
        } else {
          result := Allowed;
        }
      }
    }

    method TryRefillTokens(nowMs: nat)
      requires Valid()
      modifies this
      ensures Valid() && State() == Refill(Cfg(), old(State()), nowMs)
    {
      var last := lastRefillMs;
      if nowMs <= last { return; }
      var elapsed := nowMs - last;
      var tokensToAdd := elapsed / interval;
      if tokensToAdd == 0 { return; }
      lastRefillMs := nowMs;
      available := Min(SaturatingAdd(available, tokensToAdd % U32_MODULUS), maxTokens);
    }

    method CheckNow(nowMs: nat) returns (result: CheckResult)
      requires Valid()
      modifies this
      ensures Valid() && (State(), result) == Check(Cfg(), old(State()), nowMs)
    {
      var taken;
      taken, result := TryConsumeToken();
      if taken { return; }
      TryRefillTokens(nowMs);
      taken, result := TryConsumeToken();
      if taken { return; }
      var prevCount := suppressedCount;
      suppressedCount := suppressedCount + 1;
      if prevCount == 0 { firstSuppressionMs := nowMs; }
      lastSuppressionMs := nowMs;
      result := Suppressed;
    }
  }

  // ---- Runs ----

  ghost predicate WellFormed(c: Config, b: Bucket) {
    c.interval > 0 && b.available <= c.maxTokens
  }

  // The results of calls at the given times.
  ghost function Results(c: Config, b: Bucket, nows: seq<nat>): (rs: seq<CheckResult>)
    requires WellFormed(c, b)
    ensures |rs| == |nows|
    decreases |nows|
  {
    if |nows| == 0 then []
    else [Check(c, b, nows[0]).1] + Results(c, Check(c, b, nows[0]).0, nows[1..])
  }

  ghost function Grants(rs: seq<CheckResult>): nat {
    if |rs| == 0 then 0 else (if rs[0].Granted() then 1 else 0) + Grants(rs[1..])
  }

  lemma DivSum(a: nat, b: nat, n: nat)
    requires n > 0
    ensures a / n + b / n <= (a + b) / n
  {
    var q, r := a / n, b / n;
    assert q * n <= a && r * n <= b;
    assert (q + r) * n == q * n + r * n;
    MulDivLe(q + r, a + b, n);
  }

  lemma MulDivLe(q: nat, a: nat, n: nat)
    requires n > 0 && q * n <= a
    ensures q <= a / n
  {
    var p := a / n;
    MulMono(p + 1, q, n);
    assert (p + 1) * n == p * n + n > a;
  }

  lemma DivMono(a: nat, b: nat, n: nat)
    requires n > 0 && a <= b
    ensures a / n <= b / n
  {
    DivSum(a, b - a, n);
  }

  // Tokens that can still be granted up to time t, before the first refill within [s, t] or after it.
  ghost function Outlook(c: Config, b: Bucket, s: nat, t: nat): nat
    requires c.interval > 0 && s <= t
  {
    b.available +
    if b.lastRefillMs < s then c.maxTokens + (t - s) / c.interval
    else if b.lastRefillMs <= t then (t - b.lastRefillMs) / c.interval
    else 0
  }

  lemma RefillOutlook(c: Config, b: Bucket, now: nat, s: nat, t: nat)
    requires WellFormed(c, b) && s <= now <= t && b.available == 0
    ensures Outlook(c, Refill(c, b, now), s, t) <= Outlook(c, b, s, t)
  {
    var k := Earned(c, b, now);
    if k > 0 {
      assert k % U32_MODULUS <= k;
      if b.lastRefillMs < s {
        DivMono(t - now, t - s, c.interval);
      } else {
        DivSum(now - b.lastRefillMs, t - now, c.interval);
      }
    }
  }

  lemma CheckOutlook(c: Config, b: Bucket, now: nat, s: nat, t: nat)
    requires WellFormed(c, b) && s <= now <= t
    ensures var (b', r) := Check(c, b, now);
            Outlook(c, b', s, t) + (if r.Granted() then 1 else 0) <= Outlook(c, b, s, t)
  {
    if b.available == 0 { RefillOutlook(c, b, now, s, t); }
  }

  lemma {:induction false} RunOutlook(c: Config, b: Bucket, nows: seq<nat>, s: nat, t: nat)
    requires WellFormed(c, b) && s <= t && forall i :: 0 <= i < |nows| ==> s <= nows[i] <= t
    ensures Grants(Results(c, b, nows)) <= Outlook(c, b, s, t)
    decreases |nows|
  {
    if |nows| > 0 {
      CheckOutlook(c, b, nows[0], s, t);
      RunOutlook(c, Check(c, b, nows[0]).0, nows[1..], s, t);
    }
  }

  lemma OutlookBound(c: Config, b: Bucket, s: nat, t: nat)
    requires WellFormed(c, b) && s <= t
    ensures Outlook(c, b, s, t) <= 2 * c.maxTokens + (t - s) / c.interval
  {
    if s <= b.lastRefillMs <= t { DivMono(t - b.lastRefillMs, t - s, c.interval); }
  }

  // Any calls with times in [s, t], in any order, are granted at most
  // 2 * maxTokens + floor((t - s) / interval) times, from any state of the bucket.
  lemma StretchBound(c: Config, b: Bucket, nows: seq<nat>, s: nat, t: nat)
    requires WellFormed(c, b) && s <= t && forall i :: 0 <= i < |nows| ==> s <= nows[i] <= t
    ensures Grants(Results(c, b, nows)) <= 2 * c.maxTokens + (t - s) / c.interval
  {
    RunOutlook(c, b, nows, s, t);
    OutlookBound(c, b, s, t);
  }

  ghost function Repeat(now: nat, n: nat): (s: seq<nat>)
    ensures |s| == n && forall i :: 0 <= i < n ==> s[i] == now
  {
    if n == 0 then [] else [now] + Repeat(now, n - 1)
  }

  ghost function CanGrantAt(c: Config, b: Bucket, now: nat): nat
    requires c.interval > 0
  {
    b.available + if Earned(c, b, now) == c.maxTokens then c.maxTokens else 0
  }

  lemma CheckAtInstant(c: Config, b: Bucket, now: nat)
    requires WellFormed(c, b) && CanGrantAt(c, b, now) > 0
    ensures var (b', r) := Check(c, b, now); r.Granted() && CanGrantAt(c, b', now) >= CanGrantAt(c, b, now) - 1
  {
    assert c.maxTokens % U32_MODULUS == c.maxTokens;
  }

  // At one instant a bucket grants what it holds and then, if it has earned a full load, that.
  lemma {:induction false} GrantsAtInstant(c: Config, b: Bucket, now: nat, n: nat)
    requires WellFormed(c, b) && n <= CanGrantAt(c, b, now)
    ensures Grants(Results(c, b, Repeat(now, n))) == n
    decreases n
  {
    if n > 0 {
      var b' := Check(c, b, now).0;
      CheckAtInstant(c, b, now);
      GrantsAtInstant(c, b', now, n - 1);
      assert Repeat(now, n)[1..] == Repeat(now, n - 1);
      assert Results(c, b, Repeat(now, n))[1..] == Results(c, b', Repeat(now, n - 1));
    }
  }

  // ---- Exactly what is granted at one instant ----

  // Whole intervals since the last refill, and the tokens they are worth: their low 32 bits, and
  // at most a full load.
  ghost function Intervals(c: Config, b: Bucket, now: nat): nat
    requires c.interval > 0
  {
    if now <= b.lastRefillMs then 0 else (now - b.lastRefillMs) / c.interval
  }

  ghost function Worth(c: Config, b: Bucket, now: nat): nat
    requires c.interval > 0
  {
    Min(Intervals(c, b, now) % U32_MODULUS, c.maxTokens)
  }

  // The bucket after calls at the given times.
  ghost function AfterCalls(c: Config, b: Bucket, nows: seq<nat>): Bucket
    requires WellFormed(c, b)
    decreases |nows|
  {
    if |nows| == 0 then b else AfterCalls(c, Check(c, b, nows[0]).0, nows[1..])
  }

  // One call: a token that is there is taken; otherwise whole intervals become tokens, the rest of
  // the time is forgotten, and a token is taken if there is one now.
  lemma CheckExactly(c: Config, b: Bucket, now: nat)
    requires WellFormed(c, b)
    ensures var (b', r) := Check(c, b, now);
            var refilled := b.available == 0 && Intervals(c, b, now) > 0;
            && (r.Granted() <==> b.available + Worth(c, b, now) > 0)
            && b'.available + (if r.Granted() then 1 else 0)
               == (if b.available > 0 then b.available else Worth(c, b, now))
            && b'.lastRefillMs == (if refilled then now else b.lastRefillMs)
            && (refilled ==> Intervals(c, b', now) == 0)
            && (!refilled ==> Intervals(c, b', now) == Intervals(c, b, now))
  {
  }

  // n calls at one instant are granted as long as there are tokens, those held and those that the
  // time since the last refill is worth; the refill happens once the tokens held are used up.
  lemma {:induction false} GrantsExactly(c: Config, b: Bucket, now: nat, n: nat)
    requires WellFormed(c, b)
    ensures var granted, b' := Grants(Results(c, b, Repeat(now, n))), AfterCalls(c, b, Repeat(now, n));
            var refilled := n > b.available && Intervals(c, b, now) > 0;
            && granted == Min(n, b.available + Worth(c, b, now))
            && b'.available == b.available + (if refilled then Worth(c, b, now) else 0) - granted
            && b'.lastRefillMs == (if refilled then now else b.lastRefillMs)
    decreases n
  {
    if n > 0 {
      var b' := Check(c, b, now).0;
      CheckExactly(c, b, now);
      GrantsExactly(c, b', now, n - 1);
      assert Repeat(now, n)[0] == now && Repeat(now, n)[1..] == Repeat(now, n - 1);
      assert Results(c, b, Repeat(now, n))[1..] == Results(c, b', Repeat(now, n - 1));
    }
  }

  lemma EarnedExactly(c: Config, b: Bucket, k: nat)
    requires c.interval > 0
    ensures Earned(c, b, b.lastRefillMs + k * c.interval) == k
  {
    MulDiv(k, c.interval);
    MulMono(1, k, c.interval);
  }

  lemma MulDiv(m: nat, n: nat)
    requires n > 0
    ensures (m * n) / n == m
  {
    var q := (m * n) / n;
    MulDivLe(m, m * n, n);
    MulMono(m + 1, q, n);
    assert (m + 1) * n == m * n + n > q * n;
  }

  // ---- The rate limiter: a bucket is created by its first call ----

  // The results of the calls for one key: the first of them creates the bucket.
  ghost function KeyResults(c: Config, nows: seq<nat>): (rs: seq<CheckResult>)
    requires c.interval > 0
    ensures |rs| == |nows|
  {
    if |nows| == 0 then [] else Results(c, Fresh(c.maxTokens, nows[0]), nows)
  }

  // How many calls with times from s to t are granted.
  ghost function GrantsIn(rs: seq<CheckResult>, nows: seq<nat>, s: nat, t: nat): nat
    requires |rs| == |nows|
  {
    if |rs| == 0 then 0
    else (if rs[0].Granted() && s <= nows[0] <= t then 1 else 0) + GrantsIn(rs[1..], nows[1..], s, t)
  }

  ghost predicate Nondecreasing(nows: seq<nat>) { forall i, j :: 0 <= i < j < |nows| ==> nows[i] <= nows[j] }

  lemma {:induction false} NoneLater(rs: seq<CheckResult>, nows: seq<nat>, s: nat, t: nat)
    requires |rs| == |nows| && forall i :: 0 <= i < |nows| ==> nows[i] > t
    ensures GrantsIn(rs, nows, s, t) == 0
  {
    if |rs| > 0 { NoneLater(rs[1..], nows[1..], s, t); }
  }

  lemma {:induction false} FromStretchOn(c: Config, b: Bucket, nows: seq<nat>, s: nat, t: nat)
    requires WellFormed(c, b) && s <= t && Nondecreasing(nows) && (|nows| > 0 ==> s <= nows[0])
    ensures GrantsIn(Results(c, b, nows), nows, s, t) <= Outlook(c, b, s, t)
    decreases |nows|
  {
    if |nows| > 0 {
      if nows[0] > t {
        NoneLater(Results(c, b, nows), nows, s, t);
      } else {
        CheckOutlook(c, b, nows[0], s, t);
        FromStretchOn(c, Check(c, b, nows[0]).0, nows[1..], s, t);
      }
    }
  }

  lemma CheckLeavesLess(c: Config, b: Bucket, now: nat)
    requires WellFormed(c, b) && c.maxTokens > 0
    ensures Check(c, b, now).0.available < c.maxTokens
  {
  }

  lemma OutlookOfCalled(c: Config, b: Bucket, s: nat, t: nat)
    requires WellFormed(c, b) && b.available < c.maxTokens && s <= t
    ensures Outlook(c, b, s, t) <= 2 * c.maxTokens - 1 + (t - s) / c.interval
  {
    if s <= b.lastRefillMs <= t { DivMono(t - b.lastRefillMs, t - s, c.interval); }
  }

  // The first call is outside the stretch.
  lemma GrantsAfterFirst(c: Config, b: Bucket, nows: seq<nat>, s: nat, t: nat)
    requires WellFormed(c, b) && |nows| > 0 && nows[0] < s
    ensures GrantsIn(Results(c, b, nows), nows, s, t)
         == GrantsIn(Results(c, Check(c, b, nows[0]).0, nows[1..]), nows[1..], s, t)
  {
    assert Results(c, b, nows)[1..] == Results(c, Check(c, b, nows[0]).0, nows[1..]);
  }

  // A bucket that was called once holds less than a full load.
  lemma {:induction false} CalledStretch(c: Config, b: Bucket, nows: seq<nat>, s: nat, t: nat)
    requires WellFormed(c, b) && b.available < c.maxTokens && s <= t && Nondecreasing(nows)
    ensures GrantsIn(Results(c, b, nows), nows, s, t) <= 2 * c.maxTokens - 1 + (t - s) / c.interval
    decreases |nows|
  {
    hide Check, Outlook, Results, GrantsIn;
    if |nows| > 0 && nows[0] < s {
      CheckLeavesLess(c, b, nows[0]);
      CalledStretch(c, Check(c, b, nows[0]).0, nows[1..], s, t);
      GrantsAfterFirst(c, b, nows, s, t);
    } else {
      FromStretchOn(c, b, nows, s, t);
      OutlookOfCalled(c, b, s, t);
    }
  }

  lemma OutlookOfFresh(c: Config, t0: nat, s: nat, t: nat)
    requires c.interval > 0 && c.maxTokens > 0 && s <= t && s <= t0
    ensures Outlook(c, Fresh(c.maxTokens, t0), s, t) <= 2 * c.maxTokens - 1 + (t - s) / c.interval
  {
    if t0 <= t { DivMono(t - t0, t - s, c.interval); }
  }

  // In a run of the limiter with a clock that does not go back, the calls of a key with times from
  // s to t are granted at most 2 * maxTokens - 1 + floor((t - s) / interval) times.
  lemma LimiterBound(c: Config, nows: seq<nat>, s: nat, t: nat)
    requires c.interval > 0 && c.maxTokens > 0 && s <= t && Nondecreasing(nows)
    ensures GrantsIn(KeyResults(c, nows), nows, s, t) <= 2 * c.maxTokens - 1 + (t - s) / c.interval
  {
    if |nows| > 0 {
      var b := Fresh(c.maxTokens, nows[0]);
      hide Check, Outlook, Results, GrantsIn;
      if nows[0] < s {
        CheckLeavesLess(c, b, nows[0]);
        CalledStretch(c, Check(c, b, nows[0]).0, nows[1..], s, t);
        GrantsAfterFirst(c, b, nows, s, t);
      } else {
        FromStretchOn(c, b, nows, s, t);
        OutlookOfFresh(c, nows[0], s, t);
      }
    }
  }

  lemma {:induction false} GrantsAllIn(rs: seq<CheckResult>, nows: seq<nat>, s: nat, t: nat)
    requires |rs| == |nows| && forall i :: 0 <= i < |nows| ==> s <= nows[i] <= t
    ensures GrantsIn(rs, nows, s, t) == Grants(rs)
  {
    if |rs| > 0 { GrantsAllIn(rs[1..], nows[1..], s, t); }
  }

  // The key's first call, and then, once a full load is earned, more calls at one instant.
  ghost function Burst(c: Config, t0: nat): seq<nat>
    requires c.maxTokens > 0
  {
    [t0] + Repeat(t0 + c.maxTokens * c.interval, 2 * c.maxTokens - 1)
  }

  // The bound is met: a refill happens only once the bucket is empty, so a key left alone after its
  // first call until it has earned a full load is granted 2 * maxTokens - 1 calls at one instant.
  lemma BurstAtOneInstant(c: Config, t0: nat)
    requires c.interval > 0 && c.maxTokens > 0
    ensures Nondecreasing(Burst(c, t0))
    ensures var now := t0 + c.maxTokens * c.interval;
            GrantsIn(KeyResults(c, Burst(c, t0)), Burst(c, t0), now, now) == 2 * c.maxTokens - 1
  {
    var b, now, n := Fresh(c.maxTokens, t0), t0 + c.maxTokens * c.interval, 2 * c.maxTokens - 1;
    var b', nows := Check(c, b, t0).0, Burst(c, t0);
    MulMono(1, c.maxTokens, c.interval);
    assert now > t0;
    assert nows[1..] == Repeat(now, n);
    EarnedExactly(c, b', c.maxTokens);
    GrantsAtInstant(c, b', now, n);
    var rs := KeyResults(c, nows);
    assert rs[1..] == Results(c, b', Repeat(now, n));
    GrantsAllIn(rs[1..], nows[1..], now, now);
  }

  // The grants of a key in the window that begins at s.
  ghost function GrantsInWindow(c: Config, nows: seq<nat>, s: nat, windowMs: nat): nat
    requires c.interval > 0 && windowMs >= 1
  {
    GrantsIn(KeyResults(c, nows), nows, s, s + windowMs - 1)
  }

  // "Up to maxTokens events per window", as the rate limiter documents it.
  ghost predicate AtMostMaxPerWindow(c: Config, windowMs: nat)
    requires c.interval > 0 && windowMs >= 1
  {
    forall nows: seq<nat>, s: nat :: Nondecreasing(nows) ==> GrantsInWindow(c, nows, s, windowMs) <= c.maxTokens
  }

  lemma {:induction false} NoTokensNoGrants(c: Config, b: Bucket, nows: seq<nat>, s: nat, t: nat)
    requires WellFormed(c, b) && c.maxTokens == 0
    ensures GrantsIn(Results(c, b, nows), nows, s, t) == 0
    decreases |nows|
  {
    if |nows| > 0 {
      NoTokensNoGrants(c, Check(c, b, nows[0]).0, nows[1..], s, t);
    }
  }

  // A bucket of size 1 that is empty is granted a call only at a refill, and refills are at least
  // an interval apart.
  lemma {:induction false} SizeOneOncePerInterval(c: Config, b: Bucket, nows: seq<nat>, s: nat)
    requires WellFormed(c, b) && c.maxTokens == 1 && b.available == 0
    ensures GrantsIn(Results(c, b, nows), nows, s, s + c.interval - 1) <= if b.lastRefillMs < s then 1 else 0
    decreases |nows|
  {
    if |nows| > 0 {
      var (b', r) := Check(c, b, nows[0]);
      assert b'.available == 0;
      if r.Granted() { EarnedTakesAnInterval(c, b, nows[0]); }
      SizeOneOncePerInterval(c, b', nows[1..], s);
    }
  }

  lemma EarnedTakesAnInterval(c: Config, b: Bucket, now: nat)
    requires c.interval > 0 && Earned(c, b, now) > 0
    ensures now >= b.lastRefillMs + c.interval
  {
  }

  // With one token it is kept, for times in any order ...
  lemma SizeOneKeepsTheLimit(c: Config, nows: seq<nat>, s: nat)
    requires c.maxTokens == 1 && c.interval > 0
    ensures GrantsIn(KeyResults(c, nows), nows, s, s + c.interval - 1) <= 1
  {
    if |nows| > 0 {
      var b := Fresh(c.maxTokens, nows[0]);
      assert Results(c, b, nows)[1..] == Results(c, Check(c, b, nows[0]).0, nows[1..]);
      SizeOneOncePerInterval(c, Check(c, b, nows[0]).0, nows[1..], s);
    }
  }

  // ... and so the documented limit holds of calls made one at a time exactly for at most one token.
  lemma DocumentedLimit(maxTokens: u32, windowMs: nat)
    requires windowMs >= 1
    ensures RefillInterval(maxTokens, windowMs) > 0
    ensures AtMostMaxPerWindow(Config(maxTokens, RefillInterval(maxTokens, windowMs)), windowMs) <==> maxTokens <= 1
  {
    RefillIntervalPositive(maxTokens, windowMs);
    var c := Config(maxTokens, RefillInterval(maxTokens, windowMs));
    if maxTokens <= 1 {
      forall nows: seq<nat>, s: nat | Nondecreasing(nows)
        ensures GrantsInWindow(c, nows, s, windowMs) <= maxTokens
      {
        SmallSizesKeepTheLimit(c, nows, s, windowMs);
      }
    } else {
      MoreThanOneBreaksTheLimit(c, windowMs);
    }
  }

  lemma SmallSizesKeepTheLimit(c: Config, nows: seq<nat>, s: nat, windowMs: nat)
    requires c.maxTokens <= 1 && windowMs >= 1 && c.interval == RefillInterval(c.maxTokens, windowMs) && c.interval > 0
    ensures GrantsInWindow(c, nows, s, windowMs) <= c.maxTokens
  {
    if c.maxTokens == 1 {
      assert c.interval == windowMs;
      SizeOneKeepsTheLimit(c, nows, s);
    } else if |nows| > 0 {
      NoTokensNoGrants(c, Fresh(0, nows[0]), nows, s, s + windowMs - 1);
    }
  }

  lemma MoreThanOneBreaksTheLimit(c: Config, windowMs: nat)
    requires c.maxTokens > 1 && windowMs >= 1 && c.interval > 0
    ensures !AtMostMaxPerWindow(c, windowMs)
  {
    hide GrantsIn, KeyResults, Burst;
    var now, nows := 0 + c.maxTokens * c.interval, Burst(c, 0);
    BurstAtOneInstant(c, 0);
    WiderWindow(KeyResults(c, nows), nows, now, now, now + windowMs - 1);
    assert GrantsInWindow(c, nows, now, windowMs) > c.maxTokens;
  }

  lemma {:induction false} WiderWindow(rs: seq<CheckResult>, nows: seq<nat>, s: nat, t: nat, u: nat)
    requires |rs| == |nows| && t <= u
    ensures GrantsIn(rs, nows, s, t) <= GrantsIn(rs, nows, s, u)
  {
    if |rs| > 0 { WiderWindow(rs[1..], nows[1..], s, t, u); }
  }

  // ---- Many keys ----

  datatype Call<K> = Call(key: K, now: nat)

  // One call of the rate limiter.
  ghost function Limit<K>(c: Config, buckets: map<K, Bucket>, call: Call<K>): (r: (map<K, Bucket>, CheckResult))
    requires c.interval > 0 && forall k :: k in buckets ==> WellFormed(c, buckets[k])
    ensures forall k :: k in r.0 ==> WellFormed(c, r.0[k])
  {
    assert call.key in buckets ==> WellFormed(c, buckets[call.key]);
    var b := if call.key in buckets then buckets[call.key] else Fresh(c.maxTokens, call.now);
    (buckets[call.key := Check(c, b, call.now).0], Check(c, b, call.now).1)
  }

  ghost function LimitAll<K>(c: Config, buckets: map<K, Bucket>, calls: seq<Call<K>>): (rs: seq<CheckResult>)
    requires c.interval > 0 && forall k :: k in buckets ==> WellFormed(c, buckets[k])
    ensures |rs| == |calls|
    decreases |calls|
  {
    if |calls| == 0 then []
    else [Limit(c, buckets, calls[0]).1] + LimitAll(c, Limit(c, buckets, calls[0]).0, calls[1..])
  }

  // The results, or the times, of the calls for one key.
  ghost function OwnResults<K>(rs: seq<CheckResult>, calls: seq<Call<K>>, key: K): seq<CheckResult>
    requires |rs| == |calls|
  {
    if |rs| == 0 then []
    else (if calls[0].key == key then [rs[0]] else []) + OwnResults(rs[1..], calls[1..], key)
  }

  ghost function OwnTimes<K>(calls: seq<Call<K>>, key: K): seq<nat> {
    if |calls| == 0 then []
    else (if calls[0].key == key then [calls[0].now] else []) + OwnTimes(calls[1..], key)
  }

  // Whatever is called in between, a key gets the results of a bucket of its own.
  lemma {:induction false} KeysAreIndependent<K>(c: Config, buckets: map<K, Bucket>, calls: seq<Call<K>>, key: K)
    requires c.interval > 0 && forall k :: k in buckets ==> WellFormed(c, buckets[k])
    ensures OwnResults(LimitAll(c, buckets, calls), calls, key) ==
            if key in buckets then Results(c, buckets[key], OwnTimes(calls, key))
            else KeyResults(c, OwnTimes(calls, key))
    decreases |calls|
  {
    if |calls| > 0 {
      var (next, r) := Limit(c, buckets, calls[0]);
      var rs, times := LimitAll(c, buckets, calls), OwnTimes(calls[1..], key);
      assert rs[1..] == LimitAll(c, next, calls[1..]);
      KeysAreIndependent(c, next, calls[1..], key);
      if calls[0].key == key {
        assert ([calls[0].now] + times)[1..] == times;
      } else {
        assert [] + times == times;
        assert (if key in next then Results(c, next[key], times) else KeyResults(c, times))
            == [] + OwnResults(rs[1..], calls[1..], key);
      }
    }
  }

  /** A rate limiter: a bucket for each key, created by the first call for the key. */
  class TokenBucketRateLimiter<K(==)> {
    var buckets: map<K, TokenBucket>
    const maxTokens: u32
    const windowMs: nat

    ghost function Cfg(): Config { Config(maxTokens, RefillInterval(maxTokens, windowMs)) }

    ghost function View(): map<K, Bucket>
      reads this, buckets.Values
    {
      map k | k in buckets :: buckets[k].State()
    }

    ghost predicate Valid()
      reads this, buckets.Values
    {
      && Cfg().interval > 0
      && (forall k :: k in buckets ==> buckets[k].Valid() && buckets[k].Cfg() == Cfg())
      && forall j, k :: j in buckets && k in buckets && j != k ==> buckets[j] != buckets[k]
    }

    constructor (maxTokens: u32, windowMs: nat)
      ensures View() == map[] && this.maxTokens == maxTokens && this.windowMs == windowMs
      ensures Valid() <==> maxTokens == 0 || windowMs >= 1
    {
      RefillIntervalPositive(maxTokens, windowMs);
      this.maxTokens, this.windowMs, buckets := maxTokens, windowMs, map[];
    }

    method CheckKey(key: K, now: nat) returns (result: CheckResult)
      requires Valid()
      modifies this, buckets.Values
      ensures Valid() && (View(), result) == Limit(Cfg(), old(View()), Call(key, now))
      ensures fresh(buckets.Values - old(buckets.Values))
    {
      hide Check, Consume, Refill, Suppress;
      if key !in buckets {
        RefillIntervalPositive(maxTokens, windowMs);
        var bucket := new TokenBucket(maxTokens, windowMs, now);
        buckets := buckets[key := bucket];
      }
      ghost var b := if key in old(buckets) then old(View())[key] else Fresh(maxTokens, now);
      assert buckets[key].State() == b;
      result := buckets[key].CheckNow(now);
      assert View() == old(View())[key := Check(Cfg(), b, now).0];
    }
  }

  // ---- Suppression reports ----

  // How many of the latest calls were suppressed in a row.
  ghost function Trailing(rs: seq<CheckResult>): (n: nat)
    ensures n <= |rs|
  {
    if |rs| == 0 || rs[|rs| - 1].Granted() then 0 else 1 + Trailing(rs[..|rs| - 1])
  }

  // The bucket remembers how many calls were suppressed since the last grant, and the times of
  // the first and the last of them, where the past calls had times `nows` and results `rs`.
  ghost predicate Remembers(b: Bucket, nows: seq<nat>, rs: seq<CheckResult>) {
    && |rs| == |nows|
    && var n := Trailing(rs);
    && b.suppressedCount == n
    && b.firstSuppressionMs == (if n == 0 then 0 else nows[|nows| - n])
    && b.lastSuppressionMs == (if n == 0 then 0 else nows[|nows| - 1])
  }

  // The result a call must give, after the past calls, for its report to be right.
  ghost predicate Reports(r: CheckResult, nows: seq<nat>, rs: seq<CheckResult>)
    requires |rs| == |nows|
  {
    var n := Trailing(rs);
    r.Granted() ==>
      r == if n == 0 then Allowed else AllowedAfterSuppression(n, nows[|nows| - n], nows[|nows| - 1])
  }

  lemma CheckRemembers(c: Config, b: Bucket, now: nat, nows: seq<nat>, rs: seq<CheckResult>)
    requires WellFormed(c, b) && Remembers(b, nows, rs)
    ensures var (b', r) := Check(c, b, now); Reports(r, nows, rs) && Remembers(b', nows + [now], rs + [r])
  {
    var (b', r) := Check(c, b, now);
    assert (rs + [r])[..|rs|] == rs;
  }

  // After any past, every granted call reports exactly the suppressed calls since the previous
  // grant: how many there were, and the times of the first and the last of them.
  lemma {:induction false} SuppressionReports(c: Config, b: Bucket, past: seq<nat>, rs: seq<CheckResult>,
                                              nows: seq<nat>, i: nat)
    requires WellFormed(c, b) && Remembers(b, past, rs) && i < |nows|
    ensures var all := Results(c, b, nows); Reports(all[i], past + nows[..i], rs + all[..i])
    decreases |nows|
  {
    var (b', r) := Check(c, b, nows[0]);
    var all := Results(c, b, nows);
    CheckRemembers(c, b, nows[0], past, rs);
    hide Check, Remembers, Reports;
    if i == 0 {
      assert past + nows[..0] == past && rs + all[..0] == rs;
    } else {
      var later := Results(c, b', nows[1..]);
      SuppressionReports(c, b', past + [nows[0]], rs + [r], nows[1..], i - 1);
      assert [nows[0]] + nows[1..] == nows && all == [r] + later;
      FirstShifted(past, nows[0], nows[1..], i - 1);
      FirstShifted(rs, r, later, i - 1);
      assert all[i] == later[i - 1];
    }
  }

  lemma FreshRemembersNothing(c: Config, t0: nat)
    requires c.interval > 0
    ensures WellFormed(c, Fresh(c.maxTokens, t0)) && Remembers(Fresh(c.maxTokens, t0), [], [])
  {
  }
}
