/** The token bucket that limits requests per minute, with exact arithmetic for the token count. */
module RateBucket {
  import opened Wrappers

  const U64_MAX: nat := 0xFFFF_FFFF_FFFF_FFFF
  const NS_PER_MS: nat := 1_000_000
  const NS_PER_S: nat := 1_000_000_000

  // Instants are nanoseconds of a clock that never runs backwards.
  type Instant = nat

  /** The bucket between calls: the tokens left and the time of the last call. */
  datatype Bucket = Bucket(tokens: real, last: Instant)

  function Max(rpm: nat): real {
    rpm as real
  }

  function RefillPerMs(rpm: nat): real {
    rpm as real / 60_000.0
  }

  /** Tokens that come in within so many milliseconds. */
  function Brought(rpm: nat, ms: nat): real {
    ms as real * RefillPerMs(rpm)
  }

  predicate Inv(rpm: nat, b: Bucket) {
    0.0 <= b.tokens <= Max(rpm)
  }

  function Fresh(rpm: nat, now: Instant): Bucket {
    Bucket(Max(rpm), now)
  }

  // Whole milliseconds since the last call; a clock value from before it counts as no time.
  function ElapsedMs(last: Instant, now: Instant): (ms: nat)
    ensures if now < last then ms == 0 else ms * NS_PER_MS <= now - last < (ms + 1) * NS_PER_MS
  {
    if now < last then 0 else (now - last) / NS_PER_MS
  }

  function Available(rpm: nat, b: Bucket, now: Instant): real {
    var t := b.tokens + Brought(rpm, ElapsedMs(b.last, now));
    if t < Max(rpm) then t else Max(rpm)
  }

  predicate Accepts(rpm: nat, b: Bucket, now: Instant) {
    Available(rpm, b, now) >= 1.0
  }

  function After(rpm: nat, b: Bucket, now: Instant): Bucket {
    var t := Available(rpm, b, now);
    Bucket(if t >= 1.0 then t - 1.0 else t, now)
  }

  function Ceil(x: real): int {
    -((-x).Floor)
  }

  /** Seconds until a token is there. A rate of zero gives an infinite quotient, cut to the largest number. */
  function Hint(rpm: nat, tokens: real): nat {
    if rpm == 0 then U64_MAX
    else
      var wait := Ceil((1.0 - tokens) / RefillPerMs(rpm) / 1000.0);
      if wait < 1 then 1 else wait
  }

  class TokenBucket {
    ghost const rpm: nat
    var tokens: real
    var maxTokens: real
    var refillPerMs: real
    var lastRefill: Instant

    ghost predicate Valid()
      reads this
    {
      maxTokens == Max(rpm) && refillPerMs == RefillPerMs(rpm) && Inv(rpm, Value())
    }

    ghost function Value(): Bucket
      reads this
    {
      Bucket(tokens, lastRefill)
    }

    constructor (rpm: nat, now: Instant)
      ensures Valid() && this.rpm == rpm && Value() == Fresh(rpm, now)
    {
      this.rpm := rpm;
      var max := rpm as real;
      tokens, maxTokens, refillPerMs, lastRefill := max, max, max / 60_000.0, now;
    }

    method TryConsume(now: Instant) returns (r: Result<(), nat>)
      requires Valid()
      modifies this
      ensures Valid() && Value() == After(rpm, old(Value()), now)
      ensures r.Ok? <==> Accepts(rpm, old(Value()), now)
      ensures r.Err? ==> r.error == Hint(rpm, tokens)
    {
      hide ElapsedMs, Ceil, RefillPerMs;
      var elapsedMs := ElapsedMs(lastRefill, now);
      lastRefill := now;
      var refilled := tokens + elapsedMs as real * refillPerMs;
      BroughtGrows(rpm, elapsedMs, 0);
      RateZeroIff(rpm);
      tokens := if refilled < maxTokens then refilled else maxTokens;
      if tokens >= 1.0 {
        tokens := tokens - 1.0;
        return Ok(());
      }
      // In floating point the quotient is infinite and the conversion to an integer saturates.
      if refillPerMs == 0.0 {
        return Err(U64_MAX);
      }
      var wait := Ceil((1.0 - tokens) / refillPerMs / 1000.0);
      HintPositive(rpm, tokens);
      return Err(if wait < 1 then 1 else wait);
    }
  }

  lemma RateZeroIff(rpm: nat)
    ensures RefillPerMs(rpm) == 0.0 <==> rpm == 0
  {}

  lemma BroughtGrows(rpm: nat, a: nat, b: nat)
    ensures Brought(rpm, a) >= 0.0
    ensures a <= b ==> Brought(rpm, a) <= Brought(rpm, b)
    ensures Brought(rpm, a + b) == Brought(rpm, a) + Brought(rpm, b)
  {}

  lemma MulMono(a: real, b: real, r: real)
    requires a <= b && r >= 0.0
    ensures a * r <= b * r
  {}

  lemma HintPositive(rpm: nat, tokens: real)
    ensures Hint(rpm, tokens) >= 1
  {}

  lemma InProportion(rpm: nat, ms: nat)
    ensures Brought(rpm, ms) == (rpm * ms) as real / 60_000.0
  {
    var r, m := rpm as real, ms as real;
    assert (rpm * ms) as real == r * m;
    assert m * (r / 60_000.0) == r * m / 60_000.0;
  }

  /** A call finds what the last one left and rpm tokens for each 60000 whole milliseconds since, up to rpm; it takes
      one if there is one. */
  lemma CallTakesOne(rpm: nat, b: Bucket, now: Instant, ms: nat)
    requires if now < b.last then ms == 0 else ms * 1_000_000 <= now - b.last < (ms + 1) * 1_000_000
    ensures var t := b.tokens + (rpm * ms) as real / 60_000.0;
            var found := if t < rpm as real then t else rpm as real;
            && (Accepts(rpm, b, now) <==> found >= 1.0)
            && After(rpm, b, now) == Bucket(if found >= 1.0 then found - 1.0 else found, now)
  {
    InProportion(rpm, ms);
    assert ms == ElapsedMs(b.last, now);
  }

  // ---------------------------------------------------------------- runs of calls

  predicate InOrder(times: seq<Instant>) {
    forall i, j :: 0 <= i < j < |times| ==> times[i] <= times[j]
  }

  function AfterAll(rpm: nat, b: Bucket, times: seq<Instant>): Bucket {
    if times == [] then b
    else After(rpm, AfterAll(rpm, b, times[..|times| - 1]), times[|times| - 1])
  }

  function Accepted(rpm: nat, b: Bucket, times: seq<Instant>): nat {
    if times == [] then 0
    else
      var n := |times| - 1;
      Accepted(rpm, b, times[..n])
      + (if Accepts(rpm, AfterAll(rpm, b, times[..n]), times[n]) then 1 else 0)
  }

  /** The count of tokens never leaves its range. */
  lemma {:induction false} TokensInRange(rpm: nat, b: Bucket, times: seq<Instant>)
    requires Inv(rpm, b)
    ensures Inv(rpm, AfterAll(rpm, b, times))
  {
    if times != [] {
      var n := |times| - 1;
      TokensInRange(rpm, b, times[..n]);
      BroughtGrows(rpm, ElapsedMs(AfterAll(rpm, b, times[..n]).last, times[n]), 0);
    }
  }

  lemma LastIsLast(rpm: nat, b: Bucket, times: seq<Instant>)
    requires times != []
    ensures AfterAll(rpm, b, times).last == times[|times| - 1]
  {}

  // Every accepted call has paid a token that was in the full bucket or came in since the first call.
  lemma {:induction false} PaidFor(rpm: nat, b: Bucket, times: seq<Instant>)
    requires Inv(rpm, b) && InOrder(times) && times != []
    ensures Accepted(rpm, b, times) as real + AfterAll(rpm, b, times).tokens
            <= Max(rpm) + Refill(rpm, times[|times| - 1] - times[0])
  {
    hide ElapsedMs, Brought, Max, Refill;
    var n := |times| - 1;
    if n == 0 {
      assert times[..0] == [];
      RefillOfGap(rpm, 0, 0, 0);
      BroughtGrows(rpm, 0, 0);
    } else {
      PaidFor(rpm, b, times[..n]);
      var c := AfterAll(rpm, b, times[..n]);
      LastIsLast(rpm, b, times[..n]);
      RefillOfGap(rpm, times[0], times[n - 1], times[n]);
    }
  }

  // Refill of a stretch of time.
  function Refill(rpm: nat, ns: int): real {
    ns as real / 1_000_000.0 * RefillPerMs(rpm)
  }

  lemma RefillOfGap(rpm: nat, first: Instant, last: Instant, now: Instant)
    requires first <= last <= now
    ensures Refill(rpm, 0) == 0.0
    ensures Refill(rpm, now - first) >= Refill(rpm, last - first) + Brought(rpm, ElapsedMs(last, now))
  {}

  lemma {:induction false} RunInTwo(rpm: nat, b: Bucket, past: seq<Instant>, times: seq<Instant>)
    ensures AfterAll(rpm, b, past + times) == AfterAll(rpm, AfterAll(rpm, b, past), times)
    ensures Accepted(rpm, b, past + times) == Accepted(rpm, b, past) + Accepted(rpm, AfterAll(rpm, b, past), times)
  {
    if times == [] {
      assert past + times == past;
    } else {
      RunInTwo(rpm, b, past, times[..|times| - 1]);
      assert (past + times)[..|past + times| - 1] == past + times[..|times| - 1];
    }
  }

  /** In any stretch of any run, the calls accepted are at most the full bucket and what the time of the
      stretch refills. */
  lemma WindowBound(rpm: nat, start: Instant, past: seq<Instant>, window: seq<Instant>)
    requires InOrder(window) && window != []
    ensures (Accepted(rpm, Fresh(rpm, start), past + window) - Accepted(rpm, Fresh(rpm, start), past)) as real
            <= Max(rpm) + Refill(rpm, window[|window| - 1] - window[0])
  {
    var b := Fresh(rpm, start);
    RunInTwo(rpm, b, past, window);
    TokensInRange(rpm, b, past);
    TokensInRange(rpm, AfterAll(rpm, b, past), window);
    PaidFor(rpm, AfterAll(rpm, b, past), window);
  }

  /** A minute never holds more than twice the configured rate ... */
  lemma MinuteBound(rpm: nat, start: Instant, past: seq<Instant>, window: seq<Instant>)
    requires InOrder(window) && window != []
    requires window[|window| - 1] - window[0] <= 60 * NS_PER_S
    ensures Accepted(rpm, Fresh(rpm, start), past + window) - Accepted(rpm, Fresh(rpm, start), past) <= 2 * rpm
  {
    hide Accepted, Refill;
    WindowBound(rpm, start, past, window);
    RefillOfMinute(rpm, window[|window| - 1] - window[0]);
  }

  lemma RefillOfMinute(rpm: nat, ns: nat)
    requires ns <= 60 * NS_PER_S
    ensures Refill(rpm, ns) <= Max(rpm)
  {}

  function Repeat(t: Instant, n: nat): seq<Instant> {
    seq(n, _ => t)
  }

  lemma NoTimeBringsNothing(rpm: nat, t: Instant)
    ensures ElapsedMs(t, t) == 0 && Brought(rpm, 0) == 0.0
  {}

  lemma {:induction false} Burst(rpm: nat, b: Bucket, now: Instant, n: nat)
    requires Inv(rpm, b) && n as real <= Available(rpm, b, now)
    ensures Accepted(rpm, b, Repeat(now, n)) == n
    ensures n > 0 ==> AfterAll(rpm, b, Repeat(now, n)) == Bucket(Available(rpm, b, now) - n as real, now)
  {
    hide ElapsedMs, Brought;
    NoTimeBringsNothing(rpm, now);
    if n > 0 {
      Burst(rpm, b, now, n - 1);
      assert Repeat(now, n)[..n - 1] == Repeat(now, n - 1);
    }
  }

  /** ... and can hold exactly that many: a full bucket at its start and a full refill at its end. */
  lemma MinuteBoundReached(rpm: nat, start: Instant)
    ensures var t := start + 60 * NS_PER_S;
            Accepted(rpm, Fresh(rpm, start), Repeat(start, rpm) + Repeat(t, rpm)) == 2 * rpm
  {
    var b, t := Fresh(rpm, start), start + 60 * NS_PER_S;
    Burst(rpm, b, start, rpm);
    RunInTwo(rpm, b, Repeat(start, rpm), Repeat(t, rpm));
    if rpm > 0 {
      var c := AfterAll(rpm, b, Repeat(start, rpm));
      assert ElapsedMs(start, t) == 60_000;
      assert Brought(rpm, 60_000) == rpm as real;
      Burst(rpm, c, t, rpm);
    }
  }

  // ---------------------------------------------------------------- the hint of a refusal

  lemma CeilBounds(x: real)
    ensures x <= Ceil(x) as real && (Ceil(x) - 1) as real < x
    ensures x > 0.0 ==> Ceil(x) >= 1
  {}

  lemma DivideBack(u: real, r: real)
    requires r > 0.0
    ensures (u / r) * r == u
    ensures u > 0.0 ==> u / r > 0.0
  {}

  lemma Between(u: real, y: real, r: real, lower: int, upper: int)
    requires r > 0.0 && y * r == u && lower as real < y <= upper as real
    ensures lower as real * r < u <= upper as real * r
  {}

  // The rounded wait in seconds, against the missing part of a token and the refill of a millisecond.
  lemma RoundedWait(u: real, r: real) returns (w: int)
    requires u > 0.0 && r > 0.0
    ensures w == Ceil(u / r / 1000.0)
    ensures w >= 1 && (1000 * (w - 1)) as real * r < u <= (1000 * w) as real * r
  {
    hide Ceil;
    w := Ceil(u / r / 1000.0);
    DivideBack(u, r);
    CeilBounds(u / r / 1000.0);
    Between(u, u / r, r, 1000 * (w - 1), 1000 * w);
  }

  // The hint in milliseconds brings the missing part, and one second less does not.
  lemma HintCovers(rpm: nat, tokens: real)
    requires rpm >= 1 && 0.0 <= tokens < 1.0
    ensures var w := Hint(rpm, tokens);
            && 1 <= w <= 60
            && tokens + Brought(rpm, 1000 * w) >= 1.0
            && tokens + Brought(rpm, 1000 * (w - 1)) < 1.0
  {
    hide Ceil;
    var w := RoundedWait(1.0 - tokens, RefillPerMs(rpm));
    RateAtLeastOne(rpm);
    MulMono(1.0 / 60_000.0, RefillPerMs(rpm), (1000 * (w - 1)) as real);
  }

  lemma RateAtLeastOne(rpm: nat)
    requires rpm >= 1
    ensures RefillPerMs(rpm) >= 1.0 / 60_000.0
  {}

  lemma WholeSeconds(w: nat, last: Instant, now: Instant)
    ensures now >= last + w * NS_PER_S ==> ElapsedMs(last, now) >= 1000 * w
    ensures last <= now <= last + w * NS_PER_S ==> ElapsedMs(last, now) <= 1000 * w
  {}

  /** The hint is kept and is not too long: a next call that waits it out is accepted, and one that comes a
      second or more earlier is refused. */
  lemma HintIsKept(rpm: nat, b: Bucket, now: Instant, next: Instant)
    requires Inv(rpm, b) && rpm >= 1 && !Accepts(rpm, b, now) && now <= next
    ensures var c := After(rpm, b, now); var w := Hint(rpm, c.tokens);
            && 1 <= w <= 60
            && (next >= now + w * NS_PER_S ==> Accepts(rpm, c, next))
            && (next <= now + (w - 1) * NS_PER_S ==> !Accepts(rpm, c, next))
  {
    hide ElapsedMs, Brought, Hint;
    var c := After(rpm, b, now);
    BroughtGrows(rpm, ElapsedMs(b.last, now), 0);
    HintCovers(rpm, c.tokens);
    var w := Hint(rpm, c.tokens);
    var ms := ElapsedMs(now, next);
    WholeSeconds(w, now, next);
    WholeSeconds(w - 1, now, next);
    BroughtGrows(rpm, 1000 * w, ms);
    BroughtGrows(rpm, ms, 1000 * (w - 1));
  }

  /** A rate of zero refuses every call and names no time to come back. */
  lemma {:induction false} ZeroRateRefusesAll(start: Instant, times: seq<Instant>)
    ensures Accepted(0, Fresh(0, start), times) == 0 && AfterAll(0, Fresh(0, start), times).tokens == 0.0
    ensures Hint(0, 0.0) == U64_MAX
  {
    if times != [] { ZeroRateRefusesAll(start, times[..|times| - 1]); }
  }

  // ---------------------------------------------------------------- several calls after a refusal

  function Previous(last: Instant, times: seq<Instant>, i: nat): Instant
    requires i <= |times|
  {
    if i == 0 then last else times[i - 1]
  }

  // Milliseconds that refill the bucket: each gap counts only its whole ones.
  function CountedMs(last: Instant, times: seq<Instant>): nat {
    if times == [] then 0
    else
      var n := |times| - 1;
      CountedMs(last, times[..n]) + ElapsedMs(Previous(last, times, n), times[n])
  }

  lemma CountOneMore(last: Instant, times: seq<Instant>, now: Instant)
    ensures CountedMs(last, times + [now])
         == CountedMs(last, times) + ElapsedMs(Previous(last, times, |times|), now)
  {}

  lemma {:induction false} RefusedCallsOnlyRefill(rpm: nat, b: Bucket, times: seq<Instant>)
    requires rpm >= 1 && Inv(rpm, b) && b.tokens < 1.0 && Accepted(rpm, b, times) == 0
    ensures AfterAll(rpm, b, times).tokens == b.tokens + Brought(rpm, CountedMs(b.last, times))
    ensures AfterAll(rpm, b, times).tokens < 1.0
    ensures AfterAll(rpm, b, times).last == Previous(b.last, times, |times|)
  {
    hide ElapsedMs, Brought;
    BroughtGrows(rpm, 0, 0);
    if times != [] {
      var n := |times| - 1;
      RefusedCallsOnlyRefill(rpm, b, times[..n]);
      var c := AfterAll(rpm, b, times[..n]);
      assert Previous(b.last, times[..n], n) == Previous(b.last, times, n);
      BroughtGrows(rpm, CountedMs(b.last, times[..n]), ElapsedMs(c.last, times[n]));
    }
  }

  /** A caller that keeps calling after a refusal is let in at exactly the first call by which the whole
      milliseconds of its gaps have brought a token. */
  lemma AcceptedOnceCounted(rpm: nat, b: Bucket, times: seq<Instant>, now: Instant)
    requires rpm >= 1 && Inv(rpm, b) && b.tokens < 1.0 && Accepted(rpm, b, times) == 0
    ensures Accepts(rpm, AfterAll(rpm, b, times), now)
            <==> b.tokens + Brought(rpm, CountedMs(b.last, times + [now])) >= 1.0
  {
    hide ElapsedMs, Brought, AfterAll, CountedMs, Accepted, Previous;
    RefusedCallsOnlyRefill(rpm, b, times);
    CountOneMore(b.last, times, now);
    var c := AfterAll(rpm, b, times);
    BroughtGrows(rpm, CountedMs(b.last, times), ElapsedMs(c.last, now));
  }

  // Calls less than a millisecond apart.
  predicate Hasty(last: Instant, times: seq<Instant>) {
    forall i :: 0 <= i < |times| ==> times[i] < Previous(last, times, i) + NS_PER_MS
  }

  /** So a caller whose calls are always less than a millisecond apart is refused for ever, however long it
      goes on: the fractions of milliseconds between calls are lost. */
  lemma {:induction false} ImpatientCallerStarves(rpm: nat, b: Bucket, times: seq<Instant>)
    requires rpm >= 1 && Inv(rpm, b) && b.tokens < 1.0 && Hasty(b.last, times)
    ensures Accepted(rpm, b, times) == 0 && AfterAll(rpm, b, times).tokens == b.tokens
    ensures AfterAll(rpm, b, times).last == Previous(b.last, times, |times|)
  {
    if times != [] {
      var n := |times| - 1;
      assert forall i :: 0 <= i <= n ==> Previous(b.last, times[..n], i) == Previous(b.last, times, i);
      ImpatientCallerStarves(rpm, b, times[..n]);
      assert times[n] < Previous(b.last, times, n) + NS_PER_MS;
      assert ElapsedMs(Previous(b.last, times, n), times[n]) == 0;
      assert Brought(rpm, 0) == 0.0;
      hide ElapsedMs, Brought;
    }
  }
}
