/** Retry delays and the retry loop (runtime/action_dispatcher.go:80-185). */
module Backoff {
  import opened Values
  import opened Int64
  import opened ActionMetrics

  datatype Strategy = Constant | Linear | Exponential | Fibonacci

  datatype RetryStrategy = RetryStrategy(initialDelay: int, maxDelay: int, strategy: Strategy)
  {
    /** Durations are int64. */
    predicate Valid() { Fits(initialDelay) && Fits(maxDelay) }

    function Base(): int { if initialDelay == 0 then 100 * MILLISECOND else initialDelay }

    function Cap(): int { if maxDelay == 0 then 30_000 * MILLISECOND else maxDelay }
  }

  const MILLISECOND := 1_000_000

  function Pow2(k: nat): nat { if k == 0 then 1 else 2 * Pow2(k - 1) }

  function Fib(k: nat): nat { if k < 2 then k else Fib(k - 1) + Fib(k - 2) }

  function Factor(s: Strategy, k: nat): nat {
    match s
    case Constant => 1
    case Linear => k + 1
    case Exponential => Pow2(k)
    case Fibonacci => Fib(k + 1)
  }

  /** The delay before it is capped, without overflow. */
  function Uncapped(b: RetryStrategy, k: nat): int { b.Base() * Factor(b.strategy, k) }

  function Min(a: int, b: int): int { if b < a then b else a }

  /** What calculateBackoff returns. */
  function Delay(b: Option<RetryStrategy>, k: nat): int {
    match b
    case None => Wrap((k + 1) * (100 * MILLISECOND))
    case Some(r) => Min(Wrap(Uncapped(r, k)), r.Cap())
  }

  method CalculateBackoff(backoff: Option<RetryStrategy>, attempt: nat) returns (delay: int)
    requires backoff.Some? ==> backoff.value.Valid()
    ensures delay == Delay(backoff, attempt)
  {
    if backoff.None? {
      delay := Wrap(Wrap((attempt + 1) * 100) * MILLISECOND);
      WrapProduct((attempt + 1) * 100, MILLISECOND);
      return;
    }
    var b := backoff.value;
    delay := b.initialDelay;
    if delay == 0 { delay := 100 * MILLISECOND; }
    var maxDelay := b.maxDelay;
    if maxDelay == 0 { maxDelay := 30_000 * MILLISECOND; }
    match b.strategy {
      case Constant =>
      case Linear => delay := Wrap(delay * (attempt + 1));
      case Exponential => delay := Double(delay, attempt);
      case Fibonacci =>
        var a := FibLoop(attempt);
        WrapProduct(Fib(attempt + 1), delay);
        assert Fib(attempt + 1) * delay == delay * Fib(attempt + 1) && a * delay == delay * a;
        delay := Wrap(delay * a);
    }
    assert delay == Wrap(Uncapped(b, attempt));
    if delay > maxDelay { delay := maxDelay; }
  }

  method Double(base: int, attempt: nat) returns (delay: int)
    requires Fits(base)
    ensures delay == Wrap(base * Pow2(attempt))
  {
    delay := base;
    var i := 0;
    while i < attempt
      invariant 0 <= i <= attempt && delay == Wrap(base * Pow2(i))
    {
      WrapProduct(base * Pow2(i), 2);
      assert base * Pow2(i) * 2 == base * Pow2(i + 1);
      delay := Wrap(delay * 2);
      i := i + 1;
    }
  }

  method FibLoop(attempt: nat) returns (a: int)
    ensures a == Wrap(Fib(attempt + 1))
  {
    a := 1;
    var b := 1;
    var i := 0;
    while i < attempt
      invariant 0 <= i <= attempt && a == Wrap(Fib(i + 1)) && b == Wrap(Fib(i + 2))
    {
      WrapSum(Fib(i + 1), Fib(i + 2));
      assert Fib(i + 3) == Fib(i + 1) + Fib(i + 2);
      a, b := b, Wrap(a + b);
      i := i + 1;
    }
  }

  // ---------- the closed forms ----------

  /** The delay is the capped product exactly when the product fits int64, or wraps to
      something that the cap hides. */
  lemma DelayExactIff(b: RetryStrategy, k: nat)
    requires b.Valid() && b.Base() > 0
    ensures Delay(Some(b), k) == Min(Uncapped(b, k), b.Cap()) <==>
            Uncapped(b, k) < TWO63 || Wrap(Uncapped(b, k)) >= b.Cap()
  {
    UncappedNonNegative(b, k);
  }

  lemma UncappedNonNegative(b: RetryStrategy, k: nat)
    requires b.Base() > 0
    ensures Uncapped(b, k) >= 0
  {
    MulMonotone(0, b.Base(), Factor(b.strategy, k));
  }

  lemma {:induction false} FactorGrows(s: Strategy, k: nat, m: nat)
    requires k <= m
    ensures Factor(s, k) <= Factor(s, m)
    decreases m
  {
    if k < m { FactorGrows(s, k, m - 1); }
  }

  /** Delays do not shrink, up to the first product that does not fit. */
  lemma DelayMonotone(b: RetryStrategy, k: nat, m: nat)
    requires b.Valid() && b.Base() > 0 && k <= m && Uncapped(b, m) < TWO63
    ensures Delay(Some(b), k) <= Delay(Some(b), m)
  {
    FactorGrows(b.strategy, k, m);
    MulMonotone(Factor(b.strategy, k), Factor(b.strategy, m), b.Base());
    assert Uncapped(b, k) == Factor(b.strategy, k) * b.Base() && Uncapped(b, m) == Factor(b.strategy, m) * b.Base();
    UncappedNonNegative(b, k);
  }

  /** The first delay is the initial one, 100 ms if none is set, under a cap that is 30 s if none is set;
      without a strategy delay k is (k + 1) * 100 ms. */
  lemma FirstDelay(b: RetryStrategy, k: nat)
    requires b.Valid()
    ensures var cap := if b.maxDelay == 0 then 30_000_000_000 else b.maxDelay;
            var first := if b.initialDelay == 0 then 100_000_000 else b.initialDelay;
            Delay(Some(b), 0) == if first <= cap then first else cap
    ensures (k + 1) * 100_000_000 < TWO63 ==> Delay(None, k) == (k + 1) * 100_000_000
  {
    assert Factor(b.strategy, 0) == 1;
  }

  /** How delays go on while the products fit, each under the cap: constant delays repeat, linear ones
      add the initial delay, exponential ones double, Fibonacci ones add the last two. */
  lemma DelaysFollow(b: RetryStrategy, k: nat)
    requires b.Valid() && b.Base() > 0 && b.Cap() >= 0 && Uncapped(b, k + 2) < TWO63
    ensures var d, d1, d2 := Delay(Some(b), k), Delay(Some(b), k + 1), Delay(Some(b), k + 2);
            match b.strategy
            case Constant => d1 == d
            case Linear => d1 == Min(d + b.Base(), b.Cap())
            case Exponential => d1 == Min(2 * d, b.Cap())
            case Fibonacci => d2 == Min(d + d1, b.Cap()) && (k == 0 ==> d1 == d)
  {
    var next, last := k + 1, k + 2;
    FactorGrows(b.strategy, k, next);
    FactorGrows(b.strategy, next, last);
    MulMonotone(Factor(b.strategy, k), Factor(b.strategy, next), b.Base());
    MulMonotone(Factor(b.strategy, next), Factor(b.strategy, last), b.Base());
    ProductsFollow(b, k);
    UncappedNonNegative(b, k);
    assert Uncapped(b, k) == Factor(b.strategy, k) * b.Base() <= Uncapped(b, next);
    assert Uncapped(b, next) == Factor(b.strategy, next) * b.Base();
    assert Uncapped(b, next) <= Uncapped(b, last) == Factor(b.strategy, last) * b.Base();
  }

  lemma ProductsFollow(b: RetryStrategy, k: nat)
    ensures match b.strategy
            case Constant => Uncapped(b, k + 1) == Uncapped(b, k)
            case Linear => Uncapped(b, k + 1) == Uncapped(b, k) + b.Base()
            case Exponential => Uncapped(b, k + 1) == 2 * Uncapped(b, k)
            case Fibonacci =>
              && Uncapped(b, k + 2) == Uncapped(b, k) + Uncapped(b, k + 1)
              && (k == 0 ==> Uncapped(b, k + 1) == Uncapped(b, k))
  {
  }

  /** One attempt more at most doubles the factor. */
  lemma FactorAtMostDoubles(s: Strategy, k: nat)
    ensures Factor(s, k + 1) <= 2 * Factor(s, k)
  {
  }

  lemma UncappedAtMostDoubles(b: RetryStrategy, k: nat)
    requires b.Base() > 0
    ensures Uncapped(b, k + 1) <= 2 * Uncapped(b, k)
  {
    FactorAtMostDoubles(b.strategy, k);
    MulMonotone(Factor(b.strategy, k + 1), 2 * Factor(b.strategy, k), b.Base());
    assert Uncapped(b, k + 1) == Factor(b.strategy, k + 1) * b.Base();
    assert 2 * Uncapped(b, k) == 2 * Factor(b.strategy, k) * b.Base();
  }

  /** The first product that does not fit. */
  lemma {:induction false} FirstOverflow(b: RetryStrategy, m: nat) returns (k: nat)
    requires b.Valid() && b.Base() > 0 && Uncapped(b, m) >= TWO63
    ensures k < m && Uncapped(b, k) < TWO63 <= Uncapped(b, k + 1)
  {
    assert m > 0 by { assert Factor(b.strategy, 0) == 1; }
    if Uncapped(b, m - 1) < TWO63 { return m - 1; }
    k := FirstOverflow(b, m - 1);
  }

  /** It wraps to a negative delay, which no cap hides. */
  lemma OverflowShrinks(b: RetryStrategy, k: nat)
    requires b.Valid() && b.Base() > 0 && b.Cap() >= 0 && Uncapped(b, k) < TWO63 <= Uncapped(b, k + 1)
    ensures Delay(Some(b), k + 1) < 0 <= Delay(Some(b), k)
  {
    UncappedAtMostDoubles(b, k);
    UncappedNonNegative(b, k);
  }

  ghost predicate GrowsUpTo(b: RetryStrategy, m: nat) {
    forall k: nat, l: nat :: k <= l <= m ==> Delay(Some(b), k) <= Delay(Some(b), l)
  }

  /** Delays never shrink up to attempt `m` exactly when the last uncapped product fits int64. */
  lemma DelayMonotoneIff(b: RetryStrategy, m: nat)
    requires b.Valid() && b.Base() > 0 && b.Cap() >= 0
    ensures GrowsUpTo(b, m) <==> Uncapped(b, m) < TWO63
  {
    if Uncapped(b, m) < TWO63 {
      forall k: nat, l: nat | k <= l <= m ensures Delay(Some(b), k) <= Delay(Some(b), l) {
        FactorGrows(b.strategy, l, m);
        MulMonotone(Factor(b.strategy, l), Factor(b.strategy, m), b.Base());
        assert Uncapped(b, l) == Factor(b.strategy, l) * b.Base() && Uncapped(b, m) == Factor(b.strategy, m) * b.Base();
        DelayMonotone(b, k, l);
      }
    } else {
      var k := FirstOverflow(b, m);
      OverflowShrinks(b, k);
      var next: nat := k + 1;
      assert Delay(Some(b), next) < Delay(Some(b), k);
    }
  }

  lemma {:induction false} Pow2Adds(k: nat, m: nat)
    ensures Pow2(k + m) == Pow2(k) * Pow2(m)
    decreases k
  {
    if k > 0 { Pow2Adds(k - 1, m); }
  }

  /** From the 64th retry on an exponential delay has overflowed to nothing. */
  lemma ExponentialVanishes(b: RetryStrategy, k: nat)
    requires b.Valid() && b.strategy == Exponential && k >= 64 && b.Cap() >= 0
    ensures Delay(Some(b), k) == 0
  {
    Pow2Adds(64, k - 64);
    Pow2Is64();
    var m := b.Base() * Pow2(k - 64);
    assert Uncapped(b, k) == 0 + m * TWO64;
    WrapShift(0, m);
  }

  lemma Pow2Is64()
    ensures Pow2(64) == TWO64
  {
    Pow2Adds(32, 32);
    Pow2Adds(16, 16);
    Pow2Adds(8, 8);
    Pow2Adds(4, 4);
    assert Pow2(4) == 16;
    assert Pow2(8) == 256;
    assert Pow2(16) == 65536;
    assert Pow2(32) == 0x1_0000_0000;
  }

  // ---------- the retry loop ----------

  /** What the world does to one try. */
  datatype Try = Try(cancelledBefore: bool, ok: bool, elapsed: int, cancelledWaiting: bool)

  datatype Result = Succeeded | Failed | Cancelled | NothingTried

  /** Zero configured retries mean one try; a negative number means none. */
  function MaxTries(retries: int): nat { if retries == 0 then 1 else if retries < 0 then 0 else retries }

  /** The loop from try `k` on: its result and the number of tries made in all. */
  function Outcome(world: nat -> Try, max: nat, k: nat): (Result, nat)
    decreases max - k
  {
    if k >= max then (if max == 0 then NothingTried else Failed, k)
    else if world(k).cancelledBefore then (Cancelled, k)
    else if world(k).ok then (Succeeded, k + 1)
    else if k < max - 1 && world(k).cancelledWaiting then (Cancelled, k + 1)
    else Outcome(world, max, k + 1)
  }

  function Samples(world: nat -> Try, tries: nat): seq<Sample> {
    seq(tries, i requires 0 <= i < tries => Sample(world(i).ok, world(i).elapsed))
  }

  function Waits(b: Option<RetryStrategy>, n: nat): seq<int> {
    seq(n, i requires 0 <= i < n => Delay(b, i))
  }

  function RecordOn(s: Stats, xs: seq<Sample>): Stats {
    if xs == [] then s else Record(RecordOn(s, xs[..|xs| - 1]), xs[|xs| - 1])
  }

  lemma OneMoreSample(s: Stats, world: nat -> Try, k: nat)
    ensures RecordOn(s, Samples(world, k + 1)) ==
            Record(RecordOn(s, Samples(world, k)), Sample(world(k).ok, world(k).elapsed))
  {
    assert Samples(world, k + 1)[..k] == Samples(world, k);
  }

  lemma OneMoreWait(b: Option<RetryStrategy>, n: nat)
    ensures Waits(b, n + 1) == Waits(b, n) + [Delay(b, n)]
  {
  }

  /** Time one try. */
  method RecordTry(metrics: Metrics, world: nat -> Try, k: nat, ghost before: Stats)
    requires metrics.View() == RecordOn(before, Samples(world, k))
    modifies metrics
    ensures metrics.View() == RecordOn(before, Samples(world, k + 1))
  {
    OneMoreSample(before, world, k);
    if world(k).ok { metrics.RecordActionSuccess(world(k).elapsed); }
    else { metrics.RecordActionFailure(world(k).elapsed); }
  }

  /** Every try but the last is followed by a complete wait; so is the last when the
      loop was cancelled before the next one. */
  function CompletedWaits(world: nat -> Try, result: Result, tries: nat): nat {
    if tries == 0 then 0
    else if result == Cancelled && !world(tries - 1).cancelledWaiting then tries
    else tries - 1
  }

  method ExecuteWithRetry(retries: int, backoff: Option<RetryStrategy>, world: nat -> Try, metrics: Metrics)
    returns (result: Result, tries: nat, waits: seq<int>)
    requires backoff.Some? ==> backoff.value.Valid()
    modifies metrics
    ensures (result, tries) == Outcome(world, MaxTries(retries), 0)
    ensures |waits| < MaxTries(retries) || waits == []
    ensures |waits| == CompletedWaits(world, result, tries)
    ensures waits == Waits(backoff, |waits|) && |waits| <= tries
    ensures metrics.View() == RecordOn(old(metrics.View()), Samples(world, tries))
  {
    var maxRetries := retries;
    if maxRetries == 0 { maxRetries := 1; }
    ghost var before := metrics.View();
    waits, tries := [], 0;
    var attempt := 0;
    while attempt < maxRetries
      invariant 0 <= attempt && (attempt <= maxRetries || attempt == 0) && tries == attempt
      invariant |waits| == if attempt < maxRetries || attempt == 0 then attempt else attempt - 1
      invariant waits == Waits(backoff, |waits|)
      invariant 0 < attempt < maxRetries ==> !world(attempt - 1).cancelledWaiting
      invariant Outcome(world, MaxTries(retries), 0) == Outcome(world, MaxTries(retries), attempt)
      invariant metrics.View() == RecordOn(old(metrics.View()), Samples(world, attempt))
    {
      var now := world(attempt);
      if now.cancelledBefore { return Cancelled, tries, waits; }
      tries := tries + 1;
      RecordTry(metrics, world, attempt, before);
      if now.ok { return Succeeded, tries, waits; }
      if attempt < maxRetries - 1 {
        var delay := CalculateBackoff(backoff, attempt);
        if now.cancelledWaiting { return Cancelled, tries, waits; }
        OneMoreWait(backoff, |waits|);
        waits := waits + [delay];
      }
      attempt := attempt + 1;
    }
    return if maxRetries < 0 then NothingTried else Failed, tries, waits;
  }

  function Total(waits: seq<int>): int { if waits == [] then 0 else waits[0] + Total(waits[1..]) }

  lemma {:induction false} TotalBound(waits: seq<int>, cap: int)
    requires forall i :: 0 <= i < |waits| ==> waits[i] <= cap
    ensures Total(waits) <= |waits| * cap
  {
    if waits != [] { TotalBound(waits[1..], cap); }
  }

  /** The loop makes at most the configured tries, and succeeds exactly when some try
      is reached and succeeds. */
  lemma {:induction false} OutcomeBounded(world: nat -> Try, max: nat, k: nat)
    requires k <= max
    ensures k <= Outcome(world, max, k).1 <= max
    ensures Outcome(world, max, k).0 == Succeeded <==>
            exists i :: k <= i < max && Wins(world, k, i)
    ensures Outcome(world, max, k).0 == NothingTried <==> max == 0
    ensures Outcome(world, max, k).0 == Failed ==> Outcome(world, max, k).1 == max
    decreases max - k
  {
    if k < max {
      var next := k + 1;
      OutcomeBounded(world, max, next);
      if exists i :: next <= i < max && Wins(world, next, i) {
        var i :| next <= i < max && Wins(world, next, i);
        if !world(k).cancelledBefore && !world(k).ok && !world(k).cancelledWaiting { assert Wins(world, k, i); }
      }
      if exists i :: k < i < max && Wins(world, k, i) {
        var i :| k < i < max && Wins(world, k, i);
        assert Wins(world, next, i);
      }
      assert Wins(world, k, k) <==> !world(k).cancelledBefore && world(k).ok;
    }
  }

  /** Zero configured retries mean one try, a negative number none and no error. */
  lemma TriesConfigured(world: nat -> Try, retries: int)
    ensures var (result, tries) := Outcome(world, MaxTries(retries), 0);
            && (result == NothingTried <==> retries < 0)
            && tries <= (if retries == 0 then 1 else if retries < 0 then 0 else retries)
            && (result == Failed ==> tries == if retries == 0 then 1 else retries)
  {
    OutcomeBounded(world, MaxTries(retries), 0);
  }

  /** Try `i` is reached and succeeds. */
  ghost predicate Wins(world: nat -> Try, k: nat, i: nat) {
    && !world(i).cancelledBefore && world(i).ok
    && forall j: nat :: k <= j < i ==> !world(j).cancelledBefore && !world(j).ok && !world(j).cancelledWaiting
  }

  /** Try `i` ends the loop: cancelled before it, successful, or cancelled in the wait after it. */
  predicate Ends(world: nat -> Try, max: nat, i: nat) {
    world(i).cancelledBefore || world(i).ok || (i < max - 1 && world(i).cancelledWaiting)
  }

  /** The loop ends at the first such try, or fails after all of them; no tries at all is a result of its own. */
  lemma {:induction false} OutcomeExact(world: nat -> Try, max: nat, k: nat, i: nat)
    requires k <= i <= max && forall j: nat :: k <= j < i ==> !Ends(world, max, j)
    requires i == max || Ends(world, max, i)
    ensures Outcome(world, max, k) ==
            if i == max then (if max == 0 then NothingTried else Failed, max)
            else if world(i).cancelledBefore then (Cancelled, i)
            else if world(i).ok then (Succeeded, i + 1)
            else (Cancelled, i + 1)
    decreases i - k
  {
    if k < i {
      assert !Ends(world, max, k);
      OutcomeExact(world, max, k + 1, i);
    }
  }

  /** With a strategy the completed waits total at most (tries - 1) times the cap. */
  lemma WaitsBounded(b: RetryStrategy, retries: int, n: nat)
    requires b.Cap() >= 0 && (n < MaxTries(retries) || n == 0)
    ensures Total(Waits(Some(b), n)) <= (if MaxTries(retries) == 0 then 0 else MaxTries(retries) - 1) * b.Cap()
  {
    TotalBound(Waits(Some(b), n), b.Cap());
    if n > 0 { MulMonotone(n, MaxTries(retries) - 1, b.Cap()); }
    else if MaxTries(retries) > 0 { MulMonotone(0, MaxTries(retries) - 1, b.Cap()); }
  }
}
