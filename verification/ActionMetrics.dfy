/** The execution-time statistics of runtime/types.go:356-387. */
module ActionMetrics {
  import opened Int64

  datatype Stats = Stats(total: nat, successes: nat, failures: nat, avg: int, max: int, min: int)

  const NEW_STATS := Stats(0, 0, 0, 0, 0, 0)

  datatype Sample = Sample(ok: bool, duration: int)

  /** RecordActionSuccess and RecordActionFailure, in int64 arithmetic. */
  function Record(s: Stats, x: Sample): Stats {
    var n := s.total + 1;
    var counted := s.(total := n,
                      successes := s.successes + (if x.ok then 1 else 0),
                      failures := s.failures + (if x.ok then 0 else 1));
    if n == 1 then counted.(avg := x.duration, max := x.duration, min := x.duration)
    else counted.(
      avg := Quotient(Wrap(Wrap(s.avg * (n - 1)) + x.duration), n),
      max := if x.duration > s.max then x.duration else s.max,
      min := if x.duration < s.min then x.duration else s.min)
  }

  function RecordAll(xs: seq<Sample>): Stats {
    if xs == [] then NEW_STATS else Record(RecordAll(xs[..|xs| - 1]), xs[|xs| - 1])
  }

  function Sum(xs: seq<Sample>): int {
    if xs == [] then 0 else Sum(xs[..|xs| - 1]) + xs[|xs| - 1].duration
  }

  ghost predicate NonNegative(xs: seq<Sample>) {
    forall i :: 0 <= i < |xs| ==> xs[i].duration >= 0
  }

  lemma {:induction false} Counts(xs: seq<Sample>)
    ensures RecordAll(xs).total == |xs| == RecordAll(xs).successes + RecordAll(xs).failures
  {
    if xs != [] { Counts(xs[..|xs| - 1]); }
  }

  function Successes(xs: seq<Sample>): nat {
    if xs == [] then 0 else (if xs[0].ok then 1 else 0) + Successes(xs[1..])
  }

  lemma {:induction false} SuccessesSnoc(xs: seq<Sample>, x: Sample)
    ensures Successes(xs + [x]) == Successes(xs) + if x.ok then 1 else 0
  {
    if xs == [] {
      assert xs + [x] == [x];
    } else {
      SuccessesSnoc(xs[1..], x);
      assert (xs + [x])[1..] == xs[1..] + [x];
    }
  }

  /** The counters count what their names say. */
  lemma {:induction false} CountsKinds(xs: seq<Sample>)
    ensures RecordAll(xs).successes == Successes(xs) && RecordAll(xs).failures == |xs| - Successes(xs)
  {
    if xs != [] {
      var n := |xs| - 1;
      CountsKinds(xs[..n]);
      SuccessesSnoc(xs[..n], xs[n]);
      assert xs[..n] + [xs[n]] == xs;
    }
  }

  /** Max and Min bound every sample. */
  lemma {:induction false} ExtremesBound(xs: seq<Sample>)
    ensures forall i :: 0 <= i < |xs| ==> RecordAll(xs).min <= xs[i].duration <= RecordAll(xs).max
  {
    if xs != [] {
      Counts(xs[..|xs| - 1]);
      ExtremesBound(xs[..|xs| - 1]);
    }
  }

  /** Some samples attain them. */
  lemma {:induction false} ExtremesAttained(xs: seq<Sample>) returns (i: nat, j: nat)
    requires xs != []
    ensures i < |xs| && xs[i].duration == RecordAll(xs).max
    ensures j < |xs| && xs[j].duration == RecordAll(xs).min
  {
    var n := |xs| - 1;
    Counts(xs[..n]);
    if n == 0 { return 0, 0; }
    i, j := ExtremesAttained(xs[..n]);
    if xs[n].duration > RecordAll(xs[..n]).max { i := n; }
    if xs[n].duration < RecordAll(xs[..n]).min { j := n; }
  }

  /** What truncation loses over n samples. */
  function Loss(xs: seq<Sample>): int { Sum(xs) - |xs| * RecordAll(xs).avg }

  lemma MulMonotone(a: int, b: int, k: nat)
    requires a <= b
    ensures a * k <= b * k
  {
    assert (b - a) * k >= 0;
  }

  lemma DivisionLoss(t: int, n: int)
    requires t >= 0 && n > 0
    ensures n * (t / n) <= t <= n * (t / n) + n - 1
  {
  }

  lemma DivisionAtLeast(t: int, n: int, m: int)
    requires n > 0 && n * m <= t
    ensures m <= t / n
  {
    var q := t / n;
    assert t < n * (q + 1);
    assert n * (q + 1 - m) == n * (q + 1) - n * m;
    PositiveFactor(n, q + 1 - m);
  }

  lemma PositiveFactor(n: int, x: int)
    requires n > 0 && n * x > 0
    ensures x > 0
  {
  }

  lemma DivisionAtMost(t: int, n: int, m: int)
    requires n > 0 && t <= n * m
    ensures t / n <= m
  {
  }

  /** One more sample: the new average stays between bounds of the old one and the
      sample, and truncation loses less than the new count. */
  lemma AverageStep(sum: int, k: nat, a: int, d: int, lo: int, hi: int)
    requires k > 0 && a >= 0 && d >= 0 && lo <= a <= hi && lo <= d <= hi
    requires 0 <= 2 * (sum - k * a) <= k * (k - 1)
    ensures var n := k + 1; var q := (a * k + d) / n;
            && q >= 0 && lo <= q <= hi
            && 0 <= 2 * (sum + d - n * q) <= n * (n - 1)
  {
    var n, t := k + 1, a * k + d;
    MulMonotone(0, a, k);
    MulMonotone(lo, a, k);
    MulMonotone(a, hi, k);
    assert n * lo == lo * k + lo && n * hi == hi * k + hi;
    DivisionLoss(t, n);
    DivisionAtLeast(t, n, 0);
    DivisionAtLeast(t, n, lo);
    DivisionAtMost(t, n, hi);
    assert k * a == a * k;
    assert n * (n - 1) == k * (k - 1) + 2 * k;
  }

  /** Whenever the true sum fits int64, nothing wraps, the average lies between the
      extremes, never exceeds the true mean, and lags it by at most (n - 1) / 2. */
  lemma {:induction false} AverageBound(xs: seq<Sample>)
    requires NonNegative(xs) && Sum(xs) < TWO63
    ensures 0 <= 2 * Loss(xs) <= |xs| * (|xs| - 1)
    ensures RecordAll(xs).avg >= 0 && Sum(xs) >= 0
    ensures xs != [] ==> RecordAll(xs).min <= RecordAll(xs).avg <= RecordAll(xs).max
  {
    if xs != [] {
      var k := |xs| - 1;
      var s, d, n := RecordAll(xs[..k]), xs[k].duration, |xs|;
      Counts(xs[..k]);
      AverageBound(xs[..k]);
      if k == 0 {
        assert xs[..0] == [];
        assert RecordAll(xs).avg == d && Sum(xs) == d;
      } else {
        var r := RecordAll(xs);
        AverageStep(Sum(xs[..k]), k, s.avg, d, r.min, r.max);
        MulMonotone(0, s.avg, k);
        assert k * s.avg == s.avg * k;
        assert r.avg == (s.avg * k + d) / n;
      }
    }
  }

  /** 0, 1, ..., n - 1. */
  function Ramp(n: nat): seq<Sample> {
    if n == 0 then [] else Ramp(n - 1) + [Sample(true, n - 1)]
  }

  /** The bound is tight: on this ramp the reported average stays 0 while the true mean is (n - 1) / 2. */
  lemma {:induction false} BoundTight(n: nat)
    requires n * (n - 1) < TWO63
    ensures |Ramp(n)| == n && RecordAll(Ramp(n)).total == n && RecordAll(Ramp(n)).avg == 0
    ensures 2 * Loss(Ramp(n)) == n * (n - 1)
  {
    if n > 0 {
      MulMonotone(n - 2, n, n - 1);
      assert (n - 1) * (n - 2) == (n - 2) * (n - 1) && n * (n - 1) == (n - 1) * (n - 2) + 2 * (n - 1);
      BoundTight(n - 1);
      assert Ramp(n)[..|Ramp(n)| - 1] == Ramp(n - 1);
      MulMonotone(1, n, n - 1);
      RampStep(RecordAll(Ramp(n - 1)), n);
    }
  }

  lemma RampStep(s: Stats, n: nat)
    requires n > 0 && s.total == n - 1 && s.avg == 0 && n - 1 < TWO63
    ensures Record(s, Sample(true, n - 1)).avg == 0
  {
    assert Wrap(Wrap(0 * (n - 1)) + (n - 1)) == n - 1;
    DivisionAtMost(n - 1, n, 0 + 1);
    if n > 1 { DivisionLoss(n - 1, n); }
  }

  class Metrics {
    var totalActions: nat
    var successfulActions: nat
    var failedActions: nat
    var avgExecutionTime: int
    var maxExecutionTime: int
    var minExecutionTime: int

    ghost function View(): Stats
      reads this
    {
      Stats(totalActions, successfulActions, failedActions, avgExecutionTime, maxExecutionTime, minExecutionTime)
    }

    constructor ()
      ensures View() == NEW_STATS
    {
      totalActions, successfulActions, failedActions := 0, 0, 0;
      avgExecutionTime, maxExecutionTime, minExecutionTime := 0, 0, 0;
    }

    method RecordActionSuccess(duration: int)
      modifies this
      ensures View() == Record(old(View()), Sample(true, duration))
    {
      successfulActions := successfulActions + 1;
      totalActions := totalActions + 1;
      UpdateExecutionTime(duration);
    }

    method RecordActionFailure(duration: int)
      modifies this
      ensures View() == Record(old(View()), Sample(false, duration))
    {
      failedActions := failedActions + 1;
      totalActions := totalActions + 1;
      UpdateExecutionTime(duration);
    }

    method UpdateExecutionTime(duration: int)
      requires totalActions > 0
      modifies this`avgExecutionTime, this`maxExecutionTime, this`minExecutionTime
      ensures totalActions == 1 ==> avgExecutionTime == maxExecutionTime == minExecutionTime == duration
      ensures totalActions > 1 ==>
                && avgExecutionTime ==
                   Quotient(Wrap(Wrap(old(avgExecutionTime) * (totalActions - 1)) + duration), totalActions)
                && maxExecutionTime == (if duration > old(maxExecutionTime) then duration else old(maxExecutionTime))
                && minExecutionTime == (if duration < old(minExecutionTime) then duration else old(minExecutionTime))
    {
      if totalActions == 1 {
        avgExecutionTime, maxExecutionTime, minExecutionTime := duration, duration, duration;
      } else {
        var total := Wrap(avgExecutionTime * (totalActions - 1));
        avgExecutionTime := Quotient(Wrap(total + duration), totalActions);
        if duration > maxExecutionTime { maxExecutionTime := duration; }
        if duration < minExecutionTime { minExecutionTime := duration; }
      }
    }
  }
}
