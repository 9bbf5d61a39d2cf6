/** `Estimator`: corrects size estimates by the running ratio of observed
    to estimated sizes, and picks the next record index at which a writer
    checks its size again. All arithmetic is Java `long` arithmetic, so
    every sum, product and quotient is narrowed with `ToSigned`. */
module Estimators {
  import opened Wrappers
  import opened Words

  /** The running totals `totalEstimated` and `totalObserved`. */
  datatype Estimator = Estimator(totalEstimated: int64, totalObserved: int64)

  const NewEstimator := Estimator(0, 0)

  /** `Long.MIN_VALUE`. */
  const LongMin: int := -0x8000_0000_0000_0000

  /** Java `long` division by a nonzero divisor: the truncated quotient,
      which wraps only for `Long.MIN_VALUE / -1`. */
  function LongDiv(a: int64, b: int64): (q: int64)
    requires b != 0
    ensures !(a == LongMin && b == -1) ==> q == Quot(a, b)
  {
    QuotFits(a, b);
    ToSigned(Quot(a, b), W64)
  }

  lemma MulMono(q: nat, d: nat, k: nat)
    requires k <= d
    ensures q * k <= q * d
  {
    assert q * d == q * k + q * (d - k);
  }

  lemma DivAtMost(n: nat, d: nat)
    requires d >= 1
    ensures n / d <= n
    ensures d >= 2 ==> n / d <= n / 2
  {
    var q := n / d;
    assert n == q * d + n % d;
    MulMono(q, d, 1);
    if d >= 2 {
      MulMono(q, d, 2);
    }
  }

  /** A `long` quotient fits a `long`, except `Long.MIN_VALUE / -1`. */
  lemma QuotFits(a: int64, b: int64)
    requires b != 0
    ensures !(a == LongMin && b == -1) ==> W64.Holds(Quot(a, b))
  {
    if !(a == LongMin && b == -1) {
      var q := Quot(a, b);
      DivAtMost(Abs(a), Abs(b));
      if Abs(b) == 1 && a == LongMin {
        assert b == 1;
      }
    }
  }

  /** `correct`: the estimate unchanged before any update, otherwise
      `estimate * totalObserved / totalEstimated` in `long` arithmetic. */
  function Correct(e: Estimator, estimate: int64): (r: int64)
    ensures e.totalEstimated == 0 ==> r == estimate
    ensures e.totalEstimated != 0 && W64.Holds(estimate * e.totalObserved)
            && !(estimate * e.totalObserved == LongMin && e.totalEstimated == -1) ==>
      var p, rem := estimate * e.totalObserved, estimate * e.totalObserved - r * e.totalEstimated;
      && (rem == 0 || (rem < 0 <==> p < 0))
      && Abs(rem) < Abs(e.totalEstimated)
  {
    if e.totalEstimated == 0 then estimate
    else
      SignedIdentity(estimate * e.totalObserved, W64);
      LongDiv(ToSigned(estimate * e.totalObserved, W64), e.totalEstimated)
  }

  /** `update`: adds to both running totals. */
  function Update(e: Estimator, observed: int64, estimated: int64): (r: Estimator)
    ensures (r.totalEstimated - (e.totalEstimated + estimated)) % TWO_64 == 0
    ensures (r.totalObserved - (e.totalObserved + observed)) % TWO_64 == 0
  {
    Estimator(ToSigned(e.totalEstimated + estimated, W64), ToSigned(e.totalObserved + observed, W64))
  }

  /** One `update(observed, estimated)` call. */
  datatype Observation = Observation(observed: int64, estimated: int64)

  function UpdateAll(e: Estimator, os: seq<Observation>): (r: Estimator)
  {
    if |os| == 0 then e
    else
      var last := os[|os| - 1];
      Update(UpdateAll(e, os[..|os| - 1]), last.observed, last.estimated)
  }

  function SumEstimated(os: seq<Observation>): int {
    if |os| == 0 then 0 else SumEstimated(os[..|os| - 1]) + os[|os| - 1].estimated
  }

  function SumObserved(os: seq<Observation>): int {
    if |os| == 0 then 0 else SumObserved(os[..|os| - 1]) + os[|os| - 1].observed
  }

  /** After a series of updates from a new estimator, the totals are the
      sums of what was passed, wrapped to a `long`; intermediate overflows
      do not matter. */
  lemma {:induction false} TotalsAreSums(os: seq<Observation>)
    ensures UpdateAll(NewEstimator, os).totalEstimated == ToSigned(SumEstimated(os), W64)
    ensures UpdateAll(NewEstimator, os).totalObserved == ToSigned(SumObserved(os), W64)
  {
    if |os| > 0 {
      var front := os[..|os| - 1];
      TotalsAreSums(front);
      var e := UpdateAll(NewEstimator, front);
      var last := os[|os| - 1];
      assert UpdateAll(NewEstimator, os) == Update(e, last.observed, last.estimated);
      assert SumEstimated(os) == SumEstimated(front) + last.estimated;
      assert SumObserved(os) == SumObserved(front) + last.observed;
      WrapSum(SumEstimated(front), e.totalEstimated, last.estimated);
      WrapSum(SumObserved(front), e.totalObserved, last.observed);
      assert UpdateAll(NewEstimator, os).totalEstimated == ToSigned(e.totalEstimated + last.estimated, W64);
      assert UpdateAll(NewEstimator, os).totalObserved == ToSigned(e.totalObserved + last.observed, W64);
    }
  }

  /** Adding to a wrapped sum wraps the full sum. */
  lemma WrapSum(s: int, t: int, x: int)
    requires t == ToSigned(s, W64)
    ensures ToSigned(t + x, W64) == ToSigned(s + x, W64)
  {
    var k := (t - s) / TWO_64;
    assert t - s == k * TWO_64;
    assert (t + x) % TWO_64 == (s + x) % TWO_64 by {
      assert t + x == (s + x) + k * TWO_64;
    }
  }

  /** When the sums fit in a `long`, the totals are the exact sums, and
      `correct` scales by their ratio. */
  lemma TotalsExact(os: seq<Observation>)
    requires W64.Holds(SumEstimated(os)) && W64.Holds(SumObserved(os))
    ensures UpdateAll(NewEstimator, os) == Estimator(SumEstimated(os), SumObserved(os))
  {
    TotalsAreSums(os);
    SignedIdentity(SumEstimated(os), W64);
    SignedIdentity(SumObserved(os), W64);
  }

  /** `nextCheckThreshold`: `idx + 1` for a zero value; otherwise
      `idx + idx * (target - value) / (2 * value)`, moved on to `idx + 1`
      when that is `idx`. `2 * value` is zero, and the division throws,
      only for `Long.MIN_VALUE`. */
  function NextCheckThreshold(idx: int64, value: int64, target: int64): (r: Outcome<int64>)
    ensures value == 0 ==> r == Success(ToSigned(idx + 1, W64))
    ensures r.Failure? <==> value == LongMin
    ensures r.Success? ==> r.value != idx
  {
    if value == 0 then Success(ToSigned(idx + 1, W64))
    else
      var den := ToSigned(2 * value, W64);
      if den == 0 then
        assert value == LongMin;
        Failure(Arithmetic)
      else
        assert value != LongMin;
        var next := ToSigned(idx + LongDiv(ToSigned(idx * ToSigned(target - value, W64), W64), den), W64);
        if next == idx then Success(ToSigned(idx + 1, W64)) else Success(next)
  }

  /** The step `nextCheckThreshold` adds when nothing overflows. */
  function Step(idx: int, value: int, target: int): int
    requires value != 0
  {
    Quot(idx * (target - value), 2 * value)
  }

  /** Without overflow, the threshold is `idx` plus the step, or `idx + 1`
      when the step is zero. */
  lemma ThresholdExact(idx: int64, value: int64, target: int64)
    requires 0 < value && W64.Holds(2 * value) && W64.Holds(target - value)
    requires W64.Holds(idx * (target - value)) && W64.Holds(idx + Step(idx, value, target))
    ensures NextCheckThreshold(idx, value, target)
      == Success(if Step(idx, value, target) == 0 then ToSigned(idx + 1, W64) else idx + Step(idx, value, target))
  {
    var num := idx * (target - value);
    SignedIdentity(target - value, W64);
    SignedIdentity(num, W64);
    SignedIdentity(2 * value, W64);
    SignedIdentity(idx + Step(idx, value, target), W64);
    assert LongDiv(num, 2 * value) == Quot(num, 2 * value);
  }

  /** Below the target the threshold moves forward, by the step or by one
      when the step is zero. */
  lemma ThresholdBelowTarget(idx: int64, value: int64, target: int64)
    requires 0 < idx && 0 < value < target && W64.Holds(2 * value)
    requires W64.Holds(idx * (target - value)) && W64.Holds(idx + Step(idx, value, target) + 1)
    ensures NextCheckThreshold(idx, value, target).Success?
    ensures var r := NextCheckThreshold(idx, value, target).value;
      r > idx && r == idx + (if Step(idx, value, target) == 0 then 1 else Step(idx, value, target))
  {
    assert W64.Holds(target - value);
    var num := idx * (target - value);
    assert num >= 0 by {
      MulMono(idx, target - value, 0);
    }
    var step := Step(idx, value, target);
    assert step == Quot(num, 2 * value);
    assert step >= 0;
    ThresholdExact(idx, value, target);
    SignedIdentity(idx + 1, W64);
  }

  /** Dividing a non-positive numerator by a positive divisor gives a
      quotient between the numerator and zero. */
  lemma QuotBetween(num: int, den: int)
    requires num <= 0 < den
    ensures num <= Quot(num, den) <= 0
  {
    DivAtMost(Abs(num), den);
  }

  /** At or above the target the threshold does not move past `idx + 1`. */
  lemma ThresholdAtTarget(idx: int64, value: int64, target: int64)
    requires 0 <= idx && 0 <= target <= value && W64.Holds(2 * value)
    requires W64.Holds(idx * (target - value))
    ensures NextCheckThreshold(idx, value, target).Success?
    ensures NextCheckThreshold(idx, value, target).value <= idx + 1
  {
    if value > 0 {
      var num := idx * (target - value);
      assert num <= 0 by {
        MulMono(idx, value - target, 0);
        assert num == -(idx * (value - target));
      }
      QuotBetween(num, 2 * value);
      ThresholdExact(idx, value, target);
    }
  }
}
