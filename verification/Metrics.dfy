/**
 The metric fields: a truncating running average, a maximum, a minimum and a counter,
 all in 64-bit words, against the samples they were fed since the last reset.
 */
module Metrics {
  import opened Arithmetic

  const WORD: nat := 0x1_0000_0000_0000_0000

  datatype Kind = Average | Maximum | Minimum | Counter

  datatype Field = Field(value: nat, divisor: nat)

  /** updateMetricField */
  function Update(kind: Kind, f: Field, v: nat): Field {
    match kind
    case Average =>
      if v == 0 then f
      else if (f.divisor + 1) % WORD == 0 then f  // division by zero in the source, after 2^64 - 1 samples
      else Field(((f.value * f.divisor + v) % WORD) / ((f.divisor + 1) % WORD), (f.divisor + 1) % WORD)
    case Maximum => if v != 0 && f.value < v then f.(value := v) else f
    case Minimum =>
      if v == 0 then f
      else if f.value == 0 then f.(value := v)
      else if f.value > v then f.(value := v)
      else f
    case Counter => f.(value := (f.value + v) % WORD)
  }

  /** The field after a reset and these updates. */
  function Fed(kind: Kind, samples: seq<nat>): Field {
    if samples == [] then Field(0, 0)
    else Update(kind, Fed(kind, samples[..|samples| - 1]), samples[|samples| - 1])
  }

  function Sum(samples: seq<nat>): nat {
    if samples == [] then 0 else Sum(samples[..|samples| - 1]) + samples[|samples| - 1]
  }

  /** How many samples count: zeros are ignored. */
  function Count(samples: seq<nat>): nat {
    if samples == [] then 0
    else Count(samples[..|samples| - 1]) + (if samples[|samples| - 1] != 0 then 1 else 0)
  }

  ghost predicate Bounded(samples: seq<nat>, lo: nat, hi: nat) {
    forall i :: 0 <= i < |samples| && samples[i] != 0 ==> lo <= samples[i] <= hi
  }

  /** m is the least nonzero sample, or 0 if there is none. */
  ghost predicate IsLeast(samples: seq<nat>, m: nat) {
    if m == 0 then forall i :: 0 <= i < |samples| ==> samples[i] == 0
    else m in samples && forall i :: 0 <= i < |samples| && samples[i] != 0 ==> m <= samples[i]
  }

  ghost predicate IsGreatest(samples: seq<nat>, m: nat) {
    && (m == 0 || m in samples)
    && forall i :: 0 <= i < |samples| ==> samples[i] <= m
  }

  // ---------------------------------------------------------------- the running average

  lemma DivisionStep(p: nat, d: nat)
    requires d >= 1
    ensures var q := p / d; p - d < q * d <= p
  {
    assert p == (p / d) * d + p % d;
  }

  lemma ProductOrder(a: nat, b: nat, k: nat)
    requires a <= b
    ensures a * k <= b * k
  {
  }

  lemma QuotientBounds(p: nat, d: nat, lo: nat, hi: nat)
    requires d >= 1 && lo * d <= p <= hi * d
    ensures lo <= p / d <= hi
  {
    DivisionStep(p, d);
    var q := p / d;
    assert q < lo ==> (q + 1) * d <= lo * d;
    assert q > hi ==> (hi + 1) * d <= q * d;
    assert (q + 1) * d == q * d + d && (hi + 1) * d == hi * d + d;
  }

  /** One truncating step adds at most k to the distance between the sum and k times the average. */
  lemma AverageStep(a: nat, k: nat, v: nat, total: nat)
    requires a * k <= total && 2 * (total - a * k) <= k * (k - 1)
    ensures var a' := (a * k + v) / (k + 1);
            a' * (k + 1) <= total + v && 2 * (total + v - a' * (k + 1)) <= (k + 1) * k
  {
    DivisionStep(a * k + v, k + 1);
    assert (k + 1) * k == k * (k - 1) + 2 * k;
  }

  lemma AverageStaysBounded(a: nat, k: nat, v: nat, lo: nat, hi: nat)
    requires lo <= v <= hi && (k > 0 ==> lo <= a <= hi)
    ensures lo <= (a * k + v) / (k + 1) <= hi
  {
    if k > 0 {
      ProductOrder(lo, a, k);
      ProductOrder(a, hi, k);
    }
    assert lo * (k + 1) == lo * k + lo && hi * (k + 1) == hi * k + hi;
    QuotientBounds(a * k + v, k + 1, lo, hi);
  }

  lemma {:induction false} SumDominates(samples: seq<nat>)
    ensures Count(samples) <= Sum(samples)
  {
    if samples != [] { SumDominates(samples[..|samples| - 1]); }
  }

  /** Without overflow the update is plain division. */
  lemma AverageUpdate(f: Field, v: nat)
    requires v != 0 && f.value * f.divisor + v < WORD && f.divisor + 1 < WORD
    ensures Update(Average, f, v) == Field((f.value * f.divisor + v) / (f.divisor + 1), f.divisor + 1)
  {
    var p := f.value * f.divisor + v;
    assert p % WORD == p;
  }

  ghost predicate Close(f: Field, k: nat, total: nat, lo: nat, hi: nat) {
    && f.divisor == k
    && f.value * k <= total
    && 2 * (total - f.value * k) <= k * (k - 1)
    && (k > 0 ==> lo <= f.value <= hi)
  }

  lemma CloseStep(f: Field, k: nat, total: nat, lo: nat, hi: nat, v: nat)
    requires Close(f, k, total, lo, hi) && v != 0 && lo <= v <= hi
    requires total + v < WORD && k + 1 < WORD
    ensures Close(Update(Average, f, v), k + 1, total + v, lo, hi)
  {
    AverageUpdate(f, v);
    AverageStep(f.value, k, v, total);
    AverageStaysBounded(f.value, k, v, lo, hi);
  }

  /**
   After k nonzero samples with sum T, the stored average a satisfies 0 <= T - k * a <= k * (k - 1) / 2 and lies
   between the samples, as long as their sum fits the word.
   */
  lemma {:induction false} AverageErrorBound(samples: seq<nat>, lo: nat, hi: nat)
    requires Sum(samples) < 0x1_0000_0000_0000_0000 && Bounded(samples, lo, hi)
    ensures Close(Fed(Average, samples), Count(samples), Sum(samples), lo, hi)
  {
    if samples != [] {
      var init := samples[..|samples| - 1];
      var v := samples[|samples| - 1];
      AverageErrorBound(init, lo, hi);
      SumDominates(samples);
      if v != 0 {
        CloseStep(Fed(Average, init), Count(init), Sum(init), lo, hi, v);
      }
    }
  }

  function Climb(a: nat, k: nat): (s: seq<nat>)
    ensures |s| == k
  {
    if k == 0 then [] else Climb(a, k - 1) + [a + k - 1]
  }

  lemma ClimbStep(a: nat, k: nat)
    requires k >= 1
    ensures (a * (k - 1) + (a + k - 1)) / k == a
  {
    var p := a * k + (k - 1);
    assert a * (k - 1) + (a + k - 1) == p;
    DivisionStep(p, k);
    NoMultipleBetween(p / k - a, k);
  }

  lemma ClimbUnroll(a: nat, k: nat)
    requires k >= 1
    ensures Sum(Climb(a, k)) == Sum(Climb(a, k - 1)) + (a + k - 1)
  {
    assert Climb(a, k)[..k - 1] == Climb(a, k - 1);
  }

  lemma Products(a: nat, k: nat)
    requires k >= 1
    ensures a * k == a * (k - 1) + a
    ensures k * (k - 1) == (k - 1) * (k - 2) + 2 * (k - 1)
    ensures (k - 1) * (k - 2) >= 0
  {
  }

  lemma {:induction false} ClimbSum(a: nat, k: nat)
    requires 1 <= a
    ensures 2 * (Sum(Climb(a, k)) - a * k) == k * (k - 1)
    ensures k <= Sum(Climb(a, k)) && a * k <= Sum(Climb(a, k))
  {
    if k > 0 {
      ClimbUnroll(a, k);
      ClimbSum(a, k - 1);
      Products(a, k);
    }
  }

  lemma ClimbUpdate(a: nat, k: nat)
    requires 1 <= a && k > 0 && Sum(Climb(a, k)) < WORD
    ensures Update(Average, Field(if k == 1 then 0 else a, k - 1), a + k - 1) == Field(a, k)
  {
    var f := Field(if k == 1 then 0 else a, k - 1);
    ClimbUnroll(a, k);
    ClimbSum(a, k - 1);
    ClimbSum(a, k);
    assert f.value * f.divisor == a * (k - 1);
    AverageUpdate(f, a + k - 1);
    ClimbStep(a, k);
  }

  /** The bound is attained: the samples a, a + 1, ..., a + k - 1 leave the average at a. */
  lemma {:induction false} ErrorBoundIsTight(a: nat, k: nat)
    requires 1 <= a && Sum(Climb(a, k)) < WORD
    ensures Fed(Average, Climb(a, k)) == Field(if k == 0 then 0 else a, k)
    ensures 2 * (Sum(Climb(a, k)) - a * k) == k * (k - 1)
  {
    ClimbSum(a, k);
    if k > 0 {
      assert Climb(a, k)[..k - 1] == Climb(a, k - 1);
      ErrorBoundIsTight(a, k - 1);
      ClimbUpdate(a, k);
    }
  }

  // ---------------------------------------------------------------- the exact fields

  lemma {:induction false} MaximumIsExact(samples: seq<nat>)
    ensures IsGreatest(samples, Fed(Maximum, samples).value)
  {
    if samples != [] {
      var init := samples[..|samples| - 1];
      MaximumIsExact(init);
      assert samples == init + [samples[|samples| - 1]];
    }
  }

  lemma {:induction false} MinimumIsExact(samples: seq<nat>)
    ensures IsLeast(samples, Fed(Minimum, samples).value)
  {
    if samples != [] {
      var init := samples[..|samples| - 1];
      MinimumIsExact(init);
      assert samples == init + [samples[|samples| - 1]];
    }
  }

  lemma {:induction false} CounterIsExact(samples: seq<nat>)
    ensures Fed(Counter, samples).value == Sum(samples) % 0x1_0000_0000_0000_0000
  {
    if samples != [] {
      CounterIsExact(samples[..|samples| - 1]);
    }
  }

  // ---------------------------------------------------------------- the table in place

  class MetricTable {
    const kinds: seq<Kind>
    const value: array<nat>
    const divisor: array<nat>
    ghost var fed: seq<seq<nat>>

    ghost predicate Valid()
      reads this, value, divisor
    {
      && value.Length == divisor.Length == |kinds| == |fed|
      && value != divisor
      && forall i :: 0 <= i < |kinds| ==> Field(value[i], divisor[i]) == Fed(kinds[i], fed[i])
    }

    constructor (kinds: seq<Kind>)
      ensures Valid() && fresh(value) && fresh(divisor) && this.kinds == kinds
      ensures fed == seq(|kinds|, _ => [])
    {
      this.kinds := kinds;
      value := new nat[|kinds|](_ => 0);
      divisor := new nat[|kinds|](_ => 0);
      fed := seq(|kinds|, _ => []);
    }

    /** reset_metric_data */
    method Reset()
      requires Valid()
      modifies this`fed, value, divisor
      ensures Valid() && fed == seq(|kinds|, _ => [])
    {
      var i := 0;
      while i < |kinds|
        invariant 0 <= i <= |kinds|
        invariant forall j :: 0 <= j < i ==> value[j] == 0 && divisor[j] == 0
      {
        value[i] := 0;
        divisor[i] := 0;
        i := i + 1;
      }
      fed := seq(|kinds|, _ => []);
    }

    /** updateMetricField: one field is fed one sample and no other field changes. */
    method UpdateField(m: nat, v: nat)
      requires Valid() && m < |kinds|
      modifies this`fed, value, divisor
      ensures Valid() && fed == old(fed)[m := old(fed)[m] + [v]]
    {
      var f := Update(kinds[m], Field(value[m], divisor[m]), v);
      value[m], divisor[m] := f.value, f.divisor;
      assert (fed[m] + [v])[..|fed[m]|] == fed[m];
      fed := fed[m := fed[m] + [v]];
    }
  }
}
