/** Turning entitlements into percentages. Each lion's raw portion is its
    entitlement times 100 divided by the total, truncated; the lead huntress,
    who always sits at position 0, absorbs what truncation leaves over, so the
    portions sum to exactly 100. Also the initial "current" portions the
    participant starts from: ten each, topped up at random to 100. */
module Portions {
  import opened Common

  /** Truncating division characterised without division: `q` is the
      quotient of `x` by `t` exactly when `q * t <= x < (q + 1) * t`. */
  predicate IsQuotient(q: int, x: int, t: int)
  {
    q * t <= x < (q + 1) * t
  }

  lemma DivisionIsQuotient(x: nat, t: int)
    requires t > 0
    ensures IsQuotient(x / t, x, t)
  {
    var q := x / t;
    assert x == q * t + x % t;
    assert (q + 1) * t == q * t + t;
  }

  /** `entitlement[i] * 100 / totalEntitlement` for every lion. C# division
      truncates toward zero; for these non-negative operands that is Dafny's
      division too. */
  function RawPortions(e: seq<nat>, total: int): (raw: seq<nat>)
    requires total > 0
    ensures |raw| == |e|
    ensures forall i :: 0 <= i < |e| ==> IsQuotient(raw[i], e[i] * 100, total)
  {
    seq(|e|, i requires 0 <= i < |e| => DivisionIsQuotient(e[i] * 100, total); e[i] * 100 / total)
  }

  /** Summing the per-element quotient bounds: the quotients' sum times the
      divisor lies below the dividends' sum, by less than one divisor per
      element (each element's shortfall is at most `t - 1`). */
  lemma {:induction false} QuotientSumBounds(e: seq<nat>, q: seq<nat>, t: int)
    requires t > 0 && |q| == |e|
    requires forall i :: 0 <= i < |e| ==> IsQuotient(q[i], e[i] * 100, t)
    ensures Sum(q) * t <= Sum(e) * 100
    ensures Sum(e) * 100 + |e| <= (Sum(q) + |e|) * t
    decreases |e|
  {
    if |e| > 0 {
      var n := |e| - 1;
      QuotientSumBounds(e[..n], q[..n], t);
      var sq := Sum(q[..n]);
      assert Sum(q) == sq + q[n];
      assert Sum(e) == Sum(e[..n]) + e[n];
      assert IsQuotient(q[n], e[n] * 100, t);
      StepBounds(sq, Sum(e[..n]) * 100, n, q[n], e[n] * 100, t, Sum(q), Sum(e) * 100, |e|);
    }
  }

  /** One induction step of `QuotientSumBounds`, on plain integers. */
  lemma StepBounds(sq: int, se: int, n: int, qn: int, en: int, t: int, sumQ: int, sumE: int, len: int)
    requires sq * t <= se && se + n <= (sq + n) * t
    requires qn * t <= en < (qn + 1) * t
    requires sumQ == sq + qn && sumE == se + en && len == n + 1
    ensures sumQ * t <= sumE && sumE + len <= (sumQ + len) * t
  {
    Distribute(sq, qn, t);
    Distribute(sq + n, qn + 1, t);
    assert sumQ + len == (sq + n) + (qn + 1);
  }

  lemma Distribute(a: int, b: int, t: int)
    ensures (a + b) * t == a * t + b * t
  {
  }

  lemma SumOfNats(e: seq<nat>)
    ensures Sum(e) >= 0
  {
    if |e| > 0 {
      SumOfNats(e[..|e| - 1]);
    }
  }

  /** The truncated portions never overshoot 100 and fall short by less than
      one point per lion: the remainder `100 - sum` lies in [0, n - 1]. */
  lemma RawPortionsBounds(e: seq<nat>)
    requires |e| >= 1 && Sum(e) > 0
    ensures 0 <= 100 - Sum(RawPortions(e, Sum(e))) <= |e| - 1
  {
    var t := Sum(e);
    var raw := RawPortions(e, t);
    QuotientSumBounds(e, raw, t);
    RemainderBounds(Sum(raw), |e|, t);
  }

  /** `s * t <= 100 * t < (s + n) * t` with `t > 0` pins `100 - s` to [0, n - 1]. */
  lemma RemainderBounds(s: int, n: int, t: int)
    requires t > 0
    requires s * t <= t * 100 < (s + n) * t
    ensures 0 <= 100 - s <= n - 1
  {
    ScaleCancel(s, 100, t);
    if s + n <= 100 {
      Monotone(s + n, 100, t);
    }
  }

  lemma Monotone(a: int, b: int, t: int)
    requires t > 0 && a <= b
    ensures a * t <= b * t
  {
    Distribute(a, b - a, t);
  }

  /** Cancelling a positive factor in `a * t <= b * t`. */
  lemma ScaleCancel(a: int, b: int, t: int)
    requires t > 0
    ensures a * t <= b * t ==> a <= b
  {
    if a > b {
      Distribute(a - b, b, t);
    }
  }

  /** The correct portions, lines 199-210 of the module: the raw portions,
      with the lead huntress at position 0 receiving `100 - sum`. A zero total
      makes the division throw. */
  function TargetPortions(e: seq<nat>): (r: Result<seq<int>>)
    requires |e| >= 1
    ensures r.Failure? <==> Sum(e) == 0
    ensures r.Failure? ==> r.fault == DivideByZero
    ensures r.Success? ==>
      && Sum(e) > 0
      && var raw := RawPortions(e, Sum(e));
      && |r.value| == |e|
      && Sum(r.value) == 100
      && raw[0] <= r.value[0] <= raw[0] + |e| - 1
      && forall j :: 1 <= j < |e| ==> r.value[j] == raw[j]
  {
    SumOfNats(e);
    var total := Sum(e);
    if total == 0 then Failure(DivideByZero)
    else
      var raw := RawPortions(e, total);
      RawPortionsBounds(e);
      SumUpdate(raw, 0, raw[0] + 100 - Sum(raw));
      Success(raw[0 := raw[0] + 100 - Sum(raw)])
  }

  /** Entitlements 10 and 7: the raw portions are 58 and 41, and the one
      point truncation loses goes to position 0. */
  lemma TargetPortionsTenSeven()
    ensures RawPortions([10, 7], 17) == [58, 41]
    ensures TargetPortions([10, 7]) == Success([59, 41])
  {
    assert Sum([10, 7]) == 17 by {
      assert [10, 7][..1] == [10];
      assert [10][..0] == [];
    }
    var raw := RawPortions([10, 7], 17);
    assert raw[0] == 58 && raw[1] == 41;
    assert raw == [58, 41];
    assert Sum(raw) == 99 by {
      assert raw[..1] == [58];
      assert [58][..0] == [];
    }
    assert raw[0 := raw[0] + 100 - Sum(raw)] == [59, 41];
  }

  /** Every target portion is a percentage, and the lead's is at least her
      exact proportional share `e[0] * 100 / Sum(e)`: the remainder she
      receives is the truncation loss of every position, her own included. */
  lemma TargetPortionsArePercentages(e: seq<nat>)
    requires |e| >= 1 && Sum(e) > 0
    ensures var p := TargetPortions(e).value;
      && (forall j :: 0 <= j < |p| ==> 0 <= p[j] <= 100)
      && p[0] * Sum(e) >= e[0] * 100
  {
    var p := TargetPortions(e).value;
    var t := Sum(e);
    var raw := RawPortions(e, t);
    forall j | 0 <= j < |p| ensures 0 <= p[j] <= 100 {
      ElementAtMostSum(p, j);
    }
    LeadLossBound(e, raw, t);
    LeadShare(raw[0], Sum(raw), p[0], e[0] * 100, t);
  }

  /** The truncation losses are non-negative, so all of them together are at
      least the first: `Sum(q) * t + (e[0] * 100 - q[0] * t) <= Sum(e) * 100`. */
  lemma {:induction false} LeadLossBound(e: seq<nat>, q: seq<nat>, t: int)
    requires t > 0 && |q| == |e| >= 1
    requires forall i :: 0 <= i < |e| ==> IsQuotient(q[i], e[i] * 100, t)
    ensures Sum(q) * t + (e[0] * 100 - q[0] * t) <= Sum(e) * 100
    decreases |e|
  {
    var n := |e| - 1;
    if n == 0 {
      assert e[..0] == [] && q[..0] == [];
    } else {
      LeadLossBound(e[..n], q[..n], t);
      assert IsQuotient(q[n], e[n] * 100, t);
      Distribute(Sum(q[..n]), q[n], t);
    }
  }

  /** The lead's portion `raw + 100 - sum` is worth at least the exact share
      once the summed shortfall covers her own. */
  lemma LeadShare(raw: int, sum: int, p: int, x: int, t: int)
    requires t > 0 && p == raw + 100 - sum
    requires sum * t + (x - raw * t) <= 100 * t
    ensures p * t >= x
  {
    Distribute(raw, 100 - sum, t);
    Distribute(100, -sum, t);
  }

  /** The starting "current" portions: ten for each of the `n` lions, then,
      while they sum to less than 100, a random lion receives a random amount
      in [1, 100 - sum]. The draws are arbitrary values in their ranges.
      The loop ends with the portions summing to exactly 100, each between
      10 and 100. */
  method InitialPortions(n: nat) returns (p: seq<int>)
    requires 1 <= n <= 10
    ensures |p| == n
    ensures Sum(p) == 100
    ensures forall i :: 0 <= i < n ==> 10 <= p[i] <= 100
  {
    p := seq(n, _ => 10);
    SumConstant(n, 10);
    while Sum(p) < 100
      invariant |p| == n
      invariant forall i :: 0 <= i < n ==> p[i] >= 10
      invariant Sum(p) <= 100
      decreases 100 - Sum(p)
    {
      var slot :| 0 <= slot < n;
      var extra :| 0 <= extra < 100 - Sum(p);
      SumUpdate(p, slot, p[slot] + extra + 1);
      p := p[slot := p[slot] + extra + 1];
    }
    forall i | 0 <= i < n ensures p[i] <= 100 {
      ElementAtMostSum(p, i);
    }
  }
}
