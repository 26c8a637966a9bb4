/** The next limit to try in the search for the highest rate without loss. */
module Preview {

  /** Python 2's `round`: halves go away from zero. */
  function Round(r: real): int {
    if r >= 0.0 then (r + 0.5).Floor else -(-r + 0.5).Floor
  }

  /** To two digits: what the loop of `rate_round` computes. */
  function RateRound(r: real): int
    decreases if r > 100.0 then r.Floor else 0
  {
    if r > 100.0 then 10 * RateRound(r / 10.0) else Round(r)
  }

  function Pow10(i: nat): nat {
    if i == 0 then 1 else 10 * Pow10(i - 1)
  }

  method ComputeRateRound(rate: real) returns (rounded: int)
    ensures rounded == RateRound(rate)
  {
    hide Scaled, Round;
    var r, i := rate, 0;
    NoScale(RateRound(r));
    while r > 100.0
      invariant RateRound(rate) == Scaled(RateRound(r), i)
      decreases if r > 100.0 then r.Floor else 0
    {
      ScaleStep(RateRound(r / 10.0), i);
      r := r / 10.0;
      i := i + 1;
    }
    rounded := Scaled(Round(r), i);
  }

  function Scaled(x: int, i: nat): int {
    x * Pow10(i)
  }

  lemma NoScale(x: int)
    ensures Scaled(x, 0) == x
  {
  }

  lemma ScaleStep(x: int, i: nat)
    ensures Scaled(10 * x, i) == Scaled(x, i + 1)
  {
  }

  lemma {:induction false} AtLeastTen(r: real)
    requires r >= 10.0
    ensures RateRound(r) >= 10
    decreases r.Floor
  {
    if r > 100.0 {
      AtLeastTen(r / 10.0);
    }
  }

  /** Rounding keeps the order of any two rates. */
  lemma {:induction false} RoundMonotone(a: real, b: real)
    requires a <= b
    ensures RateRound(a) <= RateRound(b)
    decreases b > 100.0, b.Floor
  {
    if a > 100.0 {
      RoundMonotone(a / 10.0, b / 10.0);
    } else if b > 100.0 {
      AtLeastTen(b / 10.0);
    }
  }

  /** A rounded rate is not changed by rounding it again. */
  lemma {:induction false} RoundIdempotent(r: real)
    ensures RateRound(RateRound(r) as real) == RateRound(r)
    decreases r > 100.0, r.Floor
  {
    if r > 100.0 {
      var w := RateRound(r / 10.0);
      AtLeastTen(r / 10.0);
      RoundIdempotent(r / 10.0);
      assert (10 * w) as real / 10.0 == w as real;
    }
  }

  /** The whole number of units nearest to r is m, with halves away from zero. */
  predicate Nearest(m: int, r: real, unit: real) {
    if r >= 0.0 then (m as real - 0.5) * unit <= r < (m as real + 0.5) * unit
    else (m as real - 0.5) * unit < r <= (m as real + 0.5) * unit
  }

  /** The result is m with k zeros, where k is the least with which r is at most 100 units, and m the nearest number
      of units. */
  lemma {:induction false} RoundExactly(r: real) returns (m: int, k: nat)
    ensures RateRound(r) == m * Pow10(k) && m <= 100 && Nearest(m, r, Pow10(k) as real)
    ensures r <= 100.0 * Pow10(k) as real && (k > 0 ==> r > 10.0 * Pow10(k) as real)
    decreases if r > 100.0 then r.Floor else 0
  {
    if r > 100.0 {
      hide Nearest;
      m, k := RoundExactly(r / 10.0);
      TenTimes(m, k, r);
      k := k + 1;
    } else {
      m, k := Round(r), 0;
      assert Pow10(0) == 1 && m * 1 == m;
    }
  }

  lemma TenTimes(m: int, k: nat, r: real)
    ensures Pow10(k + 1) as real == 10.0 * Pow10(k) as real && 10 * (m * Pow10(k)) == m * Pow10(k + 1)
    ensures r > 0.0 && Nearest(m, r / 10.0, Pow10(k) as real) ==> Nearest(m, r, Pow10(k + 1) as real)
  {
    var unit := Pow10(k) as real;
    assert (m as real - 0.5) * (10.0 * unit) == 10.0 * ((m as real - 0.5) * unit);
    assert (m as real + 0.5) * (10.0 * unit) == 10.0 * ((m as real + 0.5) * unit);
    assert 10 * (m * Pow10(k)) == m * (10 * Pow10(k));
  }

  /** From 10 on, rounding is off by at most 5 percent. */
  lemma {:induction false} RoundNear(r: real)
    requires r >= 10.0
    ensures r * 0.95 <= RateRound(r) as real <= r * 1.05
    decreases r.Floor
  {
    if r > 100.0 {
      RoundNear(r / 10.0);
      assert RateRound(r) as real == 10.0 * RateRound(r / 10.0) as real;
    }
  }

  /** The choice in `main`: back towards `low` after a loss, on towards `high` without one. `rate` is what the fit
      found, and stands in for a negative `high`. */
  method ChooseNext(low: int, high: int, test: int, rate: real, lost: int) returns (next: int)
    ensures lost > 0 && Rounded(low) && Rounded(test) && low <= test ==> low <= next <= test
    ensures lost <= 0 && high >= 0 && Rounded(high) && Rounded(test) && test <= high ==> test <= next <= high
    ensures lost <= 0 && high < 0 && Rounded(test) && test as real <= rate ==> test <= next <= RateRound(rate)
    ensures next == RateRound(0.5 * ((if lost > 0 then low as real else if high < 0 then rate else high as real)
                                     + test as real))
  {
    var upper := high as real;
    if upper < 0.0 {
      upper := rate;
    }
    var previous := if lost > 0 then low as real else upper;
    var middle := 0.5 * (previous + test as real);
    next := ComputeRateRound(middle);
    Between(test as real, previous, middle);
  }

  /** A limit that this very tool could have proposed. */
  predicate Rounded(limit: int) {
    RateRound(limit as real) == limit
  }

  lemma Between(a: real, b: real, middle: real)
    requires middle == 0.5 * (a + b)
    ensures a <= b ==> RateRound(a) <= RateRound(middle) <= RateRound(b)
    ensures b <= a ==> RateRound(b) <= RateRound(middle) <= RateRound(a)
  {
    if a <= b {
      RoundMonotone(a, middle);
      RoundMonotone(middle, b);
    }
    if b <= a {
      RoundMonotone(b, middle);
      RoundMonotone(middle, a);
    }
  }

  /** Rounding never leaves the set of limits that may come back as `low`, `high` or `test`. */
  lemma {:induction false} ProposedIsRounded(r: real)
    ensures Rounded(RateRound(r))
  {
    RoundIdempotent(r);
  }
}
