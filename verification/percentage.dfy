/** The percentage check of `verifyReport`: the share a source's units make of
    the plant total, rounded to two decimals with `Math.round(x * 100) / 100`,
    compared with the reported percentage under a tolerance of 0.1 points.
    Numbers are exact reals here, not binary floating point. */
module Percentage {

  function Abs(x: real): real { if x < 0.0 then -x else x }

  /** `Math.round(x * 100) / 100`. JavaScript's Math.round is floor(y + 1/2),
      so a value exactly halfway between two hundredths goes up. */
  function Round2(x: real): (r: real)
    ensures x - 0.005 < r <= x + 0.005
    ensures (r * 100.0).Floor as real == r * 100.0
  {
    var f := (x * 100.0 + 0.5).Floor;
    assert f as real <= x * 100.0 + 0.5 < f as real + 1.0;
    assert (f as real / 100.0) * 100.0 == f as real;
    f as real / 100.0
  }

  /** The largest accepted distance between computed and reported percentage. */
  const Tolerance: real := 0.1

  /** `(units / total) * 100`: the share of the total, in percent. */
  function Share(units: nat, total: nat): (r: real)
    requires total > 0
    ensures r >= 0.0 && r * total as real == units as real * 100.0
    ensures units <= total ==> r <= 100.0
  {
    units as real / total as real * 100.0
  }

  /** Whether `Math.abs(Math.round(units / total * 100 * 100) / 100 - reported) > 0.1`.
      For a zero total JavaScript divides by zero: `units / 0` is Infinity when
      units > 0, so the distance is Infinity and the check fails; `0 / 0` is NaN,
      and a comparison with NaN is false, so the check passes. */
  predicate Mismatch(units: nat, total: nat, reported: real)
    ensures total > 0 && reported == Round2(Share(units, total)) ==> !Mismatch(units, total, reported)
    ensures units == 0 && reported == 0.0 ==> !Mismatch(units, total, reported)
  {
    if total == 0 then units > 0
    else Abs(Round2(Share(units, total)) - reported) > Tolerance
  }

  /** The accepted band is closed: a reported value exactly 0.1 away from the
      rounded share passes, anything outside the band fails. */
  lemma MismatchOutsideBand(units: nat, total: nat, reported: real)
    requires total > 0
    ensures var rounded := Round2(Share(units, total));
      Mismatch(units, total, reported) <==> reported < rounded - Tolerance || reported > rounded + Tolerance
    ensures !Mismatch(units, total, Round2(Share(units, total)) + Tolerance)
    ensures !Mismatch(units, total, Round2(Share(units, total)) - Tolerance)
    ensures !Mismatch(units, total, Round2(Share(units, total)))
  {
  }

  /** With a zero total, only a source that has units is flagged. */
  lemma MismatchZeroTotal(units: nat, reported: real)
    ensures Mismatch(units, 0, reported) <==> units > 0
  {
  }

  /** Rounding first costs at most half a hundredth: a report within 0.095 of
      the exact share always passes, and one more than 0.105 away always fails. */
  lemma MismatchByExactShare(units: nat, total: nat, reported: real)
    requires total > 0
    ensures Abs(Share(units, total) - reported) <= 0.095 ==> !Mismatch(units, total, reported)
    ensures Abs(Share(units, total) - reported) > 0.105 ==> Mismatch(units, total, reported)
  {
  }

  /** A value halfway between two hundredths rounds up. */
  lemma Round2TiesUp(k: int)
    ensures Round2(k as real / 100.0 + 0.005) == (k + 1) as real / 100.0
  {
    var x := k as real / 100.0 + 0.005;
    assert x * 100.0 + 0.5 == (k + 1) as real;
    assert (x * 100.0 + 0.5).Floor == k + 1;
  }

  /** A value that already has two decimals is left as it is; in particular
      rounding twice is rounding once. */
  lemma Round2OfHundredths(k: int)
    ensures Round2(k as real / 100.0) == k as real / 100.0
  {
    var x := k as real / 100.0;
    assert x * 100.0 == k as real;
    assert (x * 100.0 + 0.5).Floor == k;
  }

  lemma Round2Idempotent(x: real)
    ensures Round2(Round2(x)) == Round2(x)
  {
    var r := Round2(x);
    var k := (r * 100.0).Floor;
    assert r == k as real / 100.0;
    Round2OfHundredths(k);
  }
}
