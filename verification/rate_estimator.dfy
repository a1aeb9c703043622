/**
 The instantaneous completion estimator of concat_go.py (class RateEstimator).

 The estimator keeps exactly two samples of the output file size, the previous
 one and the current one, together with the time each was taken and the size
 the merged file is expected to reach. The estimate extrapolates the growth
 between those two samples. Timestamps are caller-supplied integer ticks
 instead of readings of the wall clock.
 */
module RateEstimation {

  /** Python 2 `//` (and `/` on two ints): the quotient rounded toward minus
      infinity. Dafny's own `/` is Euclidean and disagrees when `b < 0`. */
  function FloorDiv(a: int, b: int): (q: int)
    requires b != 0
    ensures b > 0 ==> b * q <= a < b * q + b
    ensures b < 0 ==> b * q + b < a <= b * q
  {
    if b > 0 then a / b else (-a) / (-b)
  }

  /** FloorDiv is the floor of the exact rational quotient. */
  lemma FloorDivIsFloorOfQuotient(a: int, b: int)
    requires b != 0
    ensures FloorDiv(a, b) == (a as real / b as real).Floor
  {
    if b > 0 {
      FloorOfPositiveQuotient(a, b);
    } else {
      FloorOfPositiveQuotient(-a, -b);
      assert FloorDiv(a, b) == FloorDiv(-a, -b);
      NegOverNeg(a as real, b as real);
    }
  }

  /** The positive-divisor case: Dafny's `/` already rounds down. */
  lemma FloorOfPositiveQuotient(a: int, b: int)
    requires b > 0
    ensures FloorDiv(a, b) == (a as real / b as real).Floor
  {
    var q := a / b;
    assert b * q <= a < b * q + b;
    IntProductAsReal(q, b);
    BracketByPositive(q as real, a as real, b as real);
    FloorUnique(a as real / b as real, q);
  }

  /** Negating both sides of a quotient leaves it unchanged. */
  lemma NegOverNeg(x: real, y: real)
    requires y != 0.0
    ensures (-x) as real / (-y) == x / y
  {
    assert (x / y) * (-y) == -x;
  }

  lemma IntProductAsReal(x: int, y: int)
    ensures (x * y) as real == x as real * y as real
  {
  }

  /** If `q*b <= a < (q+1)*b` with `b > 0`, then `q <= a/b < q+1`. */
  lemma BracketByPositive(q: real, a: real, b: real)
    requires b > 0.0
    requires q * b <= a < q * b + b
    ensures q <= a / b < q + 1.0
  {
    var x := a / b;
    assert x * b == a;
    if x < q {
      MulStrict(x, q, b);
    }
    if q + 1.0 <= x {
      MulMonotone(q + 1.0, x, b);
    }
  }

  /** The floor of a real is the only integer within one below it. */
  lemma FloorUnique(x: real, q: int)
    requires q as real <= x < q as real + 1.0
    ensures x.Floor == q
  {
  }

  /** Python 2 division and Dafny division part ways on a negative divisor. */
  lemma FloorDivDiffersFromEuclidean()
    ensures FloorDiv(1, -2) == -1 && 1 / -2 == 0
  {
  }

  /** The two samples and the target size. */
  datatype Estimator = Estimator(
    lastSize: nat,
    lastTs: int,
    currentSize: nat,
    currentTs: int,
    expectedSize: nat)

  /** Result of `new_estimate`: the string 'N/A' or a (possibly negative) number of seconds. */
  datatype Estimate = NotAvailable | Remaining(seconds: int)

  /** `RateEstimator.__init__`: both samples are size 0, taken at the same instant. */
  function NewEstimator(expected: nat, now: int): (e: Estimator)
    ensures e.expectedSize == expected
    ensures e.lastSize == e.currentSize == 0
    ensures e.lastTs == e.currentTs == now
    ensures NewEstimate(e) == NotAvailable
  {
    Estimator(0, now, 0, now, expected)
  }

  /** `add_data`: the current sample becomes the previous one and the new size,
      taken at `now`, becomes current. Whatever was previous is forgotten. */
  function AddData(e: Estimator, newSize: nat, now: int): (e': Estimator)
    ensures e'.lastSize == e.currentSize && e'.lastTs == e.currentTs
    ensures e'.currentSize == newSize && e'.currentTs == now
    ensures e'.expectedSize == e.expectedSize
  {
    e.(lastSize := e.currentSize, lastTs := e.currentTs, currentSize := newSize, currentTs := now)
  }

  /** Elapsed ticks between the two samples. */
  function Elapsed(e: Estimator): (ticks: int)
    ensures e.lastTs + ticks == e.currentTs
  {
    e.currentTs - e.lastTs
  }

  /** The exact linear extrapolation the estimate approximates: the bytes still
      missing divided by the growth, times the elapsed time. */
  function ExactSecondsLeft(e: Estimator): (seconds: real)
    requires e.currentSize != e.lastSize
  {
    ((e.expectedSize - e.currentSize) as real / (e.currentSize - e.lastSize) as real) * Elapsed(e) as real
  }

  /** `new_estimate`: N/A exactly when the two sizes agree; otherwise the
      floored ratio of remaining bytes to growth, times the elapsed time.
      No clamping: an overshoot gives a negative estimate. */
  function NewEstimate(e: Estimator): (r: Estimate)
    ensures r.NotAvailable? <==> e.currentSize == e.lastSize
    ensures r.Remaining? && e.currentSize == e.expectedSize ==> r.seconds == 0
    ensures r.Remaining? && Elapsed(e) == 0 ==> r.seconds == 0
    ensures r.Remaining? && e.lastSize < e.currentSize <= e.expectedSize && e.lastTs <= e.currentTs
            ==> r.seconds >= 0
    ensures r.Remaining? && e.lastSize < e.currentSize && e.expectedSize < e.currentSize && e.lastTs < e.currentTs
            ==> r.seconds < 0
  {
    var sizeChange := e.currentSize - e.lastSize;
    if sizeChange == 0 then
      NotAvailable
    else
      var sizeLeft := e.expectedSize - e.currentSize;
      var ratio := FloorDiv(sizeLeft, sizeChange);
      RatioSigns(sizeLeft, sizeChange);
      NonNegMul(ratio, Elapsed(e));
      Remaining(ratio * Elapsed(e))
  }

  /** Helper: sign rules for a product. */
  lemma NonNegMul(a: int, b: int)
    ensures a == 0 || b == 0 ==> a * b == 0
    ensures a >= 0 && b >= 0 ==> a * b >= 0
    ensures a < 0 && b > 0 ==> a * b < 0
  {
  }

  /** Helper: the sign of a floored quotient by a positive divisor. */
  lemma RatioSigns(a: int, b: int)
    requires b != 0
    ensures a == 0 ==> FloorDiv(a, b) == 0
    ensures a >= 0 && b > 0 ==> FloorDiv(a, b) >= 0
    ensures a < 0 && b > 0 ==> FloorDiv(a, b) < 0
  {
    if b > 0 {
      assert FloorDiv(a, b) == a / b;
    } else {
      assert FloorDiv(a, b) == (-a) / (-b);
    }
  }

  /** The estimate's value: the exact ratio of remaining bytes to growth is
      floored first, and only then multiplied by the elapsed time. */
  lemma NewEstimateValue(e: Estimator)
    requires e.currentSize != e.lastSize
    ensures NewEstimate(e)
            == Remaining(((e.expectedSize - e.currentSize) as real / (e.currentSize - e.lastSize) as real).Floor * Elapsed(e))
  {
    FloorDivIsFloorOfQuotient(e.expectedSize - e.currentSize, e.currentSize - e.lastSize);
  }

  /** The reported estimate never exceeds the exact extrapolation and falls
      short of it by less than one elapsed interval (the floored ratio loses
      less than one whole growth step). */
  lemma EstimateWithinOneInterval(e: Estimator)
    requires e.currentSize != e.lastSize
    requires Elapsed(e) > 0
    ensures NewEstimate(e).Remaining?
    ensures NewEstimate(e).seconds as real <= ExactSecondsLeft(e) < NewEstimate(e).seconds as real + Elapsed(e) as real
  {
    var sizeLeft := e.expectedSize - e.currentSize;
    var sizeChange := e.currentSize - e.lastSize;
    var q := FloorDiv(sizeLeft, sizeChange);
    var x := sizeLeft as real / sizeChange as real;
    var d := Elapsed(e) as real;
    FloorDivIsFloorOfQuotient(sizeLeft, sizeChange);
    assert q as real <= x < q as real + 1.0;
    assert NewEstimate(e).seconds == q * Elapsed(e);
    IntProductAsReal(q, Elapsed(e));
    ScaleBracket(q as real, x, d, (q * Elapsed(e)) as real, ExactSecondsLeft(e));
  }

  /** Scaling `q <= x < q + 1` by a positive `d`, with the products named
      `lo` and `mid`. */
  lemma ScaleBracket(q: real, x: real, d: real, lo: real, mid: real)
    requires q <= x < q + 1.0 && d > 0.0
    requires lo == q * d && mid == x * d
    ensures lo <= mid < lo + d
  {
    var hi := (q + 1.0) * d;
    ProductsOrdered(q, x, d, lo, mid);
    ProductsStrictlyOrdered(x, q + 1.0, d, mid, hi);
    AddOneTimes(q, d, lo, hi);
  }

  lemma ProductsOrdered(a: real, b: real, d: real, ad: real, bd: real)
    requires a <= b && d >= 0.0 && ad == a * d && bd == b * d
    ensures ad <= bd
  {
    MulMonotone(a, b, d);
  }

  lemma ProductsStrictlyOrdered(a: real, b: real, d: real, ad: real, bd: real)
    requires a < b && d > 0.0 && ad == a * d && bd == b * d
    ensures ad < bd
  {
    MulStrict(a, b, d);
  }

  lemma AddOneTimes(q: real, d: real, lo: real, hi: real)
    requires lo == q * d && hi == (q + 1.0) * d
    ensures hi == lo + d
  {
  }

  lemma MulMonotone(a: real, b: real, d: real)
    requires a <= b && d >= 0.0
    ensures a * d <= b * d
  {
  }

  lemma MulStrict(a: real, b: real, d: real)
    requires a < b && d > 0.0
    ensures a * d < b * d
  {
  }

  /** Only the last two samples matter: two estimators that saw different
      histories but the same two most recent samples give the same estimate. */
  lemma EstimateForgetsOlderSamples(e1: Estimator, e2: Estimator, a: nat, t1: int, b: nat, t2: int)
    requires e1.expectedSize == e2.expectedSize
    ensures NewEstimate(AddData(AddData(e1, a, t1), b, t2)) == NewEstimate(AddData(AddData(e2, a, t1), b, t2))
  {
  }

  /** A fresh estimator whose first sample is still 0 bytes reports N/A. */
  lemma FirstEmptySampleIsNotAvailable(expected: nat, t0: int, t1: int)
    ensures NewEstimate(AddData(NewEstimator(expected, t0), 0, t1)) == NotAvailable
  {
  }

  /** Growth from 100,000,000 to 300,000,000 bytes over 10 ticks towards
      1,000,000,000 bytes: the floored ratio 700,000,000 // 200,000,000 is 3,
      so the estimate is 30, below the exact 35. */
  lemma WorkedExample()
    ensures NewEstimate(Estimator(100_000_000, 0, 300_000_000, 10, 1_000_000_000)) == Remaining(30)
    ensures ExactSecondsLeft(Estimator(100_000_000, 0, 300_000_000, 10, 1_000_000_000)) == 35.0
  {
  }
}
