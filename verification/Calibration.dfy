/** Calibration of probabilistic predictions (packages/reliability/src/metrics.ts), over exact reals. */
module Calibration {

  datatype Prediction = Prediction(confidence: real, correct: bool)

  /** `null` when there is nothing to measure, an error when the request makes no sense. */
  datatype Score = Undefined | Refused | Score(value: real)

  predicate InRange(p: Prediction) {
    0.0 <= p.confidence <= 1.0
  }

  ghost predicate AllInRange(ps: seq<Prediction>) {
    forall i :: 0 <= i < |ps| ==> InRange(ps[i])
  }

  function Outcome(p: Prediction): real {
    if p.correct then 1.0 else 0.0
  }

  function Gap(p: Prediction): real {
    p.confidence - Outcome(p)
  }

  function Abs(x: real): real {
    if x < 0.0 then -x else x
  }

  /** `Math.min(bucketCount - 1, Math.floor(confidence * bucketCount))` */
  function Bucket(p: Prediction, b: int): int {
    Clamp(Scaled(p.confidence, b), b - 1)
  }

  function Scaled(c: real, b: int): int {
    (c * b as real).Floor
  }

  function Clamp(x: int, last: int): int {
    if last <= x then last else x
  }

  // ---------- what the score means ----------

  /** The summed gaps of the predictions in one bucket. */
  function GapSum(ps: seq<Prediction>, b: int, i: int): real {
    if ps == [] then 0.0 else
    var p := ps[|ps| - 1];
    GapSum(ps[..|ps| - 1], b, i) + (if Bucket(p, b) == i then Gap(p) else 0.0)
  }

  /** Over buckets lo, ..., hi - 1: the sum, and the sum of absolute values. */
  function RangeSum(ps: seq<Prediction>, b: int, lo: int, hi: int): real
    decreases hi - lo
  {
    if hi <= lo then 0.0 else RangeSum(ps, b, lo, hi - 1) + GapSum(ps, b, hi - 1)
  }

  function RangeAbs(ps: seq<Prediction>, b: int, lo: int, hi: int): real
    decreases hi - lo
  {
    if hi <= lo then 0.0 else RangeAbs(ps, b, lo, hi - 1) + Abs(GapSum(ps, b, hi - 1))
  }

  /** Expected calibration error: the buckets' absolute summed gaps, per prediction. */
  function Ece(ps: seq<Prediction>, b: int): real
    requires ps != []
  {
    RangeAbs(ps, b, 0, b) / |ps| as real
  }

  function TotalGap(ps: seq<Prediction>): real {
    if ps == [] then 0.0 else TotalGap(ps[..|ps| - 1]) + Gap(ps[|ps| - 1])
  }

  function TotalAbsGap(ps: seq<Prediction>): real {
    if ps == [] then 0.0 else TotalAbsGap(ps[..|ps| - 1]) + Abs(Gap(ps[|ps| - 1]))
  }

  function TotalSquare(ps: seq<Prediction>): real {
    if ps == [] then 0.0 else TotalSquare(ps[..|ps| - 1]) + Gap(ps[|ps| - 1]) * Gap(ps[|ps| - 1])
  }

  function Brier(ps: seq<Prediction>): real
    requires ps != []
  {
    TotalSquare(ps) / |ps| as real
  }

  function SumConfidence(ps: seq<Prediction>): real {
    if ps == [] then 0.0 else SumConfidence(ps[..|ps| - 1]) + ps[|ps| - 1].confidence
  }

  function CountCorrect(ps: seq<Prediction>): nat {
    if ps == [] then 0 else CountCorrect(ps[..|ps| - 1]) + if ps[|ps| - 1].correct then 1 else 0
  }

  lemma {:induction false} GapsAreMeansApart(ps: seq<Prediction>)
    ensures TotalGap(ps) == SumConfidence(ps) - CountCorrect(ps) as real
  {
    if ps != [] {
      GapsAreMeansApart(ps[..|ps| - 1]);
    }
  }

  // ---------- the loops ----------

  /** The predictions of one bucket, in order. */
  function Members(ps: seq<Prediction>, b: int, i: int): seq<Prediction> {
    if ps == [] then [] else
    var p := ps[|ps| - 1];
    Members(ps[..|ps| - 1], b, i) + (if Bucket(p, b) == i then [p] else [])
  }

  lemma {:induction false} MembersGap(ps: seq<Prediction>, b: int, i: int)
    ensures TotalGap(Members(ps, b, i)) == GapSum(ps, b, i)
  {
    if ps != [] {
      var front, p := ps[..|ps| - 1], ps[|ps| - 1];
      MembersGap(front, b, i);
      var ms := Members(front, b, i);
      assert Members(ps, b, i) == if Bucket(p, b) == i then ms + [p] else ms;
      assert (ms + [p])[..|ms|] == ms;
    }
  }

  // ---------- intervals of confidence ----------

  /** The i-th of b equal intervals of [0, 1], each closed below and open above, the last closed above too. */
  predicate Falls(c: real, b: int, i: int) {
    i as real <= c * b as real && (c * b as real < (i + 1) as real || i == b - 1)
  }

  /** A prediction is in a bucket exactly when its confidence falls in the bucket's interval. */
  lemma BucketExactly(p: Prediction, b: int, i: int)
    requires InRange(p) && 0 <= i < b
    ensures Bucket(p, b) == i <==> Falls(p.confidence, b, i)
  {
    var x := p.confidence * b as real;
    AtMostWhole(p.confidence, b as real);
    FloorExactly(x, i);
  }

  lemma AtMostWhole(c: real, n: real)
    requires 0.0 <= c <= 1.0 && n >= 0.0
    ensures 0.0 <= c * n <= n
  {
  }

  lemma FloorExactly(x: real, i: int)
    ensures x.Floor == i <==> i as real <= x < (i + 1) as real
    ensures x.Floor >= i <==> i as real <= x
  {
  }

  /** The predictions whose confidence falls in one interval, in order. */
  function Falling(ps: seq<Prediction>, b: int, i: int): seq<Prediction> {
    if ps == [] then [] else
    var p := ps[|ps| - 1];
    Falling(ps[..|ps| - 1], b, i) + (if Falls(p.confidence, b, i) then [p] else [])
  }

  lemma {:induction false} MembersFall(ps: seq<Prediction>, b: int, i: int)
    requires AllInRange(ps) && 0 <= i < b
    ensures Members(ps, b, i) == Falling(ps, b, i)
  {
    if ps != [] {
      MembersFall(ps[..|ps| - 1], b, i);
      BucketExactly(ps[|ps| - 1], b, i);
    }
  }

  /** How far an interval's total confidence is from its number of correct predictions, over the first n intervals. */
  function IntervalsApart(ps: seq<Prediction>, b: int, n: nat): real {
    if n == 0 then 0.0 else
    var falling := Falling(ps, b, n - 1);
    var apart := SumConfidence(falling) - CountCorrect(falling) as real;
    IntervalsApart(ps, b, n - 1) + if apart < 0.0 then -apart else apart
  }

  lemma {:induction false} RangeIsIntervals(ps: seq<Prediction>, b: int, n: nat)
    requires AllInRange(ps) && n <= b
    ensures RangeAbs(ps, b, 0, n) == IntervalsApart(ps, b, n)
  {
    if n > 0 {
      RangeIsIntervals(ps, b, n - 1);
      MembersFall(ps, b, n - 1);
      MembersGap(ps, b, n - 1);
      GapsAreMeansApart(Members(ps, b, n - 1));
    }
  }

  /** The score is the sum over the intervals of those distances, per prediction. */
  lemma EceExactly(ps: seq<Prediction>, b: int)
    requires ps != [] && b >= 1 && AllInRange(ps)
    ensures Ece(ps, b) == IntervalsApart(ps, b, b) / |ps| as real
  {
    RangeIsIntervals(ps, b, b);
  }

  // ---------- the loops, continued ----------

  /** One bucket's share of the score, as the loop computes it. */
  function Share(bucket: seq<Prediction>, n: nat): real
    requires n > 0
  {
    if bucket == [] then 0.0 else
    var meanConfidence := SumConfidence(bucket) / |bucket| as real;
    var accuracy := CountCorrect(bucket) as real / |bucket| as real;
    (|bucket| as real / n as real) * Abs(meanConfidence - accuracy)
  }

  lemma ShareIsGap(bucket: seq<Prediction>, n: nat)
    requires n > 0
    ensures Share(bucket, n) == Abs(TotalGap(bucket)) / n as real
  {
    GapsAreMeansApart(bucket);
    if bucket != [] {
      ShareArithmetic(|bucket| as real, SumConfidence(bucket), CountCorrect(bucket) as real, n as real);
    }
  }

  lemma ShareArithmetic(m: real, s: real, c: real, n: real)
    requires m > 0.0 && n > 0.0
    ensures (m / n) * Abs(s / m - c / m) == Abs(s - c) / n
  {
    DivSub(s, c, m);
    AbsDiv(s - c, m);
    Telescope(m, Abs(s - c), n);
  }

  lemma AddBucket(ps: seq<Prediction>, b: int, i: nat, error: real)
    requires ps != [] && error == RangeAbs(ps, b, 0, i) / |ps| as real
    ensures error + Share(Members(ps, b, i), |ps|) == RangeAbs(ps, b, 0, i + 1) / |ps| as real
  {
    MembersGap(ps, b, i);
    ShareIsGap(Members(ps, b, i), |ps|);
    DivAdd(RangeAbs(ps, b, 0, i), Abs(GapSum(ps, b, i)), |ps| as real);
  }

  lemma DivSub(x: real, y: real, m: real)
    requires m > 0.0
    ensures x / m - y / m == (x - y) / m
  {
  }

  lemma DivAdd(x: real, y: real, m: real)
    requires m > 0.0
    ensures x / m + y / m == (x + y) / m
  {
  }

  lemma AbsDiv(x: real, m: real)
    requires m > 0.0
    ensures Abs(x / m) == Abs(x) / m
  {
    if x >= 0.0 {
      assert x / m >= 0.0;
    } else {
      assert x / m < 0.0;
    }
  }

  lemma Telescope(m: real, x: real, n: real)
    requires m > 0.0 && n > 0.0
    ensures (m / n) * (x / m) == x / n
  {
    var u, v := m / n, x / m;
    assert u * n == m && v * m == x;
    assert (u * v) * n == x;
  }

  lemma BucketInRange(p: Prediction, b: int)
    requires InRange(p) && b >= 1
    ensures 0 <= Bucket(p, b) < b
  {
    assert p.confidence * b as real >= 0.0;
  }

  method ExpectedCalibrationError(ps: seq<Prediction>, bucketCount: int) returns (r: Score)
    ensures r.Undefined? <==> ps == []
    ensures r.Refused? <==> ps != [] && (bucketCount < 1 || exists p :: p in ps && !(0.0 <= p.confidence <= 1.0))
    ensures r.Score? ==> r.value == IntervalsApart(ps, bucketCount, bucketCount) / |ps| as real
    ensures r.Score? ==> r.value == Ece(ps, bucketCount)
  {
    if ps == [] { return Undefined; }
    if bucketCount < 1 { return Refused; }
    var buckets := Fill(ps, bucketCount);
    if buckets == null { return Refused; }
    var error := Accumulate(ps, bucketCount, buckets, |ps|);
    EceExactly(ps, bucketCount);
    return Score(error);
  }

  method Accumulate(ghost ps: seq<Prediction>, bucketCount: int, buckets: array<seq<Prediction>>, n: nat)
    returns (error: real)
    requires ps != [] && n == |ps| && buckets.Length == bucketCount
    requires AllInRange(ps) && forall i :: 0 <= i < bucketCount ==> buckets[i] == Falling(ps, bucketCount, i)
    ensures error == Ece(ps, bucketCount)
  {
    error := 0.0;
    for i := 0 to bucketCount
      invariant error == RangeAbs(ps, bucketCount, 0, i) / |ps| as real
    {
      AddBucket(ps, bucketCount, i, error);
      MembersFall(ps, bucketCount, i);
      error := error + Share(buckets[i], n);
    }
  }

  /** Sorts the predictions into buckets, or refuses at the first that is out of range. */
  method Fill(ps: seq<Prediction>, bucketCount: int) returns (buckets: array?<seq<Prediction>>)
    requires bucketCount >= 1
    ensures buckets == null <==> !AllInRange(ps)
    ensures buckets != null ==> buckets.Length == bucketCount && forall i :: 0 <= i < bucketCount ==>
      buckets[i] == Falling(ps, bucketCount, i)
  {
    var filling := new seq<Prediction>[bucketCount](_ => []);
    for k := 0 to |ps|
      invariant AllInRange(ps[..k])
      invariant forall i :: 0 <= i < bucketCount ==> filling[i] == Falling(ps[..k], bucketCount, i)
    {
      var p := ps[k];
      if p.confidence < 0.0 || p.confidence > 1.0 {
        assert !InRange(ps[k]);
        return null;
      }
      BucketInRange(p, bucketCount);
      assert ps[..k + 1][..k] == ps[..k];
      forall i | 0 <= i < bucketCount
        ensures Bucket(p, bucketCount) == i <==> Falls(p.confidence, bucketCount, i)
      {
        BucketExactly(p, bucketCount, i);
      }
      var index := Bucket(p, bucketCount);
      filling[index] := filling[index] + [p];
    }
    assert ps[..|ps|] == ps;
    return filling;
  }

  method BrierScore(ps: seq<Prediction>) returns (r: Score)
    ensures r == if ps == [] then Undefined else Score(Brier(ps))
  {
    if ps == [] { return Undefined; }
    var total := 0.0;
    for k := 0 to |ps|
      invariant total == TotalSquare(ps[..k])
    {
      assert ps[..k + 1][..k] == ps[..k];
      var gap := ps[k].confidence - (if ps[k].correct then 1.0 else 0.0);
      total := total + gap * gap;
    }
    assert ps[..|ps|] == ps;
    return Score(total / |ps| as real);
  }

  // ---------- bounds ----------

  lemma {:induction false} RangeSumSnoc(ps: seq<Prediction>, b: int, lo: int, hi: int)
    requires ps != []
    ensures RangeSum(ps, b, lo, hi) == RangeSum(ps[..|ps| - 1], b, lo, hi)
              + (if lo <= Bucket(ps[|ps| - 1], b) < hi then Gap(ps[|ps| - 1]) else 0.0)
    decreases hi - lo
  {
    if lo < hi {
      RangeSumSnoc(ps, b, lo, hi - 1);
    }
  }

  lemma {:induction false} RangeAbsSnoc(ps: seq<Prediction>, b: int, lo: int, hi: int)
    requires ps != []
    ensures RangeAbs(ps, b, lo, hi) <= RangeAbs(ps[..|ps| - 1], b, lo, hi)
              + (if lo <= Bucket(ps[|ps| - 1], b) < hi then Abs(Gap(ps[|ps| - 1])) else 0.0)
    decreases hi - lo
  {
    if lo < hi {
      RangeAbsSnoc(ps, b, lo, hi - 1);
    }
  }

  lemma {:induction false} RangeEmpty(b: int, lo: int, hi: int)
    ensures RangeSum([], b, lo, hi) == 0.0 && RangeAbs([], b, lo, hi) == 0.0
    decreases hi - lo
  {
    if lo < hi {
      RangeEmpty(b, lo, hi - 1);
    }
  }

  /** The buckets partition the predictions. */
  lemma {:induction false} BucketsPartition(ps: seq<Prediction>, b: int)
    requires b >= 1 && AllInRange(ps)
    ensures RangeSum(ps, b, 0, b) == TotalGap(ps)
  {
    if ps == [] {
      RangeEmpty(b, 0, b);
    } else {
      BucketsPartition(ps[..|ps| - 1], b);
      RangeSumSnoc(ps, b, 0, b);
      BucketInRange(ps[|ps| - 1], b);
    }
  }

  lemma {:induction false} Triangle(ps: seq<Prediction>, b: int, lo: int, hi: int)
    ensures Abs(RangeSum(ps, b, lo, hi)) <= RangeAbs(ps, b, lo, hi)
    decreases hi - lo
  {
    if lo < hi {
      Triangle(ps, b, lo, hi - 1);
    }
  }

  lemma {:induction false} BucketsNeverExceed(ps: seq<Prediction>, b: int)
    requires b >= 1 && AllInRange(ps)
    ensures RangeAbs(ps, b, 0, b) <= TotalAbsGap(ps)
  {
    if ps == [] {
      RangeEmpty(b, 0, b);
    } else {
      BucketsNeverExceed(ps[..|ps| - 1], b);
      RangeAbsSnoc(ps, b, 0, b);
      BucketInRange(ps[|ps| - 1], b);
    }
  }

  lemma {:induction false} AtMostOneEach(ps: seq<Prediction>)
    requires AllInRange(ps)
    ensures 0.0 <= TotalAbsGap(ps) <= |ps| as real
  {
    if ps != [] {
      AtMostOneEach(ps[..|ps| - 1]);
      assert InRange(ps[|ps| - 1]);
    }
  }

  /** Cauchy-Schwarz against the constant one. */
  lemma {:induction false} SquareOfSum(ps: seq<Prediction>)
    ensures 0.0 <= TotalAbsGap(ps) && 0.0 <= TotalSquare(ps)
    ensures TotalAbsGap(ps) * TotalAbsGap(ps) <= |ps| as real * TotalSquare(ps)
  {
    if ps != [] {
      var n := |ps| - 1;
      SquareOfSum(ps[..n]);
      var g := Gap(ps[n]);
      assert Abs(g) * Abs(g) == g * g;
      SquareStep(TotalAbsGap(ps[..n]), TotalSquare(ps[..n]), Abs(g), n);
    }
  }

  lemma Product(x: real, y: real)
    requires x > 0.0 && y > 0.0
    ensures x * y > 0.0
  {
  }

  lemma SquareStep(s: real, q: real, g: real, n: nat)
    requires s * s <= n as real * q && 0.0 <= s && 0.0 <= q && 0.0 <= g && (n == 0 ==> s == 0.0)
    ensures (s + g) * (s + g) <= (n + 1) as real * (q + g * g)
  {
    var m := n as real;
    SumSquared(s, g);
    SumTimes(m, q, g * g);
    if n > 0 {
      TwiceProduct(m, s, g);
      SumTimes(m, m * (g * g), q);
      Quotient(m, 2.0 * (s * g), m * (g * g) + q);
    } else {
      assert s * g == 0.0;
    }
  }

  lemma SumSquared(s: real, g: real)
    ensures (s + g) * (s + g) == s * s + 2.0 * (s * g) + g * g
  {
  }

  lemma SumTimes(m: real, x: real, y: real)
    ensures m * (x + y) == m * x + m * y
    ensures (m + 1.0) * (x + y) == m * x + m * y + x + y
  {
  }

  /** The square of m * g - s is not negative. */
  lemma TwiceProduct(m: real, s: real, g: real)
    ensures m * (2.0 * (s * g)) <= m * (m * (g * g)) + s * s
  {
    NotNegative(m * g - s);
    DifferenceSquared(m * g, s);
    assert (m * g) * (m * g) == m * (m * (g * g));
    assert (m * g) * s == m * (s * g);
  }

  lemma NotNegative(x: real)
    ensures x * x >= 0.0
  {
  }

  lemma DifferenceSquared(x: real, y: real)
    ensures (x - y) * (x - y) == x * x - 2.0 * (x * y) + y * y
  {
  }

  /** However many buckets: the error is at least the distance between mean confidence and accuracy, at most one,
      and its square is at most the Brier score. */
  lemma EceBounds(ps: seq<Prediction>, b: int)
    requires ps != [] && b >= 1 && AllInRange(ps)
    ensures Abs(SumConfidence(ps) / |ps| as real - CountCorrect(ps) as real / |ps| as real) <= Ece(ps, b) <= 1.0
    ensures Ece(ps, b) * Ece(ps, b) <= Brier(ps)
  {
    EceAtLeast(ps, b);
    EceAtMost(ps, b);
    EceSquared(ps, b);
  }

  lemma EceAtLeast(ps: seq<Prediction>, b: int)
    requires ps != [] && b >= 1 && AllInRange(ps)
    ensures Abs(SumConfidence(ps) / |ps| as real - CountCorrect(ps) as real / |ps| as real) <= Ece(ps, b)
  {
    GapsAreMeansApart(ps);
    BucketsPartition(ps, b);
    Triangle(ps, b, 0, b);
    MeansApart(SumConfidence(ps), CountCorrect(ps) as real, |ps| as real, RangeAbs(ps, b, 0, b));
  }

  lemma EceAtMost(ps: seq<Prediction>, b: int)
    requires ps != [] && b >= 1 && AllInRange(ps)
    ensures Ece(ps, b) <= 1.0
  {
    BucketsNeverExceed(ps, b);
    AtMostOneEach(ps);
    DivMono(RangeAbs(ps, b, 0, b), |ps| as real, |ps| as real);
  }

  lemma EceSquared(ps: seq<Prediction>, b: int)
    requires ps != [] && b >= 1 && AllInRange(ps)
    ensures Ece(ps, b) * Ece(ps, b) <= Brier(ps)
  {
    var a, t := RangeAbs(ps, b, 0, b), TotalAbsGap(ps);
    assert 0.0 <= a <= t by {
      Triangle(ps, b, 0, b);
      BucketsNeverExceed(ps, b);
    }
    assert t * t <= |ps| as real * TotalSquare(ps) by {
      SquareOfSum(ps);
    }
    Normalised(a, t, TotalSquare(ps), |ps| as real);
  }

  lemma MeansApart(s: real, c: real, n: real, a: real)
    requires n >= 1.0 && Abs(s - c) <= a
    ensures Abs(s / n - c / n) <= a / n
  {
    DivSub(s, c, n);
    AbsDiv(s - c, n);
    DivMono(Abs(s - c), a, n);
  }

  lemma DivMono(x: real, y: real, n: real)
    requires n > 0.0 && x <= y
    ensures x / n <= y / n
  {
    DivSub(y, x, n);
    assert (y - x) / n >= 0.0;
  }

  lemma MulMono(x: real, y: real, z: real)
    requires 0.0 <= x && y <= z
    ensures x * y <= x * z
  {
  }

  lemma Normalised(a: real, t: real, q: real, n: real)
    requires n >= 1.0 && 0.0 <= a <= t && t * t <= n * q
    ensures (a / n) * (a / n) <= q / n
  {
    assert a * a <= n * q by {
      MulMono(a, a, t);
      MulMono(t, a, t);
    }
    Squared(a, q, n);
  }

  lemma Squared(a: real, q: real, n: real)
    requires n >= 1.0 && a * a <= n * q
    ensures (a / n) * (a / n) <= q / n
  {
    var u := a / n;
    assert u * n == a;
    assert (u * n) * (u * n) == n * ((u * u) * n);
    assert n * ((u * u) * n) <= n * q;
    Quotient(n, (u * u) * n, q);
    DivMono((u * u) * n, q, n);
  }

  lemma Quotient(n: real, x: real, y: real)
    requires n > 0.0 && n * x <= n * y
    ensures x <= y
  {
    if x > y {
      Product(n, x - y);
    }
  }

  // ---------- refining the buckets ----------

  /** A bucket of b is the union of k consecutive buckets of k * b, the clamp at confidence one included. */
  lemma BucketCoarsens(p: Prediction, b: int, k: int)
    requires InRange(p) && b >= 1 && k >= 1
    ensures k * b >= 1 && Bucket(p, b) == Bucket(p, k * b) / k
  {
    MulAtLeast(k, b);
    ScaledCoarsens(p.confidence, b, k);
    ClampDivides(Scaled(p.confidence, k * b), k, b);
  }

  lemma ScaledCoarsens(c: real, b: int, k: int)
    requires b >= 1 && k >= 1
    ensures Scaled(c, b) == Scaled(c, k * b) / k
  {
    Multiple(c, b, k);
    FloorOfMultiple(c * b as real, c * (k * b) as real, k);
  }

  lemma ClampDivides(y: int, k: int, b: int)
    requires b >= 1 && k >= 1
    ensures Clamp(y / k, b - 1) == Clamp(y, k * b - 1) / k
  {
    var last := k * b - 1;
    LastBucket(k, b);
    if last <= y {
      DivMonotone(last, y, k);
    } else {
      DivMonotone(y, last, k);
    }
  }

  lemma LastBucket(k: int, b: int)
    requires b >= 1 && k >= 1
    ensures (k * b - 1) / k == b - 1
  {
    assert k * b - 1 == k * (b - 1) + (k - 1);
    DivUnique(k * b - 1, k, b - 1, k - 1);
  }

  lemma Multiple(c: real, b: int, k: int)
    requires b >= 1 && k >= 1
    ensures k * b >= 1 && c * (k * b) as real == k as real * (c * b as real)
  {
    MulAtLeast(k, b);
    assert (k * b) as real == k as real * b as real;
  }

  lemma MulAtLeast(k: int, d: int)
    requires k >= 1 && d >= 1
    ensures k * d >= k
  {
  }

  lemma DivUnique(x: int, k: int, q: int, r: int)
    requires k >= 1 && x == k * q + r && 0 <= r < k
    ensures x / k == q
  {
    assert x == k * (x / k) + x % k;
    Between(k, x / k - q);
  }

  lemma Between(k: int, d: int)
    requires k >= 1 && -k < k * d < k
    ensures d == 0
  {
    if d >= 1 {
      MulAtLeast(k, d);
    } else if d <= -1 {
      MulAtLeast(k, -d);
    }
  }

  lemma DivMonotone(x: int, y: int, k: int)
    requires k >= 1 && x <= y
    ensures x / k <= y / k
  {
    assert x == k * (x / k) + x % k && y == k * (y / k) + y % k;
    if x / k > y / k {
      MulAtLeast(k, x / k - y / k);
    }
  }

  lemma FloorOfMultiple(x: real, y: real, k: int)
    requires k >= 1 && y == k as real * x
    ensures x.Floor == y.Floor / k
  {
    var q := y.Floor / k;
    QuotientBounds(y.Floor, k);
    RealProduct(k, q);
    RealProduct(k, q + 1);
    Quotient(k as real, q as real, x);
    if x >= (q + 1) as real { MulMono(k as real, (q + 1) as real, x); }
  }

  lemma QuotientBounds(f: int, k: int)
    requires k >= 1
    ensures k * (f / k) <= f < k * (f / k + 1)
  {
  }

  lemma RealProduct(k: int, q: int)
    ensures (k * q) as real == k as real * q as real
  {
  }

  lemma {:induction false} GapSumRefines(ps: seq<Prediction>, b: int, k: int, i: int)
    requires b >= 1 && k >= 1 && AllInRange(ps)
    ensures GapSum(ps, b, i) == RangeSum(ps, k * b, i * k, i * k + k)
  {
    if ps == [] {
      RangeEmpty(k * b, i * k, i * k + k);
    } else {
      var p := ps[|ps| - 1];
      GapSumRefines(ps[..|ps| - 1], b, k, i);
      RangeSumSnoc(ps, k * b, i * k, i * k + k);
      BucketCoarsens(p, b, k);
      var j := Bucket(p, k * b);
      DivRange(j, k, i);
    }
  }

  lemma DivRange(j: int, k: int, i: int)
    requires k >= 1
    ensures j / k == i <==> i * k <= j < i * k + k
  {
    assert j == k * (j / k) + j % k;
    if i * k <= j < i * k + k {
      DivUnique(j, k, i, j - i * k);
    }
  }

  lemma {:induction false} RangeAbsSplits(ps: seq<Prediction>, b: int, mid: int, hi: int)
    requires 0 <= mid <= hi
    ensures RangeAbs(ps, b, 0, hi) == RangeAbs(ps, b, 0, mid) + RangeAbs(ps, b, mid, hi)
    decreases hi - mid
  {
    if mid < hi {
      RangeAbsSplits(ps, b, mid, hi - 1);
    }
  }

  lemma {:induction false} RangeAbsRefines(ps: seq<Prediction>, b: int, k: int, i: int)
    requires b >= 1 && k >= 1 && AllInRange(ps) && i >= 0
    ensures i * k >= 0 && RangeAbs(ps, b, 0, i) <= RangeAbs(ps, k * b, 0, i * k)
    decreases i
  {
    if i > 0 {
      RangeAbsRefines(ps, b, k, i - 1);
      var lo := (i - 1) * k;
      assert i * k == lo + k;
      GapSumRefines(ps, b, k, i - 1);
      Triangle(ps, k * b, lo, lo + k);
      RangeAbsSplits(ps, k * b, lo, lo + k);
    }
  }

  /** Splitting every bucket into k never lowers the error. */
  lemma RefiningNeverLowers(ps: seq<Prediction>, b: int, k: int)
    requires ps != [] && b >= 1 && k >= 1 && AllInRange(ps)
    ensures Ece(ps, b) <= Ece(ps, k * b)
  {
    RangeAbsRefines(ps, b, k, b);
    assert b * k == k * b;
    DivMono(RangeAbs(ps, b, 0, b), RangeAbs(ps, k * b, 0, k * b), |ps| as real);
  }
}
