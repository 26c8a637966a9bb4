/** The histogram of processing times: `make_processing` of the report generator. */
module Delays {
  import opened StableSort
  import opened InFlight

  const MICROSECOND: real := 1000.0

  function Identity(d: int): int {
    d
  }

  function DelaysOf(pairs: seq<Pair>): seq<int> {
    if pairs == [] then [] else (if |pairs[0]| > 2 then [pairs[0][2]] else []) + DelaysOf(pairs[1..])
  }

  function DropUntilPositive(ds: seq<int>): seq<int> {
    if ds != [] && ds[0] <= 0 then DropUntilPositive(ds[1..]) else ds
  }

  function Positives(ds: seq<int>): nat {
    if ds == [] then 0 else Positives(ds[1..]) + if ds[0] > 0 then 1 else 0
  }

  // The meaning of the buckets: each delay belongs to the first bucket whose bound it does not exceed, or to the
  // last one.

  predicate Rising(bounds: seq<real>) {
    forall i, j | 0 <= i <= j < |bounds| :: bounds[i] <= bounds[j]
  }

  function SlotFrom(bounds: seq<real>, i: nat, d: int): (j: nat)
    requires i < |bounds|
    ensures i <= j < |bounds| && (j < |bounds| - 1 ==> d as real <= bounds[j])
    ensures forall k | i <= k < j :: bounds[k] < d as real
    decreases |bounds| - i
  {
    if d as real > bounds[i] && i + 1 < |bounds| then SlotFrom(bounds, i + 1, d) else i
  }

  function InSlot(ds: seq<int>, bounds: seq<real>, j: nat): seq<int>
    requires bounds != []
  {
    if ds == [] then []
    else
      var last := ds[|ds| - 1];
      InSlot(ds[..|ds| - 1], bounds, j) + if SlotFrom(bounds, 0, last) == j then [last] else []
  }

  function Sizes(buckets: seq<seq<int>>): nat {
    if buckets == [] then 0 else Sizes(buckets[..|buckets| - 1]) + |buckets[|buckets| - 1]|
  }

  ghost predicate Sorts(buckets: seq<seq<int>>, ds: seq<int>, bounds: seq<real>) {
    bounds != [] && |buckets| == |bounds| && forall j: nat | j < |bounds| :: buckets[j] == InSlot(ds, bounds, j)
  }

  /** A search that starts from a bucket at which an earlier, smaller delay was put finds the same bucket as one
      from the start. */
  lemma {:induction false} SlotFromEarlier(bounds: seq<real>, from: nat, d: int, e: int)
    requires Rising(bounds) && bounds != [] && e <= d && from <= SlotFrom(bounds, 0, e)
    ensures from < |bounds| && SlotFrom(bounds, from, d) == SlotFrom(bounds, 0, d)
  {
    if from > 0 {
      SlotFromEarlier(bounds, from - 1, d, e);
      assert bounds[from - 1] < e as real;
    }
  }

  lemma PutNext(ds: seq<int>, n: nat, bounds: seq<real>, buckets: seq<seq<int>>)
    requires n < |ds| && Sorts(buckets, ds[..n], bounds)
    ensures var k := SlotFrom(bounds, 0, ds[n]);
            Sorts(buckets[k := buckets[k] + [ds[n]]], ds[..n + 1], bounds)
  {
    assert ds[..n + 1][..n] == ds[..n];
  }

  lemma NothingPut(ds: seq<int>, bounds: seq<real>)
    requires bounds != []
    ensures Sorts(seq(|bounds|, _ => []), ds[..0], bounds)
  {
  }

  /** The single pass over the delays in order: the bucket only ever moves on. */
  method Bucketing(ds: seq<int>, bounds: seq<real>) returns (buckets: seq<seq<int>>)
    requires Rising(bounds) && bounds != [] && Sorted(ds, Identity)
    ensures |buckets| == |bounds| && Sorts(buckets, ds, bounds)
  {
    hide Sorts, Sorted, Rising;
    buckets := seq(|bounds|, _ => []);
    var index, n := 0, 0;
    NothingPut(ds, bounds);
    while n < |ds|
      invariant n <= |ds| && index < |bounds| == |buckets|
      invariant n == 0 ==> index == 0
      invariant n > 0 ==> index == SlotFrom(bounds, 0, ds[n - 1])
      invariant Sorts(buckets, ds[..n], bounds)
    {
      if n > 0 {
        SortedNext(ds, n);
        SlotFromEarlier(bounds, index, ds[n], ds[n - 1]);
      }
      while ds[n] as real > bounds[index] && index + 1 < |bounds|
        invariant index < |bounds| && SlotFrom(bounds, index, ds[n]) == SlotFrom(bounds, 0, ds[n])
        decreases |bounds| - index
      {
        index := index + 1;
      }
      PutNext(ds, n, bounds, buckets);
      buckets := buckets[index := buckets[index] + [ds[n]]];
      n := n + 1;
    }
    assert ds[..n] == ds;
  }

  lemma {:induction false} SortedNext(ds: seq<int>, n: nat)
    requires Sorted(ds, Identity) && 0 < n < |ds|
    ensures ds[n - 1] <= ds[n]
  {
    if n > 1 {
      SortedNext(ds[1..], n - 1);
    }
  }

  /** No delay is lost or counted twice. */
  lemma {:induction false} SlotsPartition(ds: seq<int>, bounds: seq<real>, buckets: seq<seq<int>>)
    requires Sorts(buckets, ds, bounds)
    ensures Sizes(buckets) == |ds|
  {
    if ds == [] {
      EmptySizes(buckets);
    } else {
      var before, last := ds[..|ds| - 1], ds[|ds| - 1];
      var k := SlotFrom(bounds, 0, last);
      var smaller := buckets[k := InSlot(before, bounds, k)];
      forall j: nat | j < |bounds|
        ensures smaller[j] == InSlot(before, bounds, j)
      {
        assert buckets[j] == InSlot(ds, bounds, j);
      }
      SlotsPartition(before, bounds, smaller);
      assert buckets[k] == smaller[k] + [last] && smaller[k := buckets[k]] == buckets;
      SizesUpdate(smaller, k, buckets[k]);
    }
  }

  lemma {:induction false} EmptySizes(buckets: seq<seq<int>>)
    requires forall i | 0 <= i < |buckets| :: buckets[i] == []
    ensures Sizes(buckets) == 0
  {
    if buckets != [] {
      EmptySizes(buckets[..|buckets| - 1]);
    }
  }

  lemma {:induction false} SizesUpdate(buckets: seq<seq<int>>, k: nat, b: seq<int>)
    requires k < |buckets|
    ensures Sizes(buckets[k := b]) == Sizes(buckets) - |buckets[k]| + |b|
  {
    var rest := buckets[..|buckets| - 1];
    if k < |rest| {
      SizesUpdate(rest, k, b);
      assert buckets[k := b][..|buckets| - 1] == rest[k := b];
    } else {
      assert buckets[k := b][..|buckets| - 1] == rest;
    }
  }

  lemma {:induction false} DroppedPositive(ds: seq<int>)
    requires Sorted(ds, Identity)
    ensures var r := DropUntilPositive(ds);
            && Sorted(r, Identity) && |r| == Positives(ds) && (forall i | 0 <= i < |r| :: r[i] > 0)
  {
    if ds != [] {
      DroppedPositive(ds[1..]);
      if ds[0] > 0 {
        assert ds[1..] == DropUntilPositive(ds[1..]) by {
          if |ds| > 1 { assert ds[0] <= ds[1]; }
        }
      }
    }
  }

  lemma {:induction false} InsertPositives(d: int, ds: seq<int>)
    ensures Positives(Insert(d, ds, Identity)) == Positives(ds) + if d > 0 then 1 else 0
  {
    var r := Insert(d, ds, Identity);
    if ds == [] || d <= ds[0] {
      assert r[1..] == ds;
    } else {
      assert r[1..] == Insert(d, ds[1..], Identity);
      InsertPositives(d, ds[1..]);
    }
  }

  lemma {:induction false} SortPositives(ds: seq<int>)
    ensures Positives(Sort(ds, Identity)) == Positives(ds)
  {
    if ds != [] {
      SortPositives(ds[1..]);
      InsertPositives(ds[0], Sort(ds[1..], Identity));
    }
  }

  // The points

  function Smallest(ds: seq<int>): (m: int)
    requires ds != []
    ensures m in ds && forall d | d in ds :: m <= d
  {
    assert ds == [ds[0]] + ds[1..];
    if |ds| == 1 || ds[0] <= Smallest(ds[1..]) then ds[0] else Smallest(ds[1..])
  }

  function Greatest(ds: seq<int>): (m: int)
    requires ds != []
    ensures m in ds && forall d | d in ds :: d <= m
  {
    assert ds == [ds[0]] + ds[1..];
    if |ds| == 1 || ds[0] >= Greatest(ds[1..]) then ds[0] else Greatest(ds[1..])
  }

  /** A bucket of one delay is drawn as an empty one is. */
  function BucketPoint(b: seq<int>, bound: real): Point {
    if |b| > 1 then Point(Average(Sum(b), |b|) / MILLISECOND, |b| as real) else Point(bound / MILLISECOND, 0.0)
  }

  function StepPoint(b: seq<int>): Point
    requires |b| > 1
  {
    Point(Average(Sum(b), |b|) / MILLISECOND, (Greatest(b) - Smallest(b)) as real / MICROSECOND)
  }

  function Points(buckets: seq<seq<int>>, bounds: seq<real>): seq<Point>
    requires |buckets| == |bounds|
  {
    seq(|buckets|, i requires 0 <= i < |buckets| => BucketPoint(buckets[i], bounds[i]))
  }

  function StepPoints(buckets: seq<seq<int>>): seq<Point> {
    if buckets == [] then []
    else
      var last := buckets[|buckets| - 1];
      StepPoints(buckets[..|buckets| - 1]) + if |last| > 1 then [StepPoint(last)] else []
  }

  /** A step point is above the middle of its bucket, as high as its delays are apart. */
  lemma StepPointSpread(b: seq<int>)
    requires |b| > 1
    ensures Times(|b|, StepPoint(b).x * 1000000.0) == Sum(b) as real
    ensures forall c, d | c in b && d in b :: (d - c) as real <= StepPoint(b).y * 1000.0
    ensures exists c, d :: c in b && d in b && (d - c) as real == StepPoint(b).y * 1000.0
  {
    hide Average, Smallest, Greatest, Sum, Times;
    AverageTimes(Sum(b), |b|);
    var c, d, p := Smallest(b), Greatest(b), StepPoint(b);
    assert p.x * 1000000.0 == Average(Sum(b), |b|) && p.y * 1000.0 == (d - c) as real;
  }

  function Highest(data: seq<Point>): (h: real)
    ensures h >= 0.0 && forall i | 0 <= i < |data| :: data[i].y <= h
    ensures h > 0.0 ==> exists i :: 0 <= i < |data| && data[i].y == h
  {
    if data == [] then 0.0
    else
      var rest, last := Highest(data[..|data| - 1]), data[|data| - 1];
      assert forall i | 0 <= i < |data| - 1 :: data[i] == data[..|data| - 1][i];
      if last.y > rest then last.y else rest
  }

  function Scaled(y: real, h: real): real
    requires h > 0.0
  {
    100.0 * y / h
  }

  function Normalised(data: seq<Point>): seq<Point> {
    var h := Highest(data);
    if h > 0.0 then seq(|data|, i requires 0 <= i < |data| => data[i].(y := Scaled(data[i].y, h))) else data
  }

  lemma Scale(y: real, h: real)
    requires 0.0 <= y <= h && h > 0.0
    ensures 0.0 <= Scaled(y, h) <= 100.0 && (y == h ==> Scaled(y, h) == 100.0)
  {
  }

  /** All heights are within 0 to 100, and the highest point is at 100 unless all are at 0. */
  lemma NormalisedWithin(data: seq<Point>)
    requires forall i | 0 <= i < |data| :: data[i].y >= 0.0
    ensures |Normalised(data)| == |data| && forall i | 0 <= i < |data| :: 0.0 <= Normalised(data)[i].y <= 100.0
    ensures Highest(data) > 0.0 ==> exists i :: 0 <= i < |data| && Normalised(data)[i].y == 100.0
  {
    var h := Highest(data);
    if h > 0.0 {
      forall i | 0 <= i < |data|
        ensures 0.0 <= Normalised(data)[i].y <= 100.0 && (data[i].y == h ==> Normalised(data)[i].y == 100.0)
      {
        Scale(data[i].y, h);
      }
    }
  }

  /** A bucket of one delay or none is drawn at its bound and flat; the others at the mean of their delays, with
      heights in proportion to their sizes. */
  lemma DrawnBuckets(buckets: seq<seq<int>>, bounds: seq<real>, i: nat, k: nat)
    requires |buckets| == |bounds| && i < |buckets| && k < |buckets|
    ensures var data := Normalised(Points(buckets, bounds));
            && |data| == |buckets|
            && (|buckets[i]| <= 1 ==> data[i].x * 1000000.0 == bounds[i] && data[i].y == 0.0)
            && (|buckets[i]| > 1 ==>
                  Times(|buckets[i]|, data[i].x * 1000000.0) == Sum(buckets[i]) as real && data[i].y > 0.0)
            && (|buckets[i]| > 1 && |buckets[k]| > 1 ==>
                  data[i].y * |buckets[k]| as real == data[k].y * |buckets[i]| as real)
  {
    hide Sum, Average, Times, Normalised, Highest, Scaled;
    var points := Points(buckets, bounds);
    assert points[i] == BucketPoint(buckets[i], bounds[i]) && points[k] == BucketPoint(buckets[k], bounds[k]);
    NormalisedAt(points, i);
    NormalisedAt(points, k);
    if |buckets[i]| > 1 {
      AverageTimes(Sum(buckets[i]), |buckets[i]|);
      assert points[i].x * 1000000.0 == Average(Sum(buckets[i]), |buckets[i]|);
    } else {
      assert points[i].x * 1000000.0 == bounds[i];
    }
    if Highest(points) > 0.0 {
      Proportional(points[i].y, points[k].y, Highest(points));
    }
  }

  lemma NormalisedAt(data: seq<Point>, i: nat)
    requires i < |data|
    ensures |Normalised(data)| == |data| && data[i].y <= Highest(data)
    ensures Normalised(data)[i].x == data[i].x
    ensures Normalised(data)[i].y == if Highest(data) > 0.0 then Scaled(data[i].y, Highest(data)) else data[i].y
  {
    hide Scaled;
  }

  lemma Proportional(a: real, b: real, h: real)
    requires h > 0.0
    ensures Scaled(a, h) * b == Scaled(b, h) * a && (a > 0.0 ==> Scaled(a, h) > 0.0) && Scaled(0.0, h) == 0.0
  {
    assert Scaled(a, h) == 100.0 / h * a && Scaled(b, h) == 100.0 / h * b;
  }

  lemma PointsNonNegative(buckets: seq<seq<int>>, bounds: seq<real>)
    requires |buckets| == |bounds|
    ensures forall i | 0 <= i < |buckets| :: Points(buckets, bounds)[i].y >= 0.0
  {
  }

  /** The delays that are sorted into buckets. */
  function Kept(pairs: seq<Pair>): (ds: seq<int>)
    ensures forall i | 0 <= i < |ds| :: ds[i] > 0
  {
    var delays := DelaysOf(pairs);
    SortIsStable(delays, Identity, 0);
    DroppedPositive(Sort(delays, Identity));
    DropUntilPositive(Sort(delays, Identity))
  }

  lemma KeptPositives(pairs: seq<Pair>)
    ensures Sorted(Kept(pairs), Identity) && |Kept(pairs)| == Positives(DelaysOf(pairs))
  {
    SortIsStable(DelaysOf(pairs), Identity, 0);
    DroppedPositive(Sort(DelaysOf(pairs), Identity));
    SortPositives(DelaysOf(pairs));
  }

  /** The first loop over the sorted delays. */
  method DropNonPositive(sorted: seq<int>) returns (delays: seq<int>)
    ensures delays == DropUntilPositive(sorted)
  {
    delays := sorted;
    while delays != [] && delays[0] <= 0
      invariant DropUntilPositive(delays) == DropUntilPositive(sorted)
      decreases |delays|
    {
      delays := delays[1..];
    }
  }

  /** The part of the histogram that is drawn: no bucket outside it has a delay. */
  ghost predicate Trims(buckets: seq<seq<int>>, lo: nat, hi: nat) {
    lo <= hi <= |buckets| && forall j | 0 <= j < |buckets| && !(lo <= j < hi) :: buckets[j] == []
  }

  method Trim(buckets: seq<seq<int>>) returns (lo: nat, hi: nat)
    requires exists j :: 0 <= j < |buckets| && buckets[j] != []
    ensures Trims(buckets, lo, hi)
    ensures lo < hi && buckets[lo] != [] && buckets[hi - 1] != []
  {
    lo := 0;
    while lo < |buckets| && buckets[lo] == []
      invariant lo <= |buckets| && forall j | 0 <= j < lo :: buckets[j] == []
    {
      lo := lo + 1;
    }
    hi := |buckets|;
    while hi >= 1 && buckets[hi - 1] == []
      invariant lo < hi <= |buckets| && forall j | hi <= j < |buckets| :: buckets[j] == []
    {
      hi := hi - 1;
    }
  }

  method DrawBuckets(buckets: seq<seq<int>>, bounds: seq<real>) returns (data: seq<Point>, steps: seq<Point>)
    requires |buckets| == |bounds|
    ensures data == Points(buckets, bounds) && steps == StepPoints(buckets)
  {
    hide Average, Sum, Smallest, Greatest;
    data, steps := [], [];
    var i := 0;
    assert buckets[..0] == [];
    while i < |buckets|
      invariant i <= |buckets| && |data| == i && steps == StepPoints(buckets[..i])
      invariant forall k | 0 <= k < i :: data[k] == BucketPoint(buckets[k], bounds[k])
    {
      assert buckets[..i + 1][..i] == buckets[..i];
      var b := buckets[i];
      if |b| > 1 {
        var x := Average(Sum(b), |b|) / MILLISECOND;
        data := data + [Point(x, |b| as real)];
        steps := steps + [Point(x, (Greatest(b) - Smallest(b)) as real / MICROSECOND)];
      } else {
        data := data + [Point(bounds[i] / MILLISECOND, 0.0)];
      }
      i := i + 1;
    }
    assert buckets[..i] == buckets;
  }

  method Normalise(data: seq<Point>) returns (r: seq<Point>)
    ensures r == Normalised(data)
  {
    hide Scaled;
    var maxDelay := 0.0;
    var i := 0;
    assert data[..0] == [];
    while i < |data|
      invariant i <= |data| && maxDelay == Highest(data[..i])
    {
      assert data[..i + 1][..i] == data[..i];
      if data[i].y > maxDelay {
        maxDelay := data[i].y;
      }
      i := i + 1;
    }
    assert data[..i] == data;
    r := data;
    if maxDelay > 0.0 {
      i := 0;
      while i < |data|
        invariant i <= |data| == |r|
        invariant forall k | 0 <= k < i :: r[k] == data[k].(y := Scaled(data[k].y, maxDelay))
        invariant forall k | i <= k < |data| :: r[k] == data[k]
      {
        r := r[i := r[i].(y := Scaled(r[i].y, maxDelay))];
        i := i + 1;
      }
    }
  }

  // The bounds of the buckets: powers of ten at even distances of their logarithms

  function Pow10(k: nat): (p: nat)
    ensures p > 0
  {
    if k == 0 then 1 else 10 * Pow10(k - 1)
  }

  lemma {:induction false} Pow10Grows(j: nat, k: nat)
    ensures j < k <==> Pow10(j) < Pow10(k)
  {
    if j > 0 && k > 0 {
      Pow10Grows(j - 1, k - 1);
    }
  }

  /** `floor(log10(d))` and `ceil(log10(d))`. */
  function FloorLog(d: nat): (k: nat)
    requires d > 0
    ensures Pow10(k) <= d < Pow10(k + 1)
  {
    if d < 10 then 0 else FloorLog(d / 10) + 1
  }

  function CeilLog(d: nat): (k: nat)
    requires d > 0
    ensures d <= Pow10(k) && (k > 0 ==> Pow10(k - 1) < d)
  {
    if d == Pow10(FloorLog(d)) then
      (if FloorLog(d) > 0 then Pow10Grows(FloorLog(d) - 1, FloorLog(d)); FloorLog(d) else 0)
    else FloorLog(d) + 1
  }

  /** What the bounds need of `pow(10, x)`: it rises, and is right for whole numbers. */
  ghost predicate PowerOfTen(pow: real -> real) {
    && (forall x, y | x <= y :: pow(x) <= pow(y))
    && (forall k: nat :: pow(k as real) == Pow10(k) as real)
  }

  function Exponent(left: nat, right: nat, i: nat): real {
    left as real + (i + 1) as real * ((right - left) as real / FIT_POINTS as real)
  }

  function Bounds(pow: real -> real, left: nat, right: nat): (bounds: seq<real>)
    ensures |bounds| == FIT_POINTS && forall i | 0 <= i < FIT_POINTS :: bounds[i] == pow(Exponent(left, right, i))
  {
    seq(FIT_POINTS, i requires 0 <= i < FIT_POINTS => pow(Exponent(left, right, i)))
  }

  function BoundsFor(pow: real -> real, ds: seq<int>): (bounds: seq<real>)
    requires ds != [] && forall i | 0 <= i < |ds| :: ds[i] > 0
    ensures |bounds| == FIT_POINTS
  {
    Bounds(pow, FloorLog(ds[0]), CeilLog(ds[|ds| - 1]))
  }

  lemma ExponentsRise(left: nat, right: nat, i: nat, j: nat)
    requires left <= right && i <= j
    ensures Exponent(left, right, i) <= Exponent(left, right, j)
    ensures Exponent(left, right, FIT_POINTS - 1) == right as real
  {
    var step := (right - left) as real / FIT_POINTS as real;
    assert (j + 1) as real * step - (i + 1) as real * step == (j - i) as real * step;
  }

  lemma BoundsUpTo(pow: real -> real, left: nat, right: nat)
    requires PowerOfTen(pow) && left <= right
    ensures Rising(Bounds(pow, left, right)) && Bounds(pow, left, right)[FIT_POINTS - 1] == Pow10(right) as real
  {
    hide Exponent, Pow10;
    forall i, j | 0 <= i <= j < FIT_POINTS
      ensures pow(Exponent(left, right, i)) <= pow(Exponent(left, right, j))
    {
      ExponentsRise(left, right, i, j);
    }
    ExponentsRise(left, right, 0, 0);
    assert pow(right as real) == Pow10(right) as real;
  }

  /** The exponents of the 500 bounds are evenly spaced, from behind `left` up to `right`. */
  lemma ExponentsEven(left: nat, right: nat, i: nat)
    requires left <= right && i < 500
    ensures var width := (right - left) as real / 500.0;
            Exponent(left, right, i) - (if i == 0 then left as real else Exponent(left, right, i - 1)) == width
    ensures Exponent(left, right, 499) == right as real
  {
    var width := (right - left) as real / 500.0;
    assert (i + 1) as real * width == i as real * width + width;
  }

  /** The bounds rise up to a power of ten that no delay exceeds. */
  lemma BoundsRise(pow: real -> real, ds: seq<int>)
    requires PowerOfTen(pow) && ds != [] && Sorted(ds, Identity) && forall i | 0 <= i < |ds| :: ds[i] > 0
    ensures Rising(BoundsFor(pow, ds))
    ensures forall d | d in ds :: d as real <= BoundsFor(pow, ds)[FIT_POINTS - 1]
  {
    hide Sorted, Exponent, PowerOfTen, Pow10, FloorLog, CeilLog, Rising, Bounds;
    var left, right, last := FloorLog(ds[0]), CeilLog(ds[|ds| - 1]), |ds| - 1;
    FirstToLast(ds, 0, last);
    Pow10Grows(right, left);
    BoundsUpTo(pow, left, right);
    forall d | d in ds
      ensures d <= ds[last]
    {
      var i :| 0 <= i < |ds| && ds[i] == d;
      FirstToLast(ds, i, last);
    }
  }

  lemma {:induction false} FirstToLast(ds: seq<int>, i: nat, j: nat)
    requires Sorted(ds, Identity) && i <= j < |ds|
    ensures ds[i] <= ds[j]
  {
    hide Sorted;
    if i < j {
      FirstToLast(ds, i, j - 1);
      SortedNext(ds, j);
    }
  }

  /** Each bucket holds delays up to its bound, the last one too, and above the bound before it. */
  lemma {:induction false} SlotWithin(ds: seq<int>, bounds: seq<real>, j: nat)
    requires j < |bounds| && forall d | d in ds :: d as real <= bounds[|bounds| - 1]
    ensures forall d | d in InSlot(ds, bounds, j) ::
      d in ds && d as real <= bounds[j] && (j > 0 ==> bounds[j - 1] < d as real)
  {
    if ds != [] {
      var before, last := ds[..|ds| - 1], ds[|ds| - 1];
      assert last in ds && forall d | d in before :: d in ds;
      SlotWithin(before, bounds, j);
    }
  }

  /** The loop that makes the buckets, which are empty at first. */
  method MakeBounds(pow: real -> real, left: nat, right: nat) returns (bounds: seq<real>)
    ensures bounds == Bounds(pow, left, right)
  {
    bounds := [];
    for i := 0 to FIT_POINTS
      invariant |bounds| == i && forall k | 0 <= k < i :: bounds[k] == pow(Exponent(left, right, k))
    {
      bounds := bounds + [pow(Exponent(left, right, i))];
    }
  }

  /** The histogram. Every positive delay is in the bucket of its own search, and none of them is trimmed away. */
  method MakeProcessing(pairs: seq<Pair>, pow: real -> real)
    returns (data: seq<Point>, steps: seq<Point>, ghost buckets: seq<seq<int>>, ghost lo: nat)
    requires PowerOfTen(pow)
    ensures Kept(pairs) == [] ==> data == steps == []
    ensures Kept(pairs) != [] ==>
      var bounds := BoundsFor(pow, Kept(pairs));
      && |buckets| == |bounds| && Sorts(buckets, Kept(pairs), bounds) && Trims(buckets, lo, lo + |data|)
      && data == Normalised(Points(buckets[lo..lo + |data|], bounds[lo..lo + |data|]))
      && steps == StepPoints(buckets[lo..lo + |data|])
  {
    hide Sorts, Normalised, Points, StepPoints, Rising, PowerOfTen, Sorted, DropUntilPositive, DelaysOf, FloorLog,
         CeilLog, Bounds;
    data, steps, buckets, lo := [], [], [], 0;
    var delays := DropNonPositive(Sort(DelaysOf(pairs), Identity));
    KeptPositives(pairs);
    if delays != [] {
      BoundsRise(pow, delays);
      var bounds := MakeBounds(pow, FloorLog(delays[0]), CeilLog(delays[|delays| - 1]));
      var filled := Bucketing(delays, bounds);
      SomeBucket(delays, bounds, filled);
      var start, end := Trim(filled);
      data, steps := DrawBuckets(filled[start..end], bounds[start..end]);
      PointCount(filled[start..end], bounds[start..end]);
      data := Normalise(data);
      buckets, lo := filled, start;
    }
  }

  lemma PointCount(buckets: seq<seq<int>>, bounds: seq<real>)
    requires |buckets| == |bounds|
    ensures |Normalised(Points(buckets, bounds))| == |Points(buckets, bounds)| == |buckets|
  {
  }

  lemma SomeBucket(ds: seq<int>, bounds: seq<real>, buckets: seq<seq<int>>)
    requires ds != [] && Sorts(buckets, ds, bounds)
    ensures exists j :: 0 <= j < |buckets| && buckets[j] != []
  {
    var k := SlotFrom(bounds, 0, ds[|ds| - 1]);
    assert buckets[k] == InSlot(ds, bounds, k);
  }

  // How many pairs each bucket stands for

  predicate InBucket(d: int, bounds: seq<real>, j: nat)
    requires j < |bounds|
  {
    d > 0 && d as real <= bounds[j] && (j > 0 ==> bounds[j - 1] < d as real)
  }

  /** The answered pairs whose delay, their third number, is between these bounds. */
  function PairsIn(pairs: seq<Pair>, bounds: seq<real>, j: nat): nat
    requires j < |bounds|
  {
    if pairs == [] then 0
    else (if |pairs[0]| > 2 && InBucket(pairs[0][2], bounds, j) then 1 else 0) + PairsIn(pairs[1..], bounds, j)
  }

  function CountIn(ds: seq<int>, bounds: seq<real>, j: nat): nat
    requires j < |bounds|
  {
    if ds == [] then 0 else (if InBucket(ds[0], bounds, j) then 1 else 0) + CountIn(ds[1..], bounds, j)
  }

  lemma {:induction false} PairsAreDelays(pairs: seq<Pair>, bounds: seq<real>, j: nat)
    requires j < |bounds|
    ensures CountIn(DelaysOf(pairs), bounds, j) == PairsIn(pairs, bounds, j)
  {
    if pairs != [] {
      PairsAreDelays(pairs[1..], bounds, j);
      var rest := DelaysOf(pairs[1..]);
      if |pairs[0]| > 2 {
        assert DelaysOf(pairs)[1..] == rest;
      } else {
        assert DelaysOf(pairs) == rest;
      }
    }
  }

  lemma {:induction false} InsertCount(d: int, ds: seq<int>, bounds: seq<real>, j: nat)
    requires j < |bounds|
    ensures CountIn(Insert(d, ds, Identity), bounds, j)
         == CountIn(ds, bounds, j) + if InBucket(d, bounds, j) then 1 else 0
  {
    hide InBucket;
    var r := Insert(d, ds, Identity);
    if ds == [] || d <= ds[0] {
      assert r[1..] == ds;
    } else {
      assert r[1..] == Insert(d, ds[1..], Identity);
      InsertCount(d, ds[1..], bounds, j);
    }
  }

  lemma {:induction false} SortCount(ds: seq<int>, bounds: seq<real>, j: nat)
    requires j < |bounds|
    ensures CountIn(Sort(ds, Identity), bounds, j) == CountIn(ds, bounds, j)
  {
    if ds != [] {
      SortCount(ds[1..], bounds, j);
      InsertCount(ds[0], Sort(ds[1..], Identity), bounds, j);
    }
  }

  lemma {:induction false} DropCount(ds: seq<int>, bounds: seq<real>, j: nat)
    requires j < |bounds|
    ensures CountIn(DropUntilPositive(ds), bounds, j) == CountIn(ds, bounds, j)
  {
    if ds != [] && ds[0] <= 0 {
      DropCount(ds[1..], bounds, j);
    }
  }

  lemma {:induction false} CountAppend(ds: seq<int>, d: int, bounds: seq<real>, j: nat)
    requires j < |bounds|
    ensures CountIn(ds + [d], bounds, j) == CountIn(ds, bounds, j) + if InBucket(d, bounds, j) then 1 else 0
  {
    hide InBucket;
    if ds == [] {
      assert ds + [d] == [d];
    } else {
      assert (ds + [d])[1..] == ds[1..] + [d];
      CountAppend(ds[1..], d, bounds, j);
    }
  }

  lemma SlotIsBucket(d: int, bounds: seq<real>, j: nat)
    requires Rising(bounds) && j < |bounds| && d > 0 && d as real <= bounds[|bounds| - 1]
    ensures SlotFrom(bounds, 0, d) == j <==> InBucket(d, bounds, j)
  {
    var k := SlotFrom(bounds, 0, d);
    hide SlotFrom;
    if k < j {
      assert bounds[k] <= bounds[j - 1];
    }
  }

  lemma {:induction false} SlotCount(ds: seq<int>, bounds: seq<real>, j: nat)
    requires Rising(bounds) && j < |bounds|
    requires forall i | 0 <= i < |ds| :: ds[i] > 0 && ds[i] as real <= bounds[|bounds| - 1]
    ensures |InSlot(ds, bounds, j)| == CountIn(ds, bounds, j)
  {
    if ds != [] {
      hide InBucket, SlotFrom, Rising;
      var before, last := ds[..|ds| - 1], ds[|ds| - 1];
      SlotCount(before, bounds, j);
      SlotIsBucket(last, bounds, j);
      CountAppend(before, last, bounds, j);
      assert ds == before + [last];
    }
  }

  /** Each bucket holds one delay for each answered pair with a delay between its bounds. */
  lemma BucketSizes(pairs: seq<Pair>, pow: real -> real, buckets: seq<seq<int>>, j: nat)
    requires PowerOfTen(pow) && Kept(pairs) != [] && j < |buckets|
    requires Sorts(buckets, Kept(pairs), BoundsFor(pow, Kept(pairs)))
    ensures |buckets[j]| == PairsIn(pairs, BoundsFor(pow, Kept(pairs)), j)
  {
    hide PowerOfTen, BoundsFor, InSlot, Rising, Sorted, DelaysOf, Sort, DropUntilPositive, CountIn, PairsIn;
    var bounds, ds := BoundsFor(pow, Kept(pairs)), Kept(pairs);
    KeptPositives(pairs);
    BoundsRise(pow, ds);
    forall i | 0 <= i < |ds|
      ensures ds[i] as real <= bounds[|bounds| - 1]
    {
      assert ds[i] in ds;
    }
    SlotCount(ds, bounds, j);
    DropCount(Sort(DelaysOf(pairs), Identity), bounds, j);
    SortCount(DelaysOf(pairs), bounds, j);
    PairsAreDelays(pairs, bounds, j);
    assert buckets[j] == InSlot(ds, bounds, j);
  }

  /** When all delays are positive, none is dropped. */
  lemma KeptAll(pairs: seq<Pair>)
    requires forall i | 0 <= i < |DelaysOf(pairs)| :: DelaysOf(pairs)[i] > 0
    ensures multiset(Kept(pairs)) == multiset(DelaysOf(pairs))
  {
    hide DelaysOf, Sort;
    var ds := DelaysOf(pairs);
    SortIsStable(ds, Identity, 0);
    var sorted := Sort(ds, Identity);
    if sorted != [] {
      assert sorted[0] in multiset(sorted);
    }
  }

  /** The buckets hold as many delays as are positive, each between the bounds of its bucket, and the points that
      are drawn are within 0 to 100. */
  lemma Histogram(pairs: seq<Pair>, pow: real -> real, buckets: seq<seq<int>>, lo: nat, hi: nat)
    requires PowerOfTen(pow) && Kept(pairs) != []
    requires Sorts(buckets, Kept(pairs), BoundsFor(pow, Kept(pairs))) && Trims(buckets, lo, hi)
    ensures Sizes(buckets) == Positives(DelaysOf(pairs)) && hi <= |BoundsFor(pow, Kept(pairs))|
    ensures var bounds := BoundsFor(pow, Kept(pairs));
            var data := Normalised(Points(buckets[lo..hi], bounds[lo..hi]));
            && (forall j, d | 0 <= j < |buckets| && d in buckets[j] ::
                  d as real <= bounds[j] && (j > 0 ==> bounds[j - 1] < d as real))
            && |data| == hi - lo && forall i | 0 <= i < |data| :: 0.0 <= data[i].y <= 100.0
  {
    hide Points, Normalised, Sorted, Rising, PowerOfTen, BoundsFor, InSlot, DelaysOf, Positives, Sizes;
    var bounds := BoundsFor(pow, Kept(pairs));
    KeptPositives(pairs);
    BoundsRise(pow, Kept(pairs));
    SlotsPartition(Kept(pairs), bounds, buckets);
    forall j, d | 0 <= j < |buckets| && d in buckets[j]
      ensures d as real <= bounds[j] && (j > 0 ==> bounds[j - 1] < d as real)
    {
      SlotWithin(Kept(pairs), bounds, j);
      assert buckets[j] == InSlot(Kept(pairs), bounds, j);
    }
    PointCount(buckets[lo..hi], bounds[lo..hi]);
    PointsNonNegative(buckets[lo..hi], bounds[lo..hi]);
    NormalisedWithin(Points(buckets[lo..hi], bounds[lo..hi]));
  }
}
