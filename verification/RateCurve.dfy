/** The curve of rates: `make_rate` of the report generator. */
module RateCurve {
  import opened Arithmetic
  import opened Bytes
  import opened InFlight

  const POINTS: nat := 25
  const NANOSECONDS: real := 1000000000.0

  predicate Ascending(ts: seq<int>) {
    forall i, j | 0 <= i <= j < |ts| :: ts[i] <= ts[j]
  }

  function Count(ts: seq<int>, t: int): nat {
    if ts == [] then 0 else Count(ts[1..], t) + if ts[0] == t then 1 else 0
  }

  /** The rate of n messages over the window from `left` to `right`, drawn at the middle of the window. */
  function RatePoint(left: int, right: int, n: nat, start: int): Point
    requires left < right
  {
    Point((right + left - 2 * start) as real / MILLISECOND / 2.0, NANOSECONDS * n as real / (right - left) as real)
  }

  datatype Curve = Curve(data: seq<Point>, previous: int, count: nat)

  /** The loops of `make_rate`: a sample later than `previous` closes a window of `count` samples. */
  function Rates(samples: seq<int>, previous: int, count: nat, weight: nat, start: int): Curve {
    if samples == [] then Curve([], previous, count)
    else if samples[0] <= previous then Rates(samples[1..], previous, count + 1, weight, start)
    else
      var rest := Rates(samples[1..], samples[0], 1, weight, start);
      Curve([RatePoint(previous, samples[0], weight * count, start)] + rest.data, rest.previous, rest.count)
  }

  /** Every `step`-th timestamp, from number `step` on. */
  function Strided(ts: seq<int>, step: nat): (r: seq<int>)
    requires step > 0
  {
    if |ts| < step then [] else [ts[step - 1]] + Strided(ts[step..], step)
  }

  // What a reader of the curve sees: windows that follow on each other, and the messages under the curve

  /** The right edge of the window that starts at `left` and has its middle at p. */
  function Edge(p: Point, left: real, start: int): real {
    2.0 * (p.x * 1000000.0 + start as real) - left
  }

  function PointArea(p: Point, left: real, start: int): real {
    p.y * ((Edge(p, left, start) - left) / 1000000000.0)
  }

  function Area(data: seq<Point>, left: real, start: int): real {
    if data == [] then 0.0
    else
      var right := Edge(data[0], left, start);
      PointArea(data[0], left, start) + Area(data[1..], right, start)
  }

  function LastEdge(data: seq<Point>, left: real, start: int): real {
    if data == [] then left else LastEdge(data[1..], Edge(data[0], left, start), start)
  }

  predicate WindowsAscend(data: seq<Point>, left: real, start: int) {
    data == [] || (left < Edge(data[0], left, start)
                   && WindowsAscend(data[1..], Edge(data[0], left, start), start))
  }

  lemma WindowOf(left: int, right: int, n: nat, start: int)
    requires left < right
    ensures var p := RatePoint(left, right, n, start);
            Edge(p, left as real, start) == right as real
            && PointArea(p, left as real, start) == n as real
  {
    var width := (right - left) as real;
    Cancel(NANOSECONDS * n as real, width);
    assert right as real - left as real == width;
  }

  lemma Cancel(a: real, b: real)
    requires b != 0.0
    ensures a / b * b == a
  {
  }

  lemma AreaFirst(p: Point, rest: seq<Point>, left: int, right: int, n: nat, start: int)
    requires left < right && p == RatePoint(left, right, n, start)
    ensures Area([p] + rest, left as real, start) == n as real + Area(rest, right as real, start)
    ensures LastEdge([p] + rest, left as real, start) == LastEdge(rest, right as real, start)
    ensures WindowsAscend([p] + rest, left as real, start) <==> WindowsAscend(rest, right as real, start)
  {
    WindowOf(left, right, n, start);
    hide RatePoint, Edge;
    assert ([p] + rest)[1..] == rest;
  }

  /** The windows follow on each other up to the last sample that closed one, and hold every sample but those
      after it. */
  lemma {:induction false} RatesArea(samples: seq<int>, previous: int, count: nat, weight: nat, start: int)
    ensures var c := Rates(samples, previous, count, weight, start);
            && c.count <= count + |samples|
            && Area(c.data, previous as real, start) == (weight * (count + |samples| - c.count)) as real
            && LastEdge(c.data, previous as real, start) == c.previous as real
            && WindowsAscend(c.data, previous as real, start)
  {
    if samples == [] {
    } else if samples[0] <= previous {
      RatesArea(samples[1..], previous, count + 1, weight, start);
    } else {
      var rest := Rates(samples[1..], samples[0], 1, weight, start);
      RatesArea(samples[1..], samples[0], 1, weight, start);
      var p := RatePoint(previous, samples[0], weight * count, start);
      AreaFirst(p, rest.data, previous, samples[0], weight * count, start);
      assert weight * count + weight * (1 + |samples| - 1 - rest.count) == weight * (count + |samples| - rest.count);
    }
  }

  /** For samples in order, what is left over are the samples equal to the last one. */
  lemma {:induction false} RatesEnd(samples: seq<int>, previous: int, count: nat, weight: nat, start: int)
    requires Ascending([previous] + samples)
    ensures var c, all := Rates(samples, previous, count, weight, start), [previous] + samples;
            && c.previous == all[|samples|]
            && c.count == Count(samples, c.previous) + if previous == c.previous then count else 0
  {
    var all := [previous] + samples;
    if samples != [] {
      assert all[0] == previous && all[1] == samples[0] && all[|samples|] == samples[|samples| - 1];
      assert all[1..] == samples && samples == [samples[0]] + samples[1..];
      if samples[0] <= previous {
        assert samples[0] == previous;
        RatesEnd(samples[1..], previous, count + 1, weight, start);
      } else {
        RatesEnd(samples[1..], samples[0], 1, weight, start);
        assert all[1] <= all[|samples|];
      }
    }
  }

  lemma {:induction false} StridedSize(ts: seq<int>, step: nat)
    requires step > 0
    ensures |Strided(ts, step)| == |ts| / step && |ts| == |Strided(ts, step)| * step + |ts| % step
  {
    if |ts| < step {
      ModOf(|ts|, step, 0, |ts|);
    } else {
      var rest := ts[step..];
      StridedSize(rest, step);
      assert |ts| == (|rest| / step + 1) * step + |rest| % step;
      ModOf(|ts|, step, |rest| / step + 1, |rest| % step);
    }
  }

  lemma OneStepMore(k: nat, step: nat)
    ensures (k + 1) * step == k * step + step
  {
  }

  /** Sample i is timestamp number (i + 1) * step, counted from 1. */
  lemma {:induction false} StridedAt(ts: seq<int>, step: nat, i: nat)
    requires step > 0 && i < |Strided(ts, step)|
    ensures 0 <= (i + 1) * step - 1 < |ts| && Strided(ts, step)[i] == ts[(i + 1) * step - 1]
  {
    OneStepMore(i, step);
    if i > 0 {
      StridedAt(ts[step..], step, i - 1);
    }
  }

  lemma {:induction false} StridedAscends(ts: seq<int>, step: nat, first: int)
    requires step > 0 && Ascending(ts) && forall i | 0 <= i < |ts| :: first <= ts[i]
    ensures Ascending([first] + Strided(ts, step))
  {
    if |ts| >= step {
      var rest, next := ts[step..], Strided(ts[step..], step);
      assert Ascending(rest);
      StridedAscends(rest, step, ts[step - 1]);
      var tail := [ts[step - 1]] + next;
      assert forall i | 0 <= i < |tail| :: first <= tail[0] <= tail[i];
      assert [first] + Strided(ts, step) == [first] + tail;
    }
  }

  /** The step between the samples; the whole curve; and its end in the case with a step. */
  function Step(n: nat, fit: bool): nat {
    n / if fit then POINTS else FIT_POINTS
  }

  function Sampled(ts: seq<int>, step: nat): seq<int>
    requires ts != []
  {
    if step <= 1 then ts[1..] else Strided(ts, step)
  }

  function RateData(ts: seq<int>, start: int, step: nat): seq<Point>
    requires ts != []
  {
    var c := Rates(Sampled(ts, step), ts[0], 1, if step <= 1 then 1 else step, start);
    c.data + if step > 1 && |ts| > |Sampled(ts, step)| * step && ts[|ts| - 1] > c.previous
             then [RatePoint(c.previous, ts[|ts| - 1], |ts| - |Sampled(ts, step)| * step, start)] else []
  }

  method RateLoop(samples: seq<int>, first: int, weight: nat, start: int)
    returns (data: seq<Point>, previous: int, count: nat)
    ensures Curve(data, previous, count) == Rates(samples, first, 1, weight, start)
  {
    data, previous, count := [], first, 1;
    var i := 0;
    assert samples[0..] == samples;
    while i < |samples|
      invariant i <= |samples|
      invariant var c, rest := Rates(samples, first, 1, weight, start),
                               Rates(samples[i..], previous, count, weight, start);
                data + rest.data == c.data && rest.previous == c.previous && rest.count == c.count
    {
      assert samples[i..][1..] == samples[i + 1..];
      if samples[i] <= previous {
        count := count + 1;
      } else {
        data := data + [RatePoint(previous, samples[i], weight * count, start)];
        previous, count := samples[i], 1;
      }
      i := i + 1;
    }
  }

  /** The points of the rate curve; None for no timestamps, which ends the program. */
  method MakeRate(timestamps: seq<int>, start: int, fit: bool) returns (r: Option<seq<Point>>)
    ensures r == if timestamps == [] then None
                 else Some(RateData(timestamps, start, Step(|timestamps|, fit)))
  {
    hide Rates;
    if timestamps == [] {
      return None;
    }
    var step := |timestamps| / if fit then POINTS else FIT_POINTS;
    if step <= 1 {
      var data, previous, count := RateLoop(timestamps[1..], timestamps[0], 1, start);
      assert Curve(data, previous, count).data + [] == data;
      r := Some(data);
    } else {
      var samples := Strided(timestamps, step);
      var data, previous, steps := RateLoop(samples, timestamps[0], step, start);
      assert Curve(data, previous, steps).data == data;
      var last := timestamps[|timestamps| - 1];
      if |timestamps| > |samples| * step && last > previous {
        data := data + [RatePoint(previous, last, |timestamps| - |samples| * step, start)];
      } else {
        assert data + [] == data;
      }
      r := Some(data);
    }
  }

  lemma {:induction false} AreaAppend(data: seq<Point>, p: Point, left: real, start: int)
    ensures var right := LastEdge(data, left, start);
            Area(data + [p], left, start) == Area(data, left, start) + PointArea(p, right, start)
  {
    hide Edge, PointArea;
    if data == [] {
      assert data + [p] == [p] && [p][1..] == [];
    } else {
      assert (data + [p])[1..] == data[1..] + [p];
      AreaAppend(data[1..], p, Edge(data[0], left, start), start);
    }
  }

  /** The samples of a curve with the first timestamp before them; what is left over is how many are equal to the
      last of them. */
  function Line(ts: seq<int>, step: nat): seq<int>
    requires ts != []
  {
    [ts[0]] + Sampled(ts, step)
  }

  function LastSample(ts: seq<int>, step: nat): int
    requires ts != []
  {
    var line := Line(ts, step);
    line[|line| - 1]
  }

  function LeftOver(ts: seq<int>, step: nat): nat
    requires ts != []
  {
    Count(Line(ts, step), LastSample(ts, step))
  }

  /** The messages under the curve. Without a step: all but those at the last time. With a step: the whole steps
      but those left over, and the messages after the last step if time goes on after it. */
  function Counted(ts: seq<int>, step: nat): int
    requires ts != []
  {
    if step <= 1 then |ts| - LeftOver(ts, step)
    else
      var samples := |Sampled(ts, step)|;
      step * (samples + 1 - LeftOver(ts, step))
      + if ts[|ts| - 1] > LastSample(ts, step) then |ts| - samples * step else 0
  }

  /** For timestamps in order, the windows of the curve follow on each other and hold exactly these messages. */
  lemma RateArea(ts: seq<int>, start: int, step: nat)
    requires ts != [] && Ascending(ts)
    ensures Area(RateData(ts, start, step), ts[0] as real, start) == Counted(ts, step) as real
    ensures WindowsAscend(RateData(ts, start, step), ts[0] as real, start)
  {
    hide Rates, Ascending, Area, LastEdge, RatePoint, Edge, Count, Strided, WindowsAscend;
    var samples, weight := Sampled(ts, step), if step <= 1 then 1 else step;
    var c := Rates(samples, ts[0], 1, weight, start);
    SampledAscends(ts, step);
    RatesArea(samples, ts[0], 1, weight, start);
    RatesEnd(samples, ts[0], 1, weight, start);
    CountFirst(ts[0], samples, c.previous);
    assert c.data + [] == c.data;
    if step > 1 {
      StridedSize(ts, step);
      var rest, last := |ts| - |samples| * step, ts[|ts| - 1];
      RestOfSteps(ts, step);
      if rest > 0 && last > c.previous {
        AreaAppend(c.data, RatePoint(c.previous, last, rest, start), ts[0] as real, start);
        WindowOf(c.previous, last, rest, start);
        AscendAppend(c.data, RatePoint(c.previous, last, rest, start), ts[0] as real, start);
      }
    }
  }

  lemma CountFirst(first: int, samples: seq<int>, t: int)
    ensures Count([first] + samples, t) == Count(samples, t) + if first == t then 1 else 0
  {
    assert ([first] + samples)[1..] == samples;
  }

  lemma RestOfSteps(ts: seq<int>, step: nat)
    requires ts != [] && step > 1
    ensures |ts| - |Sampled(ts, step)| * step == |ts| % step
  {
    StridedSize(ts, step);
  }

  lemma {:induction false} AscendAppend(data: seq<Point>, p: Point, left: real, start: int)
    requires WindowsAscend(data, left, start)
    requires LastEdge(data, left, start) < Edge(p, LastEdge(data, left, start), start)
    ensures WindowsAscend(data + [p], left, start)
  {
    hide Edge;
    if data == [] {
      assert data + [p] == [p] && [p][1..] == [];
    } else {
      assert (data + [p])[1..] == data[1..] + [p];
      AscendAppend(data[1..], p, Edge(data[0], left, start), start);
    }
  }

  lemma SampledAscends(ts: seq<int>, step: nat)
    requires ts != [] && Ascending(ts)
    ensures Ascending(Line(ts, step))
  {
    if step > 1 {
      StridedAscends(ts, step, ts[0]);
    } else {
      assert Line(ts, step) == ts;
    }
  }

  /** The area is the number of messages exactly when there is a step, the last sample is later than the one
      before it, and the messages after it, if any, end later still. */
  lemma AreaIsExact(ts: seq<int>, start: int, step: nat)
    requires ts != [] && Ascending(ts)
    ensures Area(RateData(ts, start, step), ts[0] as real, start) == |ts| as real
        <==> step > 1 && LeftOver(ts, step) == 1
             && (|ts| % step == 0 || ts[|ts| - 1] > LastSample(ts, step))
  {
    hide Ascending, RateData, Area, LastSample, Strided, Count;
    RateArea(ts, start, step);
    LeftOverAtLeastOne(ts, step);
    if step > 1 {
      RestOfSteps(ts, step);
      StepsLost(|Sampled(ts, step)|, LeftOver(ts, step), step);
    }
  }

  lemma LeftOverAtLeastOne(ts: seq<int>, step: nat)
    requires ts != []
    ensures LeftOver(ts, step) >= 1
  {
    LastCounts(Line(ts, step));
  }

  lemma StepsLost(samples: nat, k: nat, step: nat)
    requires k >= 1
    ensures k == 1 ==> step * (samples + 1 - k) == samples * step
    ensures k > 1 ==> step * (samples + 1 - k) <= samples * step - step
  {
    assert step * (samples + 1 - k) == samples * step - step * (k - 1);
    assert k > 1 ==> step * (k - 1) >= step;
  }

  lemma {:induction false} LastCounts(line: seq<int>)
    requires line != []
    ensures Count(line, line[|line| - 1]) >= 1
  {
    if |line| > 1 {
      LastCounts(line[1..]);
    }
  }

  // What each single window says

  /** Each window ends at the next sample later than its left edge, and holds the samples at that edge. */
  ghost predicate WindowsHold(data: seq<Point>, left: int, line: seq<int>, weight: nat, start: int) {
    data == [] ||
    exists right: int ::
      && IsNext(line, left, right) && Edge(data[0], left as real, start) == right as real
      && PointArea(data[0], left as real, start) == (weight * Count(line, left)) as real
      && WindowsHold(data[1..], right, line, weight, start)
  }

  /** No sample is between these two. */
  predicate IsNext(line: seq<int>, left: int, right: int) {
    left < right && right in line && forall t | t in line :: t <= left || right <= t
  }

  /** So does the loop count from any point of the samples on. */
  lemma {:induction false} WindowsCount(line: seq<int>, n: nat, previous: int, count: nat, weight: nat, start: int)
    requires Ascending(line) && 0 < n <= |line| && line[n - 1] == previous
    requires count + Count(line[n..], previous) == Count(line, previous)
    ensures WindowsHold(Rates(line[n..], previous, count, weight, start).data, previous, line, weight, start)
    decreases |line| - n
  {
    var samples := line[n..];
    if samples != [] {
      hide Edge, PointArea, RatePoint;
      assert samples[0] == line[n] && samples[1..] == line[n + 1..];
      if line[n] <= previous {
        WindowsCount(line, n + 1, previous, count + 1, weight, start);
      } else {
        NoneLeft(line, n, previous);
        AllAhead(line, n);
        WindowsCount(line, n + 1, line[n], 1, weight, start);
        WindowOf(previous, line[n], weight * count, start);
        NextSample(line, n);
        var rest := Rates(samples[1..], line[n], 1, weight, start);
        var data := Rates(samples, previous, count, weight, start).data;
        WindowFirst(data, rest.data, previous, line[n], line, weight, start, count);
      }
    }
  }

  lemma WindowFirst(data: seq<Point>, rest: seq<Point>, left: int, right: int, line: seq<int>, weight: nat, start: int,
                    count: nat)
    requires left < right && data == [RatePoint(left, right, weight * count, start)] + rest
    requires count == Count(line, left) && IsNext(line, left, right)
    requires WindowsHold(rest, right, line, weight, start)
    ensures WindowsHold(data, left, line, weight, start)
  {
    hide Count, IsNext;
    WindowOf(left, right, weight * count, start);
    assert data[1..] == rest;
  }

  lemma {:induction false} NoCount(line: seq<int>, t: int)
    requires t !in line
    ensures Count(line, t) == 0
  {
    if line != [] {
      NoCount(line[1..], t);
    }
  }

  lemma {:induction false} CountHalves(line: seq<int>, n: nat, t: int)
    requires n <= |line|
    ensures Count(line, t) == Count(line[..n], t) + Count(line[n..], t)
  {
    if n > 0 {
      CountHalves(line[1..], n - 1, t);
      assert line[1..][..n - 1] == line[..n][1..] && line[1..][n - 1..] == line[n..];
    }
  }

  lemma NoneLeft(line: seq<int>, n: nat, previous: int)
    requires Ascending(line) && 0 < n < |line| && line[n - 1] == previous < line[n]
    ensures Count(line[n..], previous) == 0
  {
    forall t | t in line[n..]
      ensures t > previous
    {
      var i :| n <= i < |line| && line[i] == t;
      assert line[n] <= line[i];
    }
    NoCount(line[n..], previous);
  }

  lemma AllAhead(line: seq<int>, n: nat)
    requires Ascending(line) && 0 < n < |line| && line[n - 1] < line[n]
    ensures 1 + Count(line[n + 1..], line[n]) == Count(line, line[n])
  {
    CountHalves(line, n, line[n]);
    forall t | t in line[..n]
      ensures t < line[n]
    {
      var i :| 0 <= i < n && line[i] == t;
      assert line[i] <= line[n - 1];
    }
    NoCount(line[..n], line[n]);
    assert line[n..][1..] == line[n + 1..];
  }

  lemma NextSample(line: seq<int>, n: nat)
    requires Ascending(line) && 0 < n < |line| && line[n - 1] < line[n]
    ensures IsNext(line, line[n - 1], line[n])
  {
    forall t | t in line
      ensures t <= line[n - 1] || line[n] <= t
    {
      var i :| 0 <= i < |line| && line[i] == t;
      assert i <= n - 1 || n <= i;
    }
  }

  /** Of timestamps in order, each window of the curve counts the samples at its left edge, and no sample lies
      between its edges; one window more may stand for the messages behind the last sample. */
  lemma RateWindows(ts: seq<int>, start: int, step: nat)
    requires ts != [] && Ascending(ts)
    ensures var data, weight := RateData(ts, start, step), if step <= 1 then 1 else step;
            || WindowsHold(data, ts[0], Line(ts, step), weight, start)
            || (data != [] && WindowsHold(data[..|data| - 1], ts[0], Line(ts, step), weight, start)
                && step > 1 && |ts| % step != 0)
  {
    hide Rates, Ascending, WindowsHold, Count, RatePoint, Strided;
    var weight, line := if step <= 1 then 1 else step, Line(ts, step);
    var c := Rates(Sampled(ts, step), ts[0], 1, weight, start);
    SampledAscends(ts, step);
    assert line[1..] == Sampled(ts, step) && line[0] == ts[0];
    CountFirst(ts[0], Sampled(ts, step), ts[0]);
    WindowsCount(line, 1, ts[0], 1, weight, start);
    var data := RateData(ts, start, step);
    if data != c.data {
      RestOfSteps(ts, step);
      assert data[..|data| - 1] == c.data;
    }
  }

  /** A curve with a step has at least 25 samples beside a fit and at least 500 otherwise, and at most half as many
      more; a curve without one takes every timestamp. */
  lemma SampleCount(ts: seq<int>, fit: bool)
    requires ts != []
    ensures var n, step, points := |Sampled(ts, Step(|ts|, fit))|, Step(|ts|, fit), if fit then 25 else 500;
            && (step > 1 <==> |ts| >= 2 * points)
            && (step <= 1 ==> n == |ts| - 1)
            && (step > 1 ==> points <= n <= points + points / 2)
  {
    var step := Step(|ts|, fit);
    if step > 1 {
      StridedSize(ts, step);
      Quotients(|ts|, if fit then 25 else 500);
    }
  }

  lemma Quotients(n: nat, points: nat)
    requires points > 0 && n / points > 1
    ensures points <= n / (n / points) && 2 * (n / (n / points)) <= 3 * points
  {
    var q := n / points;
    assert n == q * points + n % points;
    var k := n / q;
    assert n == k * q + n % q;
    AtLeast(k, q, points, n % points, n % q);
    AtMost(k, q, points, n % points, n % q);
  }

  lemma AtLeast(k: nat, q: nat, points: nat, r: nat, rest: nat)
    requires q * points + r == k * q + rest && rest < q
    ensures points <= k
  {
    Multiples(points - k, q);
    assert (points - k) * q == q * points - k * q;
  }

  lemma AtMost(k: nat, q: nat, points: nat, r: nat, rest: nat)
    requires q * points + r == k * q + rest && r < points && q > 1
    ensures 2 * k <= 3 * points
  {
    Multiples(2 * k - 3 * points, q);
    Multiples(q - 2, points);
    assert (2 * k - 3 * points) * q == 2 * (k * q) - 3 * (q * points);
    assert (q - 2) * points == q * points - 2 * points;
  }

  // Timestamps that never repeat

  predicate Strict(ts: seq<int>) {
    forall i, j | 0 <= i < j < |ts| :: ts[i] < ts[j]
  }

  lemma {:induction false} StridedStrict(ts: seq<int>, step: nat, first: int)
    requires step > 0 && Strict(ts) && forall i | step - 1 <= i < |ts| :: first < ts[i]
    ensures Strict([first] + Strided(ts, step))
  {
    if |ts| >= step {
      var rest, next := ts[step..], Strided(ts[step..], step);
      StridedStrict(rest, step, ts[step - 1]);
      var tail := [ts[step - 1]] + next;
      assert forall i | 0 <= i < |tail| :: first < tail[0] <= tail[i];
      assert [first] + Strided(ts, step) == [first] + tail;
    }
  }

  /** The last sample is the last timestamp or, when some are left over by the steps, before it. */
  lemma {:induction false} StridedEnds(ts: seq<int>, step: nat)
    requires step > 0 && Strict(ts) && |ts| >= step
    ensures var samples := Strided(ts, step);
            samples != [] && (|ts| != |samples| * step ==> samples[|samples| - 1] < ts[|ts| - 1])
  {
    var rest := ts[step..];
    var more := Strided(rest, step);
    assert Strided(ts, step) == [ts[step - 1]] + more;
    OneStepMore(|more|, step);
    if |rest| >= step {
      StridedEnds(rest, step);
    } else {
      assert more == [] && |more| * step == 0;
    }
  }

  lemma {:induction false} StrictCount(line: seq<int>)
    requires line != [] && Strict(line)
    ensures Count(line, line[|line| - 1]) == 1
  {
    if |line| > 1 {
      StrictCount(line[1..]);
    }
  }

  /** The area of timestamps that never repeat: all of them with a step, and all but one without. */
  lemma StrictArea(ts: seq<int>, start: int, step: nat)
    requires ts != [] && Strict(ts) && step <= |ts|
    ensures Area(RateData(ts, start, step), ts[0] as real, start)
         == (if step > 1 then |ts| else |ts| - 1) as real
  {
    hide RateData, Area, Strided, Count;
    RateArea(ts, start, step);
    if step > 1 {
      StridedStrict(ts, step, ts[0]);
      StridedEnds(ts, step);
      StrictCount(Line(ts, step));
      RestOfSteps(ts, step);
    } else {
      assert Line(ts, step) == ts;
      StrictCount(ts);
    }
  }
}
