/** The curve of queries in flight: `make_queue` of the report generator. */
module InFlight {
  import opened Arithmetic
  import opened Bytes
  import opened StableSort

  const FIT_POINTS: nat := 500
  const MILLISECOND: real := 1000000.0

  /** [], [sent], or [sent, received, delay]. */
  type Pair = seq<int>

  datatype Mark = Mark(time: int, increment: int)

  datatype Point = Point(x: real, y: real)

  function Time(m: Mark): int {
    m.time
  }

  /** What a pair adds to the counter: one query more, and one less when it was answered. */
  function MarksOf(p: Pair): seq<Mark> {
    if |p| == 0 then [] else if |p| == 1 then [Mark(p[0], 1)] else [Mark(p[0], 1), Mark(p[1], -1)]
  }

  function Marks(pairs: seq<Pair>): seq<Mark> {
    if pairs == [] then [] else MarksOf(pairs[0]) + Marks(pairs[1..])
  }

  function Totals(ms: seq<Mark>, from: int): (r: seq<int>)
    ensures |r| == |ms|
  {
    if ms == [] then [] else [from + ms[0].increment] + Totals(ms[1..], from + ms[0].increment)
  }

  function Sum(xs: seq<int>): int {
    if xs == [] then 0 else xs[0] + Sum(xs[1..])
  }

  function Increments(ms: seq<Mark>): int {
    if ms == [] then 0 else ms[0].increment + Increments(ms[1..])
  }

  predicate NonNegative(xs: seq<int>) {
    forall i | 0 <= i < |xs| :: xs[i] >= 0
  }

  // Why the stable order keeps the curve from going below zero

  lemma TotalsTail(ms: seq<Mark>, from: int)
    requires ms != []
    ensures var first := from + ms[0].increment;
            NonNegative(Totals(ms, from)) <==> first >= 0 && NonNegative(Totals(ms[1..], first))
  {
    var first := from + ms[0].increment;
    var totals, rest := Totals(ms, from), Totals(ms[1..], first);
    assert totals == [first] + rest;
    if NonNegative(totals) {
      assert totals[0] == first;
      assert forall i | 0 <= i < |rest| :: rest[i] == totals[i + 1];
    }
  }

  lemma {:induction false} TotalsFromMore(ms: seq<Mark>, from: int)
    requires NonNegative(Totals(ms, from))
    ensures NonNegative(Totals(ms, from + 1))
  {
    if ms != [] {
      TotalsTail(ms, from);
      TotalsTail(ms, from + 1);
      TotalsFromMore(ms[1..], from + ms[0].increment);
    }
  }

  /** One less later on is no harm to a curve that runs one higher. */
  lemma {:induction false} InsertEnd(ms: seq<Mark>, from: int, received: int)
    requires NonNegative(Totals(ms, from)) && from >= 0
    ensures NonNegative(Totals(Insert(Mark(received, -1), ms, Time), from + 1))
  {
    var r := Insert(Mark(received, -1), ms, Time);
    if ms == [] || received <= ms[0].time {
      assert r[1..] == ms;
      TotalsTail(r, from + 1);
    } else {
      TotalsTail(ms, from);
      TotalsTail(r, from + 1);
      InsertEnd(ms[1..], from + ms[0].increment, received);
      assert r[0] == ms[0] && r[1..] == Insert(Mark(received, -1), ms[1..], Time);
    }
  }

  /** A query comes before its own answer, even at the same time, because it was put into the list before it. */
  lemma {:induction false} InsertBoth(ms: seq<Mark>, from: int, sent: int, received: int)
    requires NonNegative(Totals(ms, from)) && from >= 0 && sent <= received
    ensures NonNegative(Totals(Insert(Mark(sent, 1), Insert(Mark(received, -1), ms, Time), Time), from))
  {
    var s := Insert(Mark(received, -1), ms, Time);
    var r := Insert(Mark(sent, 1), s, Time);
    if ms == [] || sent <= ms[0].time {
      assert r == [Mark(sent, 1)] + s && r[1..] == s;
      InsertEnd(ms, from, received);
      TotalsTail(r, from);
    } else {
      TotalsTail(r, from);
      assert s[0] == ms[0] && s[1..] == Insert(Mark(received, -1), ms[1..], Time);
      assert r[0] == ms[0] && r[1..] == Insert(Mark(sent, 1), s[1..], Time);
      TotalsTail(ms, from);
      InsertBoth(ms[1..], from + ms[0].increment, sent, received);
    }
  }

  lemma {:induction false} InsertStart(ms: seq<Mark>, from: int, sent: int)
    requires NonNegative(Totals(ms, from)) && from >= 0
    ensures NonNegative(Totals(Insert(Mark(sent, 1), ms, Time), from))
  {
    var r := Insert(Mark(sent, 1), ms, Time);
    if ms == [] || sent <= ms[0].time {
      assert r[1..] == ms;
      TotalsFromMore(ms, from);
      TotalsTail(r, from);
    } else {
      TotalsTail(r, from);
      assert r[0] == ms[0] && r[1..] == Insert(Mark(sent, 1), ms[1..], Time);
      TotalsTail(ms, from);
      InsertStart(ms[1..], from + ms[0].increment, sent);
    }
  }

  /** The first pair of the list, before those of the others. */
  lemma FirstMarks(pairs: seq<Pair>)
    requires pairs != []
    ensures var p, ms, rest := pairs[0], Marks(pairs), Marks(pairs[1..]);
            && (|p| == 0 ==> ms == rest)
            && (|p| == 1 ==> ms != [] && ms[0] == Mark(p[0], 1) && ms[1..] == rest)
            && (|p| >= 2 ==> |ms| >= 2 && ms[0] == Mark(p[0], 1) && ms[1] == Mark(p[1], -1) && ms[1..][1..] == rest)
  {
  }

  predicate AnsweredLater(pairs: seq<Pair>) {
    forall p | p in pairs && |p| >= 2 :: p[0] <= p[1]
  }

  /** With every answer no earlier than its query, the number of queries in flight is never negative. */
  lemma {:induction false} NeverNegative(pairs: seq<Pair>)
    requires AnsweredLater(pairs)
    ensures NonNegative(Totals(Sort(Marks(pairs), Time), 0))
  {
    if pairs != [] {
      var p, rest := pairs[0], Marks(pairs[1..]);
      assert p in pairs;
      FirstMarks(pairs);
      hide Marks, Insert, Totals;
      NeverNegative(pairs[1..]);
      if |p| == 1 {
        InsertStart(Sort(rest, Time), 0, p[0]);
      } else if |p| > 1 {
        InsertBoth(Sort(rest, Time), 0, p[0], p[1]);
      }
    }
  }

  function Unanswered(pairs: seq<Pair>): nat {
    if pairs == [] then 0 else Unanswered(pairs[1..]) + if |pairs[0]| == 1 then 1 else 0
  }

  lemma {:induction false} InsertIncrements(m: Mark, ms: seq<Mark>)
    ensures Increments(Insert(m, ms, Time)) == m.increment + Increments(ms)
  {
    var r := Insert(m, ms, Time);
    if ms == [] || m.time <= ms[0].time {
      assert r[1..] == ms;
    } else {
      assert r[1..] == Insert(m, ms[1..], Time);
      InsertIncrements(m, ms[1..]);
    }
  }

  lemma {:induction false} SortIncrements(ms: seq<Mark>)
    ensures Increments(Sort(ms, Time)) == Increments(ms)
  {
    if ms != [] {
      SortIncrements(ms[1..]);
      InsertIncrements(ms[0], Sort(ms[1..], Time));
    }
  }

  lemma {:induction false} MarksIncrements(pairs: seq<Pair>)
    ensures Increments(Marks(pairs)) == Unanswered(pairs)
  {
    if pairs != [] {
      FirstMarks(pairs);
      hide Marks;
      MarksIncrements(pairs[1..]);
    }
  }

  lemma {:induction false} LastTotal(ms: seq<Mark>, from: int)
    requires ms != []
    ensures Totals(ms, from)[|ms| - 1] == from + Increments(ms)
  {
    if |ms| > 1 {
      LastTotal(ms[1..], from + ms[0].increment);
    }
  }

  /** The curve ends with the number of queries that were never answered. */
  lemma EndsWithUnanswered(pairs: seq<Pair>)
    requires Marks(pairs) != []
    ensures var totals := Totals(Sort(Marks(pairs), Time), 0);
            totals[|totals| - 1] == Unanswered(pairs)
  {
    LastTotal(Sort(Marks(pairs), Time), 0);
    SortIncrements(Marks(pairs));
    MarksIncrements(pairs);
  }

  // The points of the curve: one for every `step` marks, at their mean time and mean number in flight

  function Least(a: nat, b: nat): nat {
    if a < b then a else b
  }

  function TimeSum(ms: seq<Mark>): int {
    if ms == [] then 0 else ms[0].time + TimeSum(ms[1..])
  }

  function Average(total: int, n: nat): real
    requires n > 0
  {
    total as real / n as real
  }

  function Times(n: nat, y: real): real {
    n as real * y
  }

  function Mean(ms: seq<Mark>, totals: seq<int>, start: int): Point
    requires |ms| == |totals| > 0
  {
    Point((Average(TimeSum(ms), |ms|) - start as real) / MILLISECOND, Average(Sum(totals), |ms|))
  }

  function Means(ms: seq<Mark>, totals: seq<int>, step: nat, start: int): seq<Point>
    requires |ms| == |totals| && step > 0
  {
    if ms == [] then []
    else
      var n := Least(step, |ms|);
      [Mean(ms[..n], totals[..n], start)] + Means(ms[n..], totals[n..], step, start)
  }

  /** The points weighted with how many of the n marks each stands for. */
  function Weighted(data: seq<Point>, n: nat, step: nat): real {
    if data == [] then 0.0
    else Times(Least(step, n), data[0].y) + Weighted(data[1..], n - Least(step, n), step)
  }

  /** The same for the times of the points. */
  function WeightedTimes(data: seq<Point>, n: nat, step: nat, start: int): real {
    if data == [] then 0.0
    else
      Times(Least(step, n), data[0].x * MILLISECOND + start as real)
      + WeightedTimes(data[1..], n - Least(step, n), step, start)
  }

  lemma {:induction false} SumConcat(a: seq<int>, b: seq<int>)
    ensures Sum(a + b) == Sum(a) + Sum(b)
  {
    if a == [] {
      assert a + b == b;
    } else {
      assert (a + b)[1..] == a[1..] + b;
      SumConcat(a[1..], b);
    }
  }

  lemma {:induction false} SumNonNegative(xs: seq<int>)
    requires NonNegative(xs)
    ensures Sum(xs) >= 0
  {
    if xs != [] {
      SumNonNegative(xs[1..]);
    }
  }

  lemma AverageTimes(total: int, n: nat)
    requires n > 0
    ensures Times(n, Average(total, n)) == total as real
    ensures total >= 0 ==> Average(total, n) >= 0.0
  {
  }

  lemma Halves(totals: seq<int>, n: nat)
    requires n <= |totals|
    ensures Sum(totals) == Sum(totals[..n]) + Sum(totals[n..])
    ensures NonNegative(totals) ==> NonNegative(totals[n..]) && Sum(totals[..n]) >= 0
  {
    SumConcat(totals[..n], totals[n..]);
    assert totals == totals[..n] + totals[n..];
    if NonNegative(totals) {
      SumNonNegative(totals[..n]);
    }
  }

  predicate AboveZero(data: seq<Point>) {
    forall i | 0 <= i < |data| :: data[i].y >= 0.0
  }

  lemma {:induction false} TimeHalves(ms: seq<Mark>, n: nat)
    requires n <= |ms|
    ensures TimeSum(ms) == TimeSum(ms[..n]) + TimeSum(ms[n..])
  {
    if n > 0 {
      TimeHalves(ms[1..], n - 1);
      assert ms[1..][..n - 1] == ms[..n][1..] && ms[1..][n - 1..] == ms[n..];
    }
  }

  lemma WeightedFirst(first: Point, rest: seq<Point>, n: nat, step: nat, start: int)
    ensures var data, k := [first] + rest, Least(step, n);
            && Weighted(data, n, step) == Times(k, first.y) + Weighted(rest, n - k, step)
            && WeightedTimes(data, n, step, start)
               == Times(k, first.x * MILLISECOND + start as real) + WeightedTimes(rest, n - k, step, start)
    ensures first.y >= 0.0 && AboveZero(rest) ==> AboveZero([first] + rest)
  {
    hide Times;
    assert ([first] + rest)[1..] == rest;
  }

  lemma MeanFirst(ms: seq<Mark>, totals: seq<int>, step: nat, start: int)
    requires |ms| == |totals| > 0 && step > 0
    ensures var n := Least(step, |ms|);
            && 0 < n <= |ms|
            && Means(ms, totals, step, start)
               == [Mean(ms[..n], totals[..n], start)] + Means(ms[n..], totals[n..], step, start)
            && Mean(ms[..n], totals[..n], start).y == Average(Sum(totals[..n]), n)
            && Mean(ms[..n], totals[..n], start).x * MILLISECOND + start as real == Average(TimeSum(ms[..n]), n)
  {
    hide TimeSum, Sum, Average;
  }

  /** Averaging loses nothing: chunk size times chunk mean adds up to all running totals, and to all times, and no
      point is negative when no total is. */
  lemma {:induction false} MeansConserve(ms: seq<Mark>, totals: seq<int>, step: nat, start: int)
    requires |ms| == |totals| && step > 0
    ensures Weighted(Means(ms, totals, step, start), |ms|, step) == Sum(totals) as real
    ensures WeightedTimes(Means(ms, totals, step, start), |ms|, step, start) == TimeSum(ms) as real
    ensures NonNegative(totals) ==> AboveZero(Means(ms, totals, step, start))
  {
    if ms != [] {
      hide Means, Mean, Sum, TimeSum, NonNegative, AboveZero, Weighted, WeightedTimes, Times, Average;
      var n := Least(step, |ms|);
      MeanFirst(ms, totals, step, start);
      MeansConserve(ms[n..], totals[n..], step, start);
      Halves(totals, n);
      TimeHalves(ms, n);
      AverageTimes(Sum(totals[..n]), n);
      AverageTimes(TimeSum(ms[..n]), n);
      WeightedFirst(Mean(ms[..n], totals[..n], start), Means(ms[n..], totals[n..], step, start), |ms|, step, start);
    }
  }

  /** Point i stands for chunk i: its height times the marks of the chunk is the sum of their running totals, and its
      place times the marks is the sum of their times. There are as many points as chunks. */
  lemma {:induction false} MeansAt(ms: seq<Mark>, totals: seq<int>, step: nat, start: int, i: nat)
    requires |ms| == |totals| && step > 0 && i < |Means(ms, totals, step, start)|
    ensures i * step < |ms|
    ensures var data, lo := Means(ms, totals, step, start), i * step;
            var n := Least(step, |ms| - lo);
            && 0 < n && lo + n <= |ms| && (lo + n == |ms| <==> i == |data| - 1)
            && Times(n, data[i].y) == Sum(totals[lo..lo + n]) as real
            && Times(n, data[i].x * 1000000.0 + start as real) == TimeSum(ms[lo..lo + n]) as real
  {
    hide Means, Mean, Sum, TimeSum, Times, Average;
    assert ms != [] by { NoMeans(ms, totals, step, start); }
    var n := Least(step, |ms|);
    MeanFirst(ms, totals, step, start);
    AverageTimes(Sum(totals[..n]), n);
    AverageTimes(TimeSum(ms[..n]), n);
    NoMeans(ms[n..], totals[n..], step, start);
    var data := Means(ms, totals, step, start);
    if i == 0 {
      assert 0 * step == 0 && totals[0..n] == totals[..n] && ms[0..n] == ms[..n];
    } else {
      MeansAt(ms[n..], totals[n..], step, start, i - 1);
      var lo, k := (i - 1) * step, Least(step, |ms[n..]| - (i - 1) * step);
      assert i * step == lo + step;
      assert data[i] == Means(ms[n..], totals[n..], step, start)[i - 1];
      SliceOfTail(totals, n, lo, k);
      SliceOfTail(ms, n, lo, k);
    }
  }

  lemma SliceOfTail<T>(s: seq<T>, n: nat, lo: nat, k: nat)
    requires n + lo + k <= |s|
    ensures s[n..][lo..lo + k] == s[lo + n..lo + n + k]
  {
  }

  lemma NoMeans(ms: seq<Mark>, totals: seq<int>, step: nat, start: int)
    requires |ms| == |totals| && step > 0
    ensures Means(ms, totals, step, start) == [] <==> ms == []
  {
  }

  // What a running total means

  function UpTo(ms: seq<Mark>, t: int): int {
    if ms == [] then 0 else (if ms[0].time <= t then ms[0].increment else 0) + UpTo(ms[1..], t)
  }

  /** The queries that had been sent by then, and those that had been answered. */
  function SentBy(pairs: seq<Pair>, t: int): nat {
    if pairs == [] then 0 else (if |pairs[0]| > 0 && pairs[0][0] <= t then 1 else 0) + SentBy(pairs[1..], t)
  }

  function ReceivedBy(pairs: seq<Pair>, t: int): nat {
    if pairs == [] then 0 else (if |pairs[0]| > 1 && pairs[0][1] <= t then 1 else 0) + ReceivedBy(pairs[1..], t)
  }

  lemma {:induction false} UpToConcat(a: seq<Mark>, b: seq<Mark>, t: int)
    ensures UpTo(a + b, t) == UpTo(a, t) + UpTo(b, t)
  {
    if a == [] {
      assert a + b == b;
    } else {
      assert (a + b)[1..] == a[1..] + b;
      UpToConcat(a[1..], b, t);
    }
  }

  lemma {:induction false} MarksUpTo(pairs: seq<Pair>, t: int)
    ensures UpTo(Marks(pairs), t) == SentBy(pairs, t) - ReceivedBy(pairs, t)
  {
    if pairs != [] {
      MarksUpTo(pairs[1..], t);
      UpToConcat(MarksOf(pairs[0]), Marks(pairs[1..]), t);
      hide Marks;
      PairUpTo(pairs[0], t);
    }
  }

  lemma PairUpTo(p: Pair, t: int)
    ensures UpTo(MarksOf(p), t)
         == (if |p| > 0 && p[0] <= t then 1 else 0) - (if |p| > 1 && p[1] <= t then 1 else 0)
  {
    var ms := MarksOf(p);
    if |p| > 1 {
      UpToConcat([ms[0]], [ms[1]], t);
      assert ms == [ms[0]] + [ms[1]] && [ms[0]][1..] == [] && [ms[1]][1..] == [];
      assert UpTo([ms[1]], t) == if p[1] <= t then -1 else 0;
    } else if |p| == 1 {
      assert ms[1..] == [];
    }
  }

  lemma {:induction false} InsertUpTo(m: Mark, ms: seq<Mark>, t: int)
    ensures UpTo(Insert(m, ms, Time), t) == UpTo(ms, t) + if m.time <= t then m.increment else 0
  {
    var r := Insert(m, ms, Time);
    if ms == [] || Time(m) <= Time(ms[0]) {
      assert r[1..] == ms;
    } else {
      assert r[1..] == Insert(m, ms[1..], Time);
      InsertUpTo(m, ms[1..], t);
    }
  }

  lemma {:induction false} SortUpTo(ms: seq<Mark>, t: int)
    ensures UpTo(Sort(ms, Time), t) == UpTo(ms, t)
  {
    if ms != [] {
      SortUpTo(ms[1..], t);
      InsertUpTo(ms[0], Sort(ms[1..], Time), t);
    }
  }

  lemma {:induction false} NoneUpTo(ms: seq<Mark>, t: int)
    requires Sorted(ms, Time) && (ms == [] || t < ms[0].time)
    ensures UpTo(ms, t) == 0
  {
    if ms != [] {
      NoneUpTo(ms[1..], t);
    }
  }

  lemma {:induction false} FirstIsLeast(ms: seq<Mark>, i: nat)
    requires Sorted(ms, Time) && i < |ms|
    ensures ms[0].time <= ms[i].time
  {
    if i > 0 {
      FirstIsLeast(ms[1..], i - 1);
    }
  }

  lemma {:induction false} TotalUpTo(ms: seq<Mark>, from: int, i: nat)
    requires Sorted(ms, Time) && i < |ms| && (i + 1 < |ms| ==> ms[i].time < ms[i + 1].time)
    ensures Totals(ms, from)[i] == from + UpTo(ms, ms[i].time)
  {
    if i == 0 {
      NoneUpTo(ms[1..], ms[0].time);
    } else {
      FirstIsLeast(ms, i);
      TotalUpTo(ms[1..], from + ms[0].increment, i - 1);
    }
  }

  /** Behind the last mark of any time, the running total is the number of queries sent by that time and not answered
      by it. */
  lemma InFlightAt(pairs: seq<Pair>, i: nat)
    requires var ms := Sort(Marks(pairs), Time);
             i < |ms| && (i + 1 < |ms| ==> ms[i].time < ms[i + 1].time)
    ensures var ms := Sort(Marks(pairs), Time);
            Totals(ms, 0)[i] == SentBy(pairs, ms[i].time) - ReceivedBy(pairs, ms[i].time)
  {
    hide Marks, Sort, Totals, UpTo;
    var ms := Sort(Marks(pairs), Time);
    SortIsStable(Marks(pairs), Time, 0);
    TotalUpTo(ms, 0, i);
    SortUpTo(Marks(pairs), ms[i].time);
    MarksUpTo(pairs, ms[i].time);
  }

  // The program

  lemma {:induction false} TotalAt(ms: seq<Mark>, from: int, i: nat)
    requires i < |ms|
    ensures Totals(ms, from)[i] == (if i == 0 then from else Totals(ms, from)[i - 1]) + ms[i].increment
  {
    if i > 0 {
      TotalAt(ms[1..], from + ms[0].increment, i - 1);
    }
  }

  /** Marks from `from` on, up to i, are in the current chunk. */
  ghost predicate Collecting(ms: seq<Mark>, totals: seq<int>, from: nat, i: nat, timestamps: int, queues: int) {
    && |totals| == |ms| && from <= i <= |ms|
    && timestamps == TimeSum(ms[from..i]) && queues == Sum(totals[from..i])
  }

  /** The data so far stands for the marks before `from`. */
  ghost predicate Drawn(ms: seq<Mark>, totals: seq<int>, step: nat, start: int, from: nat, data: seq<Point>) {
    && step > 0 && |totals| == |ms| && from <= |ms|
    && data + Means(ms[from..], totals[from..], step, start) == Means(ms, totals, step, start)
  }

  lemma Collect(ms: seq<Mark>, totals: seq<int>, from: nat, i: nat, timestamps: int, queues: int)
    requires Collecting(ms, totals, from, i, timestamps, queues) && i < |ms|
    ensures Collecting(ms, totals, from, i + 1, timestamps + ms[i].time, queues + totals[i])
  {
    assert totals[from..i + 1] == totals[from..i] + [totals[i]];
    SumConcat(totals[from..i], [totals[i]]);
    assert ms[from..i + 1] == ms[from..i] + [ms[i]];
    TimeSumAppend(ms[from..i], ms[i]);
    assert Sum([totals[i]]) == totals[i] + Sum([]);
  }

  lemma {:induction false} TimeSumAppend(ms: seq<Mark>, m: Mark)
    ensures TimeSum(ms + [m]) == TimeSum(ms) + m.time
  {
    if ms == [] {
      assert ms + [m] == [m];
    } else {
      assert (ms + [m])[1..] == ms[1..] + [m];
      TimeSumAppend(ms[1..], m);
    }
  }

  /** A full chunk, or a last one, becomes a point. */
  lemma DrawChunk(ms: seq<Mark>, totals: seq<int>, step: nat, start: int, from: nat, i: nat, data: seq<Point>,
                  timestamps: int, queues: int)
    requires Drawn(ms, totals, step, start, from, data) && Collecting(ms, totals, from, i, timestamps, queues)
    requires i - from == step || (0 < i - from < step && i == |ms|)
    ensures Drawn(ms, totals, step, start, i,
                  data + [Point((Average(timestamps, i - from) - start as real) / MILLISECOND,
                                Average(queues, i - from))])
  {
    hide Average, TimeSum, Sum;
    var rest, tail := ms[from..], totals[from..];
    assert rest[..i - from] == ms[from..i] && tail[..i - from] == totals[from..i];
    assert rest[i - from..] == ms[i..] && tail[i - from..] == totals[i..];
  }

  lemma StartDrawing(ms: seq<Mark>, totals: seq<int>, step: nat, start: int)
    requires step > 0 && |totals| == |ms|
    ensures Drawn(ms, totals, step, start, 0, []) && forall i | 0 <= i <= |ms| :: Collecting(ms, totals, i, i, 0, 0)
  {
    assert ms[0..] == ms && totals[0..] == totals;
  }

  lemma DrawingDone(ms: seq<Mark>, totals: seq<int>, step: nat, start: int, data: seq<Point>)
    requires Drawn(ms, totals, step, start, |ms|, data)
    ensures data == Means(ms, totals, step, start)
  {
  }

  lemma AverageOfOne(total: int)
    ensures Average(total, 1) == total as real
  {
  }

  method MakeCounter(pairs: seq<Pair>) returns (counter: seq<Mark>)
    ensures counter == Marks(pairs)
  {
    hide Marks;
    counter := [];
    var i := 0;
    assert pairs[0..] == pairs;
    while i < |pairs|
      invariant i <= |pairs| && counter + Marks(pairs[i..]) == Marks(pairs)
    {
      NextMarks(pairs, i, counter);
      counter := counter + MarksOf(pairs[i]);
      i := i + 1;
    }
    NoMarks(pairs);
  }

  lemma NextMarks(pairs: seq<Pair>, i: nat, counter: seq<Mark>)
    requires i < |pairs|
    ensures counter + Marks(pairs[i..]) == counter + MarksOf(pairs[i]) + Marks(pairs[i + 1..])
  {
    assert pairs[i..][1..] == pairs[i + 1..];
  }

  lemma NoMarks(pairs: seq<Pair>)
    ensures Marks(pairs[|pairs|..]) == []
  {
  }

  /** The points of the curve; None when there are many pairs and all are empty, which ends the program. */
  method MakeQueue(pairs: seq<Pair>, start: int) returns (r: Option<seq<Point>>)
    ensures var ms, step := Sort(Marks(pairs), Time), |pairs| / FIT_POINTS;
            r == if step > 1 && ms == [] then None
                 else Some(Means(ms, Totals(ms, 0), if step <= 1 then 1 else step, start))
  {
    hide Means, Marks, Totals, Drawn, Collecting, Average, Insert, Sort;
    var data: seq<Point> := [];
    var step := |pairs| / FIT_POINTS;
    var counter := MakeCounter(pairs);
    counter := Sort(counter, Time);

    ghost var totals := Totals(counter, 0);
    var queue, i := 0, 0;
    if step <= 1 {
      StartDrawing(counter, totals, 1, start);
      while i < |counter|
        invariant i <= |counter| && queue == (if i == 0 then 0 else totals[i - 1])
        invariant Drawn(counter, totals, 1, start, i, data)
      {
        TotalAt(counter, 0, i);
        queue := queue + counter[i].increment;
        Collect(counter, totals, i, i, 0, 0);
        DrawChunk(counter, totals, 1, start, i, i + 1, data, counter[i].time, queue);
        AverageOfOne(counter[i].time);
        AverageOfOne(queue);
        data := data + [Point((counter[i].time - start) as real / MILLISECOND, queue as real)];
        i := i + 1;
      }
      DrawingDone(counter, totals, 1, start, data);
    } else {
      var timestamps, queues := 0, 0;
      ghost var from := 0;
      StartDrawing(counter, totals, step, start);
      while i < |counter|
        invariant 0 <= from <= i <= |counter| && i - from == i % step
        invariant queue == if i == 0 then 0 else totals[i - 1]
        invariant Collecting(counter, totals, from, i, timestamps, queues)
        invariant Drawn(counter, totals, step, start, from, data)
      {
        TotalAt(counter, 0, i);
        NextMod(i, step);
        queue := queue + counter[i].increment;
        Collect(counter, totals, from, i, timestamps, queues);
        timestamps := timestamps + counter[i].time;
        queues := queues + queue;
        if (i + 1) % step == 0 {
          DrawChunk(counter, totals, step, start, from, i + 1, data, timestamps, queues);
          data := data + [Point((Average(timestamps, step) - start as real) / MILLISECOND, Average(queues, step))];
          timestamps, queues, from := 0, 0, i + 1;
        }
        i := i + 1;
      }
      if |counter| == 0 {
        return None;
      }
      var remainder := i % step;
      if remainder != 0 {
        DrawChunk(counter, totals, step, start, from, i, data, timestamps, queues);
        data := data + [Point((Average(timestamps, remainder) - start as real) / MILLISECOND,
                              Average(queues, remainder))];
      }
      DrawingDone(counter, totals, step, start, data);
    }
    r := Some(data);
  }

  /** The whole curve, for pairs that were all answered after they were sent: never below zero, with the last
      running total the unanswered queries, and nothing lost to averaging. */
  lemma QueueCurve(pairs: seq<Pair>, step: nat, start: int)
    requires AnsweredLater(pairs) && step > 0
    ensures var ms, totals := Sort(Marks(pairs), Time), Totals(Sort(Marks(pairs), Time), 0);
            && AboveZero(Means(ms, totals, step, start))
            && Weighted(Means(ms, totals, step, start), |ms|, step) == Sum(totals) as real
            && WeightedTimes(Means(ms, totals, step, start), |ms|, step, start) == TimeSum(ms) as real
            && (ms != [] ==> totals[|ms| - 1] == Unanswered(pairs))
  {
    hide Marks, Sort, Means, Totals;
    var ms := Sort(Marks(pairs), Time);
    NeverNegative(pairs);
    MeansConserve(ms, Totals(ms, 0), step, start);
    if ms != [] {
      EndsWithUnanswered(pairs);
    }
  }
}
