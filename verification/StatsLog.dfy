/** The memory log: samples in batches, of which only the extremes are written. */
module StatsLog {

  const MAX_UINT64: nat := 0xffff_ffff_ffff_ffff
  const SECOND: nat := 1_000_000_000

  /** The allocated bytes, the number of collections, and all that is not looked at. */
  datatype MemStats = MemStats(alloc: nat, numGC: nat, rest: nat)

  datatype Point = Point(t: int, m: MemStats)

  /** A heap never fills the address space, so that the log can use its last size as a mark. */
  predicate Real(p: Point) {
    p.m.alloc < MAX_UINT64
  }

  // What a batch of samples is to leave in the log

  /** The first of the samples with the least allocation. */
  function MinOf(batch: seq<Point>): (p: Point)
    requires batch != []
    ensures p in batch && forall q | q in batch :: p.m.alloc <= q.m.alloc
  {
    var last := batch[|batch| - 1];
    if |batch| == 1 then last
    else
      var before := batch[..|batch| - 1];
      assert batch == before + [last];
      var p := MinOf(before);
      if p.m.alloc > last.m.alloc then last else p
  }

  /** The first of the samples with the greatest allocation. */
  function MaxOf(batch: seq<Point>): (p: Point)
    requires batch != []
    ensures p in batch && forall q | q in batch :: q.m.alloc <= p.m.alloc
  {
    var last := batch[|batch| - 1];
    if |batch| == 1 then last
    else
      var before := batch[..|batch| - 1];
      assert batch == before + [last];
      var p := MaxOf(before);
      if p.m.alloc < last.m.alloc then last else p
  }

  /** Of equal samples the first counts: all before it are greater, or less. */
  lemma {:induction false} ExtremesAreFirst(batch: seq<Point>) returns (i: nat, j: nat)
    requires batch != []
    ensures i < |batch| && batch[i] == MinOf(batch) && forall k | 0 <= k < i :: batch[k].m.alloc > batch[i].m.alloc
    ensures j < |batch| && batch[j] == MaxOf(batch) && forall k | 0 <= k < j :: batch[k].m.alloc < batch[j].m.alloc
  {
    if |batch| == 1 {
      i, j := 0, 0;
    } else {
      var before, last := batch[..|batch| - 1], batch[|batch| - 1];
      i, j := ExtremesAreFirst(before);
      if MinOf(before).m.alloc > last.m.alloc {
        i := |before|;
      }
      if MaxOf(before).m.alloc < last.m.alloc {
        j := |before|;
      }
      assert forall k | 0 <= k < |before| :: batch[k] == before[k] && before[k] in before;
    }
  }

  function Extremes(min: Point, max: Point): seq<Point> {
    if min.t < max.t then [min, max] else if min.t > max.t then [max, min] else [min]
  }

  function Summary(batch: seq<Point>): seq<Point>
    requires batch != []
  {
    Extremes(MinOf(batch), MaxOf(batch))
  }

  /** A batch ends with a sample after a collection, or more than ten seconds after the end of the last batch. */
  predicate Closes(previous: Point, p: Point) {
    previous.m.numGC != p.m.numGC || p.t - previous.t > 10 * SECOND
  }

  datatype Batches = Batches(closed: seq<seq<Point>>, current: seq<Point>)

  function Last<T>(s: seq<T>): T
    requires s != []
  {
    s[|s| - 1]
  }

  function BatchesOf(samples: seq<Point>): (b: Batches)
    requires samples != []
    ensures b.closed != [] && forall i | 0 <= i < |b.closed| :: b.closed[i] != []
  {
    if |samples| == 1 then Batches([samples], [])
    else
      var b, p := BatchesOf(samples[..|samples| - 1]), Last(samples);
      if Closes(Last(Last(b.closed)), p) then Batches(b.closed + [b.current + [p]], [])
      else Batches(b.closed, b.current + [p])
  }

  function Flatten(batches: seq<seq<Point>>): seq<Point> {
    if batches == [] then [] else Flatten(batches[..|batches| - 1]) + Last(batches)
  }

  function Lines(batches: seq<seq<Point>>): seq<Point>
    requires forall i | 0 <= i < |batches| :: batches[i] != []
  {
    if batches == [] then [] else Lines(batches[..|batches| - 1]) + Summary(Last(batches))
  }

  /** No collection and no more than ten seconds since the end of the last batch. */
  predicate NoneCloses(previous: Point, batch: seq<Point>) {
    forall k | 0 <= k < |batch| ::
      batch[k].m.numGC == previous.m.numGC && batch[k].t <= previous.t + 10_000_000_000
  }

  /** A batch that ends with the first of its samples that closes it. */
  predicate EndsInTime(previous: Point, batch: seq<Point>) {
    && batch != [] && NoneCloses(previous, batch[..|batch| - 1])
    && (Last(batch).m.numGC != previous.m.numGC || Last(batch).t > previous.t + 10_000_000_000)
  }

  /** The batches are the samples cut exactly at the first sample that closes each batch. */
  lemma {:induction false} CutExactly(samples: seq<Point>)
    requires samples != []
    ensures var b := BatchesOf(samples);
            && Flatten(b.closed) + b.current == samples && b.closed[0] == samples[..1]
            && (forall i | 0 < i < |b.closed| :: EndsInTime(Last(b.closed[i - 1]), b.closed[i]))
            && NoneCloses(Last(Last(b.closed)), b.current)
  {
    hide Flatten, NoneCloses, EndsInTime, Closes;
    var b := BatchesOf(samples);
    if |samples| == 1 {
      OneBatch(samples);
    } else {
      var before, p := samples[..|samples| - 1], Last(samples);
      CutExactly(before);
      var a := BatchesOf(before);
      assert samples == before + [p];
      OneSample(a.closed, a.current, Last(Last(a.closed)), p);
    }
  }

  lemma OneBatch(batch: seq<Point>)
    ensures Flatten([batch]) == batch && forall p :: NoneCloses(p, [])
  {
    assert [batch][..0] == [] && [] + batch == batch;
  }

  /** What one sample more does to the batch that is open. */
  lemma OneSample(closed: seq<seq<Point>>, current: seq<Point>, previous: Point, p: Point)
    requires NoneCloses(previous, current)
    ensures Flatten(closed + [current + [p]]) == Flatten(closed) + current + [p]
    ensures Closes(previous, p) ==> EndsInTime(previous, current + [p])
    ensures !Closes(previous, p) ==> NoneCloses(previous, current + [p])
    ensures NoneCloses(p, [])
  {
    assert (closed + [current + [p]])[..|closed|] == closed;
    assert (current + [p])[..|current|] == current;
  }

  class Points {
    var min: Point
    var max: Point
    ghost var batch: seq<Point>  // the samples since the last write

    ghost predicate Valid()
      reads this
    {
      && (forall p | p in batch :: Real(p))
      && (batch == [] ==> min.m.alloc == max.m.alloc == MAX_UINT64)
      && (batch != [] ==> min == MinOf(batch) && max == MaxOf(batch))
    }

    constructor ()
      ensures Valid() && batch == []
    {
      min := Point(0, MemStats(MAX_UINT64, 0, 0));
      max := Point(0, MemStats(MAX_UINT64, 0, 0));
      batch := [];
    }

    method Set(p: Point)
      requires Valid() && Real(p)
      modifies this
      ensures Valid() && batch == old(batch) + [p]
    {
      assert (batch + [p])[..|batch|] == batch;
      if batch != [] {
        assert Real(MinOf(batch)) && Real(MaxOf(batch));
      }
      if min.m.alloc == MAX_UINT64 || min.m.alloc > p.m.alloc {
        min := p;
      }
      if max.m.alloc == MAX_UINT64 || max.m.alloc < p.m.alloc {
        max := p;
      }
      batch := batch + [p];
    }

    method Write() returns (lines: seq<Point>)
      requires Valid() && batch != []
      modifies this
      ensures Valid() && batch == [] && lines == Summary(old(batch))
    {
      if min.t < max.t {
        lines := [min, max];
      } else if min.t > max.t {
        lines := [max, min];
      } else {
        lines := [min];
      }
      min := min.(m := min.m.(alloc := MAX_UINT64));
      max := max.(m := max.m.(alloc := MAX_UINT64));
      batch := [];
    }
  }

  /** The logger: a sample at once and one at every tick, until it is stopped. */
  method Log(samples: seq<Point>) returns (log: seq<Point>)
    requires samples != [] && forall i | 0 <= i < |samples| :: Real(samples[i])
    ensures log == Lines(BatchesOf(samples).closed)
  {
    hide MinOf, MaxOf, BatchesOf, Lines, Summary;
    var previous := samples[0];
    var points := new Points();
    points.Set(previous);
    log := points.Write();
    var n := 1;
    FirstBatch(samples);
    while n < |samples|
      invariant 1 <= n <= |samples| && points.Valid() && fresh(points)
      invariant var b := BatchesOf(samples[..n]);
                previous == Last(Last(b.closed)) && points.batch == b.current && log == Lines(b.closed)
    {
      var p := samples[n];
      ghost var b := BatchesOf(samples[..n]);
      NextBatch(samples, n);
      points.Set(p);
      if previous.m.numGC != p.m.numGC || p.t - previous.t > 10 * SECOND {
        var lines := points.Write();
        LinesAppend(b.closed, b.current + [p]);
        log := log + lines;
        previous := p;
      }
      n := n + 1;
    }
    assert samples[..n] == samples;
  }

  lemma NextBatch(samples: seq<Point>, n: nat)
    requires 0 < n < |samples|
    ensures var b, p := BatchesOf(samples[..n]), samples[n];
            BatchesOf(samples[..n + 1])
            == if Closes(Last(Last(b.closed)), p) then Batches(b.closed + [b.current + [p]], [])
               else Batches(b.closed, b.current + [p])
  {
    assert samples[..n + 1][..n] == samples[..n] && Last(samples[..n + 1]) == samples[n];
  }

  lemma LinesAppend(batches: seq<seq<Point>>, batch: seq<Point>)
    requires batch != [] && forall i | 0 <= i < |batches| :: batches[i] != []
    ensures Lines(batches + [batch]) == Lines(batches) + Summary(batch)
    ensures Last(batches + [batch]) == batch
  {
    assert (batches + [batch])[..|batches|] == batches;
  }

  lemma FirstBatch(samples: seq<Point>)
    requires samples != []
    ensures var b, first := BatchesOf(samples[..1]), [samples[0]];
            b == Batches([first], []) && Lines(b.closed) == Summary(first) && first == [] + first
  {
    var first := [samples[0]];
    assert samples[..1] == first;
    assert [first][..0] == [] && Last([first]) == first;
  }

  // The log as a whole

  predicate Ascending(ps: seq<Point>) {
    forall i, j | 0 <= i < j < |ps| :: ps[i].t < ps[j].t
  }

  predicate Within(ps: seq<Point>, from: int, to: int) {
    forall i | 0 <= i < |ps| :: from <= ps[i].t <= to
  }

  /** What is written of a batch are samples of it, with every sample's allocation between theirs. */
  lemma SummaryCovers(batch: seq<Point>)
    requires batch != [] && Ascending(batch)
    ensures var s := Summary(batch);
            && (forall i | 0 <= i < |s| :: s[i] in batch)
            && (forall p | p in batch :: exists i, j ::
                  0 <= i < |s| && 0 <= j < |s| && s[i].m.alloc <= p.m.alloc <= s[j].m.alloc)
  {
    var s, min, max := Summary(batch), MinOf(batch), MaxOf(batch);
    hide MinOf, MaxOf;
    if min.t == max.t {
      SameTime(batch, min, max);
    }
    assert s[0] == if min.t <= max.t then min else max;
    assert s[|s| - 1] == if min.t <= max.t then max else min;
  }

  lemma SummaryWithin(batch: seq<Point>)
    requires batch != [] && Ascending(batch)
    ensures var s := Summary(batch);
            Ascending(s) && Within(s, batch[0].t, Last(batch).t) && s != []
  {
    hide MinOf, MaxOf;
    assert forall p | p in batch :: batch[0].t <= p.t <= Last(batch).t;
  }

  lemma SameTime(batch: seq<Point>, p: Point, q: Point)
    requires Ascending(batch) && p in batch && q in batch && p.t == q.t
    ensures p == q
  {
  }

  lemma {:induction false} LinesWithin(batches: seq<seq<Point>>)
    requires (forall i | 0 <= i < |batches| :: batches[i] != []) && Ascending(Flatten(batches))
    ensures Ascending(Lines(batches))
    ensures batches != [] ==>
      Lines(batches) != [] && Within(Lines(batches), Flatten(batches)[0].t, Last(Last(batches)).t)
  {
    hide Flatten, Lines, Summary, Ascending, Within;
    Steps(batches);
    if batches != [] {
      var before, batch := batches[..|batches| - 1], Last(batches);
      Halves(Flatten(batches), Flatten(before), batch);
      LinesWithin(before);
      SummaryWithin(batch);
      if before != [] {
        var done := Flatten(before);
        Steps(before);
        Joined(Lines(before), Summary(batch), done[0].t, Last(done).t, batch[0].t, Last(batch).t);
      }
    }
  }

  /** One batch more. */
  lemma Steps(batches: seq<seq<Point>>)
    requires forall i | 0 <= i < |batches| :: batches[i] != []
    ensures batches == [] ==> Lines(batches) == [] == Flatten(batches) && Ascending([])
    ensures batches != [] ==>
      var before, batch := batches[..|batches| - 1], Last(batches);
      && Flatten(batches) == Flatten(before) + batch && Lines(batches) == Lines(before) + Summary(batch)
      && Last(Flatten(batches)) == Last(batch)
      && (before == [] ==> Flatten(batches) == batch && Lines(batches) == Summary(batch))
      && (before != [] ==> Flatten(before) != [] && Flatten(batches)[0] == Flatten(before)[0])
  {
    if batches != [] {
      var before, batch := batches[..|batches| - 1], Last(batches);
      if before == [] {
        assert [] + batch == batch && [] + Summary(batch) == Summary(batch);
      } else {
        FlattenLast(before);
      }
    }
  }

  lemma Halves(all: seq<Point>, a: seq<Point>, b: seq<Point>)
    requires all == a + b && Ascending(all)
    ensures Ascending(a) && Ascending(b)
    ensures a != [] && b != [] ==> a[|a| - 1].t < b[0].t
  {
    assert forall i | 0 <= i < |a| :: a[i] == all[i];
    assert forall i | 0 <= i < |b| :: b[i] == all[|a| + i];
  }

  lemma Joined(a: seq<Point>, b: seq<Point>, from: int, before: int, after: int, to: int)
    requires Ascending(a) && Within(a, from, before) && Ascending(b) && Within(b, after, to)
    requires from <= before < after <= to
    ensures Ascending(a + b) && Within(a + b, from, to)
  {
  }

  lemma FlattenLast(batches: seq<seq<Point>>)
    requires batches != [] && Last(batches) != []
    ensures Flatten(batches) != [] && Last(Flatten(batches)) == Last(Last(batches))
  {
  }

  /** With sample times that grow, so do the times in the log. */
  lemma LogAscends(samples: seq<Point>)
    requires samples != [] && Ascending(samples)
    ensures Ascending(Lines(BatchesOf(samples).closed))
  {
    CutExactly(samples);
    var b := BatchesOf(samples);
    assert samples[..|Flatten(b.closed)|] == Flatten(b.closed);
    LinesWithin(b.closed);
  }

  /** The extremes of every closed batch are in the log, and nothing that is not a sample is. */
  lemma LogHolds(samples: seq<Point>)
    requires samples != [] && Ascending(samples)
    ensures var b := BatchesOf(samples);
            && AllExtremes(Lines(b.closed), b.closed) && AllIn(Lines(b.closed), samples)
  {
    hide MinOf, MaxOf, Lines, Flatten, BatchesOf;
    CutExactly(samples);
    var b := BatchesOf(samples);
    assert samples[..|Flatten(b.closed)|] == Flatten(b.closed);
    LinesHold(b.closed);
  }

  predicate HasExtremes(lines: seq<Point>, batch: seq<Point>)
    requires batch != []
  {
    MinOf(batch) in lines && MaxOf(batch) in lines
  }

  predicate AllIn(ps: seq<Point>, qs: seq<Point>) {
    forall p | p in ps :: p in qs
  }

  ghost predicate AllExtremes(lines: seq<Point>, batches: seq<seq<Point>>) {
    forall i | 0 <= i < |batches| :: batches[i] != [] && HasExtremes(lines, batches[i])
  }

  lemma {:induction false} LinesHold(batches: seq<seq<Point>>)
    requires (forall i | 0 <= i < |batches| :: batches[i] != []) && Ascending(Flatten(batches))
    ensures AllExtremes(Lines(batches), batches) && AllIn(Lines(batches), Flatten(batches))
  {
    hide HasExtremes, AllExtremes, AllIn, Lines, Flatten, Summary, Ascending, MinOf, MaxOf;
    Steps(batches);
    if batches == [] {
      InConcat([], [], [], []);
      NoBatches([]);
    } else {
      var before, batch := batches[..|batches| - 1], Last(batches);
      Halves(Flatten(batches), Flatten(before), batch);
      LinesHold(before);
      SummaryHolds(batch);
      InConcat(Lines(before), Flatten(before), Summary(batch), batch);
      OneBatchMore(Lines(before), before, Summary(batch), batch);
      assert batches == before + [batch];
    }
  }

  lemma NoBatches(lines: seq<Point>)
    ensures AllExtremes(lines, [])
  {
  }

  lemma OneBatchMore(a: seq<Point>, before: seq<seq<Point>>, b: seq<Point>, batch: seq<Point>)
    requires AllExtremes(a, before) && batch != [] && HasExtremes(b, batch)
    ensures AllExtremes(a + b, before + [batch])
  {
    hide MinOf, MaxOf;
  }

  lemma InConcat(a: seq<Point>, b: seq<Point>, c: seq<Point>, d: seq<Point>)
    ensures AllIn(a, b) && AllIn(c, d) ==> AllIn(a + c, b + d)
    ensures AllIn([], [])
  {
  }

  lemma SummaryHolds(batch: seq<Point>)
    requires batch != [] && Ascending(batch)
    ensures var s := Summary(batch);
            HasExtremes(s, batch) && AllIn(s, batch)
  {
    var min, max := MinOf(batch), MaxOf(batch);
    hide MinOf, MaxOf;
    if min.t == max.t {
      SameTime(batch, min, max);
    }
    var s := Extremes(min, max);
    assert s[0] in s && s[|s| - 1] in s;
  }
}
