/** The query limit of the client over whole runs. */
module RateLimit {
  import opened Bytes
  import opened Probe

  const NANOSECONDS: nat := 1_000_000_000

  /** The interval that `main` computes from the limit. */
  function WriteInterval(limit: nat): nat {
    if limit == 0 then 0
    else NANOSECONDS / limit + if NANOSECONDS % limit >= NANOSECONDS / 2 then 1 else 0
  }

  predicate Spaced(times: seq<nat>, interval: nat) {
    forall i | 0 <= i < |times| - 1 :: times[i] + interval <= times[i + 1]
  }

  function SentTimes(s: State): seq<nat>
    requires s.sent <= |s.sends|
  {
    s.sends[..s.sent]
  }

  /** In every run, each query follows the one before it by at least the interval. */
  lemma {:induction false} RunSpaced(s: State, interval: nat, es: seq<Event>)
    requires Initial(s) && Sized(s) && Clocked(es) && Run(s, interval, es).Some?
    ensures Spaced(SentTimes(Run(s, interval, es).value), interval)
  {
    if es != [] {
      var before := es[..|es| - 1];
      RunSpaced(s, interval, before);
      RunBooked(s, interval, before);
      StepSpaced(Run(s, interval, before).value, interval, es[|es| - 1], Clock(before));
    }
  }

  lemma StepSpaced(s: State, interval: nat, e: Event, clock: nat)
    requires Booked(s, clock) && clock <= First(e) <= Last(e) && Step(s, interval, e).Some?
    requires Spaced(SentTimes(s), interval)
    ensures Spaced(SentTimes(Step(s, interval, e).value), interval)
  {
    hide Times, Answered, Slot;
    if e.Writable? && s.sent < |s.pairs| && MaySend(s, interval, e.now) {
      var t := Send(s, e.stamp);
      assert SentTimes(t) == SentTimes(s) + [e.stamp];
      if s.sent > 0 {
        assert SentTimes(s)[s.sent - 1] == s.sends[s.sent - 1];
      }
    }
  }

  /** And the spacing is all that the limiter promises: any spaced times are those of a run. */
  lemma {:induction false} SpacedIsRun(s: State, interval: nat, times: seq<nat>)
    requires Initial(s) && Sized(s) && Spaced(times, interval) && |times| <= |s.pairs|
    ensures var es := Sends(times);
            && Clocked(es) && Run(s, interval, es).Some?
            && SentTimes(Run(s, interval, es).value) == times
            && |Run(s, interval, es).value.pairs| == |s.pairs|
  {
    hide Times, Answered, Initial;
    if times == [] {
      NothingSent(s, interval);
    } else {
      var before, t := times[..|times| - 1], times[|times| - 1];
      forall i | 0 <= i < |before| - 1
        ensures before[i] + interval <= before[i + 1]
      {
        assert before[i] == times[i] && before[i + 1] == times[i + 1];
      }
      SpacedIsRun(s, interval, before);
      SendsGrow(times);
      SendsNext(Run(s, interval, Sends(before)).value, interval, before, t);
      assert before + [t] == times;
    }
  }

  lemma NothingSent(s: State, interval: nat)
    requires Initial(s) && Sized(s)
    ensures Clocked(Sends([])) && Run(s, interval, Sends([])) == Some(s) && SentTimes(s) == []
  {
    assert Sends([]) == [];
  }

  lemma SendsNext(r: State, interval: nat, before: seq<nat>, t: nat)
    requires Sized(r) && SentTimes(r) == before && r.sent < |r.pairs|
    requires before != [] ==> before[|before| - 1] + interval <= t
    ensures MaySend(r, interval, t) && SentTimes(Send(r, t)) == before + [t]
    ensures Step(r, interval, Writable(t, t)) == Some(Send(r, t))
  {
    hide Answered;
    if before != [] {
      assert before[|before| - 1] == r.sends[r.sent - 1];
    }
  }

  lemma SendsGrow(times: seq<nat>)
    requires times != []
    ensures var before, last := times[..|times| - 1], Writable(times[|times| - 1], times[|times| - 1]);
            Sends(times) == Sends(before) + [last] && Sends(times)[..|times| - 1] == Sends(before)
    ensures |times| > 1 ==> Clock(Sends(times[..|times| - 1])) == times[|times| - 2]
  {
  }

  function Sends(times: seq<nat>): (es: seq<Event>)
    ensures |es| == |times|
  {
    seq(|times|, i requires 0 <= i < |times| => Writable(times[i], times[i]))
  }

  /** Query j is sent at least (j - i) intervals after query i. */
  lemma {:induction false} SpacedApart(times: seq<nat>, interval: nat, i: nat, j: nat)
    requires Spaced(times, interval) && i <= j < |times|
    ensures times[i] + (j - i) * interval <= times[j]
  {
    if i < j {
      SpacedApart(times, interval, i, j - 1);
      assert (j - i) * interval == (j - 1 - i) * interval + interval;
    }
  }

  /** In any run and any time w, at most w / interval + 1 queries go out. */
  lemma WindowBound(s: State, interval: nat, es: seq<Event>, i: nat, j: nat, w: nat)
    requires Initial(s) && Sized(s) && Clocked(es) && Run(s, interval, es).Some? && interval > 0
    requires var times := SentTimes(Run(s, interval, es).value);
             i <= j < |times| && times[j] - times[i] <= w
    ensures j - i + 1 <= w / interval + 1
  {
    hide Run, Clocked, Initial, Spaced;
    RunSpaced(s, interval, es);
    SpacedApart(SentTimes(Run(s, interval, es).value), interval, i, j);
    Quotient(j - i, interval, w);
  }

  lemma Quotient(n: nat, d: nat, w: nat)
    requires d > 0 && n * d <= w
    ensures n <= w / d
  {
    var q := w / d;
    assert n > q ==> n * d >= (q + 1) * d;
  }

  /** No `limit + 1` queries go out within any second. */
  ghost predicate WithinLimit(times: seq<nat>, limit: nat) {
    forall i, j | 0 <= i <= j < |times| && times[j] - times[i] < NANOSECONDS :: j - i < limit
  }

  /** What any run of the client with this limit sends in any second. */
  ghost predicate KeepsLimit(s: State, limit: nat)
    requires Sized(s)
  {
    forall es | Clocked(es) && Run(s, WriteInterval(limit), es).Some? ::
      WithinLimit(SentTimes(Run(s, WriteInterval(limit), es).value), limit)
  }

  /** The limiter keeps every run within its limit exactly when the limit divides a second, or exceeds the
      resolution of the clock, or there are no more queries than that: otherwise the interval is rounded down. */
  lemma LimitKept(s: State, limit: nat)
    requires Initial(s) && Sized(s) && limit > 0
    ensures KeepsLimit(s, limit)
        <==> NANOSECONDS % limit == 0 || limit > NANOSECONDS || |s.pairs| <= limit
  {
    hide Initial, Clocked, Run, Spaced, Answered;
    var interval := WriteInterval(limit);
    IntervalRounding(limit);
    if limit * interval >= NANOSECONDS || |s.pairs| <= limit {
      forall es | Clocked(es) && Run(s, interval, es).Some?
        ensures WithinLimit(SentTimes(Run(s, interval, es).value), limit)
      {
        RunSpaced(s, interval, es);
        RunSize(s, interval, es);
        if |s.pairs| > limit {
          SpacedKeeps(SentTimes(Run(s, interval, es).value), interval, limit);
        }
      }
    } else {
      var times := Steady(limit, interval);
      SpacedIsRun(s, interval, times);
      assert times[limit] - times[0] < NANOSECONDS && limit - 0 >= limit;
    }
  }

  /** The interval is never so long as to need rounding up, unless it would be less than a nanosecond. */
  lemma IntervalRounding(limit: nat)
    requires limit > 0
    ensures limit * WriteInterval(limit) >= NANOSECONDS <==> NANOSECONDS % limit == 0 || limit > NANOSECONDS
  {
  }

  /** And it is the longest interval with which `limit` queries are still within a second, or one nanosecond when
      the limit exceeds the resolution of the clock. */
  lemma IntervalExactly(limit: nat)
    ensures var w := WriteInterval(limit);
            && (limit == 0 ==> w == 0)
            && (0 < limit <= 1_000_000_000 ==> limit * w <= 1_000_000_000 < limit * (w + 1))
            && (limit > 1_000_000_000 ==> w == 1)
  {
    if limit > 0 {
      var q := NANOSECONDS / limit;
      assert NANOSECONDS == limit * q + NANOSECONDS % limit;
      assert limit * (q + 1) == limit * q + limit;
    }
  }

  /** No second of the limit is wasted: some run sends that many queries within one second. */
  lemma LimitReached(s: State, limit: nat) returns (es: seq<Event>)
    requires Initial(s) && Sized(s) && 0 < limit <= 1_000_000_000 && |s.pairs| >= limit
    ensures Clocked(es) && Run(s, WriteInterval(limit), es).Some?
    ensures var times := SentTimes(Run(s, WriteInterval(limit), es).value);
            |times| == limit && times[limit - 1] < times[0] + 1_000_000_000
  {
    hide Initial, Clocked, Run, Spaced, Answered, WriteInterval;
    var interval := WriteInterval(limit);
    IntervalExactly(limit);
    var times := Steady(limit - 1, interval);
    SpacedIsRun(s, interval, times);
    es := Sends(times);
    assert (limit - 1) * interval == limit * interval - interval;
  }

  lemma SpacedKeeps(times: seq<nat>, interval: nat, limit: nat)
    requires Spaced(times, interval) && limit * interval >= NANOSECONDS
    ensures WithinLimit(times, limit)
  {
    forall i, j | 0 <= i <= j < |times| && times[j] - times[i] < NANOSECONDS
      ensures j - i < limit
    {
      SpacedApart(times, interval, i, j);
      assert j - i >= limit ==> (j - i) * interval >= limit * interval;
    }
  }

  /** The run that sends as fast as it may. */
  lemma Steady(limit: nat, interval: nat) returns (times: seq<nat>)
    ensures |times| == limit + 1 && Spaced(times, interval)
    ensures times[0] == 0 && times[limit] == limit * interval
  {
    times := seq(limit + 1, i requires 0 <= i <= limit => i * interval);
    forall i | 0 <= i < limit
      ensures times[i] + interval <= times[i + 1]
    {
      assert (i + 1) * interval == i * interval + interval;
    }
  }
}
