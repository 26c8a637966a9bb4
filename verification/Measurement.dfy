/** From what the client recorded to the curves that are drawn of it. */
module Measurement {
  import opened Arithmetic
  import Client = Probe
  import IdReuse
  import Delays
  import InFlight
  import RateCurve
  import RateLimit
  import StableSort

  /** The pairs as `main` writes them: with the receive time and the difference for an answered one. */
  function Written(pairs: seq<Client.Pair>): seq<InFlight.Pair> {
    if pairs == [] then []
    else
      var p := pairs[0];
      [if p.answer > 0 then [p.sent, p.received, p.received - p.sent] else [p.sent]] + Written(pairs[1..])
  }

  /** Nothing is lost in what is written: a pair that was never answered has one number, and an answered one its two
      times and what is between them. */
  lemma {:induction false} WrittenAt(pairs: seq<Client.Pair>, i: nat)
    requires i < |pairs|
    ensures |Written(pairs)| == |pairs|
    ensures var p, w := pairs[i], Written(pairs)[i];
            && |w| == (if p.answer > 0 then 3 else 1) && w[0] == p.sent
            && (p.answer > 0 ==> w[1] == p.received && w[1] - w[0] == w[2])
  {
    if i > 0 {
      WrittenAt(pairs[1..], i - 1);
    } else if |pairs| > 1 {
      WrittenAt(pairs[1..], 0);
    }
  }

  lemma {:induction false} WrittenLater(pairs: seq<Client.Pair>)
    requires forall i | 0 <= i < |pairs| && pairs[i].answer > 0 :: pairs[i].sent < pairs[i].received
    ensures InFlight.AnsweredLater(Written(pairs))
  {
    if pairs != [] {
      WrittenLater(pairs[1..]);
    }
  }

  lemma {:induction false} AnsweredFirst(pairs: seq<Client.Pair>)
    requires pairs != []
    ensures Client.Answered(pairs) == Client.Answered(pairs[1..]) + if pairs[0].answer > 0 then 1 else 0
  {
    if |pairs| > 1 {
      AnsweredFirst(pairs[..|pairs| - 1]);
      assert pairs[1..][..|pairs| - 2] == pairs[..|pairs| - 1][1..];
    }
  }

  lemma {:induction false} LostAreUnanswered(pairs: seq<Client.Pair>)
    ensures InFlight.Unanswered(Written(pairs)) + Client.Answered(pairs) == |pairs|
  {
    if pairs != [] {
      AnsweredFirst(pairs);
      LostAreUnanswered(pairs[1..]);
      assert Written(pairs)[1..] == Written(pairs[1..]);
    }
  }

  /** The in-flight curve of any honest measurement is never below zero, and its last running total is the number
      of lost messages that the client reports. */
  lemma HonestCurve(s: Client.State, interval: nat, es: seq<Client.Event>, owners: seq<nat>, step: nat, start: int)
    requires Client.Initial(s) && Client.Sized(s) && Client.Clocked(es) && IdReuse.Honest(s, interval, es, owners)
    requires step > 0
    ensures Client.Run(s, interval, es).Some?
    ensures var t := Client.Run(s, interval, es).value;
            var ms := StableSort.Sort(InFlight.Marks(Written(t.pairs)), InFlight.Time);
            var totals := InFlight.Totals(ms, 0);
            && InFlight.AboveZero(InFlight.Means(ms, totals, step, start))
            && (ms != [] ==> totals[|ms| - 1] == |t.pairs| - t.received)
  {
    hide InFlight.Marks, InFlight.Means, InFlight.Totals, StableSort.Sort, IdReuse.InTurn, Client.Clocked;
    IdReuse.HonestRun(s, interval, es, owners);
    var t := Client.Run(s, interval, es).value;
    WrittenLater(t.pairs);
    LostAreUnanswered(t.pairs);
    InFlight.QueueCurve(Written(t.pairs), step, start);
  }

  // The rate curves, of all send times and of the receive times that are not zero

  function NonZero(ts: seq<int>): seq<int> {
    if ts == [] then [] else (if ts[0] > 0 then [ts[0]] else []) + NonZero(ts[1..])
  }

  lemma {:induction false} NonZeroPrefix(ts: seq<int>, n: nat)
    requires n <= |ts| && (forall i | 0 <= i < n :: ts[i] > 0) && (forall i | n <= i < |ts| :: ts[i] == 0)
    ensures NonZero(ts) == ts[..n]
  {
    if ts != [] {
      if n > 0 {
        NonZeroPrefix(ts[1..], n - 1);
        assert ts[..n] == [ts[0]] + ts[1..][..n - 1];
      } else {
        NonZeroPrefix(ts[1..], 0);
      }
    }
  }

  lemma {:induction false} TimesPositive(pairs: seq<Client.Pair>, t: nat)
    requires forall i | 0 <= i < |pairs| && pairs[i].answer > 0 :: pairs[i].sent < pairs[i].received
    requires t in Client.Times(pairs)
    ensures t > 0
  {
    if pairs != [] {
      var rest, last := pairs[..|pairs| - 1], pairs[|pairs| - 1];
      if t in Client.Times(rest) {
        TimesPositive(rest, t);
      }
    }
  }

  /** The sending rate of a finished run: the area under its curve is what the timestamps make of it, and with a
      limit on the rate it is all the queries, or all but one when the curve has no step. */
  lemma SendingArea(s: Client.State, interval: nat, es: seq<Client.Event>, fit: bool, start: int)
    requires Client.Initial(s) && Client.Sized(s) && Client.Clocked(es) && Client.Run(s, interval, es).Some?
    requires var t := Client.Run(s, interval, es).value;
             t.sent == |t.pairs| > 0
    ensures var ts := Client.Run(s, interval, es).value.sends;
            var step := RateCurve.Step(|ts|, fit);
            var data := RateCurve.RateData(ts, start, step);
            && RateCurve.WindowsAscend(data, ts[0] as real, start)
            && RateCurve.Area(data, ts[0] as real, start) == RateCurve.Counted(ts, step) as real
            && (interval > 0 ==> RateCurve.Counted(ts, step) == if step > 1 then |ts| else |ts| - 1)
  {
    hide Client.Run, Client.Clocked, Client.Initial, Client.Times, RateCurve.RateData, RateCurve.Area,
         RateCurve.Counted, RateCurve.WindowsAscend;
    var t := Client.Run(s, interval, es).value;
    var step := RateCurve.Step(|t.sends|, fit);
    Client.RunBooked(s, interval, es);
    RateCurve.RateArea(t.sends, start, step);
    if interval > 0 {
      RateLimit.RunSpaced(s, interval, es);
      assert RateLimit.SentTimes(t) == t.sends;
      SpacedStrict(t.sends, interval);
      RateCurve.StrictArea(t.sends, start, step);
    }
  }

  lemma SpacedStrict(times: seq<nat>, interval: nat)
    requires interval > 0 && RateLimit.Spaced(times, interval)
    ensures RateCurve.Strict(times)
  {
    forall i, j | 0 <= i < j < |times|
      ensures times[i] < times[j]
    {
      RateLimit.SpacedApart(times, interval, i, j);
      Multiples(j - i, interval);
    }
  }

  /** The receiving rate of an honest run: leaving out the zeros leaves exactly the times of the answers, and they
      are what the area under the curve counts. */
  lemma ReceivingArea(s: Client.State, interval: nat, es: seq<Client.Event>, owners: seq<nat>, step: nat, start: int)
    requires Client.Initial(s) && Client.Sized(s) && Client.Clocked(es) && IdReuse.Honest(s, interval, es, owners)
    ensures Client.Run(s, interval, es).Some?
    ensures var t := Client.Run(s, interval, es).value;
            var ts := NonZero(t.receives);
            && multiset(ts) == Client.Times(t.pairs) && |ts| == t.received
            && (ts != [] ==>
                  && RateCurve.Area(RateCurve.RateData(ts, start, step), ts[0] as real, start)
                     == RateCurve.Counted(ts, step) as real
                  && RateCurve.WindowsAscend(RateCurve.RateData(ts, start, step), ts[0] as real, start))
  {
    hide Client.Run, Client.Clocked, Client.Initial, Client.Times, IdReuse.Honest, IdReuse.InTurn, NonZero,
         RateCurve.RateData, RateCurve.Area, RateCurve.Counted, RateCurve.WindowsAscend;
    IdReuse.HonestRun(s, interval, es, owners);
    var t := Client.Run(s, interval, es).value;
    AnswerTimes(t, Client.Clock(es));
    if t.received > 0 {
      RateCurve.RateArea(t.receives[..t.received], start, step);
    }
  }

  lemma AnswerTimes(t: Client.State, clock: nat)
    requires Client.Booked(t, clock) && IdReuse.AnsweredLater(t)
    ensures NonZero(t.receives) == t.receives[..t.received] && RateCurve.Ascending(t.receives[..t.received])
  {
    hide Client.Times, Client.Answered;
    forall i | 0 <= i < t.received
      ensures t.receives[i] > 0
    {
      assert t.receives[..t.received][i] in multiset(t.receives[..t.received]);
      TimesPositive(t.pairs, t.receives[i]);
    }
    NonZeroPrefix(t.receives, t.received);
  }

  // The histogram of delays

  /** How long each answered query took. */
  function RoundTrips(pairs: seq<Client.Pair>): seq<int> {
    if pairs == [] then []
    else (if pairs[0].answer > 0 then [pairs[0].received - pairs[0].sent] else []) + RoundTrips(pairs[1..])
  }

  lemma {:induction false} DelaysAreRoundTrips(pairs: seq<Client.Pair>)
    ensures Delays.DelaysOf(Written(pairs)) == RoundTrips(pairs)
  {
    if pairs != [] {
      DelaysAreRoundTrips(pairs[1..]);
      assert Written(pairs)[1..] == Written(pairs[1..]);
    }
  }

  lemma {:induction false} RoundTripsPositive(pairs: seq<Client.Pair>)
    requires forall i | 0 <= i < |pairs| && pairs[i].answer > 0 :: pairs[i].sent < pairs[i].received
    ensures forall i | 0 <= i < |RoundTrips(pairs)| :: RoundTrips(pairs)[i] > 0
    ensures |RoundTrips(pairs)| == Client.Answered(pairs)
  {
    if pairs != [] {
      RoundTripsPositive(pairs[1..]);
      AnsweredFirst(pairs);
    }
  }

  /** The histogram of an honest run is of how long each answered query took, no more and no less. */
  lemma HonestDelays(s: Client.State, interval: nat, es: seq<Client.Event>, owners: seq<nat>)
    requires Client.Initial(s) && Client.Sized(s) && Client.Clocked(es) && IdReuse.Honest(s, interval, es, owners)
    ensures Client.Run(s, interval, es).Some?
    ensures var t := Client.Run(s, interval, es).value;
            && multiset(Delays.Kept(Written(t.pairs))) == multiset(RoundTrips(t.pairs))
            && |RoundTrips(t.pairs)| == t.received
  {
    hide Client.Run, Client.Clocked, Client.Initial, Client.Times, IdReuse.Honest, IdReuse.InTurn, RoundTrips, Written,
         Delays.DelaysOf;
    IdReuse.HonestRun(s, interval, es, owners);
    var t := Client.Run(s, interval, es).value;
    DelaysAreRoundTrips(t.pairs);
    RoundTripsPositive(t.pairs);
    Delays.KeptAll(Written(t.pairs));
  }
}
