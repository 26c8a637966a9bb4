/** The measuring client: which query an answer is credited to, and when the next query may go out. */
module Probe {
  import opened Bytes

  const USHRT_MAX: nat := 65535

  /** Times in nanoseconds. `sent` means nothing until the query has been sent. */
  datatype Pair = Pair(sent: nat, answer: nat, received: nat)

  datatype State = State(pairs: seq<Pair>, sends: seq<nat>, receives: seq<nat>, sent: nat, received: nat)

  /** An answer with its id and its time, or a moment when the socket is writable: the clock read to decide, and
      the clock read after sending. */
  datatype Event = Answer(id: u16, at: nat) | Writable(now: nat, stamp: nat)

  /** One return of the select call. A socket reported readable may have no answer after all. */
  datatype Wakeup = Wakeup(readable: bool, answers: seq<Event>, writable: bool, now: nat, stamp: nat)

  // The matching

  /** Where the search of `recv_answer` ends: at the first pair, in steps of 65535, that seems to have been sent
      before `at` and is unanswered, or beyond the pairs. */
  function Slot(pairs: seq<Pair>, i: nat, at: nat): (k: nat)
    ensures i <= k && (k < |pairs| ==> pairs[k].sent < at && pairs[k].answer == 0)
    decreases |pairs| - i
  {
    if i >= |pairs| || (pairs[i].sent < at && pairs[i].answer == 0) then i
    else Slot(pairs, i + USHRT_MAX, at)
  }

  /** The search sees exactly the pairs with the id of pair i, from i on, and ends at the first that will do. */
  lemma {:induction false} SlotIsFirst(pairs: seq<Pair>, i: nat, at: nat)
    ensures Slot(pairs, i, at) % USHRT_MAX == i % USHRT_MAX
    ensures forall j | i <= j < Slot(pairs, i, at) && j < |pairs| && j % USHRT_MAX == i % USHRT_MAX ::
      !(pairs[j].sent < at && pairs[j].answer == 0)
    decreases |pairs| - i
  {
    if i < |pairs| && !(pairs[i].sent < at && pairs[i].answer == 0) {
      SlotIsFirst(pairs, i + USHRT_MAX, at);
    }
  }

  function Credit(pairs: seq<Pair>, k: nat, at: nat): seq<Pair>
    requires k < |pairs|
  {
    pairs[k := Pair(pairs[k].sent, pairs[k].answer + 1, at)]
  }

  // What a state of the client keeps to, whatever arrives

  function Answered(pairs: seq<Pair>): nat {
    if pairs == [] then 0
    else Answered(pairs[..|pairs| - 1]) + if pairs[|pairs| - 1].answer > 0 then 1 else 0
  }

  function Times(pairs: seq<Pair>): multiset<nat> {
    if pairs == [] then multiset{}
    else
      Times(pairs[..|pairs| - 1])
      + if pairs[|pairs| - 1].answer > 0 then multiset{pairs[|pairs| - 1].received} else multiset{}
  }

  predicate Sized(s: State) {
    && |s.pairs| == |s.sends| == |s.receives| && s.sent <= |s.pairs| && s.received <= |s.receives|
    && s.received == Answered(s.pairs)
  }

  predicate OnceEach(pairs: seq<Pair>) {
    forall i | 0 <= i < |pairs| :: pairs[i].answer <= 1
  }

  /** The first n times are in order and none is after `clock`. */
  predicate InOrder(times: seq<nat>, n: nat, clock: nat) {
    && n <= |times| && (forall i | 0 <= i < n :: times[i] <= clock)
    && (forall i, j | 0 <= i <= j < n :: times[i] <= times[j])
  }

  predicate ZeroFrom(times: seq<nat>, n: nat) {
    forall i | n <= i < |times| :: times[i] == 0
  }

  predicate SentAsPaired(s: State) {
    |s.pairs| == |s.sends| && s.sent <= |s.sends| && forall i | 0 <= i < s.sent :: s.pairs[i].sent == s.sends[i]
  }

  /** The bookkeeping at a moment not after `clock`. */
  ghost predicate Booked(s: State, clock: nat) {
    && Sized(s) && OnceEach(s.pairs)
    && multiset(s.receives[..s.received]) == Times(s.pairs)
    && InOrder(s.receives, s.received, clock) && ZeroFrom(s.receives, s.received)
    && InOrder(s.sends, s.sent, clock) && SentAsPaired(s)
  }

  lemma {:induction false} AnsweredAtMost(pairs: seq<Pair>, k: nat)
    requires k < |pairs|
    ensures Answered(pairs) <= |pairs| && (pairs[k].answer == 0 ==> Answered(pairs) < |pairs|)
  {
    var rest := pairs[..|pairs| - 1];
    if k < |rest| {
      AnsweredAtMost(rest, k);
    } else if rest != [] {
      AnsweredAtMost(rest, 0);
    }
  }

  lemma UpdateParts<T>(s: seq<T>, k: nat, x: T)
    requires k < |s|
    ensures var n := |s| - 1;
            && s[k := x][..n] == (if k < n then s[..n][k := x] else s[..n])
            && s[k := x][n] == if k < n then s[n] else x
    ensures k < |s| - 1 ==> s[..|s| - 1][k] == s[k]
  {
  }

  lemma {:induction false} CreditCounts(pairs: seq<Pair>, k: nat, at: nat)
    requires k < |pairs| && pairs[k].answer == 0
    ensures Answered(Credit(pairs, k, at)) == Answered(pairs) + 1
    ensures Times(Credit(pairs, k, at)) == Times(pairs) + multiset{at}
  {
    UpdateParts(pairs, k, Pair(pairs[k].sent, pairs[k].answer + 1, at));
    if k < |pairs| - 1 {
      CreditCounts(pairs[..|pairs| - 1], k, at);
    }
  }

  lemma {:induction false} SentCounts(pairs: seq<Pair>, k: nat, t: nat)
    requires k < |pairs|
    ensures Answered(pairs[k := pairs[k].(sent := t)]) == Answered(pairs)
    ensures Times(pairs[k := pairs[k].(sent := t)]) == Times(pairs)
  {
    UpdateParts(pairs, k, pairs[k].(sent := t));
    if k < |pairs| - 1 {
      SentCounts(pairs[..|pairs| - 1], k, t);
    }
  }

  // The steps

  /** One message of `recv_answer`; None when it ends the program. */
  function Receive(s: State, id: u16, at: nat): (r: Option<State>)
    requires Sized(s)
    ensures r.Some? ==> Sized(r.value)
  {
    if |s.pairs| < USHRT_MAX && id >= |s.pairs| then None
    else
      var k := Slot(s.pairs, id, at);
      if k < |s.pairs| then
        AnsweredAtMost(s.pairs, k);
        CreditCounts(s.pairs, k, at);
        Some(s.(pairs := Credit(s.pairs, k, at), receives := s.receives[s.received := at], received := s.received + 1))
      else Some(s)
  }

  function Send(s: State, stamp: nat): (r: State)
    requires Sized(s) && s.sent < |s.pairs|
    ensures Sized(r)
  {
    SentCounts(s.pairs, s.sent, stamp);
    s.(pairs := s.pairs[s.sent := s.pairs[s.sent].(sent := stamp)], sends := s.sends[s.sent := stamp],
       sent := s.sent + 1)
  }

  predicate MaySend(s: State, interval: nat, now: nat)
    requires Sized(s)
  {
    interval == 0 || s.sent == 0 || now - s.sends[s.sent - 1] >= interval
  }

  function Step(s: State, interval: nat, e: Event): (r: Option<State>)
    requires Sized(s)
    ensures r.Some? ==> Sized(r.value)
  {
    match e
    case Answer(id, at) => Receive(s, id, at)
    case Writable(now, stamp) =>
      if s.sent < |s.pairs| && MaySend(s, interval, now) then Some(Send(s, stamp)) else Some(s)
  }

  function Run(s: State, interval: nat, es: seq<Event>): (r: Option<State>)
    requires Sized(s)
    ensures r.Some? ==> Sized(r.value)
  {
    if es == [] then Some(s)
    else
      var before :- Run(s, interval, es[..|es| - 1]);
      Step(before, interval, es[|es| - 1])
  }

  // A clock that never goes back

  function First(e: Event): nat {
    if e.Answer? then e.at else e.now
  }

  function Last(e: Event): nat {
    if e.Answer? then e.at else e.stamp
  }

  function Clock(es: seq<Event>): nat {
    if es == [] then 0 else Last(es[|es| - 1])
  }

  predicate Clocked(es: seq<Event>) {
    es == [] || (Clocked(es[..|es| - 1]) && Clock(es[..|es| - 1]) <= First(es[|es| - 1]) <= Last(es[|es| - 1]))
  }

  /** How the client starts: nothing sent or received, `receives` cleared, the rest of memory as it was. */
  predicate Initial(s: State) {
    && |s.pairs| == |s.sends| == |s.receives| && s.sent == s.received == 0
    && (forall i | 0 <= i < |s.pairs| :: s.pairs[i].answer == 0 && s.receives[i] == 0)
  }

  lemma {:induction false} InitialCounts(pairs: seq<Pair>)
    requires forall i | 0 <= i < |pairs| :: pairs[i].answer == 0
    ensures Answered(pairs) == 0 && Times(pairs) == multiset{}
  {
    if pairs != [] {
      InitialCounts(pairs[..|pairs| - 1]);
    }
  }

  /** Whatever answers arrive, in every reachable state each pair is answered at most once, `received` counts the
      answered pairs, and `receives` holds their times in order and then zeroes. */
  lemma {:induction false} RunBooked(s: State, interval: nat, es: seq<Event>)
    requires Initial(s) && Clocked(es)
    ensures Sized(s)
    ensures Run(s, interval, es).Some? ==> Booked(Run(s, interval, es).value, Clock(es))
  {
    InitialCounts(s.pairs);
    if es == [] {
      assert s.receives[..0] == [];
    } else {
      var before, e := es[..|es| - 1], es[|es| - 1];
      RunBooked(s, interval, before);
      if Run(s, interval, es).Some? {
        StepBooked(Run(s, interval, before).value, interval, e, Clock(before));
      }
    }
  }

  lemma OneMore(times: seq<nat>, n: nat, clock: nat, t: nat)
    requires InOrder(times, n, clock) && n < |times| && clock <= t
    ensures InOrder(times[n := t], n + 1, t)
    ensures ZeroFrom(times, n) ==> ZeroFrom(times[n := t], n + 1)
    ensures multiset(times[n := t][..n + 1]) == multiset(times[..n]) + multiset{t}
  {
    assert times[n := t][..n + 1] == times[..n] + [t];
  }

  lemma LaterClock(times: seq<nat>, n: nat, clock: nat, t: nat)
    requires InOrder(times, n, clock) && clock <= t
    ensures InOrder(times, n, t)
  {
  }

  lemma StepBooked(s: State, interval: nat, e: Event, clock: nat)
    requires Booked(s, clock) && clock <= First(e) <= Last(e) && Step(s, interval, e).Some?
    ensures Booked(Step(s, interval, e).value, Last(e))
  {
    hide Times, InOrder, ZeroFrom, Slot, Answered, Receive;
    LaterClock(s.receives, s.received, clock, Last(e));
    LaterClock(s.sends, s.sent, clock, Last(e));
    match e
    case Answer(id, at) => ReceiveBooked(s, id, at, clock);
    case Writable(now, stamp) =>
      if s.sent < |s.pairs| && MaySend(s, interval, now) {
        SentCounts(s.pairs, s.sent, stamp);
        OneMore(s.sends, s.sent, clock, stamp);
      }
  }

  lemma ReceiveBooked(s: State, id: u16, at: nat, clock: nat)
    requires Booked(s, clock) && clock <= at && Receive(s, id, at).Some?
    ensures Booked(Receive(s, id, at).value, at)
  {
    hide Times, InOrder, ZeroFrom, Slot, Answered;
    LaterClock(s.receives, s.received, clock, at);
    LaterClock(s.sends, s.sent, clock, at);
    var k := Slot(s.pairs, id, at);
    if k < |s.pairs| {
      AnsweredAtMost(s.pairs, k);
      CreditCounts(s.pairs, k, at);
      OneMore(s.receives, s.received, clock, at);
    }
  }

  // What the events alone say of a run

  lemma {:induction false} RunSize(s: State, interval: nat, es: seq<Event>)
    requires Sized(s) && Run(s, interval, es).Some?
    ensures |Run(s, interval, es).value.pairs| == |s.pairs|
  {
    if es != [] {
      RunSize(s, interval, es[..|es| - 1]);
    }
  }

  /** Only an answer with an impossible id ends the program. */
  lemma {:induction false} RunFails(s: State, interval: nat, es: seq<Event>)
    requires Sized(s)
    ensures Run(s, interval, es).None?
        <==> |s.pairs| < 65535 && exists i :: 0 <= i < |es| && es[i].Answer? && es[i].id >= |s.pairs|
  {
    if es != [] {
      var before, last := es[..|es| - 1], |es| - 1;
      RunFails(s, interval, before);
      assert forall i | 0 <= i < last :: before[i] == es[i];
      if Run(s, interval, before).Some? {
        RunSize(s, interval, before);
      }
    }
  }

  /** Event i comes after the first k of these events, and before the others. */
  predicate Between(js: seq<nat>, k: nat, i: nat) {
    k <= |js| && (k > 0 ==> js[k - 1] < i) && (k < |js| ==> i < js[k])
  }

  predicate Rising(js: seq<nat>) {
    forall a, b | 0 <= a < b < |js| :: js[a] < js[b]
  }

  predicate AllWritable(es: seq<Event>, js: seq<nat>) {
    forall k | 0 <= k < |js| :: js[k] < |es| && es[js[k]].Writable?
  }

  /** At event i a query may follow the k queries that were sent with the first k of these events. */
  predicate Due(es: seq<Event>, interval: nat, js: seq<nat>, k: nat, i: nat)
    requires k <= |js| && i < |es| && es[i].Writable? && AllWritable(es, js)
  {
    interval == 0 || k == 0 || es[i].now - es[js[k - 1]].stamp >= interval
  }

  ghost predicate EachDue(es: seq<Event>, interval: nat, js: seq<nat>) {
    AllWritable(es, js) && forall k | 0 <= k < |js| :: Due(es, interval, js, k, js[k])
  }

  /** With no other event was one of the queries due and left. */
  ghost predicate NoneMissed(es: seq<Event>, interval: nat, js: seq<nat>, queries: nat) {
    AllWritable(es, js) && forall i, k: nat | 0 <= i < |es| && Between(js, k, i) && es[i].Writable? ::
      k == queries || !Due(es, interval, js, k, i)
  }

  /** The clock reads after sending. */
  predicate Stamped(es: seq<Event>, js: seq<nat>, times: seq<nat>) {
    AllWritable(es, js) && |times| == |js| && forall k | 0 <= k < |js| :: times[k] == es[js[k]].stamp
  }

  /** The queries were sent with the events js, each of them due: they bear the clock read after their sending, and
      no chance to send was missed. */
  ghost predicate SentWith(t: State, interval: nat, es: seq<Event>, js: seq<nat>) {
    && |js| == t.sent <= |t.sends| && Rising(js) && Stamped(es, js, t.sends[..t.sent])
    && EachDue(es, interval, js) && NoneMissed(es, interval, js, |t.pairs|)
  }

  lemma {:induction false} RunSends(s: State, interval: nat, es: seq<Event>) returns (js: seq<nat>)
    requires Initial(s) && Sized(s) && Run(s, interval, es).Some?
    ensures SentWith(Run(s, interval, es).value, interval, es, js)
  {
    if es == [] {
      js := [];
    } else {
      var before, e := es[..|es| - 1], es[|es| - 1];
      js := RunSends(s, interval, before);
      var t, u := Run(s, interval, before).value, Run(s, interval, es).value;
      if u.sent == t.sent {
        NotSentWith(t, u, interval, es, js);
      } else {
        js := AlsoSentWith(t, interval, es, js);
      }
    }
  }

  lemma NotSentWith(t: State, u: State, interval: nat, es: seq<Event>, js: seq<nat>)
    requires es != [] && SentWith(t, interval, es[..|es| - 1], js) && Sized(t)
    requires Step(t, interval, es[|es| - 1]) == Some(u) && u.sent == t.sent
    ensures SentWith(u, interval, es, js)
  {
    hide Slot, Answered, EachDue, NoneMissed, Stamped, Rising;
    var last := es[|es| - 1];
    LongerEvents(es, interval, js, t.sends[..t.sent]);
    if last.Writable? {
      LastIsDue(t, interval, es, js);
    }
    MissedNone(es, interval, js, |t.pairs|);
  }

  lemma AlsoSentWith(t: State, interval: nat, es: seq<Event>, js: seq<nat>) returns (js': seq<nat>)
    requires es != [] && SentWith(t, interval, es[..|es| - 1], js) && Sized(t)
    requires Step(t, interval, es[|es| - 1]).Some? && Step(t, interval, es[|es| - 1]).value.sent != t.sent
    ensures SentWith(Step(t, interval, es[|es| - 1]).value, interval, es, js')
  {
    hide Slot, Answered, EachDue, NoneMissed, Stamped, Rising, AllWritable, Due;
    var last := es[|es| - 1];
    var u := Step(t, interval, last).value;
    LongerEvents(es, interval, js, t.sends[..t.sent]);
    LastIsDue(t, interval, es, js);
    js' := js + [|es| - 1];
    assert u.sends[..u.sent] == t.sends[..t.sent] + [last.stamp];
    OneSent(es, interval, js, |t.pairs|, t.sends[..t.sent]);
  }

  /** What held of the events before the last one. */
  lemma LongerEvents(es: seq<Event>, interval: nat, js: seq<nat>, times: seq<nat>)
    requires es != [] && Stamped(es[..|es| - 1], js, times) && EachDue(es[..|es| - 1], interval, js)
    ensures AllWritable(es, js) && Stamped(es, js, times) && EachDue(es, interval, js)
    ensures forall k | 0 <= k < |js| :: js[k] < |es| - 1
  {
    var before := es[..|es| - 1];
    forall k | 0 <= k < |js|
      ensures js[k] < |es| - 1 && es[js[k]] == before[js[k]]
    {
    }
    forall k | 0 <= k < |js|
      ensures Due(es, interval, js, k, js[k])
    {
      assert Due(before, interval, js, k, js[k]);
    }
  }

  /** The limiter looks at the last query sent. */
  lemma LastIsDue(t: State, interval: nat, es: seq<Event>, js: seq<nat>)
    requires es != [] && es[|es| - 1].Writable? && Sized(t) && |js| == t.sent && AllWritable(es, js)
    requires Stamped(es, js, t.sends[..t.sent])
    ensures Due(es, interval, js, |js|, |es| - 1) <==> MaySend(t, interval, es[|es| - 1].now)
  {
    hide Answered;
    if t.sent > 0 {
      assert t.sends[..t.sent][t.sent - 1] == t.sends[t.sent - 1];
    }
  }

  lemma MissedNone(es: seq<Event>, interval: nat, js: seq<nat>, queries: nat)
    requires es != [] && NoneMissed(es[..|es| - 1], interval, js, queries) && AllWritable(es, js)
    requires forall k | 0 <= k < |js| :: js[k] < |es| - 1
    requires es[|es| - 1].Writable? ==> |js| == queries || !Due(es, interval, js, |js|, |es| - 1)
    ensures NoneMissed(es, interval, js, queries)
  {
    var before := es[..|es| - 1];
    forall i, k: nat | 0 <= i < |es| && Between(js, k, i) && es[i].Writable?
      ensures k == queries || !Due(es, interval, js, k, i)
    {
      if i < |es| - 1 {
        assert before[i] == es[i];
        assert k == queries || !Due(before, interval, js, k, i);
      }
    }
  }

  lemma AllMore(es: seq<Event>, js: seq<nat>)
    requires es != [] && es[|es| - 1].Writable? && AllWritable(es, js)
    requires forall k | 0 <= k < |js| :: js[k] < |es| - 1
    ensures AllWritable(es, js + [|es| - 1]) && (Rising(js) ==> Rising(js + [|es| - 1]))
  {
  }

  lemma StampedMore(es: seq<Event>, js: seq<nat>, times: seq<nat>)
    requires es != [] && es[|es| - 1].Writable? && Stamped(es, js, times) && AllWritable(es, js + [|es| - 1])
    ensures Stamped(es, js + [|es| - 1], times + [es[|es| - 1].stamp])
  {
    var js', times' := js + [|es| - 1], times + [es[|es| - 1].stamp];
    forall k | 0 <= k < |js'|
      ensures times'[k] == es[js'[k]].stamp
    {
      if k < |js| {
        assert js'[k] == js[k] && times'[k] == times[k];
      }
    }
  }

  lemma DueMore(es: seq<Event>, interval: nat, js: seq<nat>)
    requires es != [] && es[|es| - 1].Writable? && EachDue(es, interval, js) && AllWritable(es, js + [|es| - 1])
    requires Due(es, interval, js, |js|, |es| - 1)
    ensures EachDue(es, interval, js + [|es| - 1])
  {
    var js' := js + [|es| - 1];
    forall k | 0 <= k < |js'|
      ensures Due(es, interval, js', k, js'[k])
    {
      if k < |js| {
        assert Due(es, interval, js, k, js[k]);
      }
    }
  }

  lemma OneSent(es: seq<Event>, interval: nat, js: seq<nat>, queries: nat, times: seq<nat>)
    requires es != [] && es[|es| - 1].Writable? && Rising(js) && Stamped(es, js, times) && EachDue(es, interval, js)
    requires forall k | 0 <= k < |js| :: js[k] < |es| - 1
    requires NoneMissed(es[..|es| - 1], interval, js, queries) && Due(es, interval, js, |js|, |es| - 1)
    ensures var js' := js + [|es| - 1];
            && Rising(js') && Stamped(es, js', times + [es[|es| - 1].stamp]) && EachDue(es, interval, js')
            && NoneMissed(es, interval, js', queries)
  {
    hide Stamped, EachDue;
    var before, last := es[..|es| - 1], |es| - 1;
    var js' := js + [last];
    AllMore(es, js);
    StampedMore(es, js, times);
    DueMore(es, interval, js);
    forall i, k: nat | 0 <= i < |es| && Between(js', k, i) && es[i].Writable?
      ensures k == queries || !Due(es, interval, js', k, i)
    {
      if k <= |js| {
        assert Between(js, k, i) && i < last && before[i] == es[i];
        assert k == queries || !Due(before, interval, js, k, i);
      }
    }
  }

  /** The clock reads after sending, of all events with which a query could be sent. */
  function Stamps(es: seq<Event>): seq<nat> {
    if es == [] then []
    else Stamps(es[..|es| - 1]) + if es[|es| - 1].Writable? then [es[|es| - 1].stamp] else []
  }

  /** Without a limit a query goes out with every such event, until none is left. */
  lemma {:induction false} RunUnlimited(s: State, es: seq<Event>)
    requires Initial(s) && Sized(s) && Run(s, 0, es).Some?
    ensures var t, stamps := Run(s, 0, es).value, Stamps(es);
            && t.sent <= |t.sends|
            && t.sends[..t.sent] == if |stamps| < |s.pairs| then stamps else stamps[..|s.pairs|]
  {
    if es != [] {
      hide Slot, Answered, Initial;
      var before := es[..|es| - 1];
      RunUnlimited(s, before);
      RunSize(s, 0, before);
      var t, u := Run(s, 0, before).value, Run(s, 0, es).value;
      if u.sent == t.sent + 1 {
        assert u.sends[..u.sent] == t.sends[..t.sent] + [es[|es| - 1].stamp];
      }
    }
  }

  predicate AllAnswers(es: seq<Event>, js: seq<nat>) {
    forall k | 0 <= k < |js| :: js[k] < |es| && es[js[k]].Answer?
  }

  /** These are different answered pairs. */
  predicate AnsweredPairs(pairs: seq<Pair>, ks: seq<nat>) {
    && (forall n | 0 <= n < |ks| :: ks[n] < |pairs| && pairs[ks[n]].answer > 0)
    && (forall a, b | 0 <= a < b < |ks| :: ks[a] != ks[b])
  }

  /** Answer number n that was credited is event js[n], and it was credited to pair ks[n]. */
  ghost predicate CreditedTo(t: State, es: seq<Event>, js: seq<nat>, ks: seq<nat>) {
    && |js| == |ks| == t.received <= |t.receives| && Rising(js) && AllAnswers(es, js) && AnsweredPairs(t.pairs, ks)
    && (forall n | 0 <= n < |js| ::
          && t.receives[n] == t.pairs[ks[n]].received == es[js[n]].at
          && ks[n] % 65535 == es[js[n]].id % 65535)
  }

  /** Every receive time is that of an answer, credited to a pair with its id. */
  lemma {:induction false} RunCredits(s: State, interval: nat, es: seq<Event>) returns (js: seq<nat>, ks: seq<nat>)
    requires Initial(s) && Sized(s) && Run(s, interval, es).Some?
    ensures CreditedTo(Run(s, interval, es).value, es, js, ks)
  {
    if es == [] {
      js, ks := [], [];
    } else {
      var before := es[..|es| - 1];
      js, ks := RunCredits(s, interval, before);
      js, ks := StepCredits(Run(s, interval, before).value, interval, es, js, ks);
    }
  }

  lemma StepCredits(t: State, interval: nat, es: seq<Event>, js: seq<nat>, ks: seq<nat>)
    returns (js': seq<nat>, ks': seq<nat>)
    requires es != [] && CreditedTo(t, es[..|es| - 1], js, ks) && Sized(t) && Step(t, interval, es[|es| - 1]).Some?
    ensures CreditedTo(Step(t, interval, es[|es| - 1]).value, es, js', ks')
  {
    hide Slot, Answered, Times;
    var before, last := es[..|es| - 1], |es| - 1;
    js', ks' := js, ks;
    forall n | 0 <= n < |js|
      ensures js[n] < last && es[js[n]] == before[js[n]]
    {
    }
    if es[last].Answer? {
      var k := Slot(t.pairs, es[last].id, es[last].at);
      if k < |t.pairs| {
        SlotIsFirst(t.pairs, es[last].id, es[last].at);
        js', ks' := js + [last], ks + [k];
      }
    }
  }

  // The client itself

  const RECV_TIMEOUT: nat := 35

  function EventsOf(w: Wakeup): seq<Event> {
    w.answers + if w.writable then [Writable(w.now, w.stamp)] else []
  }

  function AllEvents(ws: seq<Wakeup>): seq<Event> {
    if ws == [] then [] else AllEvents(ws[..|ws| - 1]) + EventsOf(ws[|ws| - 1])
  }

  predicate OnlyAnswers(es: seq<Event>) {
    forall e | e in es :: e.Answer?
  }

  lemma {:induction false} RunConcat(s: State, interval: nat, a: seq<Event>, b: seq<Event>)
    requires Sized(s)
    ensures Run(s, interval, a + b)
         == match Run(s, interval, a) case None => None case Some(t) => Run(t, interval, b)
  {
    hide Step;
    if b == [] {
      assert a + b == a;
    } else {
      RunConcat(s, interval, a, b[..|b| - 1]);
      assert (a + b)[..|a + b| - 1] == a + b[..|b| - 1];
    }
  }

  class Client {
    const pairs: array<Pair>
    const sends: array<nat>
    const receives: array<nat>
    var sent: nat
    var received: nat

    function View(): State
      reads this, pairs, sends, receives
    {
      State(pairs[..], sends[..], receives[..], sent, received)
    }

    predicate Valid()
      reads this, pairs, sends, receives
    {
      sends != receives && Sized(View())
    }

    constructor (count: nat)
      ensures Valid() && Initial(View()) && |View().pairs| == count
      ensures fresh(pairs) && fresh(sends) && fresh(receives)
    {
      pairs := new Pair[count];
      sends := new nat[count];
      receives := new nat[count];
      sent, received := 0, 0;
      new;
      for i := 0 to count
        invariant pairs.Length == sends.Length == receives.Length == count && sent == received == 0
        invariant forall k | 0 <= k < i :: receives[k] == 0 && pairs[k].answer == 0
      {
        receives[i] := 0;
        pairs[i] := pairs[i].(answer := 0);
      }
      InitialCounts(pairs[..]);
    }

    /** After a successful `sendto`: stamps the query. */
    method SentQuery(stamp: nat)
      requires Valid() && sent < pairs.Length
      modifies this, pairs, sends
      ensures Valid() && View() == Send(old(View()), stamp)
    {
      SentCounts(pairs[..], sent, stamp);
      sends[sent] := stamp;
      pairs[sent] := pairs[sent].(sent := stamp);
      sent := sent + 1;
    }

    /** Takes the answers there are, one by one, up to one whose id cannot be. */
    method RecvAnswer(answers: seq<Event>, ghost interval: nat) returns (ok: bool)
      requires Valid() && OnlyAnswers(answers)
      modifies this, pairs, receives
      ensures Valid() && sent == old(sent)
      ensures Run(old(View()), interval, answers) == if ok then Some(View()) else None
    {
      hide Answered, Times, Receive, Slot;
      ghost var start := View();
      var n := 0;
      assert answers[..0] == [];
      while n < |answers|
        invariant n <= |answers| && Valid() && sent == old(sent)
        invariant Run(start, interval, answers[..n]) == Some(View())
      {
        assert answers[n] in answers;
        ok := RecvOne(answers[n].id, answers[n].at);
        RunNext(start, interval, answers, n);
        if !ok {
          RunStops(start, interval, answers, n + 1);
          return;
        }
        n := n + 1;
      }
      assert answers[..n] == answers;
      ok := true;
    }

    /** One round of the loop: the search for the pair, and the credit to it. */
    method RecvOne(id: u16, at: nat) returns (ok: bool)
      requires Valid()
      modifies this, pairs, receives
      ensures Valid() && sent == old(sent)
      ensures Receive(old(View()), id, at) == if ok then Some(View()) else None
    {
      hide Answered, Times;
      if pairs.Length < USHRT_MAX && id >= pairs.Length {
        return false;
      }
      var k: nat := id;
      while k < pairs.Length
        invariant Slot(pairs[..], id, at) == Slot(pairs[..], k, at)
        decreases pairs.Length - k
      {
        if pairs[k].sent < at && pairs[k].answer == 0 {
          break;
        }
        k := k + USHRT_MAX;
      }
      if k < pairs.Length {
        AnsweredAtMost(pairs[..], k);
        CreditCounts(pairs[..], k, at);
        receives[received] := at;
        pairs[k] := Pair(pairs[k].sent, pairs[k].answer + 1, at);
        received := received + 1;
      }
      ok := true;
    }

    /** A chance to send, taken unless the last query was less than `interval` ago. */
    method TrySend(interval: nat, lastSent: nat, now: nat, stamp: nat) returns (newLast: nat)
      requires Valid() && sent < pairs.Length
      requires interval > 0 && sent > 0 ==> lastSent == sends[sent - 1]
      modifies this, pairs, sends
      ensures Valid() && Step(old(View()), interval, Writable(now, stamp)) == Some(View())
      ensures interval > 0 && sent > 0 ==> newLast == sends[sent - 1]
    {
      hide Slot, Answered;
      newLast := lastSent;
      var doSend := interval <= 0 || sent <= 0;
      if !doSend {
        doSend := now - lastSent >= interval;
      }
      if doSend {
        SentQuery(stamp);
        if interval > 0 {
          newLast := sends[sent - 1];
        }
      }
    }

    /** The first loop of `main`. It uses up wakeups exactly as long as there is something left to send. */
    method SendAndReceive(interval: nat, wakeups: seq<Wakeup>) returns (ok: bool, used: nat)
      requires Valid() && sent == 0 && forall w | w in wakeups :: Possible(w)
      modifies this, pairs, sends, receives
      ensures Valid() && used <= |wakeups|
      ensures Run(old(View()), interval, AllEvents(wakeups[..used])) == if ok then Some(View()) else None
      ensures forall i | 0 <= i < used :: Unsent(old(View()), interval, wakeups, i)
      ensures ok && used < |wakeups| ==> !Unsent(old(View()), interval, wakeups, used)
    {
      hide Run, AllEvents, EventsOf, Step, Slot, Answered;
      ghost var start := View();
      var lastSent := 0;
      used := 0;
      RunStarts(start, interval, wakeups);
      while sent < pairs.Length && used < |wakeups|
        invariant used <= |wakeups| && Valid() && sent <= pairs.Length
        invariant Run(start, interval, AllEvents(wakeups[..used])) == Some(View())
        invariant forall i | 0 <= i < used :: Unsent(start, interval, wakeups, i)
        invariant interval > 0 && sent > 0 ==> lastSent == sends[sent - 1]
        decreases |wakeups| - used
      {
        var w := wakeups[used];
        assert w in wakeups;
        RunWakeup(start, interval, wakeups, used);
        if w.readable {
          ok := RecvAnswer(w.answers, interval);
          if !ok {
            used := used + 1;
            return;
          }
        }
        if w.writable {
          lastSent := TrySend(interval, lastSent, w.now, w.stamp);
        }
        used := used + 1;
      }
      ok := true;
    }

    /** The second loop of `main`, when all is sent. It uses up wakeups exactly as long as something is unanswered
        and fewer than 35 wakeups in a row have been quiet. */
    method AwaitAnswers(interval: nat, wakeups: seq<Wakeup>) returns (ok: bool, used: nat)
      requires Valid() && sent == pairs.Length && forall w | w in wakeups :: Possible(w)
      modifies this, pairs, receives
      ensures Valid() && used <= |wakeups|
      ensures Run(old(View()), interval, AllEvents(wakeups[..used])) == if ok then Some(View()) else None
      ensures forall i | 0 <= i < used :: Awaiting(old(View()), interval, wakeups, i)
      ensures ok && used < |wakeups| ==> !Awaiting(old(View()), interval, wakeups, used)
    {
      hide Run, AllEvents, EventsOf, Slot, Answered, Receive, Quiet;
      ghost var start := View();
      var attempts := RECV_TIMEOUT;
      used := 0;
      RunStarts(start, interval, wakeups);
      while received < pairs.Length && attempts > 0 && used < |wakeups|
        invariant used <= |wakeups| && Valid() && sent == pairs.Length
        invariant Run(start, interval, AllEvents(wakeups[..used])) == Some(View())
        invariant forall i | 0 <= i < used :: Awaiting(start, interval, wakeups, i)
        invariant attempts == RECV_TIMEOUT - Quiet(wakeups[..used]) >= 0
        decreases |wakeups| - used
      {
        var w := wakeups[used];
        assert w in wakeups;
        RunWakeup(start, interval, wakeups, used);
        QuietNext(wakeups, used);
        if w.readable {
          ok := RecvAnswer(w.answers, interval);
          if !ok {
            used := used + 1;
            return;
          }
          attempts := RECV_TIMEOUT;
        } else {
          attempts := attempts - 1;
        }
        used := used + 1;
      }
      ok := true;
    }
  }

  predicate Possible(w: Wakeup) {
    OnlyAnswers(w.answers) && (w.answers != [] ==> w.readable)
  }

  /** After the first n wakeups something is left to send. */
  predicate Unsent(s: State, interval: nat, ws: seq<Wakeup>, n: nat)
    requires Sized(s) && n <= |ws|
  {
    var r := Run(s, interval, AllEvents(ws[..n]));
    r.Some? && r.value.sent < |r.value.pairs|
  }

  /** How many wakeups at the end were for no answer. */
  function Quiet(ws: seq<Wakeup>): nat {
    if ws == [] || ws[|ws| - 1].readable then 0 else Quiet(ws[..|ws| - 1]) + 1
  }

  lemma {:induction false} QuietWakeups(ws: seq<Wakeup>, n: nat)
    ensures Quiet(ws) >= n <==> n <= |ws| && forall i | |ws| - n <= i < |ws| :: !ws[i].readable
  {
    if ws != [] && n > 0 {
      QuietWakeups(ws[..|ws| - 1], n - 1);
    }
  }

  lemma QuietNext(ws: seq<Wakeup>, n: nat)
    requires n < |ws|
    ensures Quiet(ws[..n + 1]) == if ws[n].readable then 0 else Quiet(ws[..n]) + 1
  {
    assert ws[..n + 1][..n] == ws[..n];
  }

  /** After the first n wakeups something is unanswered, and there is an attempt left. */
  predicate Awaiting(s: State, interval: nat, ws: seq<Wakeup>, n: nat)
    requires Sized(s) && n <= |ws|
  {
    var r := Run(s, interval, AllEvents(ws[..n]));
    r.Some? && r.value.received < |r.value.pairs| && Quiet(ws[..n]) < 35
  }

  lemma RunStarts(s: State, interval: nat, ws: seq<Wakeup>)
    requires Sized(s)
    ensures Run(s, interval, AllEvents(ws[..0])) == Some(s) && Quiet(ws[..0]) == 0
  {
    assert ws[..0] == [];
  }

  lemma RunNext(s: State, interval: nat, es: seq<Event>, n: nat)
    requires Sized(s) && n < |es| && Run(s, interval, es[..n]).Some?
    ensures Run(s, interval, es[..n + 1]) == Step(Run(s, interval, es[..n]).value, interval, es[n])
  {
    assert es[..n + 1][..n] == es[..n];
  }

  lemma RunStops(s: State, interval: nat, es: seq<Event>, n: nat)
    requires Sized(s) && n <= |es| && Run(s, interval, es[..n]).None?
    ensures Run(s, interval, es).None?
  {
    RunConcat(s, interval, es[..n], es[n..]);
    assert es[..n] + es[n..] == es;
  }

  /** A wakeup is its answers and then, perhaps, a chance to send. */
  lemma RunWakeup(s: State, interval: nat, ws: seq<Wakeup>, n: nat)
    requires Sized(s) && n < |ws| && Run(s, interval, AllEvents(ws[..n])).Some?
    ensures var t, w := Run(s, interval, AllEvents(ws[..n])).value, ws[n];
            var u := Run(t, interval, w.answers);
            && Run(s, interval, AllEvents(ws[..n + 1]))
            == (if u.None? then None
                else if w.writable then Step(u.value, interval, Writable(w.now, w.stamp)) else u)
            && (w.answers == [] ==> u == Some(t))
  {
    var t, w := Run(s, interval, AllEvents(ws[..n])).value, ws[n];
    assert ws[..n + 1][..n] == ws[..n];
    RunConcat(s, interval, AllEvents(ws[..n]), EventsOf(w));
    if w.writable {
      var send := Writable(w.now, w.stamp);
      assert EventsOf(w) == w.answers + [send];
      assert EventsOf(w)[..|w.answers|] == w.answers && EventsOf(w)[|w.answers|] == send;
    } else {
      assert EventsOf(w) == w.answers;
    }
  }
}
