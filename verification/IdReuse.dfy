/** Ids come round every 65535 queries. Over an honest network the client credits the answers right all the
    same: in turn, within each id. */
module IdReuse {
  import opened Bytes
  import opened Probe

  /** The id that query i is sent with. */
  function IdOf(i: nat): (id: nat)
    ensures id < USHRT_MAX
  {
    i % 65535
  }

  /** The query number n, counted from 0, of those with this id. */
  function Nth(id: nat, n: nat): nat {
    id + 65535 * n
  }

  lemma ClassStep(i: nat, id: nat, n: nat)
    requires id < USHRT_MAX && IdOf(i) == id
    ensures i < Nth(id, n + 1) <==> i <= Nth(id, n)
    ensures id <= i && (i < Nth(id, n) ==> i + USHRT_MAX <= Nth(id, n))
    ensures IdOf(Nth(id, n)) == id && IdOf(i + USHRT_MAX) == id
  {
  }

  /** The query that the network really answered with event i is owners[i]. An honest network answers only what
      has been sent, at a later time, nothing twice, and with the id that was sent. */
  ghost predicate Honest(s: State, interval: nat, es: seq<Event>, owners: seq<nat>)
    requires Sized(s)
  {
    Timely(s, interval, es, owners) && KeptIds(es, owners)
  }

  ghost predicate Timely(s: State, interval: nat, es: seq<Event>, owners: seq<nat>)
    requires Sized(s)
  {
    |owners| == |es|
    && (es == [] ||
        var before, e, owner := es[..|es| - 1], es[|es| - 1], owners[|es| - 1];
        && Timely(s, interval, before, owners[..|es| - 1])
        && (e.Answer? && Run(s, interval, before).Some? ==>
              var t := Run(s, interval, before).value;
              && owner < t.sent && t.sends[owner] < e.at && owner !in Delivered(before, owners[..|es| - 1])))
  }

  predicate KeptIds(es: seq<Event>, owners: seq<nat>) {
    |owners| == |es| && forall i | 0 <= i < |es| && es[i].Answer? :: es[i].id == IdOf(owners[i])
  }

  ghost function Delivered(es: seq<Event>, owners: seq<nat>): set<nat>
    requires |owners| == |es|
  {
    if es == [] then {}
    else
      Delivered(es[..|es| - 1], owners[..|es| - 1])
      + if es[|es| - 1].Answer? then {owners[|es| - 1]} else {}
  }

  /** The answered queries with this id, had each answer gone to its owner. */
  ghost function WithId(owners: set<nat>, id: nat): set<nat> {
    set o | o in owners && IdOf(o) == id
  }

  /** The answered pairs with this id are the first n. */
  predicate FirstAnswered(pairs: seq<Pair>, id: nat, n: nat) {
    forall i | 0 <= i < |pairs| && IdOf(i) == id :: pairs[i].answer > 0 <==> i < Nth(id, n)
  }

  /** With every id, the first pairs are answered, as many as answers were delivered to queries with the id. */
  ghost predicate InTurn(s: State, owners: set<nat>) {
    forall id: nat | id < USHRT_MAX :: FirstAnswered(s.pairs, id, |WithId(owners, id)|)
  }

  lemma WithIdGrows(owners: set<nat>, o: nat, id: nat)
    requires o !in owners
    ensures |WithId(owners + {o}, id)| == |WithId(owners, id)| + if IdOf(o) == id then 1 else 0
  {
    hide IdOf;
    if IdOf(o) == id {
      assert WithId(owners + {o}, id) == WithId(owners, id) + {o};
    } else {
      assert WithId(owners + {o}, id) == WithId(owners, id);
    }
  }

  /** Of n + 1 queries with one id, one is not before number n. */
  lemma {:induction false} Pigeonhole(xs: set<nat>, id: nat, n: nat) returns (x: nat)
    requires id < USHRT_MAX && (forall x | x in xs :: IdOf(x) == id) && |xs| == n + 1
    ensures x in xs && x >= Nth(id, n)
  {
    if n == 0 {
      x :| x in xs;
    } else {
      var y := Nth(id, n - 1);
      var z :| z in xs && (y in xs ==> z == y);
      x := Pigeonhole(xs - {z}, id, n - 1);
    }
  }

  /** The search passes the answered pairs with the id and stops at the next one. */
  lemma {:induction false} SearchStops(pairs: seq<Pair>, id: nat, n: nat, i: nat, at: nat)
    requires id < USHRT_MAX && FirstAnswered(pairs, id, n) && IdOf(i) == id && i <= Nth(id, n) < |pairs|
    requires pairs[Nth(id, n)].sent < at
    ensures Slot(pairs, i, at) == Nth(id, n)
    decreases |pairs| - i
  {
    hide IdOf, Nth;
    ClassStep(i, id, n);
    if i < Nth(id, n) {
      SearchStops(pairs, id, n, i + USHRT_MAX, at);
    }
  }

  lemma CreditNext(pairs: seq<Pair>, id: nat, n: nat, at: nat)
    requires id < USHRT_MAX && FirstAnswered(pairs, id, n) && Nth(id, n) < |pairs|
    ensures FirstAnswered(Credit(pairs, Nth(id, n), at), id, n + 1)
  {
    hide IdOf, Nth;
    forall i | 0 <= i < |pairs| && IdOf(i) == id
      ensures Credit(pairs, Nth(id, n), at)[i].answer > 0 <==> i < Nth(id, n + 1)
    {
      ClassStep(i, id, n);
    }
  }

  /** The oldest query with the id of an honest answer that is still unanswered has been sent, and before now. */
  lemma OldestOutstanding(s: State, owners: set<nat>, clock: nat, owner: nat, at: nat) returns (k: nat)
    requires Booked(s, clock) && owner !in owners && forall o | o in owners + {owner} :: o < s.sent && s.sends[o] < at
    ensures k == Nth(IdOf(owner), |WithId(owners, IdOf(owner))|)
    ensures k < s.sent && s.sends[k] < at
  {
    hide IdOf, Nth, Times, Answered;
    var id := IdOf(owner);
    k := Nth(id, |WithId(owners, id)|);
    WithIdGrows(owners, owner, id);
    var x := Pigeonhole(WithId(owners + {owner}, id), id, |WithId(owners, id)|);
    assert x in owners + {owner};
    assert s.sends[k] <= s.sends[x];
  }

  /** An honest answer goes to the oldest unanswered query with its id, and none is taken for a duplicate. */
  lemma CreditsInTurn(s: State, owners: set<nat>, clock: nat, owner: nat, at: nat) returns (k: nat)
    requires Booked(s, clock) && InTurn(s, owners)
    requires owner !in owners && forall o | o in owners + {owner} :: o < s.sent && s.sends[o] < at
    ensures k < s.sent && IdOf(k) == IdOf(owner) && s.sends[k] < at && s.pairs[k].answer == 0
    ensures forall i | 0 <= i < k && IdOf(i) == IdOf(owner) :: s.pairs[i].answer > 0
    ensures var r := Receive(s, IdOf(owner), at);
            r.Some? && r.value.pairs == Credit(s.pairs, k, at) && InTurn(r.value, owners + {owner})
  {
    hide IdOf, Nth, Times, Answered, InOrder, OnceEach;
    var id, n := IdOf(owner), |WithId(owners, IdOf(owner))|;
    k := OldestOutstanding(s, owners, clock, owner, at);
    IdWithin(owner, k, n);
    SearchStops(s.pairs, id, n, id, at);
    forall other: nat | other < USHRT_MAX
      ensures FirstAnswered(Credit(s.pairs, k, at), other, |WithId(owners + {owner}, other)|)
    {
      assert FirstAnswered(s.pairs, other, |WithId(owners, other)|);
      WithIdGrows(owners, owner, other);
      if other == id {
        CreditNext(s.pairs, id, n, at);
      }
    }
  }

  lemma IdWithin(owner: nat, k: nat, n: nat)
    requires k == Nth(IdOf(owner), n)
    ensures IdOf(owner) <= owner && IdOf(k) == IdOf(owner) == IdOf(IdOf(owner)) && IdOf(owner) <= k
  {
  }

  lemma SendKeepsTurn(s: State, owners: set<nat>, stamp: nat)
    requires Sized(s) && s.sent < |s.pairs| && InTurn(s, owners)
    ensures InTurn(Send(s, stamp), owners)
  {
    hide IdOf, Nth;
    var r := Send(s, stamp);
    forall id: nat | id < USHRT_MAX
      ensures FirstAnswered(r.pairs, id, |WithId(owners, id)|)
    {
      assert FirstAnswered(s.pairs, id, |WithId(owners, id)|);
    }
  }

  /** Only sent queries are answered, and only later than they were sent. */
  predicate AnsweredLater(s: State) {
    forall i | 0 <= i < |s.pairs| && s.pairs[i].answer > 0 :: i < s.sent && s.pairs[i].sent < s.pairs[i].received
  }

  /** Every owner so far was sent before the clock. */
  ghost predicate SentBefore(s: State, owners: set<nat>, clock: nat) {
    s.sent <= |s.sends| && forall o | o in owners :: o < s.sent && s.sends[o] < clock
  }

  /** Whatever the order of the answers over an honest network: with every id the answered pairs are always the
      first ones, as many as answers were delivered to queries with that id; no answer is dropped, and none is
      credited to a query that was not sent before it. */
  lemma {:induction false} HonestRun(s: State, interval: nat, es: seq<Event>, owners: seq<nat>)
    requires Initial(s) && Sized(s) && Clocked(es) && Honest(s, interval, es, owners)
    ensures Run(s, interval, es).Some?
    ensures var t, delivered := Run(s, interval, es).value, Delivered(es, owners);
            Booked(t, Clock(es)) && InTurn(t, delivered) && t.received == |delivered|
            && SentBefore(t, delivered, Clock(es)) && AnsweredLater(t)
  {
    RunBooked(s, interval, es);
    if es == [] {
      NothingAnswered(s);
    } else {
      var before, e, owner := es[..|es| - 1], es[|es| - 1], owners[|es| - 1];
      HonestRun(s, interval, before, owners[..|es| - 1]);
      var t, delivered := Run(s, interval, before).value, Delivered(before, owners[..|es| - 1]);
      HonestStep(t, delivered, Clock(before), interval, e, owner);
      if e.Writable? {
        assert delivered + {} == delivered;
      }
    }
  }

  lemma HonestStep(t: State, delivered: set<nat>, clock: nat, interval: nat, e: Event, owner: nat)
    requires Booked(t, clock) && InTurn(t, delivered) && t.received == |delivered|
    requires SentBefore(t, delivered, clock) && clock <= First(e) <= Last(e) && AnsweredLater(t)
    requires e.Answer? ==>
      owner < t.sent && t.sends[owner] < e.at && e.id == IdOf(owner) && owner !in delivered
    ensures var r, after := Step(t, interval, e), delivered + if e.Answer? then {owner} else {};
            r.Some? && InTurn(r.value, after) && r.value.received == |after| && SentBefore(r.value, after, Last(e))
            && AnsweredLater(r.value)
  {
    hide IdOf, Nth, Times, Answered, InOrder, OnceEach, InTurn;
    match e
    case Answer(id, at) =>
      var k := CreditsInTurn(t, delivered, clock, owner, at);
      CreditedOne(t, id, at, k);
    case Writable(now, stamp) =>
      assert delivered + {} == delivered;
      if t.sent < |t.pairs| && MaySend(t, interval, now) {
        SendKeepsTurn(t, delivered, stamp);
      }
  }

  lemma CreditedOne(t: State, id: u16, at: nat, k: nat)
    requires Sized(t) && Receive(t, id, at).Some? && k < |t.pairs| && t.pairs[k].answer == 0
    requires Receive(t, id, at).value.pairs == Credit(t.pairs, k, at)
    requires SentAsPaired(t) && k < t.sent && t.sends[k] < at && AnsweredLater(t)
    ensures var r := Receive(t, id, at).value;
            r.received == t.received + 1 && r.sent == t.sent && r.sends == t.sends && AnsweredLater(r)
  {
    CreditCounts(t.pairs, k, at);
  }

  lemma NothingAnswered(s: State)
    requires Initial(s)
    ensures InTurn(s, {})
  {
    forall id: nat | id < USHRT_MAX
      ensures FirstAnswered(s.pairs, id, |WithId({}, id)|)
    {
      assert WithId({}, id) == {};
    }
  }

  /** The last answer of an honest run was credited to the oldest unanswered query with its id. */
  lemma HonestCredit(s: State, interval: nat, es: seq<Event>, owners: seq<nat>) returns (k: nat)
    requires Initial(s) && Sized(s) && Clocked(es) && Honest(s, interval, es, owners)
    requires es != [] && es[|es| - 1].Answer?
    ensures Run(s, interval, es[..|es| - 1]).Some? && Run(s, interval, es).Some?
    ensures var t, e := Run(s, interval, es[..|es| - 1]).value, es[|es| - 1];
            && k < t.sent && IdOf(k) == e.id && t.pairs[k].answer == 0
            && (forall i | 0 <= i < k && IdOf(i) == e.id :: t.pairs[i].answer > 0)
            && Run(s, interval, es).value.pairs == Credit(t.pairs, k, e.at)
  {
    hide Credit, Receive, InTurn, Delivered, Times, Answered;
    var before, n := es[..|es| - 1], |es| - 1;
    HonestRun(s, interval, before, owners[..n]);
    HonestRun(s, interval, es, owners);
    var t := Run(s, interval, before).value;
    k := CreditsInTurn(t, Delivered(before, owners[..n]), Clock(before), owners[n], es[n].at);
  }
}
