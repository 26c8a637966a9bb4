/** The connections of the DNS test tool: a channel of tokens, each a connection or nil, and workers that take a
    token, use it and put one back. Workers interleave in any way. */
module TokenPool {
  import opened Bytes

  /** None is the nil connection. */
  type Token = Option<nat>

  datatype Worker =
    | Idle
    | Dialing
    | Ready(conn: nat)
    | Exchanging(conn: nat, seed: nat)
    | Returning(token: Token)

  /** `dialled` numbers the connections there ever were, and `seeds` are the requests, in order of their counts. */
  datatype Pool = Pool(tokens: seq<Token>, workers: seq<Worker>, open: set<nat>, dialled: nat, seeds: seq<nat>)

  /** What a worker does next. */
  datatype Action = Take | DialSucceeds | DialFails | Ask | ExchangeSucceeds | ExchangeFails | Return

  function Start(clients: nat, workers: nat): Pool {
    Pool(seq(clients, _ => None), seq(workers, _ => Idle), {}, 0, [])
  }

  /** A receive waits for a token, and a send for room in the channel. */
  predicate Enabled(p: Pool, clients: nat, w: nat, a: Action) {
    w < |p.workers| && match a
      case Take => p.workers[w].Idle? && p.tokens != []
      case DialSucceeds => p.workers[w].Dialing?
      case DialFails => p.workers[w].Dialing?
      case Ask => p.workers[w].Ready?
      case ExchangeSucceeds => p.workers[w].Exchanging?
      case ExchangeFails => p.workers[w].Exchanging?
      case Return => p.workers[w].Returning? && |p.tokens| < clients
  }

  function Act(p: Pool, clients: nat, w: nat, a: Action): Pool
    requires Enabled(p, clients, w, a)
  {
    match a
    case Take =>
      var next := match p.tokens[0] case None => Dialing case Some(c) => Ready(c);
      p.(tokens := p.tokens[1..], workers := p.workers[w := next])
    case DialSucceeds =>
      p.(workers := p.workers[w := Ready(p.dialled)], open := p.open + {p.dialled}, dialled := p.dialled + 1)
    case DialFails =>
      p.(workers := p.workers[w := Returning(None)])
    case Ask =>
      var seed := |p.seeds| + 1;
      p.(workers := p.workers[w := Exchanging(p.workers[w].conn, seed)], seeds := p.seeds + [seed])
    case ExchangeSucceeds =>
      p.(workers := p.workers[w := Returning(Some(p.workers[w].conn))])
    case ExchangeFails =>
      p.(workers := p.workers[w := Returning(None)], open := p.open - {p.workers[w].conn})
    case Return =>
      p.(tokens := p.tokens + [p.workers[w].token], workers := p.workers[w := Idle])
  }

  /** The pool after some steps; None when one of them could not be taken. */
  function Run(clients: nat, workers: nat, steps: seq<(nat, Action)>): Option<Pool> {
    if steps == [] then Some(Start(clients, workers))
    else
      var p :- Run(clients, workers, steps[..|steps| - 1]);
      var (w, a) := steps[|steps| - 1];
      if Enabled(p, clients, w, a) then Some(Act(p, clients, w, a)) else None
  }

  // Where the connections are

  function OfToken(t: Token, c: nat): nat {
    if t == Some(c) then 1 else 0
  }

  function OfWorker(w: Worker, c: nat): nat {
    match w
    case Ready(conn) => if conn == c then 1 else 0
    case Exchanging(conn, _) => if conn == c then 1 else 0
    case Returning(t) => OfToken(t, c)
    case _ => 0
  }

  function InChannel(ts: seq<Token>, c: nat): nat {
    if ts == [] then 0 else OfToken(ts[0], c) + InChannel(ts[1..], c)
  }

  function InWorkers(ws: seq<Worker>, c: nat): nat {
    if ws == [] then 0 else OfWorker(ws[0], c) + InWorkers(ws[1..], c)
  }

  /** In how many places a connection is. */
  function Places(p: Pool, c: nat): nat {
    InChannel(p.tokens, c) + InWorkers(p.workers, c)
  }

  function Share(w: Worker): nat {
    if w.Idle? then 0 else 1
  }

  /** How many workers have a token. */
  function Busy(ws: seq<Worker>): nat {
    if ws == [] then 0 else Busy(ws[1..]) + Share(ws[0])
  }

  lemma {:induction false} ChannelAppend(ts: seq<Token>, t: Token, c: nat)
    ensures InChannel(ts + [t], c) == InChannel(ts, c) + OfToken(t, c)
  {
    if ts == [] {
      assert ts + [t] == [t];
    } else {
      assert (ts + [t])[1..] == ts[1..] + [t];
      ChannelAppend(ts[1..], t, c);
    }
  }

  lemma {:induction false} WorkerUpdate(ws: seq<Worker>, i: nat, w: Worker, c: nat)
    requires i < |ws|
    ensures InWorkers(ws[i := w], c) + OfWorker(ws[i], c) == InWorkers(ws, c) + OfWorker(w, c)
    ensures Busy(ws[i := w]) + Share(ws[i]) == Busy(ws) + Share(w)
  {
    var us := ws[i := w];
    if i == 0 {
      assert us[1..] == ws[1..];
    } else {
      WorkerUpdate(ws[1..], i - 1, w, c);
      assert us[1..] == ws[1..][i - 1 := w] && us[0] == ws[0];
    }
  }

  /** What every interleaving keeps: tokens are never lost or made, every open connection is in exactly one
      place and a closed one in none, and request number n has seed n. */
  ghost predicate Kept(p: Pool, clients: nat) {
    && |p.tokens| + Busy(p.workers) == clients
    && (forall c: nat :: Places(p, c) == if c in p.open then 1 else 0)
    && (forall c | c in p.open :: c < p.dialled)
    && (forall i | 0 <= i < |p.seeds| :: p.seeds[i] == i + 1)
  }

  /** At the start there is a nil token for each client, and every worker is idle. */
  lemma StartKept(clients: nat, workers: nat)
    ensures var p := Start(clients, workers);
            && Kept(p, clients) && |p.tokens| == clients && (forall t | t in p.tokens :: t == None)
            && |p.workers| == workers && (forall w | w in p.workers :: w == Idle) && Busy(p.workers) == 0
  {
    var p := Start(clients, workers);
    forall c: nat
      ensures Places(p, c) == 0
    {
      AllNil(p.tokens, c);
      AllIdle(p.workers, c);
    }
    AllIdle(p.workers, 0);
  }

  lemma {:induction false} AllNil(ts: seq<Token>, c: nat)
    requires forall i | 0 <= i < |ts| :: ts[i] == None
    ensures InChannel(ts, c) == 0
  {
    if ts != [] {
      AllNil(ts[1..], c);
    }
  }

  lemma {:induction false} AllIdle(ws: seq<Worker>, c: nat)
    requires forall i | 0 <= i < |ws| :: ws[i] == Idle
    ensures InWorkers(ws, c) == 0 && Busy(ws) == 0
  {
    if ws != [] {
      AllIdle(ws[1..], c);
    }
  }

  /** A connection keeps its place when a token moves, gets its one place by dialling and loses it by a failure. */
  lemma ActPlaces(p: Pool, clients: nat, w: nat, a: Action, c: nat)
    requires Kept(p, clients) && Enabled(p, clients, w, a)
    ensures var q := Act(p, clients, w, a);
            Places(q, c) == if c in q.open then 1 else 0
  {
    hide InWorkers, Busy;
    var q := Act(p, clients, w, a);
    WorkerUpdate(p.workers, w, q.workers[w], c);
    WorkerUpdate(p.workers, w, Idle, c);
    assert Places(p, c) == if c in p.open then 1 else 0;
    if a == Return {
      ChannelAppend(p.tokens, p.workers[w].token, c);
    }
  }

  lemma ActKept(p: Pool, clients: nat, w: nat, a: Action)
    requires Kept(p, clients) && Enabled(p, clients, w, a)
    ensures Kept(Act(p, clients, w, a), clients)
  {
    hide Busy, Places;
    var q := Act(p, clients, w, a);
    WorkerUpdate(p.workers, w, q.workers[w], 0);
    forall c: nat
      ensures Places(q, c) == if c in q.open then 1 else 0
    {
      ActPlaces(p, clients, w, a, c);
    }
  }

  lemma {:induction false} RunKept(clients: nat, workers: nat, steps: seq<(nat, Action)>)
    requires Run(clients, workers, steps).Some?
    ensures var p := Run(clients, workers, steps).value;
            Kept(p, clients) && |p.workers| == workers
  {
    if steps == [] {
      StartKept(clients, workers);
    } else {
      var before := steps[..|steps| - 1];
      var (w, a) := steps[|steps| - 1];
      RunKept(clients, workers, before);
      ActKept(Run(clients, workers, before).value, clients, w, a);
    }
  }

  /** Putting a token back never blocks, every connection is in one place while it is open and in none before
      and after, and with a client and a worker there is always a step to take. */
  lemma NeverStuck(clients: nat, workers: nat, steps: seq<(nat, Action)>)
    requires Run(clients, workers, steps).Some?
    ensures var p := Run(clients, workers, steps).value;
            && |p.workers| == workers
            && (forall w: nat | w < workers && p.workers[w].Returning? :: Enabled(p, clients, w, Return))
            && (forall c: nat :: Places(p, c) == if c in p.open then 1 else 0)
            && (clients > 0 && workers > 0 ==> exists w: nat, a: Action :: Enabled(p, clients, w, a))
  {
    hide Places;
    RunKept(clients, workers, steps);
    var p := Run(clients, workers, steps).value;
    forall w: nat | w < workers && p.workers[w].Returning?
      ensures Enabled(p, clients, w, Return)
    {
      WorkerUpdate(p.workers, w, Idle, 0);
    }
    if clients > 0 && workers > 0 {
      if p.tokens == [] {
        var w := SomeBusy(p.workers);
        BusyStep(p, clients, w);
      } else if p.workers[0].Idle? {
        assert Enabled(p, clients, 0, Take);
      } else {
        BusyStep(p, clients, 0);
      }
    }
  }

  /** A closed connection stays closed: later in the run it is neither open again nor anywhere in the pool. */
  lemma {:induction false} ClosedForGood(clients: nat, workers: nat, steps: seq<(nat, Action)>, n: nat, c: nat)
    requires Run(clients, workers, steps).Some? && n <= |steps| && Run(clients, workers, steps[..n]).Some?
    requires var p := Run(clients, workers, steps[..n]).value;
             c < p.dialled && c !in p.open
    ensures var q := Run(clients, workers, steps).value;
            c < q.dialled && c !in q.open && Places(q, c) == 0
  {
    hide Places;
    RunKept(clients, workers, steps);
    if n == |steps| {
      assert steps[..n] == steps;
    } else {
      var before := steps[..|steps| - 1];
      assert before[..n] == steps[..n];
      ClosedForGood(clients, workers, before, n, c);
    }
  }

  /** Step i of the run is a failed exchange over this connection. */
  predicate FailsOver(clients: nat, workers: nat, steps: seq<(nat, Action)>, i: nat, c: nat)
    requires i < |steps|
  {
    var r, (w, a) := Run(clients, workers, steps[..i]), steps[i];
    && r.Some? && a == ExchangeFails && w < |r.value.workers|
    && r.value.workers[w].Exchanging? && r.value.workers[w].conn == c
  }

  /** A connection is open exactly when it was dialled and no exchange over it has failed. */
  lemma {:induction false} OpenUntilFailure(clients: nat, workers: nat, steps: seq<(nat, Action)>, c: nat)
    requires Run(clients, workers, steps).Some?
    ensures var p := Run(clients, workers, steps).value;
            c in p.open <==> c < p.dialled && forall i | 0 <= i < |steps| :: !FailsOver(clients, workers, steps, i, c)
  {
    hide Places, Busy;
    if steps != [] {
      var before, last := steps[..|steps| - 1], |steps| - 1;
      var (w, a) := steps[last];
      var p := Run(clients, workers, before).value;
      OpenUntilFailure(clients, workers, before, c);
      RunKept(clients, workers, before);
      FailuresBefore(clients, workers, before, steps, c);
      if a == DialSucceeds && c == p.dialled {
        NeverFailed(clients, workers, before, c);
      }
    }
  }

  lemma FailuresBefore(clients: nat, workers: nat, before: seq<(nat, Action)>, steps: seq<(nat, Action)>, c: nat)
    requires steps != [] && before == steps[..|steps| - 1]
    ensures (forall i | 0 <= i < |steps| :: !FailsOver(clients, workers, steps, i, c))
        <==> (forall i | 0 <= i < |before| :: !FailsOver(clients, workers, before, i, c))
             && !FailsOver(clients, workers, steps, |before|, c)
  {
    forall i | 0 <= i < |before|
      ensures FailsOver(clients, workers, before, i, c) <==> FailsOver(clients, workers, steps, i, c)
    {
      assert before[..i] == steps[..i] && before[i] == steps[i];
    }
  }

  /** Nothing is exchanged over a connection that has not been dialled. */
  lemma NeverFailed(clients: nat, workers: nat, steps: seq<(nat, Action)>, c: nat)
    requires Run(clients, workers, steps).Some? && c >= Run(clients, workers, steps).value.dialled
    ensures forall i | 0 <= i < |steps| :: !FailsOver(clients, workers, steps, i, c)
  {
    forall i | 0 <= i < |steps|
      ensures !FailsOver(clients, workers, steps, i, c)
    {
      if FailsOver(clients, workers, steps, i, c) {
        RunPrefix(clients, workers, steps, i);
        var q := Run(clients, workers, steps[..i]).value;
        RunKept(clients, workers, steps[..i]);
        HeldIsOpen(q, clients, steps[i].0, c);
      }
    }
  }

  /** What a worker holds is open. */
  lemma HeldIsOpen(p: Pool, clients: nat, w: nat, c: nat)
    requires Kept(p, clients) && w < |p.workers| && OfWorker(p.workers[w], c) > 0
    ensures c in p.open && c < p.dialled
  {
    hide Busy;
    WorkerUpdate(p.workers, w, Idle, c);
    assert Places(p, c) == if c in p.open then 1 else 0;
  }

  lemma {:induction false} RunPrefix(clients: nat, workers: nat, steps: seq<(nat, Action)>, n: nat)
    requires Run(clients, workers, steps).Some? && n <= |steps|
    ensures Run(clients, workers, steps[..n]).Some?
    ensures Run(clients, workers, steps[..n]).value.dialled <= Run(clients, workers, steps).value.dialled
  {
    if n == |steps| {
      assert steps[..n] == steps;
    } else {
      assert steps[..|steps| - 1][..n] == steps[..n];
      RunPrefix(clients, workers, steps[..|steps| - 1], n);
    }
  }

  /** After a failed exchange the worker returns nil, and its connection is closed and nowhere in the pool; after
      one that succeeds the worker returns the connection, which is open and nowhere else. */
  lemma ExchangeEnds(clients: nat, workers: nat, steps: seq<(nat, Action)>, w: nat, success: bool)
    requires var last := if success then ExchangeSucceeds else ExchangeFails;
             Run(clients, workers, steps + [(w, last)]).Some?
    ensures var last := if success then ExchangeSucceeds else ExchangeFails;
            var p, q := Run(clients, workers, steps), Run(clients, workers, steps + [(w, last)]).value;
            && p.Some? && w < |p.value.workers| == |q.workers| && p.value.workers[w].Exchanging?
            && var c := p.value.workers[w].conn;
               && Places(q, c) == (if success then 1 else 0) && (c in q.open <==> success)
               && q.workers[w] == Returning(if success then Some(c) else None)
  {
    hide Places, Busy;
    var last := if success then ExchangeSucceeds else ExchangeFails;
    var all := steps + [(w, last)];
    assert all[..|all| - 1] == steps && all[|all| - 1] == (w, last);
    RunKept(clients, workers, steps);
    RunKept(clients, workers, all);
    var p := Run(clients, workers, steps).value;
    OpenUntilFailure(clients, workers, all, p.workers[w].conn);
    OpenUntilFailure(clients, workers, steps, p.workers[w].conn);
    HeldIsOpen(p, clients, w, p.workers[w].conn);
  }

  /** After a failed dial the worker returns nil, and no connection is touched; after one that succeeds it has a new
      connection, which is open and nowhere else. */
  lemma DialEnds(clients: nat, workers: nat, steps: seq<(nat, Action)>, w: nat, success: bool)
    requires var last := if success then DialSucceeds else DialFails;
             Run(clients, workers, steps + [(w, last)]).Some?
    ensures var last := if success then DialSucceeds else DialFails;
            var p, q := Run(clients, workers, steps), Run(clients, workers, steps + [(w, last)]).value;
            && p.Some? && w < |q.workers|
            && (forall c: nat | c < p.value.dialled ::
                  (c in q.open <==> c in p.value.open) && Places(q, c) == Places(p.value, c))
            && if !success then q.workers[w] == Returning(None) && q.dialled == p.value.dialled
               else
                 && q.workers[w] == Ready(p.value.dialled) && p.value.dialled in q.open
                 && Places(q, p.value.dialled) == 1
  {
    hide Places, Busy;
    var last := if success then DialSucceeds else DialFails;
    var all := steps + [(w, last)];
    assert all[..|all| - 1] == steps && all[|all| - 1] == (w, last);
    RunKept(clients, workers, steps);
    RunKept(clients, workers, all);
  }

  /** Every exchange is of a request that was counted, and no two are of one. */
  predicate ExchangesDiffer(p: Pool) {
    && (forall w | 0 <= w < |p.workers| && p.workers[w].Exchanging? :: 1 <= p.workers[w].seed <= |p.seeds|)
    && (forall v, w | 0 <= v < w < |p.workers| && p.workers[v].Exchanging? && p.workers[w].Exchanging? ::
          p.workers[v].seed != p.workers[w].seed)
  }

  lemma {:induction false} RunExchanges(clients: nat, workers: nat, steps: seq<(nat, Action)>)
    requires Run(clients, workers, steps).Some?
    ensures ExchangesDiffer(Run(clients, workers, steps).value)
  {
    if steps != [] {
      hide ExchangesDiffer;
      var (w, a) := steps[|steps| - 1];
      RunExchanges(clients, workers, steps[..|steps| - 1]);
      ActExchanges(Run(clients, workers, steps[..|steps| - 1]).value, clients, w, a);
    } else {
      assert forall w | 0 <= w < workers :: Start(clients, workers).workers[w] == Idle;
    }
  }

  lemma ActExchanges(p: Pool, clients: nat, w: nat, a: Action)
    requires ExchangesDiffer(p) && Enabled(p, clients, w, a)
    ensures ExchangesDiffer(Act(p, clients, w, a))
  {
    var q := Act(p, clients, w, a);
    assert forall v | 0 <= v < |p.workers| && v != w :: q.workers[v] == p.workers[v];
    assert q.workers[w].Exchanging? ==> q.workers[w].seed == |p.seeds| + 1 == |q.seeds|;
  }

  // The channel is a queue

  /** The token that a worker got: with nil it dials, and with a connection it is ready. */
  function GotToken(w: Worker): Token {
    match w
    case Ready(c) => Some(c)
    case _ => None
  }

  /** The tokens that workers have got, in order, and those that they have put back. */
  function Got(clients: nat, workers: nat, steps: seq<(nat, Action)>): seq<Token>
    requires Run(clients, workers, steps).Some?
  {
    if steps == [] then []
    else
      var (w, a) := steps[|steps| - 1];
      Got(clients, workers, steps[..|steps| - 1])
      + if a == Take then [GotToken(Run(clients, workers, steps).value.workers[w])] else []
  }

  function PutBack(clients: nat, workers: nat, steps: seq<(nat, Action)>): seq<Token>
    requires Run(clients, workers, steps).Some?
  {
    if steps == [] then []
    else
      var (w, a) := steps[|steps| - 1];
      PutBack(clients, workers, steps[..|steps| - 1])
      + if a == Return then [Run(clients, workers, steps[..|steps| - 1]).value.workers[w].token] else []
  }

  /** Tokens leave the channel in the order in which they came in, behind the nil tokens of the start. */
  lemma {:induction false} FirstInFirstOut(clients: nat, workers: nat, steps: seq<(nat, Action)>)
    requires Run(clients, workers, steps).Some?
    ensures Got(clients, workers, steps) + Run(clients, workers, steps).value.tokens
         == Start(clients, workers).tokens + PutBack(clients, workers, steps)
  {
    if steps != [] {
      hide Act, Start;
      var before := steps[..|steps| - 1];
      var (w, a) := steps[|steps| - 1];
      FirstInFirstOut(clients, workers, before);
      var p, q := Run(clients, workers, before).value, Run(clients, workers, steps).value;
      TokensMove(p, clients, w, a);
      Moved(Got(clients, workers, before), p.tokens, Start(clients, workers).tokens, PutBack(clients, workers, before),
            if a == Take then [GotToken(q.workers[w])] else [], q.tokens,
            if a == Return then [p.workers[w].token] else []);
    }
  }

  lemma TokensMove(p: Pool, clients: nat, w: nat, a: Action)
    requires Enabled(p, clients, w, a)
    ensures var q := Act(p, clients, w, a);
            && w < |q.workers|
            && p.tokens + (if a == Return then [p.workers[w].token] else [])
               == (if a == Take then [GotToken(q.workers[w])] else []) + q.tokens
  {
    if a == Take {
      assert p.tokens == [p.tokens[0]] + p.tokens[1..];
    }
  }

  lemma Moved<T>(got: seq<T>, p: seq<T>, start: seq<T>, back: seq<T>, more: seq<T>, q: seq<T>, put: seq<T>)
    requires got + p == start + back && p + put == more + q
    ensures (got + more) + q == start + (back + put)
  {
    assert (got + more) + q == got + (more + q) == (got + p) + put == start + (back + put);
  }

  lemma {:induction false} SomeBusy(ws: seq<Worker>) returns (w: nat)
    requires Busy(ws) > 0
    ensures w < |ws| && !ws[w].Idle?
  {
    if ws[0].Idle? {
      w := SomeBusy(ws[1..]);
      w := w + 1;
    } else {
      w := 0;
    }
  }

  lemma BusyStep(p: Pool, clients: nat, w: nat)
    requires w < |p.workers| && !p.workers[w].Idle?
    requires p.workers[w].Returning? ==> Enabled(p, clients, w, Return)
    ensures exists w: nat, a: Action :: Enabled(p, clients, w, a)
  {
    match p.workers[w] {
      case Dialing => assert Enabled(p, clients, w, DialFails);
      case Ready(_) => assert Enabled(p, clients, w, Ask);
      case Exchanging(_, _) => assert Enabled(p, clients, w, ExchangeFails);
      case Returning(_) => assert Enabled(p, clients, w, Return);
    }
  }
}
