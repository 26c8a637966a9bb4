/** The serving loop of the stub server: datagrams in, answers through the queue, datagrams out. */
module Server {
  import opened Bytes
  import opened DnsMessage
  import opened Answer
  import MQ = MessageQueue

  const RECEIVE_BUFFER_SIZE: nat := 65535
  const SEND_BUFFER_SIZE: nat := 65535
  const SEND_QUEUE_SIZE: nat := 100 * 1024 * 1024

  // What an IPv4 datagram socket can deliver: an address of at most a sockaddr_storage, and a payload.

  const ADDRESS_LIMIT: nat := 128
  const PAYLOAD_LIMIT: nat := 65507

  datatype AnyDatagram = Datagram(client: seq<byte>, query: seq<byte>)

  type Datagram = d: AnyDatagram | |d.client| <= ADDRESS_LIMIT && |d.query| <= PAYLOAD_LIMIT
    witness Datagram([], [])

  /** How `sendto` ends. */
  datatype SendResult = Accepted | WouldBlock | Short | Failed

  /** One return of `pselect`: the datagrams there are, whether receiving then fails, how sending goes. */
  datatype Round = Round(arrivals: seq<Datagram>, broken: bool, writable: bool, results: seq<SendResult>)

  predicate Answerable(ds: seq<Datagram>) {
    forall d | d in ds :: Reply(d.query).Some?
  }

  /** The messages to be sent for a sequence of datagrams, in its order. */
  function Answers(ds: seq<Datagram>): seq<MQ.Message>
    requires Answerable(ds)
  {
    if ds == [] then []
    else Answers(ds[..|ds| - 1]) + [MQ.Message(ds[|ds| - 1].client, Reply(ds[|ds| - 1].query).value)]
  }

  lemma {:induction false} AnswersConcat(a: seq<Datagram>, b: seq<Datagram>)
    requires Answerable(a) && Answerable(b)
    ensures Answerable(a + b) && Answers(a + b) == Answers(a) + Answers(b)
  {
    hide Reply;
    if b == [] {
      assert a + b == a;
    } else {
      AnswersConcat(a, b[..|b| - 1]);
      assert (a + b)[..|a + b| - 1] == a + b[..|b| - 1];
    }
  }

  // How many answers may wait before one can fail to be queued

  const LARGEST_FRAME: nat := 13 + ADDRESS_LIMIT + PAYLOAD_LIMIT + 16
  const BACKLOG: nat := 1594

  ghost predicate Small(ms: seq<MQ.Message>) {
    forall m | m in ms :: MQ.FrameSize(m) <= LARGEST_FRAME
  }

  lemma {:induction false} SmallFrames(ms: seq<MQ.Message>)
    requires Small(ms)
    ensures |MQ.Frames(ms)| <= |ms| * LARGEST_FRAME && MQ.LargestFrame(ms) <= LARGEST_FRAME
  {
    hide MQ.Frames, MQ.LargestFrame, MQ.FrameSize, Small;
    SmallParts(ms);
    if ms != [] {
      SmallFrames(ms[1..]);
    }
  }

  lemma SmallNone()
    ensures Small([])
  {
  }

  lemma SmallRest(a: seq<MQ.Message>, b: seq<MQ.Message>)
    requires Small(a + b)
    ensures Small(b)
  {
    assert forall m | m in b :: m in a + b;
  }

  lemma SmallParts(ms: seq<MQ.Message>)
    requires Small(ms)
    ensures ms == [] ==> MQ.Frames(ms) == [] && MQ.LargestFrame(ms) == 0
    ensures ms != [] ==>
      && Small(ms[1..]) && |MQ.Frames(ms)| <= LARGEST_FRAME + |MQ.Frames(ms[1..])|
      && (MQ.LargestFrame(ms) <= LARGEST_FRAME || MQ.LargestFrame(ms) == MQ.LargestFrame(ms[1..]))
  {
    if ms != [] {
      assert ms[0] in ms;
    }
  }

  /** A queue of the server's size takes one more answer whenever at most `BACKLOG` are waiting, whatever their
      sizes and wherever they lie. */
  lemma BacklogFits(q: MQ.Queue, n: nat)
    requires q.Valid() && q.buffer.Length == SEND_QUEUE_SIZE && Small(q.Contents())
    requires |q.Contents()| <= BACKLOG && n <= LARGEST_FRAME
    ensures q.Fits(n)
  {
    hide MQ.Ring, MQ.Frames, MQ.LargestFrame, Small;
    SmallFrames(q.Contents());
    MQ.CapacityGuarantee(q, n, LARGEST_FRAME);
  }

  lemma ReplySize(query: seq<byte>)
    requires Reply(query).Some?
    ensures |Reply(query).value| <= |query| + 16
  {
    ReplyCases(query);
  }

  lemma NextAnswer(arrivals: seq<Datagram>, taken: nat)
    requires taken < |arrivals| && Answerable(arrivals[..taken]) && Reply(arrivals[taken].query).Some?
    ensures var m := MQ.Message(arrivals[taken].client, Reply(arrivals[taken].query).value);
            && Answerable(arrivals[..taken + 1])
            && Answers(arrivals[..taken + 1]) == Answers(arrivals[..taken]) + [m]
            && MQ.Sized(m) && MQ.FrameSize(m) <= LARGEST_FRAME
  {
    hide Reply, Pow256;
    ReplySize(arrivals[taken].query);
    Widths();
    assert arrivals[..taken + 1][..taken] == arrivals[..taken];
  }

  /** The answer to this datagram does not fit. */
  ghost predicate NoRoom(queue: MQ.Queue, d: Datagram)
    requires Reply(d.query).Some?
    reads queue
  {
    !queue.Fits(MQ.FrameSize(MQ.Message(d.client, Reply(d.query).value)))
  }

  lemma NoRoomIsFull(queue: MQ.Queue, d: Datagram)
    requires queue.Valid() && queue.buffer.Length == SEND_QUEUE_SIZE && Small(queue.Contents())
    requires Reply(d.query).Some? && NoRoom(queue, d)
    ensures |queue.Contents()| > BACKLOG
  {
    hide Reply, MQ.Ring, MQ.Frames, Small;
    ReplySize(d.query);
    if |queue.Contents()| <= BACKLOG {
      BacklogFits(queue, MQ.FrameSize(MQ.Message(d.client, Reply(d.query).value)));
    }
  }

  /** Answers and queues the datagrams there are. It gives up only on a broken socket, on a message without a
      whole question, and on a queue without room for the answer, which takes more than `BACKLOG` waiting answers. */
  method RecvAll(queue: MQ.Queue, recvBuffer: array<byte>, sendBuffer: array<byte>,
                 arrivals: seq<Datagram>, broken: bool)
    returns (ok: bool, taken: nat)
    requires queue.Valid() && queue.buffer.Length == SEND_QUEUE_SIZE && Small(queue.Contents())
    requires recvBuffer.Length == RECEIVE_BUFFER_SIZE && sendBuffer.Length == SEND_BUFFER_SIZE
    requires recvBuffer != sendBuffer && recvBuffer != queue.buffer && sendBuffer != queue.buffer
    modifies queue, queue.buffer, recvBuffer, sendBuffer
    ensures queue.Valid() && Small(queue.Contents())
    ensures taken <= |arrivals| && Answerable(arrivals[..taken])
    ensures queue.Contents() == old(queue.Contents()) + Answers(arrivals[..taken])
    ensures ok <==> taken == |arrivals| && !broken
    ensures taken < |arrivals| ==> Reply(arrivals[taken].query).None? || NoRoom(queue, arrivals[taken])
  {
    hide Reply, MQ.Ring, MQ.Frames, MQ.FrameSize, MQ.Sized, Answers, Answerable, Splice;
    taken := 0;
    assert Answers(arrivals[..0]) == [] && Answerable(arrivals[..0]) by { NoAnswers(arrivals); }
    while taken < |arrivals|
      invariant queue.Valid() && Small(queue.Contents())
      invariant taken <= |arrivals| && Answerable(arrivals[..taken])
      invariant queue.Contents() == old(queue.Contents()) + Answers(arrivals[..taken])
    {
      var d := arrivals[taken];
      SpliceAppends(recvBuffer[..], 0, d.query);
      CopyInto(recvBuffer, 0, d.query);
      assert recvBuffer[..|d.query|] == d.query;
      var made, size := MakeAnswer(recvBuffer, |d.query|, sendBuffer);
      if !made {
        return false, taken;
      }
      NextAnswer(arrivals, taken);
      var pushed := queue.Push(d.client, sendBuffer[..size]);
      if !pushed {
        return false, taken;
      }
      taken := taken + 1;
    }
    ok := !broken;
    assert arrivals[..taken] == arrivals;
  }

  lemma NoAnswers(arrivals: seq<Datagram>)
    ensures Answerable(arrivals[..0]) && Answers(arrivals[..0]) == []
  {
  }

  /** The message that is handed to `sendto`, from where it lies in the queue. */
  method Oldest(queue: MQ.Queue) returns (head: nat, message: MQ.Message)
    requires queue.Valid() && queue.Contents() != []
    ensures head == queue.NextHead() && message == queue.Contents()[0]
  {
    hide MQ.Ring, MQ.Frames, MQ.FrameSize, MQ.Sized, Holds;
    var found, newHead, address, addressLength, payload, size := queue.Get();
    HeldBytes(queue.buffer[..], address, queue.Contents()[0].address);
    HeldBytes(queue.buffer[..], payload, queue.Contents()[0].payload);
    head := newHead;
    message := MQ.Message(queue.buffer[address..address + addressLength], queue.buffer[payload..payload + size]);
  }

  lemma MoveOne(sent: seq<MQ.Message>, waiting: seq<MQ.Message>)
    requires waiting != []
    ensures sent + waiting == sent + [waiting[0]] + waiting[1..]
  {
  }

  /** Sends from the queue until it is empty or the socket would block, oldest answer first. A message leaves
      the queue exactly when it has been sent. */
  method SendAll(queue: MQ.Queue, results: seq<SendResult>) returns (ok: bool, sent: seq<MQ.Message>)
    requires queue.Valid()
    modifies queue
    ensures queue.Valid()
    ensures old(queue.Contents()) == sent + queue.Contents()
    ensures |sent| <= |results| && forall k | 0 <= k < |sent| :: results[k] == Accepted
    ensures queue.Contents() != [] && |sent| < |results| ==> results[|sent|] != Accepted
    ensures ok <==> queue.Contents() == [] || |sent| == |results| || results[|sent|] == WouldBlock
  {
    hide MQ.Ring, MQ.Frames, MQ.FrameSize, MQ.Sized, Holds, Pow256;
    sent := [];
    while queue.head != queue.tail
      invariant queue.Valid() && old(queue.Contents()) == sent + queue.Contents()
      invariant |sent| <= |results| && forall k | 0 <= k < |sent| :: results[k] == Accepted
      decreases |queue.Contents()|
    {
      queue.EmptyExactlyWhenHeadIsTail();
      var head, message := Oldest(queue);
      // past the given results the socket would block
      var result := if |sent| < |results| then results[|sent|] else WouldBlock;
      if result == WouldBlock {
        return true, sent;
      }
      if result != Accepted {
        return false, sent;
      }
      MoveOne(sent, queue.Contents());
      queue.Release(head);
      sent := sent + [message];
    }
    queue.EmptyExactlyWhenHeadIsTail();
    ok := true;
  }

  function Offered(rounds: seq<Round>): seq<Datagram> {
    if rounds == [] then [] else Offered(rounds[..|rounds| - 1]) + rounds[|rounds| - 1].arrivals
  }

  /** How many messages the socket takes before it does anything else. */
  function Accepting(results: seq<SendResult>): (k: nat)
    ensures k <= |results| && (forall i | 0 <= i < k :: results[i] == Accepted)
    ensures k < |results| ==> results[k] != Accepted
  {
    if results == [] || results[0] != Accepted then 0 else 1 + Accepting(results[1..])
  }

  /** How many answers have left after whole rounds in which nothing failed. */
  function Sent(rounds: seq<Round>): (n: nat)
    ensures n <= |Offered(rounds)|
  {
    if rounds == [] then 0
    else
      var before, last := Sent(rounds[..|rounds| - 1]), rounds[|rounds| - 1];
      if !last.writable then before
      else if before + Accepting(last.results) < |Offered(rounds)| then before + Accepting(last.results)
      else |Offered(rounds)|
  }

  /** Receiving fails in this round. */
  predicate ReceiveFails(r: Round) {
    r.broken || !Answerable(r.arrivals)
  }

  /** Sending fails in round i: the socket refuses or cuts a message, before the queue is empty. */
  predicate SendFails(rounds: seq<Round>, i: nat)
    requires i < |rounds|
  {
    var r := rounds[i];
    var k := Accepting(r.results);
    && r.writable && k < |r.results| && r.results[k] != WouldBlock
    && Sent(rounds[..i]) + k < |Offered(rounds[..i + 1])|
  }

  predicate Fails(rounds: seq<Round>, i: nat)
    requires i < |rounds|
  {
    ReceiveFails(rounds[i]) || SendFails(rounds, i)
  }

  /** How serving goes on or ends. */
  datatype Outcome = Serving | ReceivingFailed(taken: nat) | SendingFailed

  /** The datagrams taken, and how many of the answers to them have left, when round number `done` ends serving
      so, or when all rounds are done. */
  function Taken(rounds: seq<Round>, done: nat, outcome: Outcome): seq<Datagram>
    requires done <= |rounds| && (outcome.Serving? <==> done == |rounds|)
    requires outcome.ReceivingFailed? ==> outcome.taken <= |rounds[done].arrivals|
  {
    match outcome
    case Serving => Offered(rounds)
    case ReceivingFailed(n) => Offered(rounds[..done]) + rounds[done].arrivals[..n]
    case SendingFailed => Offered(rounds[..done + 1])
  }

  function Left(rounds: seq<Round>, done: nat, outcome: Outcome): nat
    requires done <= |rounds| && (outcome.Serving? <==> done == |rounds|)
  {
    Sent(rounds[..done]) + if outcome.SendingFailed? then Accepting(rounds[done].results) else 0
  }

  /** Why serving ends. Only a queue without room for the next answer does not show in the rounds. */
  ghost predicate Explained(rounds: seq<Round>, done: nat, outcome: Outcome, queue: MQ.Queue)
    requires done <= |rounds| && (outcome.Serving? <==> done == |rounds|)
    reads queue
  {
    match outcome
    case Serving => true
    case ReceivingFailed(n) =>
      var r := rounds[done];
      if n < |r.arrivals| then Reply(r.arrivals[n].query).None? || NoRoom(queue, r.arrivals[n])
      else n == |r.arrivals| && r.broken
    case SendingFailed => SendFails(rounds, done)
  }

  lemma NotAnswerable(ds: seq<Datagram>, n: nat)
    requires n <= |ds|
    ensures n < |ds| && Reply(ds[n].query).None? ==> !Answerable(ds)
  {
  }

  /** Round i has sent k messages, and some are left. */
  lemma SentInRound(rounds: seq<Round>, i: nat, k: nat, left: nat)
    requires i < |rounds| && rounds[i].writable
    requires Sent(rounds[..i]) + k + left == |Offered(rounds[..i + 1])|
    requires k <= |rounds[i].results| && forall j | 0 <= j < k :: rounds[i].results[j] == Accepted
    requires left > 0 && k < |rounds[i].results| ==> rounds[i].results[k] != Accepted
    ensures var results := rounds[i].results;
            if left == 0 || k == |results| || results[k] == WouldBlock
            then Sent(rounds[..i + 1]) == Sent(rounds[..i]) + k && !SendFails(rounds, i)
            else SendFails(rounds, i) && k == Accepting(results)
  {
    hide Offered;
    assert rounds[..i + 1][..i] == rounds[..i];
  }

  lemma NothingSentInRound(rounds: seq<Round>, i: nat)
    requires i < |rounds| && !rounds[i].writable
    ensures Sent(rounds[..i + 1]) == Sent(rounds[..i]) && !SendFails(rounds, i)
  {
    assert rounds[..i + 1][..i] == rounds[..i];
  }

  lemma AnswersCount(ds: seq<Datagram>)
    requires Answerable(ds)
    ensures |Answers(ds)| == |ds|
  {
    AnswersAre(ds);
  }

  /** There is one message a datagram, to its sender, with the reply to its query. */
  lemma {:induction false} AnswersAre(ds: seq<Datagram>)
    requires Answerable(ds)
    ensures |Answers(ds)| == |ds|
    ensures forall k | 0 <= k < |ds| ::
      Answers(ds)[k].address == ds[k].client && Reply(ds[k].query) == Some(Answers(ds)[k].payload)
  {
    hide Reply;
    if ds != [] {
      AnswersAre(ds[..|ds| - 1]);
    }
  }

  /** Serves round by round until a round fails. Which answers have been sent depends only on the rounds: none is
      lost, repeated or overtaken, and all that can be sent is. */
  method Serve(queue: MQ.Queue, recvBuffer: array<byte>, sendBuffer: array<byte>, rounds: seq<Round>)
    returns (outcome: Outcome, done: nat, sent: seq<MQ.Message>)
    requires queue.Valid() && queue.buffer.Length == SEND_QUEUE_SIZE && queue.Contents() == []
    requires recvBuffer.Length == RECEIVE_BUFFER_SIZE && sendBuffer.Length == SEND_BUFFER_SIZE
    requires recvBuffer != sendBuffer && recvBuffer != queue.buffer && sendBuffer != queue.buffer
    modifies queue, queue.buffer, recvBuffer, sendBuffer
    ensures queue.Valid() && done <= |rounds| && (outcome.Serving? <==> done == |rounds|)
    ensures Explained(rounds, done, outcome, queue)
    ensures forall i | 0 <= i < done :: !Fails(rounds, i)
    ensures done < |rounds| ==> Fails(rounds, done) || |queue.Contents()| > BACKLOG
    ensures var taken := Taken(rounds, done, outcome);
            && Answerable(taken) && sent + queue.Contents() == Answers(taken)
            && |sent| == Left(rounds, done, outcome)
  {
    hide MQ.Ring, MQ.Frames, MQ.FrameSize, MQ.Sized, Answers, Answerable, Reply, Accepting, Sent, SendFails, Small;
    sent, done := [], 0;
    ghost var taken: seq<Datagram> := [];
    NoAnswers([]);
    SmallNone();
    while done < |rounds|
      invariant done <= |rounds| && queue.Valid() && Small(queue.Contents())
      invariant taken == Offered(rounds[..done]) && Answerable(taken)
      invariant sent + queue.Contents() == Answers(taken) && |sent| == Sent(rounds[..done])
      invariant forall i | 0 <= i < done :: !Fails(rounds, i)
    {
      var round := rounds[done];
      assert rounds[..done + 1][..done] == rounds[..done];
      var received, n := RecvAll(queue, recvBuffer, sendBuffer, round.arrivals, round.broken);
      AnswersConcat(taken, round.arrivals[..n]);
      if !received {
        NotAnswerable(round.arrivals, n);
        if n < |round.arrivals| && Reply(round.arrivals[n].query).Some? {
          NoRoomIsFull(queue, round.arrivals[n]);
        }
        return ReceivingFailed(n), done, sent;
      }
      assert round.arrivals[..n] == round.arrivals;
      taken := taken + round.arrivals;
      AnswersCount(taken);
      if round.writable {
        ghost var waiting := queue.Contents();
        var sending, more := SendAll(queue, round.results);
        SmallRest(more, queue.Contents());
        SentInRound(rounds, done, |more|, |queue.Contents()|);
        assert sent + waiting == sent + more + queue.Contents();
        sent := sent + more;
        if !sending {
          return SendingFailed, done, sent;
        }
      } else {
        NothingSentInRound(rounds, done);
      }
      done := done + 1;
    }
    assert rounds[..done] == rounds;
    outcome := Serving;
  }

  /** A round that may send, and whose socket neither blocks nor fails for as many messages as wait, empties the
      queue. */
  lemma Drains(rounds: seq<Round>)
    requires rounds != []
    requires var last := rounds[|rounds| - 1];
             && !Fails(rounds, |rounds| - 1) && last.writable && WouldBlock !in last.results
             && |last.results| >= |Offered(rounds)| - Sent(rounds[..|rounds| - 1])
    ensures Sent(rounds) == |Offered(rounds)|
  {
    assert rounds[..|rounds| - 1 + 1] == rounds;
  }

  /** One datagram that is shorter than a header, or that ends within its question, fails its round. */
  lemma ShortFails(rounds: seq<Round>, i: nat, d: Datagram)
    requires i < |rounds| && d in rounds[i].arrivals
    requires |d.query| < HEADER_SIZE || (Acceptable(d.query) && |d.query| < QuestionEnd(d.query))
    ensures Fails(rounds, i)
  {
    ReplyCases(d.query);
  }
}
