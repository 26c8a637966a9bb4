/** The stub server's answer to one query: `make_answer` on a little-endian host. */
module Answer {
  import opened Bytes
  import opened Names
  import opened DnsMessage

  /** Name by pointer to offset 12, type A, class IN, TTL 3600, address 1.2.3.4. */
  const A_RECORD: seq<byte> := [0xc0, 0x0c, 0, 1, 0, 1, 0, 0, 0x0e, 0x10, 0, 4, 1, 2, 3, 4]

  /** An `unsigned short` as the host loads it from two bytes. */
  function Native16(s: seq<byte>, at: nat): u16
    requires at + 2 <= |s|
  {
    FromByte(s[at]) + 256 * FromByte(s[at + 1])
  }

  // The flags, as a native word: the first byte on the wire is the low one.

  function LoadFlags(high: byte, low: byte): bv16 {
    ((Bits(low) as bv16) << 8) | (Bits(high) as bv16)
  }

  function StoreFlags(flags: bv16): (s: seq<byte>)
    ensures |s| == 2
  {
    [FromBits((flags & 0xff) as bv8), FromBits((flags >> 8) as bv8)]
  }

  predicate RefusedByFlags(flags: bv16) {
    flags & 0x1f00 != 0
  }

  function RefusedFlags(flags: bv16): bv16 {
    (0x7079 & flags) | 0x0580
  }

  function AnsweredFlags(flags: bv16): bv16 {
    (0x7079 & flags) | 0x0084
  }

  // What `make_answer` leaves in the answer buffer; None when it reports an error.

  function Refusal(query: seq<byte>): seq<byte>
    requires |query| >= HEADER_SIZE
  {
    query[..2] + StoreFlags(RefusedFlags(LoadFlags(query[2], query[3]))) + query[4..]
  }

  function Reply(query: seq<byte>): Option<seq<byte>> {
    if |query| < HEADER_SIZE then None
    else
      var flags := LoadFlags(query[2], query[3]);
      if RefusedByFlags(flags) || Native16(query, 4) != 0x100 || Native16(query, 6) != 0 || Native16(query, 8) != 0
      then Some(Refusal(query))
      else
        var past := FirstNul(query, HEADER_SIZE) + 1;
        if |query| < past + 4 then None
        else if Native16(query, past) != 0x100 then Some(Refusal(query))
        else
          Some(query[..2] + StoreFlags(AnsweredFlags(flags)) + query[4..6] + Be16(1) + query[8..past + 4]
               + A_RECORD + query[past + 4..])
  }

  method MakeRefusedAnswer(query: array<byte>, querySize: nat, answer: array<byte>) returns (answerSize: nat)
    requires HEADER_SIZE <= querySize <= query.Length && querySize <= answer.Length && query != answer
    modifies answer
    ensures answerSize == querySize && answer[..answerSize] == Refusal(query[..querySize])
  {
    CopyInto(answer, 0, query[..querySize]);
    answerSize := querySize;
    var flags := RefusedFlags(LoadFlags(answer[2], answer[3]));
    answer[2], answer[3] := StoreFlags(flags)[0], StoreFlags(flags)[1];
  }

  /** The name is measured within the query: when it has no NUL there, its size with the NUL the C code finds
      behind it exceeds the query as well. */
  method MakeAnswer(query: array<byte>, querySize: nat, answer: array<byte>) returns (ok: bool, answerSize: nat)
    requires querySize <= query.Length && querySize + 16 <= answer.Length && query != answer
    modifies answer
    ensures ok == Reply(query[..querySize]).Some?
    ensures ok ==> answerSize <= answer.Length && answer[..answerSize] == Reply(query[..querySize]).value
  {
    hide LoadFlags, StoreFlags, AnsweredFlags, RefusedFlags, RefusedByFlags, FirstNul, Native16, Refusal;
    if querySize < HEADER_SIZE {
      return false, 0;
    }
    var q := query[..querySize];
    var flags := LoadFlags(q[2], q[3]);
    if RefusedByFlags(flags) || Native16(q, 4) != 0x100 || Native16(q, 6) != 0 || Native16(q, 8) != 0 {
      answerSize := MakeRefusedAnswer(query, querySize, answer);
      return true, answerSize;
    }

    var nameSize := FirstNul(q, HEADER_SIZE) - HEADER_SIZE + 1;
    var beforeAnswer := HEADER_SIZE + nameSize + 4;
    if querySize < beforeAnswer {
      return false, 0;
    }
    if Native16(q, HEADER_SIZE + nameSize) != 0x100 {
      answerSize := MakeRefusedAnswer(query, querySize, answer);
      return true, answerSize;
    }

    WriteHead(q, beforeAnswer, answer);
    ghost var head := answer[..beforeAnswer];
    hide Splice;
    SpliceAppends(answer[..], beforeAnswer, A_RECORD);
    CopyInto(answer, beforeAnswer, A_RECORD);
    SpliceAppends(answer[..], beforeAnswer + 16, q[beforeAnswer..]);
    if querySize > beforeAnswer {
      CopyInto(answer, beforeAnswer + 16, q[beforeAnswer..]);
    }
    answerSize := querySize + 16;
    ok := true;
  }

  /** The header and the question of an answer: the query's, but for the flags and the number of answers. */
  method WriteHead(q: seq<byte>, beforeAnswer: nat, answer: array<byte>)
    requires HEADER_SIZE <= beforeAnswer <= |q| && beforeAnswer <= answer.Length
    modifies answer
    ensures answer[..beforeAnswer]
         == q[..2] + StoreFlags(AnsweredFlags(LoadFlags(q[2], q[3]))) + q[4..6] + Be16(1) + q[8..beforeAnswer]
  {
    hide LoadFlags, StoreFlags, AnsweredFlags;
    CopyInto(answer, 0, q[..beforeAnswer]);
    var stored := StoreFlags(AnsweredFlags(LoadFlags(answer[2], answer[3])));
    answer[2], answer[3] := stored[0], stored[1];
    answer[6], answer[7] := 0, 1;
  }

  /** Both replies keep opcode, recursion desired and the reserved bits, and claim neither truncation nor
      recursion. An answer is authoritative with code 0, a refusal has code 5. */
  lemma FlagsMeaning(h: Header)
    ensures RefusedByFlags(LoadFlags(h.high, h.low)) <==> h.ResponseCode() != 0 || h.Reserved() & 1 != 0
    ensures var s := StoreFlags(AnsweredFlags(LoadFlags(h.high, h.low)));
            var a := Header(h.id, s[0], s[1]);
            && a.Response() && a.Authoritative() && a.ResponseCode() == 0 && Keeps(h, a)
    ensures var s := StoreFlags(RefusedFlags(LoadFlags(h.high, h.low)));
            var a := Header(h.id, s[0], s[1]);
            && a.Response() && !a.Authoritative() && a.ResponseCode() == 5 && Keeps(h, a)
  {
    var f := LoadFlags(h.high, h.low);
    BitsRoundTrip((AnsweredFlags(f) & 0xff) as bv8);
    BitsRoundTrip((AnsweredFlags(f) >> 8) as bv8);
    BitsRoundTrip((RefusedFlags(f) & 0xff) as bv8);
    BitsRoundTrip((RefusedFlags(f) >> 8) as bv8);
  }

  predicate Keeps(h: Header, a: Header) {
    && a.Opcode() == h.Opcode() && a.RecursionDesired() == h.RecursionDesired() && a.Reserved() == h.Reserved()
    && !a.Truncated() && !a.RecursionAvailable()
  }

  function HeaderOf(msg: seq<byte>): Header
    requires |msg| >= HEADER_SIZE
  {
    Header(ReadBe16(msg, 0), msg[2], msg[3])
  }

  /** One question, no answers and no authorities yet, no code, and the lowest reserved bit (checking disabled,
      section 3.2 of RFC 4035) clear. */
  predicate Acceptable(query: seq<byte>)
    requires |query| >= HEADER_SIZE
  {
    && HeaderOf(query).ResponseCode() == 0 && HeaderOf(query).Reserved() & 1 == 0
    && ReadBe16(query, 4) == 1 && ReadBe16(query, 6) == 0 && ReadBe16(query, 8) == 0
  }

  /** Where the question ends: four bytes behind the first NUL after the header. */
  function QuestionEnd(query: seq<byte>): nat
    requires |query| >= HEADER_SIZE
  {
    FirstNul(query, HEADER_SIZE) + 1 + 4
  }

  /** Which bytes fail, which are refused and which are answered. */
  lemma ReplyCases(query: seq<byte>)
    ensures Reply(query).None?
        <==> |query| < HEADER_SIZE || (Acceptable(query) && |query| < QuestionEnd(query))
    ensures Reply(query).Some? ==>
      var answered := Acceptable(query) && ReadBe16(query, QuestionEnd(query) - 4) == 1;
      var h, r := HeaderOf(query), Reply(query).value;
      && |r| == |query| + (if answered then 16 else 0)
      && HeaderOf(r).id == h.id && HeaderOf(r).Response() && Keeps(h, HeaderOf(r))
      && HeaderOf(r).Authoritative() == answered && HeaderOf(r).ResponseCode() == (if answered then 0 else 5)
      && ReadBe16(r, 4) == ReadBe16(query, 4) && ReadBe16(r, 6) == ReadBe16(query, 6) + (if answered then 1 else 0)
      && r[8..HEADER_SIZE] == query[8..HEADER_SIZE]
      && (!answered ==> r[HEADER_SIZE..] == query[HEADER_SIZE..])
      && (answered ==>
            var end := QuestionEnd(query);
            r[HEADER_SIZE..] == query[HEADER_SIZE..end] + A_RECORD + query[end..])
  {
    hide LoadFlags, StoreFlags, AnsweredFlags, RefusedFlags, RefusedByFlags, FirstNul, Native16, Refusal, Keeps;
    if |query| >= HEADER_SIZE {
      FlagsMeaning(HeaderOf(query));
      RefusalHeader(query);
      NativeOrder(query, 4);
      NativeOrder(query, 6);
      NativeOrder(query, 8);
      if QuestionEnd(query) <= |query| {
        NativeOrder(query, QuestionEnd(query) - 4);
        AnswerHeader(query, QuestionEnd(query));
      }
    }
  }

  lemma RefusalHeader(query: seq<byte>)
    requires |query| >= HEADER_SIZE
    ensures var h, r := HeaderOf(query), Refusal(query);
            && |r| == |query| && HeaderOf(r).id == h.id && HeaderOf(r).Response() && Keeps(h, HeaderOf(r))
            && !HeaderOf(r).Authoritative() && HeaderOf(r).ResponseCode() == 5
            && ReadBe16(r, 4) == ReadBe16(query, 4) && ReadBe16(r, 6) == ReadBe16(query, 6)
            && r[8..HEADER_SIZE] == query[8..HEADER_SIZE] && r[HEADER_SIZE..] == query[HEADER_SIZE..]
  {
    hide LoadFlags, StoreFlags, RefusedFlags, Keeps;
    FlagsMeaning(HeaderOf(query));
  }

  lemma AnswerHeader(query: seq<byte>, end: nat)
    requires HEADER_SIZE <= end <= |query|
    ensures var h := HeaderOf(query);
            var r := query[..2] + StoreFlags(AnsweredFlags(LoadFlags(query[2], query[3]))) + query[4..6] + Be16(1)
                     + query[8..end] + A_RECORD + query[end..];
            && |r| == |query| + 16 && HeaderOf(r).id == h.id && HeaderOf(r).Response() && Keeps(h, HeaderOf(r))
            && HeaderOf(r).Authoritative() && HeaderOf(r).ResponseCode() == 0
            && ReadBe16(r, 4) == ReadBe16(query, 4) && ReadBe16(r, 6) == 1
            && r[8..HEADER_SIZE] == query[8..HEADER_SIZE]
            && r[HEADER_SIZE..] == query[HEADER_SIZE..end] + A_RECORD + query[end..]
  {
    hide LoadFlags, StoreFlags, AnsweredFlags, Keeps;
    FlagsMeaning(HeaderOf(query));
    var flags := StoreFlags(AnsweredFlags(LoadFlags(query[2], query[3])));
    var r := query[..2] + flags + query[4..6] + Be16(1) + query[8..end] + A_RECORD + query[end..];
    assert r[2] == flags[0] && r[3] == flags[1] && r[4] == query[4] && r[5] == query[5] && r[6] == 0 && r[7] == 1;
    assert r[8..HEADER_SIZE] == query[8..end][..4] == query[8..HEADER_SIZE];
    assert query[8..end] == query[8..HEADER_SIZE] + query[HEADER_SIZE..end];
  }

  predicate NulFree(n: Name) {
    forall l | l in n :: NUL !in l
  }

  /** A message that asks one question, by a name that is not compressed, and has only additional records: `count`
      of them, in the bytes `rest`, whatever these are. */
  function Query(h: Header, q: Question, count: u16, rest: seq<byte>): seq<byte>
  {
    EncodeHeader(h, 1, 0, 0, count) + (EncodeQuestion(q) + rest)
  }

  /** The flags are no reason to refuse. */
  predicate Willing(h: Header) {
    h.ResponseCode() == 0 && h.Reserved() & 1 == 0
  }

  predicate Answerable(h: Header, q: Question) {
    Willing(h) && q.qtype == 1
  }

  function RefusedHeader(h: Header): Header {
    var s := StoreFlags(RefusedFlags(LoadFlags(h.high, h.low)));
    Header(h.id, s[0], s[1])
  }

  function AnsweredHeader(h: Header): Header {
    var s := StoreFlags(AnsweredFlags(LoadFlags(h.high, h.low)));
    Header(h.id, s[0], s[1])
  }

  lemma {:induction false} NoNulInLabels(n: Name, i: nat)
    requires Encodable(n) && NulFree(n) && i < |EncodeLabels(n)|
    ensures EncodeLabels(n)[i] != NUL
  {
    assert n[0] in n;
    if 0 < i <= |n[0]| {
      assert EncodeLabels(n)[i] == n[0][i - 1];
    } else if i > 0 {
      assert Encodable([n[0]] + n[1..]);
      NoNulInLabels(n[1..], i - 1 - |n[0]|);
    }
  }

  /** `strlen` finds the end of a NUL-free name. */
  lemma NameEnds(msg: seq<byte>, at: nat, n: Name)
    requires Encodable(n) && NulFree(n) && Holds(msg, at, EncodeName(n))
    ensures at + |EncodeName(n)| <= |msg| && FirstNul(msg, at) + 1 == at + |EncodeName(n)|
  {
    HoldsParts(msg, at, EncodeLabels(n), [NUL]);
    HeldBytes(msg, at, EncodeLabels(n));
    HeldBytes(msg, at + |EncodeLabels(n)|, [NUL]);
    forall i | at <= i < at + |EncodeLabels(n)|
      ensures msg[i] != NUL
    {
      NoNulInLabels(n, i - at);
      assert msg[i] == msg[at..at + |EncodeLabels(n)|][i - at];
    }
  }

  /** What is sent back for such a message when it is answered. */
  function Answered(h: Header, q: Question, count: u16, rest: seq<byte>): seq<byte>
  {
    EncodeHeader(AnsweredHeader(h), 1, 1, 0, count)
    + (EncodeQuestion(q) + (A_RECORD + rest))
  }

  lemma HeaderSlices(h: Header, qd: u16, an: u16, ns: u16, ar: u16)
    ensures var s := EncodeHeader(h, qd, an, ns, ar);
            && s[..2] == Be16(h.id) && s[2] == h.high && s[3] == h.low && s[4..6] == Be16(qd)
            && s[4..] == Be16(qd) + Be16(an) + Be16(ns) + Be16(ar)
            && s[8..] == Be16(ns) + Be16(ar)
  {
  }

  lemma QueryLayout(h: Header, q: Question, count: u16, rest: seq<byte>)
    ensures var msg := Query(h, q, count, rest);
            && Holds(msg, 0, EncodeHeader(h, 1, 0, 0, count)) && Holds(msg, HEADER_SIZE, EncodeName(q.name))
            && Holds(msg, HEADER_SIZE, EncodeQuestion(q))
            && Holds(msg, HEADER_SIZE + |EncodeName(q.name)|, Be16(q.qtype))
            && HEADER_SIZE + |EncodeName(q.name)| + 4 == HEADER_SIZE + |EncodeQuestion(q)| <= |msg|
  {
    hide EncodeHeader, EncodeName, Be16;
    var msg, name := Query(h, q, count, rest), EncodeName(q.name);
    assert Holds(msg, 0, msg);
    hide Holds;
    HoldsParts(msg, 0, EncodeHeader(h, 1, 0, 0, count), EncodeQuestion(q) + rest);
    HoldsParts(msg, HEADER_SIZE, EncodeQuestion(q), rest);
    HoldsParts(msg, HEADER_SIZE, name + Be16(q.qtype), Be16(q.qclass));
    HoldsParts(msg, HEADER_SIZE, name, Be16(q.qtype));
  }

  lemma {:induction false} FreeLabels(n: Name)
    requires NUL !in EncodeLabels(n)
    ensures NulFree(n)
  {
    if n != [] {
      var rest := EncodeLabels(n)[1 + |n[0]|..];
      assert rest == EncodeLabels(n[1..]) && EncodeLabels(n)[1..1 + |n[0]|] == n[0];
      FreeLabels(n[1..]);
      assert n == [n[0]] + n[1..];
    }
  }

  /** `strlen` stops within a name that has a NUL in a label. */
  lemma NulInside(msg: seq<byte>, at: nat, n: Name)
    requires !NulFree(n) && Holds(msg, at, EncodeName(n))
    ensures at + |EncodeName(n)| <= |msg| && FirstNul(msg, at) + 1 < at + |EncodeName(n)|
  {
    if NUL !in EncodeLabels(n) {
      FreeLabels(n);
    }
    HoldsParts(msg, at, EncodeLabels(n), [NUL]);
    HeldBytes(msg, at, EncodeLabels(n));
    var i :| 0 <= i < |EncodeLabels(n)| && EncodeLabels(n)[i] == NUL;
    assert msg[at + i] == msg[at..at + |EncodeLabels(n)|][i];
  }

  /** The fixed parts of the message as `make_answer` reads them. */
  lemma QueryFields(h: Header, q: Question, count: u16, rest: seq<byte>)
    requires Encodable(q.name)
    ensures var msg, past := Query(h, q, count, rest), HEADER_SIZE + |EncodeName(q.name)|;
            && past + 4 == HEADER_SIZE + |EncodeQuestion(q)| <= |msg| && msg[2] == h.high && msg[3] == h.low
            && Native16(msg, 4) == 0x100 && Native16(msg, 6) == 0 && Native16(msg, 8) == 0
            && QuestionEnd(msg) <= past + 4 && (QuestionEnd(msg) == past + 4 <==> NulFree(q.name))
            && ReadBe16(msg, past) == q.qtype
            && (Native16(msg, QuestionEnd(msg) - 4) == 0x100 <==> ReadBe16(msg, QuestionEnd(msg) - 4) == 1)
  {
    hide EncodeHeader, EncodeQuestion, EncodeName, Query, Holds, FirstNul, Be16, Native16, ReadBe16, Encodable, NulFree;
    var msg, past := Query(h, q, count, rest), HEADER_SIZE + |EncodeName(q.name)|;
    QueryLayout(h, q, count, rest);
    HeaderAt(msg, h, 1, 0, 0, count);
    if NulFree(q.name) {
      NameEnds(msg, HEADER_SIZE, q.name);
    } else {
      NulInside(msg, HEADER_SIZE, q.name);
    }
    ReadBe16At(msg, past, q.qtype);
    NativeOrder(msg, 4);
    NativeOrder(msg, 6);
    NativeOrder(msg, 8);
    NativeOrder(msg, QuestionEnd(msg) - 4);
  }

  lemma NativeOrder(s: seq<byte>, at: nat)
    requires at + 2 <= |s|
    ensures Native16(s, at) == 0x100 <==> ReadBe16(s, at) == 1
    ensures Native16(s, at) == 0 <==> ReadBe16(s, at) == 0
  {
  }

  /** What such a message should be answered with. */
  function Expected(h: Header, q: Question, count: u16, rest: seq<byte>): seq<byte> {
    if Answerable(h, q) then Answered(h, q, count, rest) else Query(RefusedHeader(h), q, count, rest)
  }

  /** The server never fails on such a message. It answers or refuses it as it should exactly when no label holds a
      NUL, or the flags are refused, or neither the type of the question nor what stands behind the first NUL is
      type A: `strlen` takes the first NUL for the end of the name. */
  lemma ReplyToQuery(h: Header, q: Question, count: u16, rest: seq<byte>)
    requires Encodable(q.name)
    ensures var query := Query(h, q, count, rest);
            && QuestionEnd(query) <= |query| && Reply(query).Some?
            && (Reply(query) == Some(Expected(h, q, count, rest))
                <==> NulFree(q.name) || !Willing(h)
                     || (q.qtype != 1 && ReadBe16(query, QuestionEnd(query) - 4) != 1))
  {
    hide LoadFlags, StoreFlags, AnsweredFlags, RefusedFlags, RefusedByFlags, Native16, FirstNul, ReadBe16,
         EncodeHeader, EncodeQuestion, EncodeName, Query, Answered, RefusedHeader, Refusal, Be16, NulFree;
    var query := Query(h, q, count, rest);
    QueryFields(h, q, count, rest);
    FlagsMeaning(h);
    RefusedBytes(h, q, count, rest);
    AnsweredBytes(h, q, count, rest);
    Sizes(h, q, count, rest);
    if Willing(h) && ReadBe16(query, QuestionEnd(query) - 4) == 1 && Answerable(h, q) && !NulFree(q.name) {
      SplicedApart(query, StoreFlags(AnsweredFlags(LoadFlags(h.high, h.low))), QuestionEnd(query),
                   HEADER_SIZE + |EncodeQuestion(q)|);
    }
  }

  /** When all is well with the name, the server does what it should. */
  lemma ReplyToGoodQuery(h: Header, q: Question, count: u16, rest: seq<byte>)
    requires Encodable(q.name) && NulFree(q.name)
    ensures Reply(Query(h, q, count, rest)) == Some(Expected(h, q, count, rest))
  {
    hide Reply, Query, Expected, Encodable, NulFree;
    ReplyToQuery(h, q, count, rest);
  }

  lemma Sizes(h: Header, q: Question, count: u16, rest: seq<byte>)
    ensures |Answered(h, q, count, rest)| == |Query(h, q, count, rest)| + 16
    ensures |Query(RefusedHeader(h), q, count, rest)| == |Query(h, q, count, rest)|
  {
  }

  /** The A record in two places of one message, of which the later one is behind the type A and a class, makes two
      messages. */
  lemma SplicedApart(msg: seq<byte>, flags: seq<byte>, at: nat, end: nat)
    requires HEADER_SIZE <= at < end <= |msg| && end >= HEADER_SIZE + 4 && |flags| == 2 && ReadBe16(msg, end - 4) == 1
    ensures msg[..2] + flags + msg[4..6] + Be16(1) + msg[8..at] + A_RECORD + msg[at..]
         != msg[..2] + flags + msg[4..6] + Be16(1) + msg[8..end] + A_RECORD + msg[end..]
  {
    var a := msg[..2] + flags + msg[4..6] + Be16(1) + msg[8..at] + A_RECORD + msg[at..];
    var b := msg[..2] + flags + msg[4..6] + Be16(1) + msg[8..end] + A_RECORD + msg[end..];
    if end - at < 16 {
      assert a[end] == A_RECORD[end - at] && b[end] == A_RECORD[0];
    } else {
      assert a[end + 12] == msg[end - 4] == 0 && b[end + 12] == A_RECORD[12];
    }
  }

  /** A legal name whose label holds the bytes of an A question: the server puts its answer into the question. */
  lemma NulMisleads(h: Header, q: Question, count: u16, rest: seq<byte>)
    requires Willing(h) && q == Question([[0, 0, 1, 0, 1]], 1, 1)
    ensures Legal(q.name) && Answerable(h, q) && |EncodeQuestion(q)| == 11
    ensures Reply(Query(h, q, count, rest)).Some?
    ensures var r := Reply(Query(h, q, count, rest)).value;
            Holds(r, HEADER_SIZE + 6, A_RECORD) && r != Expected(h, q, count, rest)
  {
    hide LoadFlags, StoreFlags, AnsweredFlags, RefusedFlags, RefusedByFlags, Native16, FirstNul, Expected, Query,
         EncodeQuestion, EncodeHeader, Be16;
    MisleadingName(q.name);
    var query := Query(h, q, count, rest);
    QueryFields(h, q, count, rest);
    FlagsMeaning(h);
    ReplyToQuery(h, q, count, rest);
    MisleadingBytes(h, q, count, rest);
  }

  lemma MisleadingName(n: Name)
    requires n == [[0, 0, 1, 0, 1]]
    ensures EncodeName(n) == [5, 0, 0, 1, 0, 1, 0] && Legal(n) && !NulFree(n)
  {
    assert n[1..] == [] && EncodeLabels(n) == EncodeLabel(n[0]) + EncodeLabels([]);
    assert NUL in n[0] && n[0] in n;
  }

  lemma MisleadingBytes(h: Header, q: Question, count: u16, rest: seq<byte>)
    requires q == Question([[0, 0, 1, 0, 1]], 1, 1)
    ensures |EncodeQuestion(q)| == 11
    ensures var query := Query(h, q, count, rest);
            |query| >= 23 && FirstNul(query, HEADER_SIZE) == 13 && Native16(query, 14) == 0x100
  {
    hide EncodeHeader, EncodeName, FirstNul;
    MisleadingName(q.name);
    var query := Query(h, q, count, rest);
    var part := query[HEADER_SIZE..HEADER_SIZE + 11];
    assert part == EncodeQuestion(q) == [5, 0, 0, 1, 0, 1, 0] + [0, 1] + [0, 1];
    assert query[12] == part[0] && query[13] == part[1] && query[14] == part[2] && query[15] == part[3];
    FirstNulAt(query, HEADER_SIZE);
  }

  lemma FirstNulAt(s: seq<byte>, at: nat)
    requires at + 1 < |s| && s[at] != NUL && s[at + 1] == NUL
    ensures FirstNul(s, at) == at + 1
  {
  }

  lemma RefusedBytes(h: Header, q: Question, count: u16, rest: seq<byte>)
    ensures Query(h, q, count, rest)[2..4] == [h.high, h.low]
    ensures Refusal(Query(h, q, count, rest)) == Query(RefusedHeader(h), q, count, rest)
  {
    hide LoadFlags, StoreFlags, RefusedFlags, EncodeQuestion, Be16;
    var msg, body := Query(h, q, count, rest), EncodeQuestion(q) + rest;
    var head, head' := EncodeHeader(h, 1, 0, 0, count), EncodeHeader(RefusedHeader(h), 1, 0, 0, count);
    HeaderSlices(h, 1, 0, 0, count);
    HeaderSlices(RefusedHeader(h), 1, 0, 0, count);
    assert msg == head + body && msg[2] == head[2] && msg[3] == head[3];
    assert msg[..2] == head[..2] == head'[..2] && msg[4..] == head[4..] + body && head[4..] == head'[4..];
    assert head' == head'[..2] + [head'[2], head'[3]] + head'[4..];
  }

  lemma AnsweredBytes(h: Header, q: Question, count: u16, rest: seq<byte>)
    ensures var msg, past := Query(h, q, count, rest), HEADER_SIZE + |EncodeQuestion(q)|;
            Answered(h, q, count, rest)
            == msg[..2] + StoreFlags(AnsweredFlags(LoadFlags(h.high, h.low))) + msg[4..6] + Be16(1)
               + msg[8..past] + A_RECORD + msg[past..]
  {
    hide LoadFlags, StoreFlags, AnsweredFlags, EncodeQuestion, Be16;
    var msg, past, question := Query(h, q, count, rest), HEADER_SIZE + |EncodeQuestion(q)|, EncodeQuestion(q);
    var head, head' := EncodeHeader(h, 1, 0, 0, count), EncodeHeader(AnsweredHeader(h), 1, 1, 0, count);
    HeaderSlices(h, 1, 0, 0, count);
    HeaderSlices(AnsweredHeader(h), 1, 1, 0, count);
    assert msg == head + question + rest;
    assert msg[..2] == head[..2] && msg[4..6] == head[4..6];
    assert msg[8..past] == head[8..] + question && msg[past..] == rest;
    assert head' == Be16(h.id) + [head'[2], head'[3]] + Be16(1) + Be16(1) + head[8..];
  }
}
