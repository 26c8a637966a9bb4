/** Additional records with compressed names (section 4.1.4 of RFC 1035): the server moves them 16 bytes on and does
    not touch their pointers. */
module Compression {
  import opened Bytes
  import opened Names
  import opened DnsMessage
  import opened Answer
  import opened Codec

  /** The name read at `at` needs nothing of the message but labels of its own and, through a pointer, a name that
      lies within the question, which ends at `end`. */
  predicate Settled(msg: seq<byte>, end: nat, start: nat, at: nat)
    requires start <= at <= |msg|
    decreases start, |msg| - at
  {
    && (start < end ==> at < end)
    && (at < |msg| ==>
          var length := FromByte(msg[at]);
          && (0 < length < 64 && at + 1 + length <= |msg| ==> Settled(msg, end, start, at + 1 + length))
          && (length >= 192 && at + 1 < |msg| ==>
                var target := 256 * (length - 192) + FromByte(msg[at + 1]);
                && (start < end ==> at + 1 < end)
                && (target < start ==> HEADER_SIZE <= target < end && Settled(msg, end, target, target))))
  }

  /** So are the names of `count` records from `at` on. */
  predicate AllSettled(msg: seq<byte>, end: nat, at: nat, count: nat)
    requires at <= |msg|
    decreases count
  {
    count > 0 && ReadRecord(msg, at).Some? ==>
      Settled(msg, end, at, at) && AllSettled(msg, end, ReadRecord(msg, at).value.next, count - 1)
  }

  /** From the question on, msg' is msg with 16 bytes put in at `end`. */
  ghost predicate Moved(msg: seq<byte>, msg': seq<byte>, end: nat) {
    && HEADER_SIZE <= end <= |msg| && |msg'| == |msg| + 16
    && (forall i | HEADER_SIZE <= i < end :: msg'[i] == msg[i])
    && msg'[end + 16..] == msg[end..]
  }

  lemma MovedSlice(msg: seq<byte>, msg': seq<byte>, end: nat, at: nat, size: nat)
    requires Moved(msg, msg', end) && at + size <= |msg|
    ensures HEADER_SIZE <= at && at + size <= end ==> msg'[at..at + size] == msg[at..at + size]
    ensures end <= at ==> msg'[at + 16..at + 16 + size] == msg[at..at + size]
  {
    if end <= at {
      SliceOfRest(msg, end, at - end, size);
      SliceOfRest(msg', end + 16, at - end, size);
    }
  }

  lemma SliceOfRest(s: seq<byte>, from: nat, at: nat, size: nat)
    requires from + at + size <= |s|
    ensures s[from..][at..at + size] == s[from + at..from + at + size]
  {
  }

  lemma MovedByte(msg: seq<byte>, msg': seq<byte>, end: nat, at: nat)
    requires Moved(msg, msg', end) && at < |msg|
    ensures HEADER_SIZE <= at < end ==> msg'[at] == msg[at]
    ensures end <= at ==> msg'[at + 16] == msg[at]
  {
    if end <= at {
      assert msg'[at + 16] == msg'[end + 16..][at - end] == msg[end..][at - end];
    }
  }

  // How a name is read, step by step

  lemma ReadParts(msg: seq<byte>, start: nat, at: nat)
    requires start <= at <= |msg| && ReadLabels(msg, start, at).Some?
    ensures at < |msg|
    ensures var r, length := ReadLabels(msg, start, at), FromByte(msg[at]);
            && (length == 0 || 0 < length < 64 || length >= 192)
            && (length == 0 ==> r == Some(Parsed([], at + 1)))
            && (0 < length < 64 ==>
                  && at + 1 + length <= |msg| && ReadLabels(msg, start, at + 1 + length).Some?
                  && r == After(msg[at + 1..at + 1 + length], ReadLabels(msg, start, at + 1 + length)))
            && (length >= 192 ==> at + 1 < |msg| && Target(msg, at) < start
                                  && ReadLabels(msg, Target(msg, at), Target(msg, at)).Some?
                                  && r == Some(Parsed(ReadLabels(msg, Target(msg, at), Target(msg, at)).value.value,
                                                      at + 2)))
  {
  }

  function After(l: Label, rest: Option<Parsed<Name>>): Option<Parsed<Name>>
    requires rest.Some?
  {
    Some(Parsed([l] + rest.value.value, rest.value.next))
  }

  function Target(msg: seq<byte>, at: nat): int
    requires at + 1 < |msg|
  {
    256 * (FromByte(msg[at]) - 192) + FromByte(msg[at + 1])
  }

  lemma ReadRoot(msg: seq<byte>, start: nat, at: nat)
    requires start <= at < |msg| && msg[at] == NUL
    ensures ReadLabels(msg, start, at) == Some(Parsed([], at + 1))
  {
  }

  lemma ReadLabel(msg: seq<byte>, start: nat, at: nat)
    requires start <= at < |msg| && 0 < FromByte(msg[at]) < 64 && at + 1 + FromByte(msg[at]) <= |msg|
    requires ReadLabels(msg, start, at + 1 + FromByte(msg[at])).Some?
    ensures var past := at + 1 + FromByte(msg[at]);
            ReadLabels(msg, start, at) == After(msg[at + 1..past], ReadLabels(msg, start, past))
  {
  }

  lemma ReadPointer(msg: seq<byte>, start: nat, at: nat)
    requires start <= at && at + 1 < |msg| && FromByte(msg[at]) >= 192 && Target(msg, at) < start
    requires ReadLabels(msg, Target(msg, at), Target(msg, at)).Some?
    ensures ReadLabels(msg, start, at)
         == Some(Parsed(ReadLabels(msg, Target(msg, at), Target(msg, at)).value.value, at + 2))
  {
  }

  lemma SettledParts(msg: seq<byte>, end: nat, start: nat, at: nat)
    requires start <= at < |msg| && Settled(msg, end, start, at)
    ensures start < end ==> at < end
    ensures var length := FromByte(msg[at]);
            && (0 < length < 64 && at + 1 + length <= |msg| ==>
                  Settled(msg, end, start, at + 1 + length) && (start < end ==> at + 1 + length < end))
            && (length >= 192 && at + 1 < |msg| && Target(msg, at) < start ==>
                  && (start < end ==> at + 1 < end)
                  && HEADER_SIZE <= Target(msg, at) < end && Settled(msg, end, Target(msg, at), Target(msg, at)))
  {
  }

  /** A settled name is read the same where it has been moved to. */
  lemma {:induction false} LabelsMoved(msg: seq<byte>, msg': seq<byte>, end: nat, start: nat, at: nat)
    requires Moved(msg, msg', end) && HEADER_SIZE <= start <= at <= |msg|
    requires Settled(msg, end, start, at) && ReadLabels(msg, start, at).Some?
    ensures var r, d := ReadLabels(msg, start, at).value, if start < end then 0 else 16;
            && start + d <= at + d <= |msg'|
            && ReadLabels(msg', start + d, at + d) == Some(Parsed(r.value, r.next + d))
    decreases start, |msg| - at
  {
    hide Moved, Settled, ReadLabels, Target;
    MovedSize(msg, msg', end);
    ReadParts(msg, start, at);
    SettledParts(msg, end, start, at);
    MovedByte(msg, msg', end, at);
    var d, length := if start < end then 0 else 16, FromByte(msg[at]);
    if length == 0 {
      ReadRoot(msg', start + d, at + d);
    } else if length < 64 {
      MovedSlice(msg, msg', end, at + 1, length);
      LabelsMoved(msg, msg', end, start, at + 1 + length);
      ReadLabel(msg', start + d, at + d);
    } else {
      TargetMoved(msg, msg', end, at, d);
      LabelsMoved(msg, msg', end, Target(msg, at), Target(msg, at));
      ReadPointer(msg', start + d, at + d);
    }
  }

  lemma TargetMoved(msg: seq<byte>, msg': seq<byte>, end: nat, at: nat, d: nat)
    requires Moved(msg, msg', end) && at + 1 < |msg|
    requires if d == 0 then HEADER_SIZE <= at && at + 1 < end else d == 16 && end <= at
    ensures at + d + 1 < |msg'| && Target(msg', at + d) == Target(msg, at)
  {
    hide Moved;
    MovedSize(msg, msg', end);
    MovedByte(msg, msg', end, at);
    MovedByte(msg, msg', end, at + 1);
  }

  lemma MovedSize(msg: seq<byte>, msg': seq<byte>, end: nat)
    requires Moved(msg, msg', end)
    ensures HEADER_SIZE <= end <= |msg| && |msg'| == |msg| + 16
  {
  }

  lemma RecordMoved(msg: seq<byte>, msg': seq<byte>, end: nat, at: nat)
    requires Moved(msg, msg', end) && end <= at <= |msg|
    requires ReadRecord(msg, at).Some? && Settled(msg, end, at, at)
    ensures var r := ReadRecord(msg, at).value;
            at <= r.next && ReadRecord(msg', at + 16) == Some(Parsed(r.value, r.next + 16))
  {
    hide Moved, ReadLabels, Settled;
    MovedSize(msg, msg', end);
    LabelsMoved(msg, msg', end, at, at);
    var next := ReadName(msg, at).value.next;
    forall i | next <= i < next + 10
      ensures msg'[i + 16] == msg[i]
    {
      MovedByte(msg, msg', end, i);
    }
    MovedSlice(msg, msg', end, next + 10, ReadBe16(msg, next + 8));
  }

  lemma {:induction false} RecordsMoved(msg: seq<byte>, msg': seq<byte>, end: nat, at: nat, count: nat)
    requires Moved(msg, msg', end) && end <= at <= |msg|
    requires ReadRecords(msg, at, count).Some? && AllSettled(msg, end, at, count)
    ensures var r := ReadRecords(msg, at, count).value;
            ReadRecords(msg', at + 16, count) == Some(Parsed(r.value, r.next + 16))
    decreases count
  {
    hide Moved, ReadRecord, Settled;
    MovedSize(msg, msg', end);
    if count > 0 {
      RecordMoved(msg, msg', end, at);
      RecordsMoved(msg, msg', end, ReadRecord(msg, at).value.next, count - 1);
    }
  }

  lemma AnswerMoves(h: Header, q: Question, count: u16, rest: seq<byte>)
    ensures var end := HEADER_SIZE + |EncodeQuestion(q)|;
            Moved(Query(h, q, count, rest), Answered(h, q, count, rest), end)
  {
    hide EncodeHeader, EncodeQuestion, AnsweredHeader;
    var msg, msg', end := Query(h, q, count, rest), Answered(h, q, count, rest), HEADER_SIZE + |EncodeQuestion(q)|;
    assert msg[HEADER_SIZE..end] == EncodeQuestion(q) == msg'[HEADER_SIZE..end];
    forall i | HEADER_SIZE <= i < end
      ensures msg'[i] == msg[i]
    {
      assert msg[i] == msg[HEADER_SIZE..end][i - HEADER_SIZE] && msg'[i] == msg'[HEADER_SIZE..end][i - HEADER_SIZE];
    }
    assert msg[end..] == rest == msg'[end + 16..];
  }

  /** A legal question with any additional records whose names need nothing behind the question but themselves: the
      answer of the server is read as the same question, its address, and the same records. */
  lemma AdditionalKept(h: Header, q: Question, count: u16, rest: seq<byte>, records: seq<Record>)
    requires Legal(q.name) && NulFree(q.name) && Answerable(h, q)
    requires var query, end := Query(h, q, count, rest), HEADER_SIZE + |EncodeQuestion(q)|;
             && end <= |query| && ReadRecords(query, end, count) == Some(Parsed(records, |query|))
             && AllSettled(query, end, end, count)
    ensures Parse(Query(h, q, count, rest)) == Some(Dns(h, [q], [], [], records))
    ensures var r := Reply(Query(h, q, count, rest));
            && r.Some?
            && Parse(r.value) == Some(Dns(AnsweredHeader(h), [q], [AddressOf(q.name)], [], records))
  {
    hide Legal, Query, Answered, EncodeQuestion, ReadRecords, AllSettled, Parse, Reply, Moved, AnsweredHeader, NulFree,
         Willing, AddressOf;
    var query, end := Query(h, q, count, rest), HEADER_SIZE + |EncodeQuestion(q)|;
    LegalEncodable(q.name);
    ReplyToGoodQuery(h, q, count, rest);
    AnswerMoves(h, q, count, rest);
    MovedSize(query, Answered(h, q, count, rest), end);
    RecordsMoved(query, Answered(h, q, count, rest), end, end, count);
    QueryParses(h, q, count, rest, records);
    LegalParses(h, q, count, rest, records);
  }

  lemma QueryParses(h: Header, q: Question, count: u16, rest: seq<byte>, records: seq<Record>)
    requires Legal(q.name)
    requires var query, end := Query(h, q, count, rest), HEADER_SIZE + |EncodeQuestion(q)|;
             end <= |query| && ReadRecords(query, end, count) == Some(Parsed(records, |query|))
    ensures Parse(Query(h, q, count, rest)) == Some(Dns(h, [q], [], [], records))
  {
    hide Holds, Query, EncodeHeader, EncodeName, ReadName, ReadQuestion, ReadRecord, ReadBe16, Be16, Legal;
    var query, end := Query(h, q, count, rest), HEADER_SIZE + |EncodeQuestion(q)|;
    QueryLayout(h, q, count, rest);
    HeaderAt(query, h, 1, 0, 0, count);
    QuestionAt(query, HEADER_SIZE, q);
    OneQuestion(query, HEADER_SIZE, q, end);
    NoRecords(query, end);
  }

  lemma LegalEncodable(n: Name)
    requires Legal(n)
    ensures Encodable(n)
  {
  }

  // Where it goes wrong: a question for `b`, one record for `a`, and another whose name points to that one's name.

  const FIXED_FIELDS: seq<byte> := [0, 1, 0, 1, 0, 0, 0, 0, 0, 0]
  const POINTED: seq<byte> := ([1, 97, NUL] + FIXED_FIELDS) + ([0xc0, 19] + FIXED_FIELDS)

  /** In the answer, the pointer is to the pointer of the A record, so the second record becomes one for `b`. */
  lemma PointerMisread(h: Header, q: Question)
    requires q == Question([[98]], 1, 1) && Willing(h)
    ensures var a, b := Record([[97]], 1, 1, 0, []), Record([[98]], 1, 1, 0, []);
            var query := Query(h, q, 2, POINTED);
            && Parse(query) == Some(Dns(h, [q], [], [], [a, a]))
            && Reply(query).Some?
            && Parse(Reply(query).value) == Some(Dns(AnsweredHeader(h), [q], [AddressOf([[98]])], [], [a, b]))
  {
    hide Query, Answered, EncodeQuestion, EncodeName, EncodeHeader, Holds, ReadRecords, ReadName, Parse, Reply, Legal,
         AnsweredHeader, Willing, AddressOf, POINTED;
    var query, answer := Query(h, q, 2, POINTED), Answered(h, q, 2, POINTED);
    ShortNames();
    AskB(q);
    ReplyToGoodQuery(h, q, 2, POINTED);
    QueryHolds(h, q, 2, POINTED);
    PointedParts(query, 19);
    DnsMessage.NameAt(query, 19, [[97]]);
    PointedRecords(query, 19, [[97]], 22);
    QueryParses(h, q, 2, POINTED, [ZeroRecord([[97]]), ZeroRecord([[97]])]);
    AnsweredLayout(h, q, 2, POINTED);
    ARecordParts(answer, 19);
    PointerAt(answer, 19, [[98]]);
    PointedParts(answer, 35);
    PointedRecords(answer, 35, [[98]], 21);
    LegalParses(h, q, 2, POINTED, [ZeroRecord([[97]]), ZeroRecord([[98]])]);
  }

  function ZeroRecord(n: Name): Record {
    Record(n, 1, 1, 0, [])
  }

  lemma ShortNames()
    ensures EncodeName([[97]]) == [1, 97, NUL] && Legal([[97]])
    ensures EncodeName([[98]]) == [1, 98, NUL] && Legal([[98]])
  {
    EncodeNameCons([[97]]);
    EncodeNameCons([[98]]);
    assert EncodeName([]) == [NUL];
  }

  lemma AskB(q: Question)
    requires q == Question([[98]], 1, 1)
    ensures |EncodeQuestion(q)| == 7 && Encodable(q.name) && NulFree(q.name) && Legal(q.name)
  {
    ShortNames();
  }

  lemma QueryHolds(h: Header, q: Question, count: u16, rest: seq<byte>)
    ensures var query, end := Query(h, q, count, rest), HEADER_SIZE + |EncodeQuestion(q)|;
            Holds(query, end, rest) && |query| == end + |rest|
  {
  }

  lemma PointedParts(msg: seq<byte>, at: nat)
    requires Holds(msg, at, POINTED)
    ensures |POINTED| == 25 && at + 25 <= |msg|
    ensures Holds(msg, at, [1, 97, NUL]) && Holds(msg, at + 3, FIXED_FIELDS)
    ensures Holds(msg, at + 13, [0xc0, 19]) && Holds(msg, at + 15, FIXED_FIELDS)
  {
    HoldsParts(msg, at, [1, 97, NUL] + FIXED_FIELDS, [0xc0, 19] + FIXED_FIELDS);
    HoldsParts(msg, at, [1, 97, NUL], FIXED_FIELDS);
    HoldsParts(msg, at + 13, [0xc0, 19], FIXED_FIELDS);
  }

  lemma ARecordParts(msg: seq<byte>, at: nat)
    requires Holds(msg, at, A_RECORD)
    ensures Holds(msg, at, [0xc0, 0x0c])
  {
    assert A_RECORD == [0xc0, 0x0c] + A_RECORD[2..];
    HoldsParts(msg, at, [0xc0, 0x0c], A_RECORD[2..]);
  }

  lemma ZeroRecordAt(msg: seq<byte>, at: nat, n: Name, next: nat)
    requires at <= |msg| && ReadName(msg, at) == Some(Parsed(n, next)) && Holds(msg, next, FIXED_FIELDS)
    ensures ReadRecord(msg, at) == Some(Parsed(ZeroRecord(n), next + 10))
  {
    hide ReadName, Holds, Be16, Be32;
    FixedParts(msg, next);
    RecordAfterName(msg, at, ZeroRecord(n), next);
  }

  lemma FixedParts(msg: seq<byte>, at: nat)
    requires Holds(msg, at, FIXED_FIELDS)
    ensures Holds(msg, at, Be16(1)) && Holds(msg, at + 2, Be16(1)) && Holds(msg, at + 4, Be32(0))
    ensures Holds(msg, at + 8, Be16(0)) && Holds(msg, at + 10, [])
  {
    assert FIXED_FIELDS == Be16(1) + (Be16(1) + (Be32(0) + (Be16(0) + [])));
    HoldsParts(msg, at, Be16(1), Be16(1) + (Be32(0) + (Be16(0) + [])));
    HoldsParts(msg, at + 2, Be16(1), Be32(0) + (Be16(0) + []));
    HoldsParts(msg, at + 4, Be32(0), Be16(0) + []);
    HoldsParts(msg, at + 8, Be16(0), []);
  }

  /** The two records, when there is a name at offset 19. */
  lemma PointedRecords(msg: seq<byte>, at: nat, n: Name, past: nat)
    requires 19 <= at && Holds(msg, at, [1, 97, NUL]) && Holds(msg, at + 3, FIXED_FIELDS)
    requires Holds(msg, at + 13, [0xc0, 19]) && Holds(msg, at + 15, FIXED_FIELDS) && |msg| == at + 25
    requires ReadName(msg, 19) == Some(Parsed(n, past))
    ensures ReadRecords(msg, at, 2) == Some(Parsed([ZeroRecord([[97]]), ZeroRecord(n)], |msg|))
  {
    hide Holds, ReadName, ReadRecord, Legal, EncodeName, ReadRecords;
    ShortNames();
    DnsMessage.NameAt(msg, at, [[97]]);
    ZeroRecordAt(msg, at, [[97]], at + 3);
    HeldBytes(msg, at + 13, [0xc0, 19]);
    NamePointer(msg, at + 13, n, past);
    ZeroRecordAt(msg, at + 13, n, at + 15);
    OneRecord(msg, at + 13, ZeroRecord(n), at + 25);
    TwoRecords(msg, at, ZeroRecord([[97]]), at + 13, ZeroRecord(n), at + 25);
  }

  lemma NamePointer(msg: seq<byte>, at: nat, n: Name, past: nat)
    requires 19 < at && at + 2 <= |msg| && msg[at..at + 2] == [0xc0, 19] && ReadName(msg, 19) == Some(Parsed(n, past))
    ensures ReadName(msg, at) == Some(Parsed(n, at + 2))
  {
    assert msg[at] == msg[at..at + 2][0] && msg[at + 1] == msg[at..at + 2][1];
    hide EncodeName;
    ReadPointer(msg, at, at);
  }

  lemma TwoRecords(msg: seq<byte>, at: nat, r: Record, next: nat, r': Record, end: nat)
    requires at <= |msg| && next <= |msg| && end <= |msg| && ReadRecord(msg, at) == Some(Parsed(r, next))
    requires ReadRecords(msg, next, 1) == Some(Parsed([r'], end))
    ensures ReadRecords(msg, at, 2) == Some(Parsed([r, r'], end))
  {
    hide ReadRecord;
    assert [r] + [r'] == [r, r'];
  }
}
