/** From the client's prepared query, through the stub server, to an answer that section 4.1 of RFC 1035
    understands. */
module Codec {
  import opened Bytes
  import opened Names
  import opened DnsMessage
  import opened Answer
  import opened Queries
  import Domains

  /** The record that `A_RECORD` is meant to be. */
  function AddressOf(name: Name): Record {
    Record(name, 1, 1, 3600, [1, 2, 3, 4])
  }

  /** The OPT record of section 6.1.2 of RFC 6891 with the client id as its one option: payload size 4096, DNSSEC
      answers welcome. */
  function ClientOption(client: seq<byte>): Record {
    Record([], 41, 4096, 0x8000, [0xff, 0xee, 0, 16] + client)
  }

  function Options(client: ClientId): seq<Record> {
    if client.Some? then [ClientOption(client.value)] else []
  }

  predicate AllFree(names: seq<Name>) {
    forall n | n in names :: NulFree(n)
  }

  /** Names of which C sees the whole: at least one, none with a NUL in a label. */
  predicate Usable(names: seq<Name>) {
    names != [] && (forall n | n in names :: Countable(n)) && AllFree(names)
  }

  /** The strings that stand for these names. */
  function Encodings(names: seq<Name>): (strings: seq<seq<byte>>)
    ensures |strings| == |names| && forall k | 0 <= k < |names| :: strings[k] == EncodeName(names[k])
  {
    if names == [] then [] else [EncodeName(names[0])] + Encodings(names[1..])
  }

  function Asked(names: seq<Name>, i: nat): Question
    requires names != []
  {
    Question(names[Index(i, |names|)], 1, 1)
  }

  function QueryId(i: nat): Header {
    Header(i % USHRT_MAX, 1, 0)
  }

  lemma OptionsBytes(client: ClientId)
    ensures EncodeRecords(Options(client)) == Extra(client)
    ensures forall r | r in Options(client) :: LegalRecord(r)
  {
    if client.Some? {
      var r := ClientOption(client.value);
      assert EncodeName([]) == [0];
      assert Be16(|r.data| % 0x1_0000) == [0, 0x14];
      assert Be32(r.ttl) == [0, 0, 0x80, 0];
      assert EncodeRecord(r) == [0] + [0, 0x29] + [0x10, 0] + [0, 0, 0x80, 0] + [0, 0x14]
                                + ([0xff, 0xee, 0, 16] + client.value);
      assert EncodeRecord(r) == ADDITIONAL + client.value;
      assert Options(client) == [r] && EncodeRecords([r]) == EncodeRecord(r) + EncodeRecords([]);
    }
  }

  /** What `make_queries` prepares is the encoding of a message. */
  lemma PreparedIsQuery(names: seq<Name>, i: nat, client: ClientId)
    requires names != []
    ensures Prepared(Encodings(names), i, client)
         == Query(QueryId(i), Asked(names, i), |Options(client)|, EncodeRecords(Options(client)))
  {
    hide QueryBytes, Query;
    QueryOf(names[Index(i, |names|)], i, client);
  }

  lemma QueryOf(n: Name, i: nat, client: ClientId)
    ensures QueryBytes(i, EncodeName(n), client)
         == Query(QueryId(i), Question(n, 1, 1), |Options(client)|, EncodeRecords(Options(client)))
  {
    hide EncodeName;
    OptionsBytes(client);
    HeaderOfQuery(i, client);
    hide QueryHeader, EncodeHeader, EncodeRecords, Be16, Extra, Options;
    assert QueryBytes(i, EncodeName(n), client)
        == QueryHeader(i, client) + ((EncodeName(n) + Be16(1) + Be16(1)) + Extra(client));
  }

  lemma HeaderOfQuery(i: nat, client: ClientId)
    ensures QueryHeader(i, client) == EncodeHeader(QueryId(i), 1, 0, 0, |Options(client)|)
  {
  }

  /** The pointer of the answer record is to the name of the question. */
  lemma PointerAt(msg: seq<byte>, at: nat, n: Name)
    requires at > HEADER_SIZE && Holds(msg, HEADER_SIZE, EncodeName(n)) && Legal(n)
    requires Holds(msg, at, [0xc0, 0x0c])
    ensures ReadName(msg, at) == Some(Parsed(n, at + 2))
  {
    hide EncodeName, Holds;
    HeldBytes(msg, at, [0xc0, 0x0c]);
    assert msg[at + 1] == msg[at..at + 2][1];
    LabelsAt(msg, HEADER_SIZE, HEADER_SIZE, n);
    PointerStep(msg, at, n, HEADER_SIZE + |EncodeName(n)|);
  }

  lemma PointerStep(msg: seq<byte>, at: nat, n: Name, next: nat)
    requires HEADER_SIZE < at && at + 2 <= |msg| && msg[at] == 0xc0 && msg[at + 1] == 0x0c
    requires ReadLabels(msg, HEADER_SIZE, HEADER_SIZE) == Some(Parsed(n, next))
    ensures ReadLabels(msg, at, at) == Some(Parsed(n, at + 2))
  {
  }

  lemma AddressAt(msg: seq<byte>, at: nat, n: Name)
    requires at > HEADER_SIZE && Holds(msg, HEADER_SIZE, EncodeName(n)) && Legal(n)
    requires Holds(msg, at, A_RECORD)
    ensures at + |A_RECORD| <= |msg| && ReadRecord(msg, at) == Some(Parsed(AddressOf(n), at + |A_RECORD|))
  {
    var r := AddressOf(n);
    assert A_RECORD == [0xc0, 0x0c] + (Be16(1) + (Be16(1) + (Be32(3600) + (Be16(4) + r.data))));
    HoldsParts(msg, at, [0xc0, 0x0c], Be16(1) + (Be16(1) + (Be32(3600) + (Be16(4) + r.data))));
    HoldsParts(msg, at + 2, Be16(1), Be16(1) + (Be32(3600) + (Be16(4) + r.data)));
    HoldsParts(msg, at + 4, Be16(1), Be32(3600) + (Be16(4) + r.data));
    HoldsParts(msg, at + 6, Be32(3600), Be16(4) + r.data);
    HoldsParts(msg, at + 10, Be16(4), r.data);
    hide Holds, ReadRecord, Be16, Be32;
    PointerAt(msg, at, n);
    RecordAfterName(msg, at, r, at + 2);
  }

  /** Where the parts of an answer lie. */
  lemma AnsweredLayout(h: Header, q: Question, count: u16, rest: seq<byte>)
    ensures var msg, at := Answered(h, q, count, rest), HEADER_SIZE + |EncodeQuestion(q)|;
            && Holds(msg, 0, EncodeHeader(AnsweredHeader(h), 1, 1, 0, count))
            && Holds(msg, HEADER_SIZE, EncodeQuestion(q)) && Holds(msg, HEADER_SIZE, EncodeName(q.name))
            && Holds(msg, at, A_RECORD) && Holds(msg, at + |A_RECORD|, rest)
            && |msg| == at + |A_RECORD| + |rest|
  {
    hide EncodeHeader, EncodeName, AnsweredHeader, Holds, Be16;
    var msg, question := Answered(h, q, count, rest), EncodeQuestion(q);
    Whole(msg);
    HoldsParts(msg, 0, EncodeHeader(AnsweredHeader(h), 1, 1, 0, count), question + (A_RECORD + rest));
    HoldsParts(msg, HEADER_SIZE, question, A_RECORD + rest);
    HoldsParts(msg, HEADER_SIZE + |question|, A_RECORD, rest);
    HoldsParts(msg, HEADER_SIZE, EncodeName(q.name) + Be16(q.qtype), Be16(q.qclass));
    HoldsParts(msg, HEADER_SIZE, EncodeName(q.name), Be16(q.qtype));
  }

  lemma Whole(s: seq<byte>)
    ensures Holds(s, 0, s)
  {
  }

  /** An answer parses to what its additional records are read as, behind the question and one address. */
  lemma LegalParses(h: Header, q: Question, count: u16, rest: seq<byte>, records: seq<Record>)
    requires Legal(q.name)
    requires var msg, at := Answered(h, q, count, rest), HEADER_SIZE + |EncodeQuestion(q)| + |A_RECORD|;
             at <= |msg| && ReadRecords(msg, at, count) == Some(Parsed(records, |msg|))
    ensures Parse(Answered(h, q, count, rest))
         == Some(Dns(AnsweredHeader(h), [q], [AddressOf(q.name)], [], records))
  {
    hide Holds, Answered, AnsweredHeader, EncodeHeader, EncodeName, ReadName, ReadQuestion, ReadRecord, ReadBe16,
         Be16, Legal, AddressOf;
    var msg, at := Answered(h, q, count, rest), HEADER_SIZE + |EncodeQuestion(q)|;
    AnsweredLayout(h, q, count, rest);
    HeaderAt(msg, AnsweredHeader(h), 1, 1, 0, count);
    QuestionAt(msg, HEADER_SIZE, q);
    AddressAt(msg, at, q.name);
    OneQuestion(msg, HEADER_SIZE, q, at);
    OneRecord(msg, at, AddressOf(q.name), at + |A_RECORD|);
  }

  /** An answer parses as it should exactly when its name keeps to the limits of section 2.3.4 of RFC 1035,
      which neither `get_domains` nor the server checks. */
  lemma AnsweredParses(h: Header, q: Question, additional: seq<Record>)
    requires |additional| < 0x1_0000 && forall r | r in additional :: LegalRecord(r)
    ensures Legal(q.name)
            <==> Parse(Answered(h, q, |additional|, EncodeRecords(additional)))
                 == Some(Dns(AnsweredHeader(h), [q], [AddressOf(q.name)], [], additional))
  {
    hide Answered, AnsweredHeader, EncodeRecords, Parse, Legal, LegalRecord;
    if Legal(q.name) {
      PlainRecords(h, q, additional);
      LegalParses(h, q, |additional|, EncodeRecords(additional), additional);
    } else {
      ParsedIsLegal(Answered(h, q, |additional|, EncodeRecords(additional)));
      assert q in [q];
    }
  }

  lemma PlainRecords(h: Header, q: Question, additional: seq<Record>)
    requires |additional| < 0x1_0000 && forall r | r in additional :: LegalRecord(r)
    ensures var msg := Answered(h, q, |additional|, EncodeRecords(additional));
            var at := HEADER_SIZE + |EncodeQuestion(q)| + |A_RECORD|;
            at <= |msg| && ReadRecords(msg, at, |additional|) == Some(Parsed(additional, |msg|))
  {
    hide Holds, Answered, AnsweredHeader, EncodeHeader, EncodeQuestion, EncodeRecords, ReadRecords, LegalRecord;
    var records := EncodeRecords(additional);
    AnsweredLayout(h, q, |additional|, records);
    RecordsAt(Answered(h, q, |additional|, records), HEADER_SIZE + |EncodeQuestion(q)| + |A_RECORD|, additional);
  }

  lemma OneQuestion(msg: seq<byte>, at: nat, q: Question, next: nat)
    requires at <= |msg| && next <= |msg| && ReadQuestion(msg, at) == Some(Parsed(q, next))
    ensures ReadQuestions(msg, at, 1) == Some(Parsed([q], next))
  {
    assert ReadQuestions(msg, next, 0) == Some(Parsed([], next)) && [q] + [] == [q];
  }

  lemma OneRecord(msg: seq<byte>, at: nat, r: Record, next: nat)
    requires at <= |msg| && next <= |msg| && ReadRecord(msg, at) == Some(Parsed(r, next))
    ensures ReadRecords(msg, at, 1) == Some(Parsed([r], next))
  {
    assert ReadRecords(msg, next, 0) == Some(Parsed([], next)) && [r] + [] == [r];
  }

  /** The parser lets no name through that breaks the limits. */
  lemma ParsedIsLegal(msg: seq<byte>)
    ensures Parse(msg).Some? ==> forall q | q in Parse(msg).value.questions :: Legal(q.name)
  {
    if Parse(msg).Some? {
      QuestionsLegal(msg, HEADER_SIZE, ReadBe16(msg, 4));
    }
  }

  lemma {:induction false} QuestionsLegal(msg: seq<byte>, at: nat, count: nat)
    requires at <= |msg| && ReadQuestions(msg, at, count).Some?
    ensures forall q | q in ReadQuestions(msg, at, count).value.value :: Legal(q.name)
    decreases count
  {
    if count > 0 {
      QuestionsLegal(msg, ReadQuestion(msg, at).value.next, count - 1);
    }
  }

  /** The whole way of query i: the server never refuses it, and what it sends back has the client's id, the
      question, one address for its name and the unchanged client option, for every name within the limits. */
  lemma EndToEnd(names: seq<Name>, i: nat, client: ClientId)
    requires Usable(names)
    ensures var query, q := Prepared(Encodings(names), i, client), Asked(names, i);
            var r := Reply(query);
            && r.Some? && |r.value| == |query| + 16
            && (Parse(r.value) == Some(Dns(AnsweredHeader(QueryId(i)), [q], [AddressOf(q.name)], [], Options(client)))
                <==> Legal(q.name))
    ensures var a := AnsweredHeader(QueryId(i));
            && a.id == i % USHRT_MAX && a.Response() && a.Authoritative() && a.RecursionDesired()
            && a.Opcode() == 0 && a.ResponseCode() == 0 && !a.Truncated()
  {
    var h, q, options := QueryId(i), Asked(names, i), Options(client);
    assert q.name in names;
    PreparedIsQuery(names, i, client);
    OptionsBytes(client);
    QueryFlags(h);
    FlagsMeaning(h);
    hide Reply, Parse, Prepared, Query, Answered, EncodeRecords;
    ReplyToGoodQuery(h, q, |options|, EncodeRecords(options));
    AnsweredParses(h, q, options);
    Sizes(h, q, |options|, EncodeRecords(options));
  }

  lemma QueryFlags(h: Header)
    requires h.high == 1 && h.low == 0
    ensures h.ResponseCode() == 0 && h.Reserved() == 0 && h.RecursionDesired() && h.Opcode() == 0
  {
  }

  /** Whatever the block of names holds, the server never refuses a query for one of its strings, nor fails on
      it: its answer has the client's id, code 0 and one record more. */
  lemma AlwaysAnswered(i: nat, encoded: seq<byte>, client: ClientId)
    requires Terminated(encoded)
    ensures var query := QueryBytes(i, encoded, client);
            var r := Reply(query);
            && r.Some? && |r.value| == |query| + 16
            && HeaderOf(r.value).id == i % USHRT_MAX && HeaderOf(r.value).Response()
            && HeaderOf(r.value).ResponseCode() == 0 && ReadBe16(r.value, 4) == ReadBe16(r.value, 6) == 1
  {
    hide Reply, FirstNul, QueryBytes, QueryHeader, Be16, Keeps;
    var query := QueryBytes(i, encoded, client);
    StringQuery(i, encoded, client);
    QueryFlags(QueryId(i));
    ReplyCases(query);
  }

  lemma StringQuery(i: nat, encoded: seq<byte>, client: ClientId)
    requires Terminated(encoded)
    ensures var query := QueryBytes(i, encoded, client);
            && |query| >= HEADER_SIZE && HeaderOf(query) == QueryId(i) && ReadBe16(query, 4) == 1
            && ReadBe16(query, 6) == 0 && ReadBe16(query, 8) == 0
            && QuestionEnd(query) <= |query| && ReadBe16(query, QuestionEnd(query) - 4) == 1
  {
    hide FirstNul, QueryBytes, QueryHeader, Be16, Extra;
    var query := QueryBytes(i, encoded, client);
    QueryParts(i, encoded, client);
    HeaderFields(query, i, client);
    StringEnds(query, QueryHeader(i, client), encoded, [0, 1, 0, 1] + Extra(client));
    var end := HEADER_SIZE + |encoded|;
    assert query[end] == query[end..][0] == 0 && query[end + 1] == query[end..][1] == 1;
  }

  lemma QueryParts(i: nat, encoded: seq<byte>, client: ClientId)
    ensures |QueryHeader(i, client)| == HEADER_SIZE
    ensures QueryBytes(i, encoded, client) == QueryHeader(i, client) + encoded + ([0, 1, 0, 1] + Extra(client))
    ensures QueryBytes(i, encoded, client)[..HEADER_SIZE] == QueryHeader(i, client)
  {
    hide QueryHeader, Extra;
    QueryInOrder([], i, encoded, client);
    assert Be16(1) + Be16(1) == [0, 1, 0, 1];
    assert QueryBytes(i, encoded, client)
        == QueryHeader(i, client) + encoded + ((Be16(1) + Be16(1)) + Extra(client));
  }

  lemma HeaderFields(query: seq<byte>, i: nat, client: ClientId)
    requires |query| >= HEADER_SIZE && query[..HEADER_SIZE] == QueryHeader(i, client)
    ensures HeaderOf(query) == QueryId(i) && ReadBe16(query, 4) == 1
    ensures ReadBe16(query, 6) == 0 && ReadBe16(query, 8) == 0
  {
    var h := QueryHeader(i, client);
    assert forall k | 0 <= k < HEADER_SIZE :: query[k] == query[..HEADER_SIZE][k] == h[k];
  }

  lemma StringEnds(query: seq<byte>, header: seq<byte>, encoded: seq<byte>, rest: seq<byte>)
    requires |header| == HEADER_SIZE && Terminated(encoded) && query == header + encoded + rest && |rest| >= 4
    ensures FirstNul(query, HEADER_SIZE) == HEADER_SIZE + |encoded| - 1
    ensures query[HEADER_SIZE + |encoded|..] == rest && query[..HEADER_SIZE] == header
  {
    var last := HEADER_SIZE + |encoded| - 1;
    assert forall k | HEADER_SIZE <= k < last :: query[k] == encoded[..|encoded| - 1][k - HEADER_SIZE];
    assert query[last] == encoded[|encoded| - 1];
  }

  // From a text of domain names

  lemma {:induction false} LabelsInjective(n: Name, m: Name)
    requires Domains.SameShape(n, m) && EncodeLabels(n) == EncodeLabels(m)
    ensures n == m
  {
    if n != [] {
      var first, rest := n[0], n[1..];
      assert EncodeLabels(n)[1..][..|first|] == first;
      assert EncodeLabels(n)[1..][|first|..] == EncodeLabels(rest);
      assert |m[0]| == |first| && EncodeLabels(m)[1..][..|first|] == m[0];
      assert EncodeLabels(m)[1..][|first|..] == EncodeLabels(m[1..]);
      assert forall i | 0 <= i < |rest| :: rest[i] == n[i + 1] && m[1..][i] == m[i + 1];
      LabelsInjective(rest, m[1..]);
      assert n == [first] + rest && m == [m[0]] + m[1..];
    }
  }

  /** A name is its string exactly when it has no NUL. */
  lemma StringIsName(s: seq<byte>, c: Name, n: Name)
    requires Domains.SameShape(c, n) && Terminated(s) && s == EncodeName(n)
    ensures NulFree(n) && (EncodeName(c) == s ==> c == n)
  {
    assert s[..|s| - 1] == EncodeLabels(n);
    FreeLabels(n);
    if EncodeName(c) == s {
      assert EncodeName(c)[..|s| - 1] == EncodeLabels(c);
      LabelsInjective(c, n);
    }
  }

  /** C sees the meant names in the block exactly when they are what is there and have no NUL. */
  lemma {:induction false} StringsAreNames(block: seq<byte>, at: nat, copied: seq<Name>, names: seq<Name>)
    requires at <= |block| && block[at..] == Block(copied)
    requires Domains.SameShapes(copied, names) && forall n | n in copied :: Countable(n)
    ensures StringsFrom(block, at) == Encodings(names) <==> copied == names && AllFree(names)
    decreases |copied|
  {
    if copied == [] {
      assert block[at..] == [NUL] && block[at] == block[at..][0];
    } else {
      hide StringsFrom, EncodeName, Block, Holds, Countable, NulFree, AllFree, Domains.SameShape, Domains.SameShapes;
      var c, n, next := copied[0], names[0], at + |EncodeName(copied[0])|;
      BlockParts(block, at, copied);
      ShapesTail(copied, names);
      StringsAreNames(block, next, copied[1..], names[1..]);
      FirstString(block, at, c, n, next);
      ListsEqual(copied, names);
      ConsEqual(StringsFrom(block, at), EncodeName(n), StringsFrom(block, next), Encodings(names[1..]),
                c == n && NulFree(n));
      assert Encodings(names) == [EncodeName(n)] + Encodings(names[1..]);
    }
  }

  lemma ConsEqual<T>(strings: seq<T>, first: T, found: seq<T>, rest: seq<T>, same: bool)
    requires if same then strings == [first] + found else strings == [] || strings[0] != first
    ensures strings == [first] + rest <==> same && found == rest
  {
    assert ([first] + found)[1..] == found && ([first] + rest)[1..] == rest;
  }

  lemma ListsEqual(copied: seq<Name>, names: seq<Name>)
    requires |copied| == |names| > 0
    ensures copied == names <==> copied[0] == names[0] && copied[1..] == names[1..]
    ensures AllFree(names) <==> NulFree(names[0]) && AllFree(names[1..])
  {
    assert copied == [copied[0]] + copied[1..] && names == [names[0]] + names[1..];
  }

  lemma BlockParts(block: seq<byte>, at: nat, copied: seq<Name>)
    requires at <= |block| && block[at..] == Block(copied) && copied != []
    ensures var next := at + |EncodeName(copied[0])|;
            next <= |block| && Holds(block, at, EncodeName(copied[0])) && block[next..] == Block(copied[1..])
  {
    assert block[at..] == EncodeName(copied[0]) + Block(copied[1..]);
  }

  lemma ShapesTail(copied: seq<Name>, names: seq<Name>)
    requires Domains.SameShapes(copied, names) && copied != []
    ensures Domains.SameShape(copied[0], names[0]) && Domains.SameShapes(copied[1..], names[1..])
    ensures |EncodeName(copied[0])| == |EncodeName(names[0])|
  {
    Domains.NameShapeSize(copied[0], names[0]);
  }

  lemma FirstString(block: seq<byte>, at: nat, c: Name, n: Name, next: nat)
    requires Countable(c) && Domains.SameShape(c, n) && |EncodeName(c)| == |EncodeName(n)|
    requires next == at + |EncodeName(c)| <= |block| && Holds(block, at, EncodeName(c))
    ensures var strings := StringsFrom(block, at);
            if c == n && NulFree(n) then strings == [EncodeName(n)] + StringsFrom(block, next)
            else strings == [] || strings[0] != EncodeName(n)
  {
    hide StringsFrom, EncodeName, Holds, NulFree, Countable, Domains.SameShape;
    var strings := StringsFrom(block, at);
    if NulFree(c) {
      FreeString(block, at, c, next);
    }
    if strings != [] && strings[0] == EncodeName(n) {
      StringBytes(block, at);
      HeldBytes(block, at, EncodeName(c));
      StringIsName(strings[0], c, n);
    }
  }

  lemma StringBytes(block: seq<byte>, at: nat)
    requires at <= |block| && StringsFrom(block, at) != []
    ensures var s := StringsFrom(block, at)[0];
            Terminated(s) && Holds(block, at, s)
  {
  }

  lemma FreeString(block: seq<byte>, at: nat, n: Name, next: nat)
    requires Countable(n) && NulFree(n) && Holds(block, at, EncodeName(n))
    requires next == at + |EncodeName(n)| <= |block|
    ensures StringsFrom(block, at) == [EncodeName(n)] + StringsFrom(block, next)
  {
    hide FirstNul, EncodeName, Encodable, NulFree, Holds;
    NameEnds(block, at, n);
    HeldBytes(block, at, EncodeName(n));
    NotJustNul(n);
  }

  lemma NotJustNul(n: Name)
    requires Countable(n)
    ensures |EncodeName(n)| > 1
  {
  }

  lemma CopiedUsable(text: seq<byte>, copied: seq<Name>)
    requires NUL !in text && copied != []
    requires (forall n | n in copied :: Countable(n)) && Domains.AllNulsFrom(text, copied)
    ensures Usable(copied)
  {
    forall n | n in copied
      ensures NulFree(n)
    {
      assert Domains.NulsFrom(text, n);
    }
  }

  lemma {:induction false} NamesFree(lines: seq<seq<byte>>)
    ensures AllFree(Domains.NamesOf(lines)) <==> Domains.FreeOf(lines, NUL)
  {
    if lines != [] {
      var before, last := lines[..|lines| - 1], lines[|lines| - 1];
      NamesFree(before);
      Domains.FreeAppend(before, last, NUL);
      Domains.SplitFree(last, Domains.DOT, NUL);
      assert lines == before + [last];
      AllFreeAppend(Domains.NamesOf(before), Domains.Labels(last));
      assert Domains.NamesOf(before) + [] == Domains.NamesOf(before);
    }
  }

  lemma AllFreeAppend(names: seq<Name>, n: Name)
    ensures AllFree(names + [n]) <==> AllFree(names) && Domains.FreeOf(n, NUL)
  {
    var all := names + [n];
    assert n in all && forall m | m in names :: m in all;
  }

  lemma TextFree(text: seq<byte>)
    ensures AllFree(Domains.NamesOf(Domains.Lines(text))) <==> NUL !in text
  {
    NamesFree(Domains.Lines(text));
    Domains.SplitFree(text, Domains.NEWLINE, NUL);
  }

  lemma BlockWalkable(names: seq<Name>)
    requires names != [] && forall n | n in names :: Countable(n)
    ensures Walkable(Block(names))
  {
    var last, before := names[|names| - 1], EncodeNames(names[..|names| - 1]);
    assert names == names[..|names| - 1] + [last];
    EncodeNamesAppend(names[..|names| - 1], last);
    assert Block(names) == (before + EncodeLabels(last)) + [NUL, NUL];
    assert Block(names)[..] == Block(names) && names[0..] == names;
    assert BlockAt(Block(names), 0, names, 0);
    hide EncodeNames, EncodeLabels, BlockAt, Countable;
    FirstNameAt(Block(names), 0, names, 0);
  }

  /** The start of the client: from a text of names to the buffer of queries for the strings that C sees in the
      block. They are the names of the lines, split at dots, exactly when no name comes after a blank line and no
      NUL is in the text. */
  method Prepare(text: seq<byte>, count: nat, client: ClientId)
    returns (ok: bool, buffer: array<byte>, ghost strings: seq<seq<byte>>, ghost names: seq<Name>)
    ensures ok
            <==> 0 < |text| <= Domains.DOMAINS_FILE_LIMIT && Domains.Acceptable(Domains.Lines(text))
                 && Domains.NamesOf(Domains.Lines(text)) != []
    ensures ok ==> strings != [] && buffer[..] == AllQueries(strings, count, client)
    ensures ok ==> forall s | s in strings :: Terminated(s)
    ensures ok ==> (strings == Encodings(Domains.NamesOf(Domains.Lines(text)))
                    <==> Domains.BlankOnlyAtEnd(Domains.Lines(text)) && NUL !in text)
    ensures ok ==> names == Domains.Copies(Domains.Lines(text)) && strings == Strings(Block(names))
    ensures ok && NUL !in text ==> Usable(names) && strings == Encodings(names)
    ensures ok ==> (names == Domains.NamesOf(Domains.Lines(text)) <==> Domains.BlankOnlyAtEnd(Domains.Lines(text)))
  {
    hide AllQueries, Block, Domains.NamesOf, Domains.Copies, Domains.Lines, Domains.Acceptable,
         Domains.BlankOnlyAtEnd, Usable, Countable, Domains.AllNulsFrom, Terminated, Walkable, Encodings,
         StringsFrom, AllFree;
    buffer, strings := new byte[0], [];
    var domains: nat, block: seq<byte>;
    ok, domains, block, names := Domains.GetDomains(text);
    if !ok || domains < 1 {
      return false, buffer, strings, names;
    }
    ghost var lines := Domains.NamesOf(Domains.Lines(text));
    BlockWalkable(names);
    StringsAreNames(block, 0, names, lines);
    TextFree(text);
    if NUL !in text {
      CopiedUsable(text, names);
      SameShapesSelf(names);
      StringsAreNames(block, 0, names, names);
    }
    buffer := MakeQueries(block, count, client);
    strings := Strings(block);
  }

  lemma SameShapesSelf(names: seq<Name>)
    ensures Domains.SameShapes(names, names)
    ensures Usable(names) ==> AllFree(names)
  {
  }

  /** A text that is accepted, and whose one line C takes for two names: `a`, NUL, `b`. */
  lemma NulMisread(text: seq<byte>)
    requires text == [97, NUL, 98]
    ensures var lines := Domains.Lines(text);
            && Domains.Acceptable(lines) && Domains.BlankOnlyAtEnd(lines) && Domains.NamesOf(lines) == [[text]]
    ensures Strings(Block([[text]])) == [[3, 97, NUL], [98, NUL]]
  {
    hide Domains.Split, StringsFrom;
    Domains.OnePiece(text, Domains.NEWLINE);
    Domains.OnePiece(text, Domains.DOT);
    OneLine(text, [text]);
    NulBlock(text);
    var block: seq<byte> := [3, 97, NUL, 98, NUL, NUL];
    assert [3] + text + [NUL, NUL] == block;
    StringsStep(block, 0, 2);
    StringsStep(block, 3, 4);
    StringsStep(block, 5, 5);
    assert block[0..3] == [3, 97, NUL] && block[3..5] == [98, NUL];
  }

  lemma NulBlock(text: seq<byte>)
    requires |text| == 3
    ensures Block([[text]]) == [3] + text + [NUL, NUL]
  {
    assert [text][1..] == [] && EncodeLabels([text]) == EncodeLabel(text) + EncodeLabels([]);
    assert [[text]][1..] == [] && EncodeNames([[text]]) == EncodeName([text]) + EncodeNames([]);
  }

  lemma StringsStep(block: seq<byte>, at: nat, end: nat)
    requires at <= end < |block| && block[end] == NUL && NUL !in block[at..end]
    ensures StringsFrom(block, at)
         == if at == end then [] else [block[at..end + 1]] + StringsFrom(block, end + 1)
  {
    assert forall i | at <= i < end :: block[i] in block[at..end];
    assert FirstNul(block, at) == end;
  }

  // Names beyond the limits, from the text to the answer

  /** A line of one long label is accepted, asked for and answered, and the answer is not the one that was meant. */
  lemma LongLabel(text: seq<byte>, i: nat, client: ClientId)
    requires Domains.NEWLINE !in text && Domains.DOT !in text && NUL !in text && 64 <= |text| <= 255
    ensures var lines, names := Domains.Lines(text), [[text]];
            && Domains.Acceptable(lines) && Domains.BlankOnlyAtEnd(lines) && Domains.NamesOf(lines) == names
            && Usable(names) && Reply(Prepared(Encodings(names), i, client)).Some?
            && Parse(Reply(Prepared(Encodings(names), i, client)).value)
               != Some(Dns(AnsweredHeader(QueryId(i)), [Asked(names, i)], [AddressOf([text])], [], Options(client)))
  {
    hide Parse, Reply, Prepared, AnsweredHeader, Encodings, Options, AddressOf, Usable, Legal, Domains.Split,
         Domains.Acceptable, Domains.BlankOnlyAtEnd, Domains.NamesOf;
    Domains.OnePiece(text, Domains.NEWLINE);
    Domains.OnePiece(text, Domains.DOT);
    OneLine(text, [text]);
    TooLong(text);
    EndToEnd([[text]], i, client);
    assert Asked([[text]], i).name == [text];
  }

  lemma TooLong(l: Label)
    requires |l| >= 64
    ensures !Legal([l])
  {
    assert l in [l];
  }

  lemma OneLine(text: seq<byte>, n: Name)
    requires Domains.Lines(text) == [text] && Domains.Labels(text) == n && text != []
    requires forall l | l in n :: 0 < |l| < 256
    ensures var lines := Domains.Lines(text);
            && Domains.Acceptable(lines) && Domains.BlankOnlyAtEnd(lines) && Domains.NamesOf(lines) == [n]
            && (NulFree(n) ==> Usable([n]))
  {
    assert [text][..0] == [] && Domains.NamesOf([]) == [];
    assert Domains.NamesOf([text]) == [] + [n];
  }

  /** The length byte 192 of this label is read as a pointer to offset 8, and the label's own bytes as a question
      and a record. */
  const MISLEADING: seq<byte> := [8, 1, 1, 1, 1, 0xc0, 8, 1, 1, 1, 1, 1, 1, 1, 1, 1, 1]

  /** A name that is accepted and asked for, and whose answer is read as a message that nobody meant: a question
      for the root, and one record with 257 bytes of the name and of the address as its data. */
  lemma AnswerMisread(n: Name, i: nat)
    requires |n| == 2 && |n[0]| == 192 && |n[1]| == 60 && n[0][..|MISLEADING|] == MISLEADING
    requires forall l | l in n :: Domains.NEWLINE !in l && Domains.DOT !in l && NUL !in l
    ensures var text := n[0] + [Domains.DOT] + n[1];
            && Domains.Acceptable(Domains.Lines(text)) && Domains.NamesOf(Domains.Lines(text)) == [n]
            && NUL !in text && Domains.BlankOnlyAtEnd(Domains.Lines(text)) && Usable([n])
    ensures var r := Reply(Prepared(Encodings([n]), i, None));
            && r.Some? && |r.value| == 287
            && Parse(r.value) == Some(Dns(AnsweredHeader(QueryId(i)), [Question([], 0x0101, 0x0101)],
                                          [Record([], 0x0101, 0x0101, 0x0101_0101, r.value[30..])], [], []))
  {
    hide Parse, Reply, Prepared, Answered, Query, AnsweredHeader, Domains.Split, Domains.Acceptable, Usable;
    var text, h, q := n[0] + [Domains.DOT] + n[1], QueryId(i), Question(n, 1, 1);
    assert n == [n[0], n[1]] && n[0] in n && n[1] in n;
    Domains.TwoPieces(n[0], n[1], Domains.DOT);
    Domains.OnePiece(text, Domains.NEWLINE);
    OneLine(text, n);
    assert Usable([n]) && Asked([n], i) == q by { assert [n][Index(i, 1)] == n; }
    PreparedIsQuery([n], i, None);
    QueryFlags(h);
    ReplyToGoodQuery(h, q, 0, []) by { assert Countable(n) && NulFree(n); }
    MisreadBytes(h, n);
    ParseMisread(Answered(h, q, 0, []), AnsweredHeader(h));
  }

  lemma MisreadBytes(h: Header, n: Name)
    requires |n| == 2 && |n[0]| == 192 && |n[1]| == 60 && n[0][..|MISLEADING|] == MISLEADING
    ensures var msg := Answered(h, Question(n, 1, 1), 0, []);
            && |msg| == 287 && Holds(msg, 0, EncodeHeader(AnsweredHeader(h), 1, 1, 0, 0))
            && Holds(msg, HEADER_SIZE, [192] + MISLEADING)
  {
    var q := Question(n, 1, 1);
    AnsweredLayout(h, q, 0, []);
    hide Answered, AnsweredHeader, Holds, EncodeHeader;
    assert n == [n[0]] + [n[1]] && n[1..] == [n[1]] && n[1..][1..] == [];
    assert EncodeLabels(n) == EncodeLabel(n[0]) + EncodeLabels([n[1]]);
    assert EncodeLabels([n[1]]) == EncodeLabel(n[1]) + EncodeLabels([]);
    var rest := n[0][|MISLEADING|..] + EncodeLabel(n[1]) + [NUL];
    assert EncodeLabel(n[0]) == [192] + MISLEADING + n[0][|MISLEADING|..];
    assert EncodeName(n) == ([192] + MISLEADING) + rest;
    HoldsParts(Answered(h, q, 0, []), HEADER_SIZE, [192] + MISLEADING, rest);
  }

  lemma ParseMisread(msg: seq<byte>, a: Header)
    requires |msg| == 287 && Holds(msg, 0, EncodeHeader(a, 1, 1, 0, 0)) && Holds(msg, HEADER_SIZE, [192] + MISLEADING)
    ensures Parse(msg) == Some(Dns(a, [Question([], 0x0101, 0x0101)],
                                   [Record([], 0x0101, 0x0101, 0x0101_0101, msg[30..])], [], []))
  {
    hide Holds, EncodeHeader, ReadName, ReadQuestion, ReadRecord, ReadQuestions, ReadRecords, ReadBe16;
    HeaderAt(msg, a, 1, 1, 0, 0);
    MisreadParts(msg);
    var q, r := Question([], 0x0101, 0x0101), Record([], 0x0101, 0x0101, 0x0101_0101, msg[30..]);
    OneQuestion(msg, HEADER_SIZE, q, 18);
    OneRecord(msg, 18, r, |msg|);
    NoRecords(msg, |msg|);
  }

  lemma NoRecords(msg: seq<byte>, at: nat)
    requires at <= |msg|
    ensures ReadRecords(msg, at, 0) == Some(Parsed([], at))
  {
  }

  lemma MisreadParts(msg: seq<byte>)
    requires |msg| == 287 && ReadBe16(msg, 8) == 0 && Holds(msg, HEADER_SIZE, [192] + MISLEADING)
    ensures ReadQuestion(msg, HEADER_SIZE) == Some(Parsed(Question([], 0x0101, 0x0101), 18))
    ensures ReadRecord(msg, 18) == Some(Parsed(Record([], 0x0101, 0x0101, 0x0101_0101, msg[30..]), |msg|))
  {
    hide ReadName, Holds, ReadBe16, ReadBe32;
    MisreadFields(msg);
    RootAt(msg, HEADER_SIZE);
    RootAt(msg, 18);
    assert msg[30..287] == msg[30..];
  }

  lemma MisreadFields(msg: seq<byte>)
    requires |msg| == 287 && ReadBe16(msg, 8) == 0 && Holds(msg, HEADER_SIZE, [192] + MISLEADING)
    ensures msg[8] == NUL && msg[HEADER_SIZE] == msg[18] == 0xc0 && msg[HEADER_SIZE + 1] == msg[19] == 8
    ensures ReadBe16(msg, 14) == ReadBe16(msg, 16) == ReadBe16(msg, 20) == ReadBe16(msg, 22) == 0x0101
    ensures ReadBe32(msg, 24) == 0x0101_0101 && ReadBe16(msg, 28) == 0x0101
  {
    var part := [192] + MISLEADING;
    assert forall i | 0 <= i < 18 :: msg[HEADER_SIZE + i] == msg[HEADER_SIZE..HEADER_SIZE + 18][i] == part[i];
  }

  lemma RootAt(msg: seq<byte>, at: nat)
    requires 8 < at && at + 2 <= |msg| && msg[at] == 0xc0 && msg[at + 1] == 8 && msg[8] == NUL
    ensures ReadName(msg, at) == Some(Parsed([], at + 2))
  {
    assert ReadLabels(msg, 8, 8) == Some(Parsed([], 9));
    assert EncodeName([]) == [NUL];
  }
}
