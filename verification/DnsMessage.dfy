/** DNS messages as section 4.1 of RFC 1035 defines them: a parser with name compression, and an encoder
    without. Neither knows how the tools build or take apart their messages. */
module DnsMessage {
  import opened Bytes
  import opened Names

  /** The id and the two bytes of flags. */
  datatype Header = Header(id: u16, high: byte, low: byte) {
    predicate Response() { Bits(high) & 0x80 != 0 }

    function Opcode(): bv8 { (Bits(high) >> 3) & 0x0f }

    predicate Authoritative() { Bits(high) & 0x04 != 0 }

    predicate Truncated() { Bits(high) & 0x02 != 0 }

    predicate RecursionDesired() { Bits(high) & 0x01 != 0 }

    predicate RecursionAvailable() { Bits(low) & 0x80 != 0 }

    function Reserved(): bv8 { (Bits(low) >> 4) & 0x07 }

    function ResponseCode(): bv8 { Bits(low) & 0x0f }
  }

  datatype Question = Question(name: Name, qtype: u16, qclass: u16)

  datatype Record = Record(name: Name, rtype: u16, rclass: u16, ttl: u32, data: seq<byte>)

  datatype Dns = Dns(header: Header, questions: seq<Question>,
                     answers: seq<Record>, authorities: seq<Record>, additional: seq<Record>)

  const HEADER_SIZE: nat := 12

  // Limits of section 2.3.4: labels of at most 63 octets, names of at most 255.

  predicate Legal(n: Name) {
    (forall l | l in n :: 0 < |l| < 64) && |EncodeName(n)| <= 255
  }

  predicate LegalRecord(r: Record) {
    Legal(r.name) && |r.data| < 0x1_0000
  }

  // Parsing

  datatype Parsed<+T> = Parsed(value: T, next: nat)

  /** Labels from `at` on, up to a root label or through a pointer (section 4.1.4) to a name before `start`. */
  function ReadLabels(msg: seq<byte>, start: nat, at: nat): (r: Option<Parsed<Name>>)
    requires start <= at <= |msg|
    ensures r.Some? ==> at < r.value.next <= |msg| && forall l | l in r.value.value :: 0 < |l| < 64
    decreases start, |msg| - at
  {
    if at == |msg| then None
    else
      var length := FromByte(msg[at]);
      if length == 0 then Some(Parsed([], at + 1))
      else if length < 64 && at + 1 + length <= |msg| then
        match ReadLabels(msg, start, at + 1 + length)
        case None => None
        case Some(rest) => Some(Parsed([msg[at + 1..at + 1 + length]] + rest.value, rest.next))
      else if length >= 192 && at + 1 < |msg| then
        var target := 256 * (length - 192) + FromByte(msg[at + 1]);
        if target >= start then None
        else
          match ReadLabels(msg, target, target)
          case None => None
          case Some(name) => Some(Parsed(name.value, at + 2))
      else None
  }

  function ReadName(msg: seq<byte>, at: nat): (r: Option<Parsed<Name>>)
    requires at <= |msg|
    ensures r.Some? ==> at < r.value.next <= |msg| && Legal(r.value.value)
  {
    var r :- ReadLabels(msg, at, at);
    if |EncodeName(r.value)| <= 255 then Some(r) else None
  }

  function ReadQuestion(msg: seq<byte>, at: nat): (r: Option<Parsed<Question>>)
    requires at <= |msg|
    ensures r.Some? ==> r.value.next <= |msg| && Legal(r.value.value.name)
  {
    var n :- ReadName(msg, at);
    if n.next + 4 > |msg| then None
    else Some(Parsed(Question(n.value, ReadBe16(msg, n.next), ReadBe16(msg, n.next + 2)), n.next + 4))
  }

  function ReadRecord(msg: seq<byte>, at: nat): (r: Option<Parsed<Record>>)
    requires at <= |msg|
    ensures r.Some? ==> r.value.next <= |msg|
  {
    var n :- ReadName(msg, at);
    if n.next + 10 > |msg| then None
    else
      var end := n.next + 10 + ReadBe16(msg, n.next + 8);
      if end > |msg| then None
      else
        Some(Parsed(Record(n.value, ReadBe16(msg, n.next), ReadBe16(msg, n.next + 2), ReadBe32(msg, n.next + 4),
                           msg[n.next + 10..end]), end))
  }

  function ReadQuestions(msg: seq<byte>, at: nat, count: nat): (r: Option<Parsed<seq<Question>>>)
    requires at <= |msg|
    ensures r.Some? ==> r.value.next <= |msg|
    decreases count
  {
    if count == 0 then Some(Parsed([], at))
    else
      var first :- ReadQuestion(msg, at);
      var rest :- ReadQuestions(msg, first.next, count - 1);
      Some(Parsed([first.value] + rest.value, rest.next))
  }

  function ReadRecords(msg: seq<byte>, at: nat, count: nat): (r: Option<Parsed<seq<Record>>>)
    requires at <= |msg|
    ensures r.Some? ==> r.value.next <= |msg|
    decreases count
  {
    if count == 0 then Some(Parsed([], at))
    else
      var first :- ReadRecord(msg, at);
      var rest :- ReadRecords(msg, first.next, count - 1);
      Some(Parsed([first.value] + rest.value, rest.next))
  }

  function Parse(msg: seq<byte>): Option<Dns> {
    if |msg| < HEADER_SIZE then None
    else
      var questions :- ReadQuestions(msg, HEADER_SIZE, ReadBe16(msg, 4));
      var answers :- ReadRecords(msg, questions.next, ReadBe16(msg, 6));
      var authorities :- ReadRecords(msg, answers.next, ReadBe16(msg, 8));
      var additional :- ReadRecords(msg, authorities.next, ReadBe16(msg, 10));
      if additional.next < |msg| then None
      else
        Some(Dns(Header(ReadBe16(msg, 0), msg[2], msg[3]),
                 questions.value, answers.value, authorities.value, additional.value))
  }

  // Encoding

  function EncodeHeader(h: Header, qd: u16, an: u16, ns: u16, ar: u16): (s: seq<byte>)
    ensures |s| == HEADER_SIZE
  {
    Be16(h.id) + [h.high, h.low] + Be16(qd) + Be16(an) + Be16(ns) + Be16(ar)
  }

  function EncodeQuestion(q: Question): seq<byte> {
    EncodeName(q.name) + Be16(q.qtype) + Be16(q.qclass)
  }

  function EncodeRecord(r: Record): seq<byte> {
    EncodeName(r.name) + Be16(r.rtype) + Be16(r.rclass) + Be32(r.ttl) + Be16(|r.data| % 0x1_0000) + r.data
  }

  function EncodeRecords(rs: seq<Record>): seq<byte> {
    if rs == [] then [] else EncodeRecord(rs[0]) + EncodeRecords(rs[1..])
  }

  // What was encoded is read back from where it lies.

  lemma HeaderAt(msg: seq<byte>, h: Header, qd: u16, an: u16, ns: u16, ar: u16)
    requires Holds(msg, 0, EncodeHeader(h, qd, an, ns, ar))
    ensures |msg| >= HEADER_SIZE && Header(ReadBe16(msg, 0), msg[2], msg[3]) == h
    ensures ReadBe16(msg, 4) == qd && ReadBe16(msg, 6) == an && ReadBe16(msg, 8) == ns && ReadBe16(msg, 10) == ar
  {
    var s := EncodeHeader(h, qd, an, ns, ar);
    assert forall i | 0 <= i < 12 :: msg[i] == msg[0..12][i] == s[i];
  }

  lemma {:induction false} LabelsAt(msg: seq<byte>, start: nat, at: nat, n: Name)
    requires start <= at && Holds(msg, at, EncodeName(n)) && (forall l | l in n :: 0 < |l| < 64)
    ensures at + |EncodeName(n)| <= |msg|
    ensures ReadLabels(msg, start, at) == Some(Parsed(n, at + |EncodeName(n)|))
    decreases |n|
  {
    hide *;
    if n == [] {
      RootLabel(msg, start, at);
    } else {
      EncodeNameCons(n);
      HoldsParts(msg, at, EncodeLabel(n[0]), EncodeName(n[1..]));
      LabelsAt(msg, start, at + |EncodeLabel(n[0])|, n[1..]);
      FirstLabel(msg, start, at, n[0], n[1..], at + |EncodeName(n)|);
      assert [n[0]] + n[1..] == n;
    }
  }

  lemma RootLabel(msg: seq<byte>, start: nat, at: nat)
    requires start <= at && Holds(msg, at, EncodeName([]))
    ensures at + |EncodeName([])| <= |msg|
    ensures ReadLabels(msg, start, at) == Some(Parsed([], at + |EncodeName([])|))
  {
    HeldBytes(msg, at, [NUL]);
  }

  lemma FirstLabel(msg: seq<byte>, start: nat, at: nat, l: Label, rest: Name, next: nat)
    requires start <= at && 0 < |l| < 64 && Holds(msg, at, EncodeLabel(l)) && at + 1 + |l| <= |msg|
    requires ReadLabels(msg, start, at + 1 + |l|) == Some(Parsed(rest, next))
    ensures ReadLabels(msg, start, at) == Some(Parsed([l] + rest, next))
  {
    HoldsParts(msg, at, [ToByte(|l|)], l);
    HeldBytes(msg, at, [ToByte(|l|)]);
    HeldBytes(msg, at + 1, l);
  }

  lemma NameAt(msg: seq<byte>, at: nat, n: Name)
    requires Holds(msg, at, EncodeName(n)) && Legal(n)
    ensures ReadName(msg, at) == Some(Parsed(n, at + |EncodeName(n)|))
  {
    LabelsAt(msg, at, at, n);
  }

  lemma QuestionAt(msg: seq<byte>, at: nat, q: Question)
    requires Holds(msg, at, EncodeQuestion(q)) && Legal(q.name)
    ensures ReadQuestion(msg, at) == Some(Parsed(q, at + |EncodeQuestion(q)|))
  {
    hide Holds, Be16, ReadBe16, EncodeName, ReadName, Legal;
    var name := EncodeName(q.name);
    HoldsParts(msg, at, name + Be16(q.qtype), Be16(q.qclass));
    HoldsParts(msg, at, name, Be16(q.qtype));
    NameAt(msg, at, q.name);
    ReadBe16At(msg, at + |name|, q.qtype);
    ReadBe16At(msg, at + |name| + 2, q.qclass);
  }

  lemma RecordAt(msg: seq<byte>, at: nat, r: Record)
    requires LegalRecord(r) && Holds(msg, at, EncodeRecord(r))
    ensures ReadRecord(msg, at) == Some(Parsed(r, at + |EncodeRecord(r)|))
    ensures at + |EncodeRecord(r)| <= |msg|
  {
    hide Holds, Be16, Be32, EncodeName, ReadName, ReadRecord, Legal;
    var name := EncodeName(r.name);
    var a, b, c, d := Be16(r.rtype), Be16(r.rclass), Be32(r.ttl), Be16(|r.data|);
    HoldsParts(msg, at, name + a + b + c + d, r.data);
    HoldsParts(msg, at, name + a + b + c, d);
    HoldsParts(msg, at, name + a + b, c);
    HoldsParts(msg, at, name + a, b);
    HoldsParts(msg, at, name, a);
    NameAt(msg, at, r.name);
    RecordAfterName(msg, at, r, at + |name|);
  }

  /** The fixed fields and the data of a record whose name, however it is written, ends at `next`. */
  lemma RecordAfterName(msg: seq<byte>, at: nat, r: Record, next: nat)
    requires at <= |msg| && ReadName(msg, at) == Some(Parsed(r.name, next)) && |r.data| < 0x1_0000
    requires Holds(msg, next, Be16(r.rtype)) && Holds(msg, next + 2, Be16(r.rclass))
    requires Holds(msg, next + 4, Be32(r.ttl)) && Holds(msg, next + 8, Be16(|r.data|))
    requires Holds(msg, next + 10, r.data)
    ensures ReadRecord(msg, at) == Some(Parsed(r, next + 10 + |r.data|))
  {
    hide Holds, Be16, Be32, ReadBe16, ReadBe32, ReadName;
    ReadBe16At(msg, next, r.rtype);
    ReadBe16At(msg, next + 2, r.rclass);
    ReadBe32At(msg, next + 4, r.ttl);
    ReadBe16At(msg, next + 8, |r.data|);
    HeldBytes(msg, next + 10, r.data);
  }

  lemma {:induction false} RecordsAt(msg: seq<byte>, at: nat, rs: seq<Record>)
    requires forall r | r in rs :: LegalRecord(r)
    requires Holds(msg, at, EncodeRecords(rs))
    ensures at + |EncodeRecords(rs)| <= |msg|
    ensures ReadRecords(msg, at, |rs|) == Some(Parsed(rs, at + |EncodeRecords(rs)|))
    decreases |rs|
  {
    hide Holds, EncodeRecord, ReadRecord, LegalRecord;
    HeldBytes(msg, at, EncodeRecords(rs));
    if rs != [] {
      assert LegalRecord(rs[0]);
      HoldsParts(msg, at, EncodeRecord(rs[0]), EncodeRecords(rs[1..]));
      RecordAt(msg, at, rs[0]);
      RecordsAt(msg, at + |EncodeRecord(rs[0])|, rs[1..]);
      assert [rs[0]] + rs[1..] == rs;
    }
  }
}
