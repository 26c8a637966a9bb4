/** The buffer of prepared queries: `make_queries` fills it and `get_next_query` walks it. */
module Queries {
  import opened Arithmetic
  import opened Bytes
  import opened DnsMessage

  const CLIENT_ID_LENGTH: nat := 16
  const USHRT_MAX: nat := 65535
  const SIZE_T: nat := 8

  /** An OPT record up to the 16 bytes of the client id. */
  const ADDITIONAL: seq<byte> := [0, 0, 0x29, 0x10, 0, 0, 0, 0x80, 0, 0, 0x14, 0xff, 0xee, 0, 0x10]

  type ClientId = c: Option<seq<byte>> | c.Some? ==> |c.value| == CLIENT_ID_LENGTH witness None

  /** The string of query i, of d strings in turn. */
  function Index(i: nat, d: nat): (k: nat)
    requires d > 0
    ensures k < d
  {
    i % d
  }

  // What C sees in a block of names: strings up to their NUL, until an empty one

  /** A string that is not empty, with its NUL. */
  predicate Terminated(s: seq<byte>) {
    |s| >= 2 && s[|s| - 1] == NUL && NUL !in s[..|s| - 1]
  }

  function StringsFrom(block: seq<byte>, at: nat): (strings: seq<seq<byte>>)
    requires at <= |block|
    ensures forall s | s in strings :: Terminated(s)
    decreases |block| - at
  {
    var end := FirstNul(block, at);
    if end == at || end == |block| then []
    else
      assert block[at..end + 1][..end - at] == block[at..end];
      [block[at..end + 1]] + StringsFrom(block, end + 1)
  }

  function Strings(block: seq<byte>): (strings: seq<seq<byte>>)
    ensures forall s | s in strings :: Terminated(s)
  {
    StringsFrom(block, 0)
  }

  /** The walk over the strings stays within the block: it has one, and ends with an empty one. */
  predicate Walkable(block: seq<byte>) {
    |block| > 2 && block[0] != NUL && block[|block| - 1] == NUL && block[|block| - 2] == NUL
  }

  /** String k starts here. */
  ghost predicate StringAt(block: seq<byte>, at: nat, k: nat) {
    k < |Strings(block)| && at <= |block| && StringsFrom(block, at) == Strings(block)[k..]
  }

  /** `strlen` finds the end of the string, and behind it is the next one, or the empty one that ends them. */
  lemma NextString(block: seq<byte>, at: nat, k: nat)
    requires Walkable(block) && StringAt(block, at, k)
    ensures at < |block| && Holds(block, at, Strings(block)[k])
    ensures var next := FirstNul(block, at) + 1;
            && next == at + |Strings(block)[k]| && next < |block|
            && (block[next] == NUL <==> k + 1 == |Strings(block)|)
            && (block[next] != NUL ==> StringAt(block, next, k + 1))
  {
    hide Strings, FirstNul;
    var end := FirstNul(block, at);
    assert StringsFrom(block, at)[0] == Strings(block)[k] == block[at..end + 1];
    assert StringsFrom(block, at)[1..] == Strings(block)[k + 1..] == StringsFrom(block, end + 1);
    Within(block, at);
    Within(block, end + 1);
  }

  lemma Within(block: seq<byte>, at: nat)
    requires Walkable(block) && at < |block|
    ensures FirstNul(block, at) < |block| && (at < |block| - 1 ==> FirstNul(block, at) < |block| - 1)
    ensures block[at] == NUL <==> FirstNul(block, at) == at
  {
  }

  // What the buffer is to hold

  function Extra(client: ClientId): seq<byte> {
    if client.Some? then ADDITIONAL + client.value else []
  }

  /** Id, flags with only recursion desired, and the counts. */
  function QueryHeader(i: nat, client: ClientId): seq<byte> {
    Be16(i % USHRT_MAX) + [1, 0] + Be16(1) + Be16(0) + Be16(0) + Be16(if client.Some? then 1 else 0)
  }

  function QueryBytes(i: nat, encoded: seq<byte>, client: ClientId): seq<byte> {
    QueryHeader(i, client) + encoded + Be16(1) + Be16(1) + Extra(client)
  }

  function Prepared(strings: seq<seq<byte>>, i: nat, client: ClientId): seq<byte>
    requires strings != []
  {
    QueryBytes(i, strings[Index(i, |strings|)], client)
  }

  function Framed(query: seq<byte>): seq<byte> {
    Le(|query|, SIZE_T) + query
  }

  function AllQueries(strings: seq<seq<byte>>, count: nat, client: ClientId): seq<byte>
    requires strings != []
  {
    if count == 0 then []
    else AllQueries(strings, count - 1, client) + Framed(Prepared(strings, count - 1, client))
  }

  /** Query i lies in the buffer where the first i queries end, and the last one ends the buffer. */
  lemma {:induction false} QueryAt(strings: seq<seq<byte>>, count: nat, client: ClientId, i: nat)
    requires strings != [] && i < count
    ensures Holds(AllQueries(strings, count, client), |AllQueries(strings, i, client)|,
                  Framed(Prepared(strings, i, client)))
    ensures |AllQueries(strings, i + 1, client)|
         == |AllQueries(strings, i, client)| + SIZE_T + |Prepared(strings, i, client)|
         <= |AllQueries(strings, count, client)|
  {
    hide Holds, Prepared, Framed;
    var all, last := AllQueries(strings, count - 1, client), Framed(Prepared(strings, count - 1, client));
    if i < count - 1 {
      QueryAt(strings, count - 1, client, i);
      HoldsLonger(all, |AllQueries(strings, i, client)|, Framed(Prepared(strings, i, client)), last);
    } else {
      HoldsLast(all, last);
    }
    FramedSize(Prepared(strings, i, client));
  }

  lemma FramedSize(query: seq<byte>)
    ensures |Framed(query)| == SIZE_T + |query|
  {
  }

  /** Takes the next query from the buffer as `get_next_query` does: its place and size, and the new offset. */
  method GetNextQuery(buffer: array<byte>, offset: nat, ghost expected: seq<byte>)
    returns (past: nat, query: nat, size: nat)
    requires |expected| < Pow256(SIZE_T) && Holds(buffer[..], offset, Framed(expected))
    ensures size == |expected| && Holds(buffer[..], query, expected) && past == query + size
    ensures past == offset + |Framed(expected)|
  {
    HoldsParts(buffer[..], offset, Le(|expected|, SIZE_T), expected);
    HeldBytes(buffer[..], offset, Le(|expected|, SIZE_T));
    LeRoundTrip(|expected|, SIZE_T);
    size := FromLe(buffer[..][offset..offset + SIZE_T]);
    query := offset + SIZE_T;
    past := query + size;
  }

  lemma NextIndex(i: nat, d: nat)
    requires d > 0
    ensures Index(i + 1, d) == if Index(i, d) + 1 == d then 0 else Index(i, d) + 1
  {
    NextMod(i, d);
  }

  /** The next string of the block, its size by `strlen`, and where the one after it is: at the start again when
      only the end of the block is left. */
  method StepName(names: seq<byte>, name: nat, ghost i: nat) returns (nameSize: nat, next: nat)
    requires Walkable(names) && Strings(names) != [] && StringAt(names, name, Index(i, |Strings(names)|))
    ensures var s := Strings(names)[Index(i, |Strings(names)|)];
            nameSize == |s| && Holds(names, name, s)
    ensures StringAt(names, next, Index(i + 1, |Strings(names)|))
  {
    hide Strings, StringAt, FirstNul, Holds, Walkable;
    NextString(names, name, Index(i, |Strings(names)|));
    nameSize := FirstNul(names, name) - name + 1;
    next := name + nameSize;
    NextIndex(i, |Strings(names)|);
    SomeString(names);
    if names[next] == NUL {
      next := 0;
    }
  }

  lemma QuerySize(i: nat, encoded: seq<byte>, client: ClientId)
    ensures |QueryBytes(i, encoded, client)|
         == HEADER_SIZE + |encoded| + 4 + if client.Some? then |ADDITIONAL| + CLIENT_ID_LENGTH else 0
  {
  }

  /** One round of the second loop: the size and the fields of a query, one behind the other. */
  method WriteQuery(buffer: array<byte>, at: nat, i: nat, encoded: seq<byte>, client: ClientId,
                    ghost before: seq<byte>)
    returns (offset: nat)
    requires Filled(buffer, at, before)
    requires at + |Framed(QueryBytes(i, encoded, client))| <= buffer.Length
    modifies buffer
    ensures offset == at + |Framed(QueryBytes(i, encoded, client))|
    ensures Filled(buffer, offset, before + Framed(QueryBytes(i, encoded, client)))
  {
    hide Be16, Le, QueryBytes, Framed, Filled, Extra, QueryHeader;
    var size := HEADER_SIZE + |encoded| + 4 + if client.Some? then |ADDITIONAL| + CLIENT_ID_LENGTH else 0;
    var length, header := Le(size, SIZE_T), QueryHeader(i, client);
    QueryInOrder(before, i, encoded, client);
    offset := Append(buffer, at, length, before);
    offset := Append(buffer, offset, header, before + length);
    offset := Append(buffer, offset, encoded, before + length + header);
    offset := Append(buffer, offset, Be16(1), before + length + header + encoded);
    offset := Append(buffer, offset, Be16(1), before + length + header + encoded + Be16(1));
    if client.Some? {
      ghost var question := before + length + header + encoded + Be16(1) + Be16(1);
      offset := Append(buffer, offset, ADDITIONAL, question);
      offset := Append(buffer, offset, client.value, question + ADDITIONAL);
    }
  }

  /** The fields in the order of their writing. */
  lemma QueryInOrder(before: seq<byte>, i: nat, encoded: seq<byte>, client: ClientId)
    ensures var query := QueryBytes(i, encoded, client);
            var question := before + Le(|query|, SIZE_T) + QueryHeader(i, client) + encoded
                            + Be16(1) + Be16(1);
            before + Framed(query) == if client.Some? then question + ADDITIONAL + client.value else question
    ensures |QueryHeader(i, client)| == HEADER_SIZE && |Framed(QueryBytes(i, encoded, client))|
         == SIZE_T + HEADER_SIZE + |encoded| + 4
            + if client.Some? then |ADDITIONAL| + CLIENT_ID_LENGTH else 0
    ensures |Framed(QueryBytes(i, encoded, client))| == SIZE_T + |QueryBytes(i, encoded, client)|
  {
    var query, length, header := QueryBytes(i, encoded, client), Le(|QueryBytes(i, encoded, client)|, SIZE_T),
                                 QueryHeader(i, client);
    assert query == header + encoded + Be16(1) + Be16(1) + Extra(client);
    FieldsInOrder(before, length, header, encoded, Be16(1), Extra(client));
    if client.Some? {
      var question := before + length + header + encoded + Be16(1) + Be16(1);
      assert question + (ADDITIONAL + client.value) == question + ADDITIONAL + client.value;
    }
  }

  lemma FieldsInOrder(before: seq<byte>, length: seq<byte>, header: seq<byte>, name: seq<byte>, one: seq<byte>,
                      extra: seq<byte>)
    ensures before + (length + (header + name + one + one + extra))
         == before + length + header + name + one + one + extra
  {
  }

  /** The first loop: how many bytes the queries take. */
  method MeasureQueries(names: seq<byte>, count: nat, client: ClientId) returns (total: nat)
    requires Walkable(names)
    ensures Strings(names) != [] && total == |AllQueries(Strings(names), count, client)|
  {
    hide StringAt, Strings, AllQueries, Holds, Framed, QueryBytes, Walkable;
    SomeString(names);
    NoQueries(Strings(names), client);
    var name: nat, next: nat, nameSize: nat := 0, 0, 0;
    total := 0;
    for i := 0 to count
      invariant total == |AllQueries(Strings(names), i, client)|
      invariant StringAt(names, name, Index(i, |Strings(names)|))
    {
      nameSize, next := StepName(names, name, i);
      var size := SIZE_T + HEADER_SIZE + nameSize + 4;
      if client.Some? {
        size := size + |ADDITIONAL| + CLIENT_ID_LENGTH;
      }
      MeasuredQuery(Strings(names), i, client);
      total := total + size;
      name := next;
    }
  }

  lemma SomeString(names: seq<byte>)
    requires Walkable(names)
    ensures Strings(names) != [] && StringAt(names, 0, Index(0, |Strings(names)|))
  {
    assert Strings(names)[0..] == Strings(names);
  }

  lemma MeasuredQuery(strings: seq<seq<byte>>, i: nat, client: ClientId)
    requires strings != []
    ensures |AllQueries(strings, i + 1, client)|
         == |AllQueries(strings, i, client)| + SIZE_T + HEADER_SIZE + |strings[Index(i, |strings|)]| + 4
            + if client.Some? then |ADDITIONAL| + CLIENT_ID_LENGTH else 0
  {
    QueryAt(strings, i + 1, client, i);
    QuerySize(i, strings[Index(i, |strings|)], client);
  }

  /** The queries for the strings of the block, in turn, and nothing more. */
  method MakeQueries(names: seq<byte>, count: nat, client: ClientId) returns (buffer: array<byte>)
    requires Walkable(names)
    ensures fresh(buffer) && Strings(names) != [] && buffer[..] == AllQueries(Strings(names), count, client)
  {
    hide Filled, StringAt, Strings, AllQueries, Holds, Framed, QueryBytes, Walkable;
    var total := MeasureQueries(names, count, client);
    buffer := new byte[total];
    NothingFilled(buffer);
    SomeString(names);
    ghost var strings := Strings(names);
    NoQueries(strings, client);
    var name: nat, next: nat, nameSize: nat, offset: nat := 0, 0, 0, 0;
    for i := 0 to count
      invariant Filled(buffer, offset, AllQueries(strings, i, client))
      invariant StringAt(names, name, Index(i, |strings|))
    {
      nameSize, next := StepName(names, name, i);
      RoomForQuery(strings, count, client, i);
      HeldBytes(names, name, strings[Index(i, |strings|)]);
      FilledSize(buffer, offset, AllQueries(strings, i, client));
      offset := WriteQuery(buffer, offset, i, names[name..name + nameSize], client, AllQueries(strings, i, client));
      name := next;
    }
    FilledSize(buffer, offset, AllQueries(strings, count, client));
  }

  /** Query i fits behind the queries before it. */
  lemma RoomForQuery(strings: seq<seq<byte>>, count: nat, client: ClientId, i: nat)
    requires strings != [] && i < count
    ensures |AllQueries(strings, i, client)| + |Framed(QueryBytes(i, strings[Index(i, |strings|)], client))|
         <= |AllQueries(strings, count, client)|
    ensures AllQueries(strings, i + 1, client)
         == AllQueries(strings, i, client) + Framed(QueryBytes(i, strings[Index(i, |strings|)], client))
  {
    QueryAt(strings, count, client, i);
  }

  lemma NothingFilled(a: array<byte>)
    ensures Filled(a, 0, [])
  {
  }

  lemma FilledSize(a: array<byte>, at: nat, s: seq<byte>)
    requires Filled(a, at, s)
    ensures at == |s| <= a.Length && (at == a.Length ==> a[..] == s)
  {
    if at == a.Length {
      assert a[..a.Length] == a[..];
    }
  }

  lemma NoQueries(strings: seq<seq<byte>>, client: ClientId)
    requires strings != []
    ensures AllQueries(strings, 0, client) == []
  {
  }

  /** The offset that `main` moves on with every query it sends: after `count` queries it is at the end. */
  method TakeQueries(buffer: array<byte>, count: nat, client: ClientId, ghost strings: seq<seq<byte>>)
    returns (starts: seq<nat>)
    requires strings != [] && buffer[..] == AllQueries(strings, count, client)
    requires buffer.Length < 0x1_0000_0000_0000_0000
    ensures |starts| == count
    ensures forall i | 0 <= i < count :: Holds(buffer[..], starts[i], Prepared(strings, i, client))
    ensures count > 0 ==> starts[count - 1] + |Prepared(strings, count - 1, client)| == buffer.Length
  {
    Widths();
    hide AllQueries, Prepared, Framed, Holds, Pow256;
    var offset: nat := 0;
    starts := [];
    NoQueries(strings, client);
    for i := 0 to count
      invariant |starts| == i && offset == |AllQueries(strings, i, client)|
      invariant forall k | 0 <= k < i :: Holds(buffer[..], starts[k], Prepared(strings, k, client))
      invariant i > 0 ==> starts[i - 1] + |Prepared(strings, i - 1, client)| == offset
    {
      QueryAt(strings, count, client, i);
      var past, query, size := GetNextQuery(buffer, offset, Prepared(strings, i, client));
      starts := starts + [query];
      FramedSize(Prepared(strings, i, client));
      offset := past;
    }
  }
}
