/** The byte ring of framed messages in which the stub server keeps its unsent answers. */
module MessageQueue {
  import opened Bytes

  datatype Message = Message(address: seq<byte>, payload: seq<byte>)

  const MESSAGE_FLAG: byte := 0x00
  const QUEUE_WRAP_FLAG: byte := 0xff
  const SOCKLEN_WIDTH: nat := 4
  const SIZE_WIDTH: nat := 8

  /** The lengths fit a `socklen_t` and a `size_t`. */
  ghost predicate Sized(m: Message) {
    |m.address| < Pow256(SOCKLEN_WIDTH) && |m.payload| < Pow256(SIZE_WIDTH)
  }

  function FrameSize(m: Message): (n: nat)
    ensures n >= 13
  {
    1 + SOCKLEN_WIDTH + |m.address| + SIZE_WIDTH + |m.payload|
  }

  ghost function Frame(m: Message): (s: seq<byte>)
    ensures |s| == FrameSize(m) && s[0] == MESSAGE_FLAG
  {
    [MESSAGE_FLAG] + Le(|m.address|, SOCKLEN_WIDTH) + m.address + Le(|m.payload|, SIZE_WIDTH) + m.payload
  }

  ghost function Frames(ms: seq<Message>): (s: seq<byte>)
    ensures s == [] <==> ms == []
  {
    if ms == [] then [] else Frame(ms[0]) + Frames(ms[1..])
  }

  ghost function LargestFrame(ms: seq<Message>): nat {
    if ms == [] then 0
    else if FrameSize(ms[0]) > LargestFrame(ms[1..]) then FrameSize(ms[0]) else LargestFrame(ms[1..])
  }

  lemma {:induction false} FramesConcat(a: seq<Message>, b: seq<Message>)
    ensures Frames(a + b) == Frames(a) + Frames(b)
  {
    if a == [] {
      assert a + b == b;
    } else {
      assert (a + b)[1..] == a[1..] + b;
      FramesConcat(a[1..], b);
      assert Frame(a[0]) + (Frames(a[1..]) + Frames(b)) == Frames(a) + Frames(b);
    }
  }

  lemma FramesAppend(ms: seq<Message>, m: Message)
    ensures Frames(ms + [m]) == Frames(ms) + Frame(m)
  {
    FramesConcat(ms, [m]);
    assert Frames([m]) == Frame(m) + Frames([]);
  }

  /** Where the parts of a frame that starts at `at` lie, and what the two length fields read back as. */
  lemma FrameParts(s: seq<byte>, at: nat, m: Message)
    requires Sized(m) && Holds(s, at, Frame(m))
    ensures at + FrameSize(m) <= |s| && s[at] == MESSAGE_FLAG
    ensures FromLe(s[at + 1..at + 5]) == |m.address|
    ensures Holds(s, at + 5, m.address)
    ensures FromLe(s[at + 5 + |m.address|..at + 13 + |m.address|]) == |m.payload|
    ensures Holds(s, at + 13 + |m.address|, m.payload)
  {
    var size, length := Le(|m.address|, SOCKLEN_WIDTH), Le(|m.payload|, SIZE_WIDTH);
    HoldsParts(s, at, [MESSAGE_FLAG] + size + m.address + length, m.payload);
    HoldsParts(s, at, [MESSAGE_FLAG] + size + m.address, length);
    HoldsParts(s, at, [MESSAGE_FLAG] + size, m.address);
    HoldsParts(s, at, [MESSAGE_FLAG], size);
    assert s[at] == s[at..at + 1][0];
    LeRoundTrip(|m.address|, SOCKLEN_WIDTH);
    LeRoundTrip(|m.payload|, SIZE_WIDTH);
  }

  /** Frames form a prefix code: two frames that start at one place are frames of one message. */
  lemma FrameUnique(s: seq<byte>, a: Message, b: Message)
    requires Sized(a) && Sized(b) && Holds(s, 0, Frame(a)) && Holds(s, 0, Frame(b))
    ensures a == b
  {
    hide Frame, FromLe;
    FrameParts(s, 0, a);
    FrameParts(s, 0, b);
    assert a.address == s[5..5 + |a.address|] == b.address;
  }

  /** The bytes up to the wrap mark determine both the messages and the place of the mark. */
  lemma {:induction false} DecodingUnique(s: seq<byte>, a: seq<Message>, b: seq<Message>)
    requires forall m | m in a || m in b :: Sized(m)
    requires Frames(a) + [QUEUE_WRAP_FLAG] <= s && Frames(b) + [QUEUE_WRAP_FLAG] <= s
    ensures a == b
  {
    if a != [] && b != [] {
      FirstFrame(s, a);
      FirstFrame(s, b);
      FrameUnique(s, a[0], b[0]);
      DecodingUnique(s[FrameSize(a[0])..], a[1..], b[1..]);
    } else if a != [] {
      FirstFrame(s, a);
    } else if b != [] {
      FirstFrame(s, b);
    }
  }

  lemma FirstFrame(s: seq<byte>, ms: seq<Message>)
    requires ms != [] && Frames(ms) + [QUEUE_WRAP_FLAG] <= s
    ensures s[0] == MESSAGE_FLAG && Holds(s, 0, Frame(ms[0]))
    ensures Frames(ms[1..]) + [QUEUE_WRAP_FLAG] <= s[FrameSize(ms[0])..]
  {
    hide Frame, FrameSize;
    PrefixParts(s, Frame(ms[0]), Frames(ms[1..]), [QUEUE_WRAP_FLAG]);
  }

  lemma PrefixParts(s: seq<byte>, a: seq<byte>, b: seq<byte>, c: seq<byte>)
    requires (a + b) + c <= s && a != []
    ensures |a| <= |s| && s[0] == a[0] && Holds(s, 0, a) && b + c <= s[|a|..]
  {
    assert (a + b) + c == a + (b + c);
  }

  /** The ring in a buffer with bytes s: the messages `upper` from the head on and then, behind the mark,
      the messages `lower` at the start of the buffer. */
  ghost predicate Ring(s: seq<byte>, head: nat, tail: nat, upper: seq<Message>, lower: seq<Message>, mark: nat) {
    && (forall m | m in upper :: Sized(m)) && (forall m | m in lower :: Sized(m))
    && head <= |s| && (tail < |s| || tail == 0)
    && Holds(s, head, Frames(upper))
    && if head <= tail then lower == [] && head + |Frames(upper)| == tail
       else
         && lower != [] && Holds(s, 0, Frames(lower)) && |Frames(lower)| == tail
         && head + |Frames(upper)| == mark < |s| && s[mark] == QUEUE_WRAP_FLAG
         // the oldest message behind the mark is the one that did not fit before it
         && mark + FrameSize(lower[0]) >= |s|
  }

  /** What of a ring does not look at the bytes. */
  lemma RingShape(s: seq<byte>, head: nat, tail: nat, upper: seq<Message>, lower: seq<Message>, mark: nat)
    requires Ring(s, head, tail, upper, lower, mark)
    ensures head <= |s| && (tail < |s| || tail == 0)
    ensures head <= tail ==> lower == [] && Ring(s, head, tail, upper, [], 0)
    ensures head <= tail ==> tail - head == |Frames(upper)|
    ensures head == tail <==> upper + lower == []
  {
  }

  /** The bytes of a ring, its head and its tail have only one reading as messages. */
  lemma RingUnique(s: seq<byte>, head: nat, tail: nat, upper: seq<Message>, lower: seq<Message>, mark: nat,
                   upper': seq<Message>, lower': seq<Message>, mark': nat)
    requires Ring(s, head, tail, upper, lower, mark) && Ring(s, head, tail, upper', lower', mark')
    ensures upper == upper' && lower == lower'
  {
    hide Frames, Frame, Sized;
    if head <= tail {
      FramesUnique(s[head..tail], upper, upper');
    } else {
      MarkedFrames(s, head, mark, upper);
      MarkedFrames(s, head, mark', upper');
      DecodingUnique(s[head..], upper, upper');
      FramesUnique(s[..tail], lower, lower');
    }
  }

  lemma FramesUnique(s: seq<byte>, a: seq<Message>, b: seq<Message>)
    requires forall m | m in a || m in b :: Sized(m)
    requires Frames(a) == s == Frames(b)
    ensures a == b
  {
    DecodingUnique(s + [QUEUE_WRAP_FLAG], a, b);
  }

  lemma MarkedFrames(s: seq<byte>, head: nat, mark: nat, ms: seq<Message>)
    requires Holds(s, head, Frames(ms)) && head + |Frames(ms)| == mark < |s| && s[mark] == QUEUE_WRAP_FLAG
    ensures Frames(ms) + [QUEUE_WRAP_FLAG] <= s[head..]
  {
    hide Frames;
    assert s[head..][..mark - head] == s[head..mark] && s[head..][mark - head] == s[mark];
  }

  lemma RingAppend(s: seq<byte>, head: nat, tail: nat, upper: seq<Message>, m: Message)
    requires Ring(s, head, tail, upper, [], 0) && Sized(m) && tail + FrameSize(m) < |s|
    ensures Ring(Splice(s, tail, Frame(m)), head, tail + FrameSize(m), upper + [m], [], 0)
  {
    SpliceElsewhere(s, tail, Frame(m), head, Frames(upper));
    SpliceHolds(s, tail, Frame(m));
    HoldsJoin(Splice(s, tail, Frame(m)), head, Frames(upper), Frame(m));
    FramesAppend(upper, m);
  }

  lemma RingAppendBehind(s: seq<byte>, head: nat, tail: nat,
                         upper: seq<Message>, lower: seq<Message>, mark: nat, m: Message)
    requires Ring(s, head, tail, upper, lower, mark) && tail < head && Sized(m) && tail + FrameSize(m) < head
    ensures Ring(Splice(s, tail, Frame(m)), head, tail + FrameSize(m), upper, lower + [m], mark)
  {
    var s' := Splice(s, tail, Frame(m));
    SpliceElsewhere(s, tail, Frame(m), head, Frames(upper));
    SpliceElsewhere(s, tail, Frame(m), 0, Frames(lower));
    SpliceHolds(s, tail, Frame(m));
    HoldsJoin(s', 0, Frames(lower), Frame(m));
    FramesAppend(lower, m);
    assert s'[mark] == s[mark];
  }

  lemma RingMark(s: seq<byte>, head: nat, tail: nat, upper: seq<Message>)
    requires Ring(s, head, tail, upper, [], 0) && tail < |s|
    ensures Ring(s[tail := QUEUE_WRAP_FLAG], head, tail, upper, [], 0)
  {
    assert s[tail := QUEUE_WRAP_FLAG] == Splice(s, tail, [QUEUE_WRAP_FLAG]);
    SpliceElsewhere(s, tail, [QUEUE_WRAP_FLAG], head, Frames(upper));
  }

  lemma RingWrap(s: seq<byte>, head: nat, tail: nat, upper: seq<Message>, m: Message)
    requires Ring(s, head, tail, upper, [], 0) && head <= tail < |s| && s[tail] == QUEUE_WRAP_FLAG
    requires Sized(m) && tail + FrameSize(m) >= |s| && FrameSize(m) < head
    ensures Ring(Splice(s, 0, Frame(m)), head, FrameSize(m), upper, [m], tail)
  {
    var s' := Splice(s, 0, Frame(m));
    SpliceElsewhere(s, 0, Frame(m), head, Frames(upper));
    SpliceHolds(s, 0, Frame(m));
    assert Frames([m]) == Frame(m);
    assert s'[tail] == s[tail];
  }

  /** The oldest frame starts at the head, or at the start of the buffer when the head is on the mark. */
  lemma RingOldest(s: seq<byte>, head: nat, tail: nat, upper: seq<Message>, lower: seq<Message>, mark: nat)
    requires Ring(s, head, tail, upper, lower, mark) && upper + lower != []
    ensures head < |s|
    ensures upper != [] ==>
      && s[head] == MESSAGE_FLAG && Holds(s, head, Frame(upper[0])) && Sized(upper[0])
      && Ring(s, head + FrameSize(upper[0]), tail, upper[1..], lower, mark)
    ensures upper == [] ==>
      && s[head] == QUEUE_WRAP_FLAG && Holds(s, 0, Frame(lower[0])) && Sized(lower[0])
      && Ring(s, FrameSize(lower[0]), tail, lower[1..], [], 0)
  {
    if upper != [] {
      HoldsParts(s, head, Frame(upper[0]), Frames(upper[1..]));
      assert s[head] == s[head..head + FrameSize(upper[0])][0];
    } else {
      HoldsParts(s, 0, Frame(lower[0]), Frames(lower[1..]));
    }
  }

  lemma SplicedBytes(a: array<byte>, before: seq<byte>, at: nat, part: seq<byte>)
    requires at + |part| <= |before| && a[..] == Splice(before, at, part)
    ensures forall i | 0 <= i < a.Length && !(at <= i < at + |part|) :: a[i] == before[i]
  {
    assert forall i | 0 <= i < a.Length :: a[i] == a[..][i];
  }

  class Queue {
    const buffer: array<byte>
    var head: nat
    var tail: nat

    ghost var upper: seq<Message>  // the messages from head on
    ghost var lower: seq<Message>  // the messages behind the wrap mark, at the start of the buffer
    ghost var mark: nat            // place of the wrap mark, when there is one

    ghost predicate Valid()
      reads this, buffer
    {
      Ring(buffer[..], head, tail, upper, lower, mark)
    }

    /** What is queued, oldest first. */
    ghost function Contents(): seq<Message>
      reads this
    {
      upper + lower
    }

    /** Bytes of the live frames. */
    ghost function Used(): nat
      reads this
    {
      |Frames(Contents())|
    }

    /** Is byte i part of a queued frame or the live wrap mark? */
    ghost predicate InUse(i: nat)
      reads this
    {
      if tail < head then head <= i <= mark || i < tail else head <= i < tail
    }

    /** Is there room for a frame of n bytes? */
    ghost predicate Fits(n: nat)
      reads this
    {
      if tail < head then tail + n < head else tail + n < buffer.Length || n < head
    }

    constructor (size: nat)
      ensures Valid() && fresh(buffer) && buffer.Length == size
      ensures head == tail == 0 && Contents() == []
    {
      buffer := new byte[size];
      head, tail := 0, 0;
      upper, lower, mark := [], [], 0;
    }

    lemma EmptyExactlyWhenHeadIsTail()
      requires Valid()
      ensures head == tail <==> Contents() == []
    {
    }

    /** Writes one frame at `at` unless it would reach `limit`; `past` is where it ends. */
    method PushToTheLimit(at: nat, limit: nat, address: seq<byte>, payload: seq<byte>)
      returns (ok: bool, past: nat)
      requires limit <= buffer.Length
      modifies buffer
      ensures ok == (at + FrameSize(Message(address, payload)) < limit)
      ensures !ok ==> past == at && buffer[..] == old(buffer[..])
      ensures ok ==>
        && past == at + FrameSize(Message(address, payload))
        && buffer[..] == Splice(old(buffer[..]), at, Frame(Message(address, payload)))
      ensures forall i | 0 <= i < buffer.Length && !(at <= i < past) :: buffer[i] == old(buffer[i])
    {
      past := at;
      if past + (1 + SOCKLEN_WIDTH + |address| + SIZE_WIDTH + |payload|) >= limit {
        return false, past;
      }
      var addressLength, size := Le(|address|, SOCKLEN_WIDTH), Le(|payload|, SIZE_WIDTH);
      ghost var before, frame := buffer[..], Frame(Message(address, payload));
      assert frame == [MESSAGE_FLAG] + addressLength + address + size + payload;
      hide *;
      past := Put(past, [MESSAGE_FLAG], before, []);
      past := Put(past, addressLength, before, [MESSAGE_FLAG]);
      past := Put(past, address, before, [MESSAGE_FLAG] + addressLength);
      past := Put(past, size, before, [MESSAGE_FLAG] + addressLength + address);
      past := Put(past, payload, before, [MESSAGE_FLAG] + addressLength + address + size);
      SplicedBytes(buffer, before, at, frame);
      ok := true;
    }

    /** One `memcpy` behind the part of the frame that is already written. */
    method Put(at: nat, part: seq<byte>, ghost before: seq<byte>, ghost written: seq<byte>) returns (past: nat)
      requires |written| <= at && at + |part| <= buffer.Length == |before|
      requires buffer[..] == Splice(before, at - |written|, written)
      modifies buffer
      ensures past == at + |part|
      ensures buffer[..] == Splice(before, at - |written|, written + part)
    {
      CopyInto(buffer, at, part);
      SpliceTwice(before, at - |written|, written, part);
      past := at + |part|;
    }

    method Push(address: seq<byte>, payload: seq<byte>) returns (ok: bool)
      requires Valid() && Sized(Message(address, payload))
      modifies this, buffer
      ensures Valid() && head == old(head)
      ensures ok == old(Fits(FrameSize(Message(address, payload))))
      ensures ok ==> Contents() == old(Contents()) + [Message(address, payload)]
      ensures !ok ==> Contents() == old(Contents()) && tail == old(tail)
      ensures forall i: nat | i < buffer.Length && old(InUse(i)) :: buffer[i] == old(buffer[i])
    {
      hide Ring, Frames, Frame, Splice, Holds;
      ghost var m := Message(address, payload);
      ghost var s := buffer[..];
      RingShape(s, head, tail, upper, lower, mark);
      var at := tail;
      if at < head {
        ok, at := PushToTheLimit(at, head, address, payload);
        if !ok { return; }
        RingAppendBehind(s, head, tail, upper, lower, mark, m);
        lower := lower + [m];
      } else {
        mark := 0;
        ok, at := PushToTheLimit(at, buffer.Length, address, payload);
        if ok {
          RingAppend(s, head, tail, upper, m);
          upper := upper + [m];
        } else {
          if head == 0 { return; }
          buffer[at] := QUEUE_WRAP_FLAG;
          RingMark(s, head, tail, upper);
          assert buffer[..] == s[tail := QUEUE_WRAP_FLAG];
          s := buffer[..];
          at := 0;
          ok, at := PushToTheLimit(at, head, address, payload);
          if !ok { return; }
          RingWrap(s, head, tail, upper, m);
          lower, mark := [m], tail;
        }
      }
      tail := at;
    }

    /** The head once the oldest message is released. */
    ghost function NextHead(): nat
      requires Contents() != []
      reads this
    {
      if upper != [] then head + FrameSize(upper[0]) else FrameSize(lower[0])
    }

    /** Finds the oldest message without releasing it. Pointers into the ring are offsets. */
    method Get() returns (ok: bool, newHead: nat, address: nat, addressLength: nat, payload: nat, size: nat)
      requires Valid()
      ensures ok == (Contents() != [])
      ensures ok ==>
          && newHead == NextHead()
          && Holds(buffer[..], address, Contents()[0].address) && addressLength == |Contents()[0].address|
          && Holds(buffer[..], payload, Contents()[0].payload) && size == |Contents()[0].payload|
    {
      hide Ring, Frames, Frame, Holds, FromLe, Pow256;
      RingShape(buffer[..], head, tail, upper, lower, mark);
      newHead, address, addressLength, payload, size := head, 0, 0, 0, 0;
      if newHead == tail {
        return false, newHead, address, addressLength, payload, size;
      }
      RingOldest(buffer[..], head, tail, upper, lower, mark);
      if buffer[newHead] == QUEUE_WRAP_FLAG {
        newHead := 0;
      }
      FrameParts(buffer[..], newHead, Contents()[0]);
      newHead := newHead + 1;
      addressLength := FromLe(buffer[..][newHead..newHead + SOCKLEN_WIDTH]);
      newHead := newHead + SOCKLEN_WIDTH;
      address := newHead;
      newHead := newHead + addressLength;
      size := FromLe(buffer[..][newHead..newHead + SIZE_WIDTH]);
      newHead := newHead + SIZE_WIDTH;
      payload := newHead;
      newHead := newHead + size;
      ok := true;
    }

    /** `queue->head = head`, with a head that `Get` returned. */
    method Release(newHead: nat)
      requires Valid() && Contents() != [] && newHead == NextHead()
      modifies this
      ensures Valid() && tail == old(tail)
      ensures Contents() == old(Contents())[1..]
    {
      hide Ring, Frames, Frame, Holds;
      RingOldest(buffer[..], head, tail, upper, lower, mark);
      if upper != [] {
        upper := upper[1..];
      } else {
        upper, lower, mark := lower[1..], [], 0;
      }
      head := newHead;
    }
  }

  /** Wherever head and tail are, a frame fits when no live frame is larger than `largest` and the free
      space exceeds twice that: no more than one frame's worth of bytes is ever lost behind a mark. */
  lemma CapacityGuarantee(q: Queue, n: nat, largest: nat)
    requires q.Valid() && n <= largest && LargestFrame(q.Contents()) <= largest
    requires q.Used() + 2 * largest < q.buffer.Length
    ensures q.Fits(n)
  {
    FramesConcat(q.upper, q.lower);
    if q.tail < q.head {
      LargestFrameBounds(q.Contents(), |q.upper|);
    }
  }

  lemma {:induction false} LargestFrameBounds(ms: seq<Message>, i: nat)
    requires i < |ms|
    ensures FrameSize(ms[i]) <= LargestFrame(ms)
  {
    if i > 0 {
      LargestFrameBounds(ms[1..], i - 1);
    }
  }

  /** The guarantee is sharp: a run that leaves exactly twice the frame size free, and then a refused push. */
  method CapacityIsSharp(m: Message) returns (q: Queue, ok: bool)
    requires Sized(m)
    ensures q.Valid() && q.Contents() == [m]
    ensures q.Used() + 2 * FrameSize(m) == q.buffer.Length && !ok
  {
    hide Ring, Frames, Frame, Holds, Sized;
    var n := FrameSize(m);
    q := new Queue(3 * n);
    FramesAppend([], m);
    FramesAppend([m], m);
    assert [] + [m] == [m] && [m] + [m] == [m, m];
    ok := q.Push(m.address, m.payload);
    assert ok && q.Contents() == [m];
    RingShape(q.buffer[..], q.head, q.tail, q.upper, q.lower, q.mark);
    assert q.upper + [] == q.upper;
    ok := q.Push(m.address, m.payload);
    assert ok && q.Contents() == [m, m];
    RingShape(q.buffer[..], q.head, q.tail, q.upper, q.lower, q.mark);
    assert q.upper + [] == q.upper && q.tail == 2 * n;
    var found, next, address, addressLength, payload, size := q.Get();
    q.Release(next);
    RingShape(q.buffer[..], q.head, q.tail, q.upper, q.lower, q.mark);
    assert q.Contents() == [m];
    ok := q.Push(m.address, m.payload);
  }
}
