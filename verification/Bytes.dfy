/** Raw memory as the C tools see it: bytes, native and network integers, `memcpy` and `strlen`. */
module Bytes {

  newtype byte = x: int | 0 <= x < 256

  type u16 = x: int | 0 <= x < 0x1_0000

  type u32 = x: int | 0 <= x < 0x1_0000_0000

  datatype Option<+T> = None | Some(value: T) {
    predicate IsFailure() { None? }

    function PropagateFailure<U>(): Option<U>
      requires None?
    {
      None
    }

    function Extract(): T
      requires Some?
    {
      value
    }
  }

  const NUL: byte := 0

  function ToByte(n: nat): byte
    requires n < 256
  {
    n as byte
  }

  function FromByte(b: byte): nat {
    b as nat
  }

  // The bits of a byte, for the masks of the header flags.

  function Bits(b: byte): bv8 {
    b as bv8
  }

  function FromBits(v: bv8): byte {
    v as byte
  }

  lemma BitsRoundTrip(v: bv8)
    ensures Bits(FromBits(v)) == v
  {
  }

  function Pow256(k: nat): (p: nat)
    ensures p > 0
  {
    if k == 0 then 1 else 256 * Pow256(k - 1)
  }

  // Native (little-endian) integers, as `memcpy` of a `socklen_t` or a `size_t` leaves them.

  function Le(n: nat, width: nat): (s: seq<byte>)
    ensures |s| == width
  {
    if width == 0 then [] else [ToByte(n % 256)] + Le(n / 256, width - 1)
  }

  function FromLe(s: seq<byte>): nat {
    if s == [] then 0 else FromByte(s[0]) + 256 * FromLe(s[1..])
  }

  lemma {:induction false} LeRoundTrip(n: nat, width: nat)
    requires n < Pow256(width)
    ensures FromLe(Le(n, width)) == n
  {
    if width > 0 {
      assert n / 256 < Pow256(width - 1);
      LeRoundTrip(n / 256, width - 1);
    }
  }

  lemma Widths()
    ensures Pow256(4) == 0x1_0000_0000 && Pow256(8) == 0x1_0000_0000_0000_0000
  {
    assert Pow256(2) == 65536;
    assert Pow256(4) == 0x1_0000_0000;
    assert Pow256(6) == 0x1_0000_0000_0000;
  }

  // Network (big-endian) integers, as `htons` leaves them.

  function Be16(n: u16): (s: seq<byte>)
    ensures |s| == 2
  {
    [ToByte(n / 256), ToByte(n % 256)]
  }

  function Be32(n: u32): (s: seq<byte>)
    ensures |s| == 4
  {
    Be16(n / 0x1_0000) + Be16(n % 0x1_0000)
  }

  function ReadBe16(s: seq<byte>, at: nat): u16
    requires at + 2 <= |s|
  {
    256 * FromByte(s[at]) + FromByte(s[at + 1])
  }

  function ReadBe32(s: seq<byte>, at: nat): u32
    requires at + 4 <= |s|
  {
    0x1_0000 * ReadBe16(s, at) + ReadBe16(s, at + 2)
  }

  /** `part` lies in `s` at offset `at`. */
  predicate Holds(s: seq<byte>, at: nat, part: seq<byte>) {
    at + |part| <= |s| && s[at..at + |part|] == part
  }

  lemma HoldsLonger(s: seq<byte>, at: nat, part: seq<byte>, more: seq<byte>)
    requires Holds(s, at, part)
    ensures Holds(s + more, at, part)
  {
    assert (s + more)[at..at + |part|] == s[at..at + |part|];
  }

  lemma HoldsLast(s: seq<byte>, part: seq<byte>)
    ensures Holds(s + part, |s|, part)
  {
  }

  lemma HoldsParts(s: seq<byte>, at: nat, a: seq<byte>, b: seq<byte>)
    requires Holds(s, at, a + b)
    ensures Holds(s, at, a) && Holds(s, at + |a|, b) && at + |a| + |b| <= |s|
  {
    assert s[at..at + |a|] == (a + b)[..|a|];
    assert s[at + |a|..at + |a| + |b|] == (a + b)[|a|..];
  }

  lemma HeldBytes(s: seq<byte>, at: nat, part: seq<byte>)
    requires Holds(s, at, part)
    ensures at + |part| <= |s| && s[at..at + |part|] == part
    ensures part != [] ==> s[at] == part[0]
  {
    if part != [] {
      assert s[at] == s[at..at + |part|][0];
    }
  }

  lemma ReadBe16At(s: seq<byte>, at: nat, n: u16)
    requires Holds(s, at, Be16(n))
    ensures ReadBe16(s, at) == n
  {
    assert s[at] == s[at..at + 2][0] && s[at + 1] == s[at..at + 2][1];
  }

  lemma ReadBe32At(s: seq<byte>, at: nat, n: u32)
    requires Holds(s, at, Be32(n))
    ensures ReadBe32(s, at) == n
  {
    HoldsParts(s, at, Be16(n / 0x1_0000), Be16(n % 0x1_0000));
    ReadBe16At(s, at, n / 0x1_0000);
    ReadBe16At(s, at + 2, n % 0x1_0000);
  }

  /** `s` with `part` written over it at offset `at`. */
  function Splice(s: seq<byte>, at: nat, part: seq<byte>): (r: seq<byte>)
    requires at + |part| <= |s|
    ensures |r| == |s|
  {
    s[..at] + part + s[at + |part|..]
  }

  lemma SpliceTwice(s: seq<byte>, at: nat, a: seq<byte>, b: seq<byte>)
    requires at + |a| + |b| <= |s|
    ensures Splice(Splice(s, at, a), at + |a|, b) == Splice(s, at, a + b)
  {
  }

  lemma SpliceHolds(s: seq<byte>, at: nat, part: seq<byte>)
    requires at + |part| <= |s|
    ensures Holds(Splice(s, at, part), at, part)
  {
  }

  lemma SpliceAppends(s: seq<byte>, at: nat, part: seq<byte>)
    requires at + |part| <= |s|
    ensures Splice(s, at, part)[..at + |part|] == s[..at] + part
  {
  }

  lemma SpliceElsewhere(s: seq<byte>, at: nat, part: seq<byte>, there: nat, other: seq<byte>)
    requires at + |part| <= |s| && Holds(s, there, other)
    requires there + |other| <= at || at + |part| <= there
    ensures Holds(Splice(s, at, part), there, other)
  {
    var r := Splice(s, at, part);
    assert forall i | there <= i < there + |other| :: r[i] == s[i];
  }

  lemma HoldsJoin(s: seq<byte>, at: nat, a: seq<byte>, b: seq<byte>)
    requires Holds(s, at, a) && Holds(s, at + |a|, b)
    ensures Holds(s, at, a + b)
  {
    assert s[at..at + |a + b|] == s[at..at + |a|] + s[at + |a|..at + |a| + |b|];
  }

  /** `memcpy(a + at, src, |src|)`. */
  method CopyInto(a: array<byte>, at: nat, src: seq<byte>)
    requires at + |src| <= a.Length
    modifies a
    ensures a[..] == Splice(old(a[..]), at, src)
  {
    forall i | 0 <= i < |src| {
      a[at + i] := src[i];
    }
  }

  /** The array holds s, up to the offset `at`. */
  ghost predicate Filled(a: array<byte>, at: nat, s: seq<byte>)
    reads a
  {
    at <= a.Length && a[..at] == s
  }

  /** A `memcpy` behind what is already there, and the advance of the offset. */
  method Append(a: array<byte>, at: nat, part: seq<byte>, ghost s: seq<byte>) returns (past: nat)
    requires at + |part| <= a.Length && Filled(a, at, s)
    modifies a
    ensures past == at + |part| && Filled(a, past, s + part)
  {
    SpliceAppends(a[..], at, part);
    hide Splice;
    CopyInto(a, at, part);
    past := at + |part|;
    assert a[..][..past] == s + part;
  }

  /** Index of the first NUL at or after `at`, or |s| when there is none. */
  function FirstNul(s: seq<byte>, at: nat): (n: nat)
    requires at <= |s|
    ensures at <= n <= |s|
    ensures forall i :: at <= i < n ==> s[i] != NUL
    ensures n < |s| ==> s[n] == NUL
    decreases |s| - at
  {
    if at == |s| || s[at] == NUL then at else FirstNul(s, at + 1)
  }
}
