/** Domain names on the wire: length-prefixed labels up to a NUL (section 3.1 of RFC 1035). */
module Names {
  import opened Bytes

  type Label = seq<byte>
  type Name = seq<Label>

  /** Labels that a length byte can count. Section 2.3.4 of RFC 1035 allows far less. */
  predicate Encodable(n: Name) {
    forall l | l in n :: 0 < |l| < 256
  }

  /** Such a name that is not the root. */
  predicate Countable(n: Name) {
    n != [] && Encodable(n)
  }

  function EncodeLabel(l: Label): (s: seq<byte>)
    ensures |s| == |l| + 1
  {
    [ToByte(|l| % 256)] + l
  }

  function EncodeLabels(n: Name): seq<byte> {
    if n == [] then [] else EncodeLabel(n[0]) + EncodeLabels(n[1..])
  }

  function EncodeName(n: Name): seq<byte> {
    EncodeLabels(n) + [NUL]
  }

  function EncodeNames(ns: seq<Name>): seq<byte> {
    if ns == [] then [] else EncodeName(ns[0]) + EncodeNames(ns[1..])
  }

  /** The block of names that the client keeps: an empty name ends it. */
  function Block(ns: seq<Name>): seq<byte> {
    EncodeNames(ns) + [NUL]
  }

  lemma EncodeNameCons(n: Name)
    requires n != []
    ensures EncodeName(n) == EncodeLabel(n[0]) + EncodeName(n[1..])
  {
  }

  lemma {:induction false} EncodeLabelsAppend(n: Name, l: Label)
    ensures EncodeLabels(n + [l]) == EncodeLabels(n) + EncodeLabel(l)
  {
    if n == [] {
      assert n + [l] == [l];
      assert EncodeLabels([l]) == EncodeLabel(l) + EncodeLabels([]);
    } else {
      assert (n + [l])[1..] == n[1..] + [l];
      EncodeLabelsAppend(n[1..], l);
      assert EncodeLabel(n[0]) + (EncodeLabels(n[1..]) + EncodeLabel(l)) == EncodeLabels(n) + EncodeLabel(l);
    }
  }

  lemma {:induction false} EncodeNamesAppend(ns: seq<Name>, n: Name)
    ensures EncodeNames(ns + [n]) == EncodeNames(ns) + EncodeName(n)
  {
    if ns == [] {
      assert ns + [n] == [n];
      assert EncodeNames([n]) == EncodeName(n) + EncodeNames([]);
    } else {
      assert (ns + [n])[1..] == ns[1..] + [n];
      EncodeNamesAppend(ns[1..], n);
      assert EncodeName(ns[0]) + (EncodeNames(ns[1..]) + EncodeName(n)) == EncodeNames(ns) + EncodeName(n);
    }
  }

  /** Block bytes from `at` on are the rest of name n, from its label k on, and then `rest`. */
  ghost predicate NameAt(block: seq<byte>, at: nat, n: Name, k: nat, rest: seq<byte>) {
    at <= |block| && k <= |n| && block[at..] == EncodeLabels(n[k..]) + [NUL] + rest
  }

  ghost predicate RestAt(block: seq<byte>, at: nat, rest: seq<byte>) {
    at <= |block| && block[at..] == rest
  }

  /** Block bytes from `at` on are the names of ns from name k on, and the NUL that ends a block. */
  ghost predicate BlockAt(block: seq<byte>, at: nat, ns: seq<Name>, k: nat) {
    k <= |ns| && RestAt(block, at, Block(ns[k..]))
  }

  lemma LabelAt(block: seq<byte>, at: nat, n: Name, k: nat, rest: seq<byte>)
    requires Countable(n) && NameAt(block, at, n, k, rest)
    ensures at < |block| && (block[at] == NUL <==> k == |n|)
    ensures k == |n| ==> RestAt(block, at + 1, rest)
    ensures k < |n| ==>
      var zone := FromByte(block[at]);
      && at + 1 + zone <= |block| && block[at + 1..at + 1 + zone] == n[k]
      && NameAt(block, at + 1 + zone, n, k + 1, rest)
  {
    assert block[at] == block[at..][0];
    if k < |n| {
      assert 0 < |n[k]| < 256 && n[k..][1..] == n[k + 1..];
      assert block[at..] == EncodeLabel(n[k]) + (EncodeLabels(n[k + 1..]) + [NUL] + rest);
    }
  }

  lemma FirstNameAt(block: seq<byte>, at: nat, ns: seq<Name>, k: nat)
    requires BlockAt(block, at, ns, k) && forall n | n in ns :: Countable(n)
    ensures at < |block| && (block[at] == NUL <==> k == |ns|)
    ensures k < |ns| ==> NameAt(block, at, ns[k], 0, Block(ns[k + 1..]))
  {
    assert block[at] == block[at..][0];
    if k < |ns| {
      assert Countable(ns[k]) && ns[k..][1..] == ns[k + 1..] && ns[k][0..] == ns[k];
      assert block[at..] == EncodeLabels(ns[k]) + [NUL] + Block(ns[k + 1..]);
      LabelAt(block, at, ns[k], 0, Block(ns[k + 1..]));
    }
  }
}
