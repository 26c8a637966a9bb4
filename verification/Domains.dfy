/** How the client reads a text of domain names into a block of wire names, and how it prints the block. */
module Domains {
  import opened Bytes
  import opened Names

  const DOT: byte := 46
  const NEWLINE: byte := 10
  const DOMAINS_FILE_LIMIT: nat := 50 * 1024 * 1024
  const UCHAR_MAX: nat := 255

  // What a text means: lines between newlines, labels between dots, blank lines ignored.

  function Split(s: seq<byte>, separator: byte): (pieces: seq<seq<byte>>)
    ensures pieces != []
  {
    if s == [] then [[]]
    else
      var pieces, last := Split(s[..|s| - 1], separator), s[|s| - 1];
      if last == separator then pieces + [[]] else Extend(pieces, last)
  }

  function Extend(pieces: seq<seq<byte>>, b: byte): seq<seq<byte>>
    requires pieces != []
  {
    pieces[..|pieces| - 1] + [pieces[|pieces| - 1] + [b]]
  }

  function Lines(text: seq<byte>): (lines: seq<seq<byte>>)
    ensures lines != []
  {
    Split(text, NEWLINE)
  }

  function Labels(line: seq<byte>): (n: Name)
    ensures n != []
  {
    Split(line, DOT)
  }

  function NamesOf(lines: seq<seq<byte>>): seq<Name> {
    if lines == [] then []
    else
      var last := lines[|lines| - 1];
      NamesOf(lines[..|lines| - 1]) + if last == [] then [] else [Labels(last)]
  }

  predicate Acceptable(lines: seq<seq<byte>>) {
    forall line | line in lines && line != [] :: Countable(Labels(line))
  }

  predicate BlankOnlyAtEnd(lines: seq<seq<byte>>) {
    forall i, j | 0 <= i < j < |lines| && lines[i] == [] :: lines[j] == []
  }

  // What is copied instead of the names: after b blank lines, the first label is taken from b bytes too early.

  /** How many blank lines there are at the end. */
  function Blanks(lines: seq<seq<byte>>): nat {
    if lines == [] || lines[|lines| - 1] != [] then 0 else Blanks(lines[..|lines| - 1]) + 1
  }

  function Early(l: Label, b: nat): (r: Label)
    ensures |r| == |l|
  {
    (seq(b, _ => NEWLINE) + l)[..|l|]
  }

  function EarlyFirst(n: Name, b: nat): (r: Name)
    ensures |r| == |n|
  {
    if n == [] then [] else [Early(n[0], b)] + n[1..]
  }

  function Copies(lines: seq<seq<byte>>): seq<Name> {
    if lines == [] then []
    else
      var before, last := lines[..|lines| - 1], lines[|lines| - 1];
      Copies(before) + if last == [] then [] else [EarlyFirst(Labels(last), Blanks(before))]
  }

  /** Equal up to the contents of the labels. */
  predicate SameShape(n: Name, m: Name) {
    |n| == |m| && forall i | 0 <= i < |n| :: |n[i]| == |m[i]|
  }

  predicate SameShapes(ns: seq<Name>, ms: seq<Name>) {
    |ns| == |ms| && forall i | 0 <= i < |ns| :: SameShape(ns[i], ms[i])
  }

  lemma SplitStep(s: seq<byte>, i: nat, separator: byte)
    requires i < |s|
    ensures Split(s[..i + 1], separator)
         == if s[i] == separator then Split(s[..i], separator) + [[]] else Extend(Split(s[..i], separator), s[i])
  {
    assert s[..i + 1][..i] == s[..i];
  }

  lemma SplitAppend(s: seq<byte>, b: byte, separator: byte)
    ensures Split(s + [b], separator)
         == if b == separator then Split(s, separator) + [[]] else Extend(Split(s, separator), b)
  {
    assert (s + [b])[..|s|] == s;
  }

  lemma {:induction false} SplitExtend(s: seq<byte>, piece: seq<byte>, separator: byte)
    requires separator !in piece
    ensures var pieces := Split(s, separator);
            Split(s + piece, separator) == pieces[..|pieces| - 1] + [pieces[|pieces| - 1] + piece]
  {
    var pieces := Split(s, separator);
    hide Split;
    if piece == [] {
      ExtendByNothing(pieces);
      assert s + piece == s;
    } else {
      var before, last := piece[..|piece| - 1], piece[|piece| - 1];
      SplitExtend(s, before, separator);
      SplitAppend(s + before, last, separator);
      ExtendTwice(pieces, before, last);
      assert s + piece == s + before + [last] && piece == before + [last];
    }
  }

  lemma ExtendByNothing(pieces: seq<seq<byte>>)
    requires pieces != []
    ensures pieces == pieces[..|pieces| - 1] + [pieces[|pieces| - 1] + []]
  {
    assert pieces[|pieces| - 1] + [] == pieces[|pieces| - 1];
  }

  lemma ExtendTwice(pieces: seq<seq<byte>>, before: seq<byte>, last: byte)
    requires pieces != []
    ensures var n := |pieces| - 1;
            Extend(pieces[..n] + [pieces[n] + before], last) == pieces[..n] + [pieces[n] + (before + [last])]
  {
    var n := |pieces| - 1;
    assert pieces[n] + before + [last] == pieces[n] + (before + [last]);
  }

  lemma OnePiece(piece: seq<byte>, separator: byte)
    requires separator !in piece
    ensures Split(piece, separator) == [piece]
  {
    SplitExtend([], piece, separator);
    assert Split([], separator) == [[]] && [] + piece == piece;
  }

  lemma TwoPieces(a: seq<byte>, b: seq<byte>, separator: byte)
    requires separator !in a && separator !in b
    ensures Split(a + [separator] + b, separator) == [a, b]
  {
    OnePiece(a, separator);
    SplitAppend(a, separator, separator);
    SplitExtend(a + [separator], b, separator);
    assert [a] + [[]] == [a, []] && [] + b == b;
  }

  function Join(pieces: seq<seq<byte>>, separator: byte): seq<byte>
    requires pieces != []
  {
    if |pieces| == 1 then pieces[0]
    else Join(pieces[..|pieces| - 1], separator) + [separator] + pieces[|pieces| - 1]
  }

  lemma JoinExtend(pieces: seq<seq<byte>>, b: byte, separator: byte)
    requires pieces != []
    ensures Join(Extend(pieces, b), separator) == Join(pieces, separator) + [b]
  {
    assert Extend(pieces, b)[..|pieces| - 1] == pieces[..|pieces| - 1];
  }

  /** `Split` is what its name says: pieces without the separator that join to the text. */
  lemma {:induction false} SplitJoins(s: seq<byte>, separator: byte)
    ensures Join(Split(s, separator), separator) == s
    ensures forall piece | piece in Split(s, separator) :: separator !in piece
  {
    if s != [] {
      var before, last := s[..|s| - 1], s[|s| - 1];
      SplitJoins(before, separator);
      var pieces := Split(before, separator);
      assert s == before + [last];
      if last == separator {
        assert (pieces + [[]])[..|pieces|] == pieces;
      } else {
        JoinExtend(pieces, last, separator);
      }
    }
  }

  predicate FreeOf(pieces: seq<seq<byte>>, b: byte) {
    forall piece | piece in pieces :: b !in piece
  }

  lemma FreeAppend(pieces: seq<seq<byte>>, piece: seq<byte>, b: byte)
    ensures FreeOf(pieces + [piece], b) <==> FreeOf(pieces, b) && b !in piece
  {
    var all := pieces + [piece];
    assert piece in all && forall p | p in pieces :: p in all;
  }

  lemma {:induction false} SplitFree(s: seq<byte>, separator: byte, b: byte)
    requires b != separator
    ensures b !in s <==> FreeOf(Split(s, separator), b)
  {
    if s == [] {
      assert Split(s, separator) == [[]];
    } else {
      var before, last := s[..|s| - 1], s[|s| - 1];
      var pieces := Split(before, separator);
      SplitFree(before, separator, b);
      FreeAppend(pieces, [], b);
      var rest, piece := pieces[..|pieces| - 1], pieces[|pieces| - 1];
      FreeAppend(rest, piece, b);
      FreeAppend(rest, piece + [last], b);
      assert s == before + [last] && pieces == rest + [piece];
    }
  }

  /** Reading on never changes a finished piece, and only extends the current one. */
  lemma {:induction false} SplitGrows(s: seq<byte>, i: nat, separator: byte)
    requires i <= |s|
    ensures var a, b := Split(s[..i], separator), Split(s, separator);
            |a| <= |b| && a[..|a| - 1] == b[..|a| - 1] && a[|a| - 1] <= b[|a| - 1]
  {
    if i == |s| {
      assert s[..i] == s;
    } else {
      var t := s[..|s| - 1];
      assert s[..i] == t[..i];
      SplitGrows(t, i, separator);
    }
  }

  // Of text[..i] the reader has seen finished lines and the current line, with finished labels and `zone`
  // bytes of a current label. Beside that stands what it copied for them.

  datatype Seen = Seen(lines: seq<seq<byte>>, line: seq<byte>, labels: Name)

  datatype Copied = Copied(names: seq<Name>, labels: Name)

  /** `r` splits text[..i] right, and every label it has finished is of a countable size. */
  ghost predicate Scanned(text: seq<byte>, i: nat, zone: nat, length: nat, r: Seen) {
    && zone <= length == |r.line| <= i <= |text| && zone < 256
    && Lines(text[..i]) == r.lines + [r.line] && text[i - length..i] == r.line && NEWLINE !in r.line
    && Labels(r.line) == r.labels + [text[i - zone..i]] && (r.line == [] ==> r.labels == [])
    && Acceptable(r.lines) && (forall l | l in r.labels :: 0 < |l| < 256)
  }

  /** The output holds the copies, and they are what blank lines make of what was read. */
  ghost predicate Wrote(dst: seq<byte>, lines: seq<seq<byte>>, labels: Name, c: Copied) {
    && dst == EncodeNames(c.names) + EncodeLabels(c.labels)
    && c.names == Copies(lines) && c.labels == EarlyFirst(labels, Blanks(lines))
  }

  /** The source offset lags behind the first label of a line by the newlines of the blank lines just before it. */
  ghost predicate Lags(text: seq<byte>, i: nat, src: nat, zone: nat, r: Seen) {
    && src + (if r.labels == [] then Blanks(r.lines) else 0) == i - zone <= i <= |text|
    && (forall k | src <= k < i - zone :: text[k] == NEWLINE)
  }

  lemma ScanOther(text: seq<byte>, i: nat, zone: nat, length: nat, r: Seen)
    requires Scanned(text, i, zone, length, r)
    requires i < |text| && text[i] != DOT && text[i] != NEWLINE && zone < 255
    ensures Scanned(text, i + 1, zone + 1, length + 1, r.(line := r.line + [text[i]]))
  {
    hide Split, Acceptable;
    var line := r.line + [text[i]];
    SplitStep(text, i, NEWLINE);
    SplitAppend(r.line, text[i], DOT);
    assert text[i - length..i + 1] == line;
    assert text[i - zone..i] + [text[i]] == text[i - zone..i + 1];
  }

  lemma ScanDot(text: seq<byte>, i: nat, zone: nat, length: nat, r: Seen)
    requires Scanned(text, i, zone, length, r) && i < |text| && text[i] == DOT && zone > 0
    ensures Scanned(text, i + 1, 0, length + 1, Seen(r.lines, r.line + [DOT], r.labels + [text[i - zone..i]]))
  {
    hide Split, Acceptable;
    var line := r.line + [DOT];
    SplitStep(text, i, NEWLINE);
    SplitAppend(r.line, DOT, DOT);
    assert text[i - length..i + 1] == line && text[i + 1 - 0..i + 1] == [];
    assert Extend(r.lines + [r.line], DOT) == r.lines + [line];
  }

  lemma ScanNewline(text: seq<byte>, i: nat, zone: nat, length: nat, r: Seen)
    requires Scanned(text, i, zone, length, r) && i < |text| && text[i] == NEWLINE && (zone > 0 || length == 0)
    ensures Scanned(text, i + 1, 0, 0, Seen(r.lines + [r.line], [], []))
  {
    SplitStep(text, i, NEWLINE);
    assert Labels([]) == [[]];
  }

  /** What is copied for a label: it is right exactly when the source offset does not lag. */
  lemma CopiedLabel(text: seq<byte>, i: nat, src: nat, zone: nat, length: nat, r: Seen)
    requires Scanned(text, i, zone, length, r) && Lags(text, i, src, zone, r) && zone > 0
    ensures text[src..src + zone]
         == if r.labels == [] then Early(text[i - zone..i], Blanks(r.lines)) else text[i - zone..i]
    ensures text[src..src + zone] == text[i - zone..i] <==> !(r.labels == [] && Blanks(r.lines) > 0)
  {
    assert text[i - zone] == r.line[length - zone];
    var b := i - zone - src;
    var early := seq(b, _ => NEWLINE) + text[i - zone..i];
    forall k | 0 <= k < zone
      ensures text[src..src + zone][k] == early[k]
    {
      assert text[src..src + zone][k] == text[src + k];
      assert k >= b ==> text[i - zone..i][k - b] == text[src + k];
    }
    assert text[src..src + zone] == early[..zone];
    if b > 0 {
      assert text[src..src + zone][0] == NEWLINE != text[i - zone..i][0];
    }
  }

  lemma WriteLabel(dst: seq<byte>, lines: seq<seq<byte>>, labels: Name, c: Copied, read: Label, put: Label)
    requires Wrote(dst, lines, labels, c)
    requires put == if labels == [] then Early(read, Blanks(lines)) else read
    ensures Wrote(dst + EncodeLabel(put), lines, labels + [read], c.(labels := c.labels + [put]))
  {
    hide Copies, Blanks, EncodeNames, EncodeLabels, EncodeLabel, EarlyFirst, Early;
    EncodeLabelsAppend(c.labels, put);
    EarlyAppend(labels, read, Blanks(lines));
    assert EncodeNames(c.names) + EncodeLabels(c.labels) + EncodeLabel(put)
        == EncodeNames(c.names) + (EncodeLabels(c.labels) + EncodeLabel(put));
  }

  lemma EarlyAppend(labels: Name, read: Label, b: nat)
    ensures EarlyFirst(labels + [read], b)
         == EarlyFirst(labels, b) + [if labels == [] then Early(read, b) else read]
  {
    hide Early;
    if labels != [] {
      assert (labels + [read])[1..] == labels[1..] + [read];
    }
  }

  lemma AppendEqual<T>(a: seq<T>, x: T, b: seq<T>, y: T)
    requires |a| == |b|
    ensures a + [x] == b + [y] <==> a == b && x == y
  {
    assert (a + [x])[..|a|] == a && (b + [y])[..|b|] == b;
    assert (a + [x])[|a|] == x && (b + [y])[|b|] == y;
  }

  lemma BlankBefore(lines: seq<seq<byte>>, line: seq<byte>)
    requires line != []
    ensures BlankOnlyAtEnd(lines + [line]) <==> BlankOnlyAtEnd(lines) && Blanks(lines) == 0
  {
    var all := lines + [line];
    assert forall i | 0 <= i < |lines| :: all[i] == lines[i];
    assert all[|lines|] == line;
    if BlankOnlyAtEnd(all) && lines != [] {
      assert all[|lines| - 1] == lines[|lines| - 1];
    }
  }

  lemma WriteName(dst: seq<byte>, lines: seq<seq<byte>>, line: seq<byte>, c: Copied)
    requires line != [] && Wrote(dst, lines, Labels(line), c)
    ensures Wrote(dst + [NUL], lines + [line], [], Copied(c.names + [c.labels], []))
  {
    EncodeNamesAppend(c.names, c.labels);
    assert (lines + [line])[..|lines|] == lines;
    assert EncodeLabels([]) == [];
  }

  lemma WriteBlank(dst: seq<byte>, lines: seq<seq<byte>>, c: Copied)
    requires Wrote(dst, lines, [], c)
    ensures Wrote(dst, lines + [[]], [], c)
  {
    assert (lines + [[]])[..|lines|] == lines;
  }

  /** The copies have the shape of the names, and are the names exactly when no name comes after a blank line. */
  lemma {:induction false} CopiesAre(lines: seq<seq<byte>>)
    requires Acceptable(lines) && FreeOf(lines, NEWLINE)
    ensures SameShapes(Copies(lines), NamesOf(lines))
    ensures Copies(lines) == NamesOf(lines) <==> BlankOnlyAtEnd(lines)
  {
    if lines != [] {
      var before, last := lines[..|lines| - 1], lines[|lines| - 1];
      assert lines == before + [last];
      FreeAppend(before, last, NEWLINE);
      CopiesAre(before);
      if last == [] {
        BlankAfter(before);
        assert Copies(before) + [] == Copies(before) && NamesOf(before) + [] == NamesOf(before);
      } else {
        assert Countable(Labels(last));
        SplitFree(last, DOT, NEWLINE);
        EarlyDiffers(Labels(last), Blanks(before));
        AppendEqual(Copies(before), EarlyFirst(Labels(last), Blanks(before)), NamesOf(before), Labels(last));
        BlankBefore(before, last);
      }
    }
  }

  lemma BlankAfter(lines: seq<seq<byte>>)
    ensures BlankOnlyAtEnd(lines + [[]]) <==> BlankOnlyAtEnd(lines)
  {
    var all := lines + [[]];
    assert forall i | 0 <= i < |lines| :: all[i] == lines[i];
  }

  lemma EarlyDiffers(n: Name, b: nat)
    requires Countable(n) && FreeOf(n, NEWLINE)
    ensures SameShape(EarlyFirst(n, b), n) && (EarlyFirst(n, b) == n <==> b == 0)
  {
    var l := n[0];
    assert l in n && l[0] in l;
    if b == 0 {
      assert Early(l, 0) == l && [l] + n[1..] == n;
    } else {
      assert EarlyFirst(n, b)[0] == Early(l, b) && Early(l, b)[0] == NEWLINE != l[0];
    }
  }

  lemma {:induction false} SplitTotal(s: seq<byte>, separator: byte)
    ensures |s| == Total(Split(s, separator)) + |Split(s, separator)| - 1
  {
    if s != [] {
      SplitTotal(s[..|s| - 1], separator);
      var pieces := Split(s[..|s| - 1], separator);
      TotalAppend(pieces, []);
      TotalAppend(pieces[..|pieces| - 1], pieces[|pieces| - 1]);
      TotalAppend(pieces[..|pieces| - 1], pieces[|pieces| - 1] + [s[|s| - 1]]);
      assert pieces[..|pieces| - 1] + [pieces[|pieces| - 1]] == pieces;
    }
  }

  function Total(pieces: seq<seq<byte>>): nat {
    if pieces == [] then 0 else |pieces[0]| + Total(pieces[1..])
  }

  lemma {:induction false} TotalAppend(pieces: seq<seq<byte>>, piece: seq<byte>)
    ensures Total(pieces + [piece]) == Total(pieces) + |piece|
  {
    if pieces == [] {
      assert pieces + [piece] == [piece];
    } else {
      assert (pieces + [piece])[1..] == pieces[1..] + [piece];
      TotalAppend(pieces[1..], piece);
    }
  }

  lemma {:induction false} EncodedSize(n: Name)
    ensures |EncodeLabels(n)| == Total(n) + |n|
  {
    if n != [] {
      EncodedSize(n[1..]);
    }
  }

  function NonBlank(lines: seq<seq<byte>>): nat {
    if lines == [] then 0
    else NonBlank(lines[..|lines| - 1]) + if lines[|lines| - 1] == [] then 0 else 1
  }

  lemma {:induction false} BlockSize(lines: seq<seq<byte>>)
    ensures |EncodeNames(NamesOf(lines))| == Total(lines) + 2 * NonBlank(lines)
    ensures NonBlank(lines) <= Total(lines) && NonBlank(lines) <= |lines|
    ensures NonBlank(lines) == |lines| <==> [] !in lines
  {
    if lines != [] {
      var rest, last := lines[..|lines| - 1], lines[|lines| - 1];
      assert rest + [last] == lines;
      BlockSize(rest);
      TotalAppend(rest, last);
      if last != [] {
        EncodeNamesAppend(NamesOf(rest), Labels(last));
        EncodedSize(Labels(last));
        SplitTotal(last, DOT);
      } else {
        assert NamesOf(rest) + [] == NamesOf(rest);
      }
    }
  }

  lemma {:induction false} ShapeSize(ns: seq<Name>, ms: seq<Name>)
    requires SameShapes(ns, ms)
    ensures |EncodeNames(ns)| == |EncodeNames(ms)|
  {
    if ns != [] {
      assert SameShape(ns[0], ms[0]);
      NameShapeSize(ns[0], ms[0]);
      assert forall i | 0 <= i < |ns[1..]| :: ns[1..][i] == ns[i + 1] && ms[1..][i] == ms[i + 1];
      ShapeSize(ns[1..], ms[1..]);
    }
  }

  lemma {:induction false} NameShapeSize(n: Name, m: Name)
    requires SameShape(n, m)
    ensures |EncodeLabels(n)| == |EncodeLabels(m)|
  {
    if n != [] {
      assert |n[0]| == |m[0]|;
      assert forall i | 0 <= i < |n[1..]| :: n[1..][i] == n[i + 1] && m[1..][i] == m[i + 1];
      NameShapeSize(n[1..], m[1..]);
    }
  }

  /** What `get_domains` allocates for the block of a text of n bytes. */
  function Allocation(n: nat): nat {
    3 * (n / 2 + n % 2) + 1
  }

  /** The block fits its allocation, except for one byte when the text has no newline at its end, no blank
      line, and two bytes to a name. */
  lemma AllocationBound(text: seq<byte>, block: seq<byte>, copied: seq<Name>)
    requires block == Block(copied) && SameShapes(copied, NamesOf(Lines(text)))
    ensures |block| <= Allocation(|text|) + 1
    ensures |block| > Allocation(|text|) <==> [] !in Lines(text) && |text| == 2 * |Lines(text)|
  {
    ShapeSize(copied, NamesOf(Lines(text)));
    BlockSize(Lines(text));
    SplitTotal(text, NEWLINE);
    LastLine(text);
  }

  /** A text that is accepted, and whose block is one byte longer than its allocation: `ab`. */
  lemma AllocationExceeded(text: seq<byte>, block: seq<byte>, copied: seq<Name>)
    requires text == [97, 98] && block == Block(copied) && SameShapes(copied, NamesOf(Lines(text)))
    ensures Acceptable(Lines(text)) && |block| == Allocation(|text|) + 1
  {
    hide Split, NamesOf, Block, SameShapes;
    OnePiece(text, NEWLINE);
    OnePiece(text, DOT);
    assert Lines(text) == [text] && Labels(text) == [text];
    AllocationBound(text, block, copied);
  }

  lemma LastLine(text: seq<byte>)
    ensures text == [] || text[|text| - 1] == NEWLINE ==> [] in Lines(text)
  {
    if text != [] && text[|text| - 1] == NEWLINE {
      var before := Split(text[..|text| - 1], NEWLINE);
      assert (before + [[]])[|before|] == [];
    }
  }

  lemma InRange(text: seq<byte>, i: nat, src: nat, zone: nat, length: nat, r: Seen)
    requires Scanned(text, i, zone, length, r) && Lags(text, i, src, zone, r)
    ensures src + zone <= i <= |text| && zone <= length && zone < 256
    ensures length == 0 <==> r.line == []
    ensures r.line == [] ==> r.labels == []
  {
  }

  /** A NUL in a label comes from the text. */
  predicate NulsFrom(text: seq<byte>, n: Name) {
    forall l | l in n && NUL in l :: NUL in text
  }

  predicate AllNulsFrom(text: seq<byte>, ns: seq<Name>) {
    forall n | n in ns :: NulsFrom(text, n)
  }

  lemma PutLabel(text: seq<byte>, i: nat, src: nat, zone: nat, length: nat, r: Seen, dst: seq<byte>, c: Copied)
    returns (c': Copied)
    requires Scanned(text, i, zone, length, r) && Lags(text, i, src, zone, r) && zone > 0
    requires Wrote(dst, r.lines, r.labels, c)
    ensures src + zone <= i <= |text| && c'.names == c.names
    ensures NulsFrom(text, c.labels) ==> NulsFrom(text, c'.labels)
    ensures Wrote(dst + EncodeLabel(text[src..src + zone]), r.lines, r.labels + [text[i - zone..i]], c')
  {
    hide Wrote;
    CopiedLabel(text, i, src, zone, length, r);
    WriteLabel(dst, r.lines, r.labels, c, text[i - zone..i], text[src..src + zone]);
    c' := c.(labels := c.labels + [text[src..src + zone]]);
  }

  lemma PutName(text: seq<byte>, i: nat, src: nat, zone: nat, length: nat, r: Seen, dst: seq<byte>, c: Copied)
    returns (c': Copied)
    requires Scanned(text, i, zone, length, r) && Lags(text, i, src, zone, r) && zone > 0
    requires Wrote(dst, r.lines, r.labels, c)
    ensures src + zone <= i <= |text| && |c'.names| == |c.names| + 1 && c'.labels == []
    ensures NulsFrom(text, c.labels) && AllNulsFrom(text, c.names) ==> AllNulsFrom(text, c'.names)
    ensures Wrote(dst + EncodeLabel(text[src..src + zone]) + [NUL], r.lines + [r.line], [], c')
    ensures Acceptable(r.lines + [r.line])
  {
    hide Wrote;
    var c'' := PutLabel(text, i, src, zone, length, r, dst, c);
    WriteName(dst + EncodeLabel(text[src..src + zone]), r.lines, r.line, c'');
    c' := Copied(c''.names + [c''.labels], []);
  }

  /** A finished label of a wrong size, or a current one that is too long, spoils the whole text. */
  lemma Spoiled(text: seq<byte>, i: nat, lines: seq<seq<byte>>, line: seq<byte>, labels: Name, current: Label)
    requires i <= |text| && line != []
    requires Lines(text[..i]) == lines + [line] && Labels(line) == labels + [current]
    requires |current| > 255 || exists l :: l in labels && !(0 < |l| < 256)
    ensures !Acceptable(Lines(text))
  {
    SplitGrows(text, i, NEWLINE);
    var whole := Lines(text)[|lines|];
    assert line <= whole && whole in Lines(text);
    SplitGrows(whole, |line|, DOT);
    assert whole[..|line|] == line;
    var all := Labels(whole);
    assert current <= all[|labels|] && labels == all[..|labels|];
    if |current| > 255 {
      assert all[|labels|] in all;
    } else {
      var l :| l in labels && !(0 < |l| < 256);
      assert l in all[..|labels|] && l in all;
    }
  }

  lemma SpoiledLine(text: seq<byte>, i: nat, length: nat, r: Seen)
    requires Scanned(text, i, 0, length, r) && length > 0 && (i == |text| || text[i] == NEWLINE)
    ensures !Acceptable(Lines(text))
  {
    hide Split;
    if i < |text| {
      SplitStep(text, i, NEWLINE);
      SplitGrows(text, i + 1, NEWLINE);
      assert Lines(text)[..|r.lines| + 1] == r.lines + [r.line];
    } else {
      assert text[..i] == text;
    }
    assert Lines(text)[|r.lines|] == r.line;
    assert Labels(r.line)[|r.labels|] == [];
  }

  lemma SpoiledLabel(text: seq<byte>, i: nat, zone: nat, length: nat, r: Seen)
    requires Scanned(text, i, zone, length, r) && i < |text|
    requires if text[i] == DOT then zone == 0 else text[i] != NEWLINE && zone == 255
    ensures !Acceptable(Lines(text))
  {
    hide Split, Acceptable;
    SplitStep(text, i, NEWLINE);
    SplitAppend(r.line, text[i], DOT);
    var line := r.line + [text[i]];
    assert Extend(r.lines + [r.line], text[i]) == r.lines + [line];
    if zone == 0 && text[i] == DOT {
      assert (r.labels + [[]])[|r.labels|] == [] == text[i - zone..i];
      Spoiled(text, i + 1, r.lines, line, r.labels + [[]], []);
    } else {
      Spoiled(text, i + 1, r.lines, line, r.labels, text[i - zone..i] + [text[i]]);
    }
  }

  lemma Start(text: seq<byte>)
    ensures Scanned(text, 0, 0, 0, Seen([], [], [])) && Wrote([], [], [], Copied([], []))
  {
  }

  /** Nothing is left of the text. */
  lemma Finish(text: seq<byte>, lines: seq<seq<byte>>, dst: seq<byte>, c: Copied)
    requires Wrote(dst, lines, [], c) && lines == Lines(text)
    ensures dst + [NUL] == Block(c.names) && c.names == Copies(Lines(text))
  {
  }

  lemma {:induction false} NamesCountable(lines: seq<seq<byte>>)
    requires Acceptable(lines)
    ensures forall n | n in NamesOf(lines) :: Countable(n)
  {
    if lines != [] {
      NamesCountable(lines[..|lines| - 1]);
    }
  }

  lemma ShapesCountable(ns: seq<Name>, ms: seq<Name>)
    requires SameShapes(ns, ms) && forall m | m in ms :: Countable(m)
    ensures forall n | n in ns :: Countable(n)
  {
    forall n | n in ns
      ensures Countable(n)
    {
      var i :| 0 <= i < |ns| && ns[i] == n;
      assert SameShape(n, ms[i]) && Countable(ms[i]);
      forall l | l in n
        ensures 0 < |l| < 256
      {
        var j :| 0 <= j < |n| && n[j] == l;
        assert ms[i][j] in ms[i];
      }
    }
  }

  /** Reads a text as `get_domains` does. Blank lines leave `src` behind, so that the first label of the line after
      them is copied from the wrong place: `copied` is what the block then holds. */
  method GetDomains(text: seq<byte>) returns (ok: bool, count: nat, block: seq<byte>, ghost copied: seq<Name>)
    ensures ok <==> 0 < |text| <= DOMAINS_FILE_LIMIT && Acceptable(Lines(text))
    ensures ok ==> block == Block(copied) && copied == Copies(Lines(text)) && count == |copied|
    ensures ok ==> SameShapes(copied, NamesOf(Lines(text)))
    ensures ok ==> (copied == NamesOf(Lines(text)) <==> BlankOnlyAtEnd(Lines(text)))
    ensures (forall n | n in copied :: Countable(n)) && AllNulsFrom(text, copied)
  {
    hide Wrote, Scanned;
    count, block, copied := 0, [], [];
    if |text| == 0 || |text| > DOMAINS_FILE_LIMIT {
      return false, count, block, copied;
    }
    var src, dst := 0, [];
    var zone, length := 0, 0;
    ghost var r, c := Seen([], [], []), Copied([], []);
    Start(text);
    var i := 0;
    while i < |text|
      invariant Scanned(text, i, zone, length, r) && Lags(text, i, src, zone, r)
      invariant Wrote(dst, r.lines, r.labels, c) && count == |c.names|
      invariant NulsFrom(text, c.labels) && AllNulsFrom(text, c.names)
    {
      InRange(text, i, src, zone, length, r);
      if text[i] == DOT {
        if zone == 0 {
          SpoiledLabel(text, i, zone, length, r);
          return false, count, block, copied;
        }
        c := PutLabel(text, i, src, zone, length, r, dst, c);
        ScanDot(text, i, zone, length, r);
        r := Seen(r.lines, r.line + [DOT], r.labels + [text[i - zone..i]]);
        dst := dst + EncodeLabel(text[src..src + zone]);
        length, zone, src := length + 1, 0, i + 1;
      } else if text[i] == NEWLINE {
        if length > 0 {
          if zone == 0 {
            SpoiledLine(text, i, length, r);
            return false, count, block, copied;
          }
          c := PutName(text, i, src, zone, length, r, dst, c);
          ScanNewline(text, i, zone, length, r);
          dst := dst + EncodeLabel(text[src..src + zone]) + [NUL];
          count := count + 1;
          length, zone, src := 0, 0, i + 1;
        } else {
          WriteBlank(dst, r.lines, c);
          ScanNewline(text, i, zone, length, r);
        }
        r := Seen(r.lines + [r.line], [], []);
      } else {
        if zone == UCHAR_MAX {
          SpoiledLabel(text, i, zone, length, r);
          return false, count, block, copied;
        }
        ScanOther(text, i, zone, length, r);
        r := r.(line := r.line + [text[i]]);
        zone, length := zone + 1, length + 1;
      }
      i := i + 1;
    }
    InRange(text, i, src, zone, length, r);
    ScannedAll(text, zone, length, r);
    if length > 0 {
      if zone == 0 {
        SpoiledLine(text, i, length, r);
        return false, count, block, copied;
      }
      c := PutName(text, i, src, zone, length, r, dst, c);
      dst := dst + EncodeLabel(text[src..src + zone]) + [NUL];
      count := count + 1;
    } else {
      WriteBlank(dst, r.lines, c);
    }
    Finish(text, r.lines + [r.line], dst, c);
    block, copied := dst + [NUL], c.names;
    SplitJoins(text, NEWLINE);
    CopiesAre(Lines(text));
    NamesCountable(Lines(text));
    ShapesCountable(copied, NamesOf(Lines(text)));
    ok := true;
  }

  lemma ScannedAll(text: seq<byte>, zone: nat, length: nat, r: Seen)
    requires Scanned(text, |text|, zone, length, r)
    ensures Lines(text) == r.lines + [r.line]
    ensures r.line == [] ==> Acceptable(Lines(text))
  {
    assert text[..|text|] == text;
  }

  /** Walks a block of names as `print_domains` does, and finds the names that were put into it. */
  method PrintDomains(block: seq<byte>, ghost ns: seq<Name>) returns (names: seq<Name>)
    requires block == Block(ns) && forall n | n in ns :: Countable(n)
    ensures names == ns
  {
    names := [];
    var offset: nat := 0;
    assert ns[0..] == ns && block[0..] == block;
    assert BlockAt(block, 0, ns, 0);
    hide NameAt, RestAt, Block;
    FirstNameAt(block, offset, ns, 0);
    while block[offset] != NUL
      invariant BlockAt(block, offset, ns, |names|) && |names| <= |ns| && names == ns[..|names|]
      invariant offset < |block| && (block[offset] == NUL <==> |names| == |ns|)
      decreases |block| - offset
    {
      FirstNameAt(block, offset, ns, |names|);
      var labels, past := PrintName(block, offset, ns[|names|], Block(ns[|names| + 1..]));
      assert ns[..|names|] + [labels] == ns[..|names| + 1];
      offset := past + 1;
      names := names + [labels];
      FirstNameAt(block, offset, ns, |names|);
    }
  }

  /** The inner loop of the walk: the labels of one name. */
  method PrintName(block: seq<byte>, at: nat, ghost n: Name, ghost rest: seq<byte>)
    returns (labels: Name, past: nat)
    requires Countable(n) && NameAt(block, at, n, 0, rest)
    ensures labels == n && at <= past && RestAt(block, past + 1, rest)
  {
    hide NameAt, RestAt;
    labels, past := [], at;
    LabelAt(block, past, n, 0, rest);
    while block[past] != NUL
      invariant NameAt(block, past, n, |labels|, rest) && at <= past && |labels| <= |n| && labels == n[..|labels|]
      invariant past < |block| && (block[past] == NUL <==> |labels| == |n|)
      decreases |block| - past
    {
      LabelAt(block, past, n, |labels|, rest);
      var zone := FromByte(block[past]);
      assert n[..|labels|] + [n[|labels|]] == n[..|labels| + 1];
      past := past + 1;
      labels := labels + [block[past..past + zone]];
      past := past + zone;
      LabelAt(block, past, n, |labels|, rest);
    }
    LabelAt(block, past, n, |n|, rest);
  }

  /** What the client prints for a text it accepts: the names of its lines, if no blank line comes before one. */
  method LoadAndPrint(text: seq<byte>) returns (ok: bool, count: nat, names: seq<Name>)
    ensures ok <==> 0 < |text| <= DOMAINS_FILE_LIMIT && Acceptable(Lines(text))
    ensures ok ==> names == Copies(Lines(text)) && SameShapes(names, NamesOf(Lines(text))) && count == |names|
    ensures ok ==> (names == NamesOf(Lines(text)) <==> BlankOnlyAtEnd(Lines(text)))
  {
    var block;
    ghost var copied;
    names := [];
    ok, count, block, copied := GetDomains(text);
    if ok {
      names := PrintDomains(block, copied);
    }
  }

  /** A text that is accepted but misread: a blank line, and then `ab`. */
  lemma BlankLineMisread(text: seq<byte>)
    requires text == [NEWLINE, 97, 98]
    ensures Acceptable(Lines(text)) && !BlankOnlyAtEnd(Lines(text))
    ensures NamesOf(Lines(text)) == [[[97, 98]]] && Copies(Lines(text)) == [[[NEWLINE, 97]]]
  {
    hide Split;
    TwoPieces([], [97, 98], NEWLINE);
    OnePiece([97, 98], DOT);
    assert [] + [NEWLINE] + [97, 98] == text;
    assert Lines(text)[0] == [] && Lines(text)[1] != [];
    OneNameLate([97, 98]);
    assert Early([97, 98], 1) == [NEWLINE, 97] by { assert seq(1, _ => NEWLINE) == [NEWLINE]; }
  }

  /** A blank line, and then one of one label. */
  lemma OneNameLate(line: seq<byte>)
    requires line != [] && Labels(line) == [line]
    ensures NamesOf([[], line]) == [[line]] && Copies([[], line]) == [[Early(line, 1)]]
  {
    hide Split, Early;
    var lines, blank: seq<seq<byte>> := [[], line], [[]];
    assert lines[..1] == blank && blank[..0] == [];
    assert NamesOf(blank) == [] && Copies(blank) == [] && Blanks(blank) == 1;
    assert [line][1..] == [] && [Early(line, 1)] + [] == [Early(line, 1)];
  }
}
