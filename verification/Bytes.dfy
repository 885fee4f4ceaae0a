/** Failure-compatible result types shared by every module. */
module Wrappers {
  datatype Option<+T> = None | Some(value: T) {
    function GetOr(default: T): T {
      if Some? then value else default
    }
  }

  datatype Result<+T, +E> = Ok(value: T) | Err(error: E)
}

/**
 * Byte strings: the lexicographic order Ruby's String#<=> uses on bytes, and joining
 * and splitting text at separator bytes.
 */
module Bytes {
  type Byte = b: int | 0 <= b < 256
  type Bytes = seq<Byte>

  const AMP: Byte := 0x26
  const COMMA: Byte := 0x2C
  const EQUALS: Byte := 0x3D
  const NEWLINE: Byte := 0x0A
  const PERCENT: Byte := 0x25
  const PLUS: Byte := 0x2B
  const QUOTE: Byte := 0x22
  const SLASH: Byte := 0x2F
  const SPACE: Byte := 0x20

  /** The bytes of an ASCII literal. */
  function Ascii(s: string): (r: Bytes)
    ensures |r| == |s|
  {
    seq(|s|, i requires 0 <= i < |s| => s[i] as int % 256)
  }

  /** String#<=> restricted to "less or equal". */
  predicate Leq(a: Bytes, b: Bytes) {
    if a == [] then true
    else if b == [] then false
    else if a[0] != b[0] then a[0] < b[0]
    else Leq(a[1..], b[1..])
  }

  function DowncaseByte(b: Byte): Byte {
    if 0x41 <= b <= 0x5A then b + 0x20 else b
  }

  function Downcase(s: Bytes): (r: Bytes)
    ensures |r| == |s|
    ensures forall i :: 0 <= i < |s| ==> r[i] == DowncaseByte(s[i])
  {
    seq(|s|, i requires 0 <= i < |s| => DowncaseByte(s[i]))
  }

  function Map<T, U>(f: T -> U, s: seq<T>): (r: seq<U>)
    ensures |r| == |s|
    ensures forall i :: 0 <= i < |s| ==> r[i] == f(s[i])
  {
    if s == [] then [] else [f(s[0])] + Map(f, s[1..])
  }

  lemma Assoc<T>(a: seq<T>, b: seq<T>, c: seq<T>)
    ensures a + (b + c) == (a + b) + c
  {
  }

  /** A common prefix does not matter to the prefix relation. */
  lemma PrefixCommon<T>(p: seq<T>, a: seq<T>, b: seq<T>)
    ensures p + a <= p + b <==> a <= b
  {
    if a <= b {
      assert b == a + b[|a|..];
      Assoc(p, a, b[|a|..]);
    }
    if p + a <= p + b {
      assert (p + b)[..|p + a|][|p|..] == b[..|a|];
      assert (p + a)[|p|..] == a;
    }
  }

  lemma MapConcat<T, U>(f: T -> U, a: seq<T>, b: seq<T>)
    ensures Map(f, a + b) == Map(f, a) + Map(f, b)
  {
    assert forall i :: 0 <= i < |a + b| ==> Map(f, a + b)[i] == f((a + b)[i]);
  }

  lemma MapOne<T, U>(f: T -> U, x: T)
    ensures Map(f, [x]) == [f(x)]
  {
  }

  lemma MapLast<T, U>(f: T -> U, s: seq<T>)
    requires s != []
    ensures Map(f, s) == Map(f, s[..|s| - 1]) + [f(s[|s| - 1])]
  {
    var n := |s| - 1;
    assert s == s[..n] + [s[n]];
    MapConcat(f, s[..n], [s[n]]);
    MapOne(f, s[n]);
  }

  function Filter<T>(keep: T -> bool, s: seq<T>): (r: seq<T>)
  {
    if s == [] then []
    else if keep(s[0]) then [s[0]] + Filter(keep, s[1..])
    else Filter(keep, s[1..])
  }

  lemma FilterConcat<T>(keep: T -> bool, a: seq<T>, b: seq<T>)
    ensures Filter(keep, a + b) == Filter(keep, a) + Filter(keep, b)
  {
    if a == [] {
      assert a + b == b;
    } else {
      FilterConcat(keep, a[1..], b);
      assert (a + b)[1..] == a[1..] + b;
    }
  }

  // ---------------------------------------------------------------- join and split

  /** Array#join. */
  function Join(parts: seq<Bytes>, sep: Bytes): Bytes {
    if |parts| == 0 then []
    else if |parts| == 1 then parts[0]
    else parts[0] + sep + Join(parts[1..], sep)
  }

  /** The pieces of `text` between separator bytes; always at least one piece. */
  function Split(text: Bytes, seps: set<Byte>): (pieces: seq<Bytes>)
    ensures |pieces| > 0
  {
    if text == [] then [[]]
    else PrependByte(text[0], Split(text[1..], seps), seps)
  }

  /** The pieces once one more byte is put before the text. */
  function PrependByte(b: Byte, pieces: seq<Bytes>, seps: set<Byte>): (r: seq<Bytes>)
    requires |pieces| > 0
    ensures |r| > 0
  {
    if b in seps then [[]] + pieces else [[b] + pieces[0]] + pieces[1..]
  }

  lemma PrependByteConcat(b: Byte, left: seq<Bytes>, right: seq<Bytes>, seps: set<Byte>)
    requires |left| > 0
    ensures PrependByte(b, left + right, seps) == PrependByte(b, left, seps) + right
  {
  }

  predicate Free(text: Bytes, seps: set<Byte>) {
    forall i :: 0 <= i < |text| ==> text[i] !in seps
  }

  lemma {:induction false} SplitFree(piece: Bytes, seps: set<Byte>)
    requires Free(piece, seps)
    ensures Split(piece, seps) == [piece]
  {
    if piece != [] {
      SplitFree(piece[1..], seps);
      assert [piece[0]] + piece[1..] == piece;
    }
  }

  /** The first separator ends the first piece. */
  lemma {:induction false} SplitFirst(piece: Bytes, sep: Byte, rest: Bytes, seps: set<Byte>)
    requires Free(piece, seps) && sep in seps
    ensures Split(piece + [sep] + rest, seps) == [piece] + Split(rest, seps)
  {
    var text := piece + [sep] + rest;
    if piece == [] {
      assert text[1..] == rest;
    } else {
      SplitFirst(piece[1..], sep, rest, seps);
      assert text[1..] == piece[1..] + [sep] + rest;
      assert [piece[0]] + piece[1..] == piece;
    }
  }

  /** How many bytes come before the first of some bytes, that one included or not. */
  function BytesUntil(text: Bytes, ends: set<Byte>, included: bool): (n: nat)
    ensures n <= |text|
  {
    if text == [] then 0
    else if text[0] in ends then if included then 1 else 0
    else 1 + BytesUntil(text[1..], ends, included)
  }

  lemma {:induction false} UntilAppended(a: Bytes, c: Byte, rest: Bytes, ends: set<Byte>, included: bool)
    requires Free(a, ends) && c in ends
    ensures BytesUntil(a + [c] + rest, ends, included) == |a| + if included then 1 else 0
  {
    if a != [] {
      UntilAppended(a[1..], c, rest, ends, included);
      assert (a + [c] + rest)[1..] == a[1..] + [c] + rest;
    }
  }

  /** Splitting undoes joining when the pieces hold no separator. */
  lemma {:induction false} SplitJoin(parts: seq<Bytes>, sep: Byte, seps: set<Byte>)
    requires |parts| > 0 && sep in seps
    requires AllFree(parts, seps)
    ensures Split(Join(parts, [sep]), seps) == parts
  {
    SplitFree(parts[0], seps);
    if |parts| > 1 {
      SplitJoin(parts[1..], sep, seps);
      SplitFirst(parts[0], sep, Join(parts[1..], [sep]), seps);
    }
  }

  lemma CutAt(a: Bytes, c: Byte, x: Bytes)
    ensures (a + [c] + x)[|a|] == c && (a + [c] + x)[..|a|] == a && (a + [c] + x)[|a| + 1..] == x
  {
  }

  /** A text cut at the first of some separators. */
  lemma FirstCut(s: Bytes, a: Bytes, c: Byte, x: Bytes, ends: set<Byte>)
    requires s == a + [c] + x && Free(a, ends) && c in ends
    ensures var n := BytesUntil(s, ends, false); n < |s| && a == s[..n] && c == s[n] && x == s[n + 1..]
  {
    UntilAppended(a, c, x, ends, false);
    CutAt(a, c, x);
  }

  /** The first of two separators ends the same prefix on both sides. */
  lemma CutUnique(a: Bytes, c: Byte, x: Bytes, b: Bytes, d: Byte, y: Bytes)
    requires a + [c] + x == b + [d] + y
    requires Free(a, {c, d}) && Free(b, {c, d})
    ensures a == b && c == d && x == y
  {
    var s := a + [c] + x;
    FirstCut(s, a, c, x, {c, d});
    FirstCut(s, b, d, y, {c, d});
  }

  lemma JoinLongerFirst(b: Byte, first: Bytes, rest: seq<Bytes>, sep: Bytes)
    ensures Join([[b] + first] + rest, sep) == [b] + Join([first] + rest, sep)
  {
    assert ([[b] + first] + rest)[1..] == rest && ([first] + rest)[1..] == rest;
    if rest != [] {
      Assoc([b], first, sep);
      Assoc([b], first + sep, Join(rest, sep));
    }
  }

  lemma JoinPrepended(b: Byte, pieces: seq<Bytes>, sep: Byte)
    requires |pieces| > 0
    ensures Join(PrependByte(b, pieces, {sep}), [sep]) == [b] + Join(pieces, [sep])
  {
    if b == sep {
      assert ([[]] + pieces)[1..] == pieces;
      assert [] + [sep] == [sep];
    } else {
      assert pieces == [pieces[0]] + pieces[1..];
      JoinLongerFirst(b, pieces[0], pieces[1..], [sep]);
    }
  }

  predicate AllFree(pieces: seq<Bytes>, seps: set<Byte>) {
    forall i :: 0 <= i < |pieces| ==> Free(pieces[i], seps)
  }

  lemma PrependedFree(b: Byte, pieces: seq<Bytes>, sep: Byte)
    requires |pieces| > 0 && AllFree(pieces, {sep})
    ensures AllFree(PrependByte(b, pieces, {sep}), {sep})
  {
    assert Free(pieces[0], {sep});
  }

  /** Joining the pieces of a one-separator split gives the text back, and no piece holds it. */
  lemma {:induction false} JoinSplit(text: Bytes, sep: Byte)
    ensures Join(Split(text, {sep}), [sep]) == text
    ensures AllFree(Split(text, {sep}), {sep})
  {
    if text != [] {
      JoinSplit(text[1..], sep);
      JoinPrepended(text[0], Split(text[1..], {sep}), sep);
      PrependedFree(text[0], Split(text[1..], {sep}), sep);
      assert text == [text[0]] + text[1..];
    }
  }

  /** Splitting a concatenation around a separator concatenates the splits. */
  lemma {:induction false} SplitConcat(a: Bytes, sep: Byte, b: Bytes, seps: set<Byte>)
    requires sep in seps
    ensures Split(a + [sep] + b, seps) == Split(a, seps) + Split(b, seps)
  {
    var text := a + [sep] + b;
    if a == [] {
      assert text == [sep] + b && text[1..] == b;
    } else {
      SplitConcat(a[1..], sep, b, seps);
      assert text[0] == a[0] && text[1..] == a[1..] + [sep] + b;
      PrependByteConcat(a[0], Split(a[1..], seps), Split(b, seps), seps);
    }
  }

  /** Joining two non-empty lists joins the two joins. */
  lemma {:induction false} JoinConcat(a: seq<Bytes>, b: seq<Bytes>, sep: Bytes)
    requires |a| > 0 && |b| > 0
    ensures Join(a + b, sep) == Join(a, sep) + sep + Join(b, sep)
  {
    if |a| == 1 {
      assert (a + b)[1..] == b;
    } else {
      JoinConcat(a[1..], b, sep);
      assert (a + b)[1..] == a[1..] + b;
    }
  }
}
