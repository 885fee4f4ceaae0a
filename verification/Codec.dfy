/**
 * Percent-encoding as OAuth uses it (section 3.6 of RFC 5849): every byte outside the
 * unreserved set becomes %XX with upper-case digits, and decoding never reads `+` as a space.
 */
module Codec {
  import opened Wrappers
  import opened Bytes

  // ---------------------------------------------------------------- encoder and decoder

  predicate IsUnreserved(b: Byte) {
    0x61 <= b <= 0x7A || 0x41 <= b <= 0x5A || 0x30 <= b <= 0x39 || b in {0x2D, 0x2E, 0x5F, 0x7E}
  }

  function HexDigit(n: int): Byte
    requires 0 <= n < 16
  {
    if n < 10 then 0x30 + n else 0x37 + n
  }

  predicate IsHexDigit(b: Byte) {
    0x30 <= b <= 0x39 || 0x41 <= b <= 0x46 || 0x61 <= b <= 0x66
  }

  function HexValue(b: Byte): (n: int)
    requires IsHexDigit(b)
    ensures 0 <= n < 16
  {
    if b <= 0x39 then b - 0x30 else if b <= 0x46 then b - 0x37 else b - 0x57
  }

  function EscapeByte(b: Byte): Bytes {
    if IsUnreserved(b) then [b] else [PERCENT, HexDigit(b / 16), HexDigit(b % 16)]
  }

  function Escape(s: Bytes): Bytes {
    if s == [] then [] else EscapeByte(s[0]) + Escape(s[1..])
  }

  /** `escape` of a value that may be nil: nil.to_s is the empty string. */
  function EscapeScalar(v: Option<Bytes>): Bytes {
    Escape(v.GetOr([]))
  }

  /** First pass of `unescape`: every `+` is rewritten to its own escape. */
  function ProtectPlus(s: Bytes): Bytes {
    if s == [] then []
    else (if s[0] == PLUS then [PERCENT, 0x32, 0x42] else [s[0]]) + ProtectPlus(s[1..])
  }

  predicate StartsWithEscape(s: Bytes) {
    |s| >= 3 && s[0] == PERCENT && IsHexDigit(s[1]) && IsHexDigit(s[2])
  }

  /** Second pass of `unescape`: %HH sequences are decoded, anything malformed stays. */
  function DecodeEscapes(s: Bytes): Bytes {
    if s == [] then []
    else if StartsWithEscape(s) then [16 * HexValue(s[1]) + HexValue(s[2])] + DecodeEscapes(s[3..])
    else [s[0]] + DecodeEscapes(s[1..])
  }

  function Unescape(s: Bytes): Bytes {
    DecodeEscapes(ProtectPlus(s))
  }

  // ---------------------------------------------------------------- fusion and round trip

  /**
   * The two passes amount to one: on every input, malformed and truncated escapes
   * included, protecting `+` first changes nothing.
   */
  lemma {:induction false} TwoPassesAreOne(s: Bytes)
    ensures Unescape(s) == DecodeEscapes(s)
    decreases |s|
  {
    if s != [] {
      var p := ProtectPlus(s);
      if s[0] == PLUS {
        TwoPassesAreOne(s[1..]);
        assert StartsWithEscape(p) && p[3..] == ProtectPlus(s[1..]);
      } else if StartsWithEscape(s) {
        TwoPassesAreOne(s[3..]);
        ProtectPlusKeeps(s, 3);
        assert p[3..] == ProtectPlus(s[3..]);
      } else {
        TwoPassesAreOne(s[1..]);
        assert p[1..] == ProtectPlus(s[1..]);
        NoEscapeAppears(s);
      }
    }
  }

  /** A prefix without `+` passes through the first pass unchanged. */
  lemma {:induction false} ProtectPlusKeeps(s: Bytes, n: nat)
    requires n <= |s| && PLUS !in s[..n]
    ensures ProtectPlus(s) == s[..n] + ProtectPlus(s[n..])
  {
    if n > 0 {
      assert s[0] == s[..n][0];
      assert s[1..][..n - 1] == s[..n][1..];
      assert s[1..][n - 1..] == s[n..];
      ProtectPlusKeeps(s[1..], n - 1);
    } else {
      assert s[0..] == s;
    }
  }

  lemma NoEscapeAppears(s: Bytes)
    requires s != [] && s[0] != PLUS && !StartsWithEscape(s)
    ensures !StartsWithEscape(ProtectPlus(s))
  {
    var p := ProtectPlus(s);
    assert p == [s[0]] + ProtectPlus(s[1..]);
    if |s| >= 2 {
      assert ProtectPlus(s[1..])[0] == if s[1] == PLUS then PERCENT else s[1];
      if s[1] != PLUS && |s| >= 3 {
        assert s[1..][1..] == s[2..];
        assert p[2] == if s[2] == PLUS then PERCENT else s[2];
      }
    }
  }

  lemma EscapeByteDecodes(b: Byte, rest: Bytes)
    ensures DecodeEscapes(EscapeByte(b) + rest) == [b] + DecodeEscapes(rest)
  {
    var s := EscapeByte(b) + rest;
    if IsUnreserved(b) {
      assert s[1..] == rest;
    } else {
      assert s[3..] == rest;
      assert HexValue(HexDigit(b / 16)) == b / 16 && HexValue(HexDigit(b % 16)) == b % 16;
    }
  }

  /** Decoding undoes encoding on every byte string. */
  lemma {:induction false} EscapeRoundTrip(s: Bytes)
    ensures Unescape(Escape(s)) == s
  {
    TwoPassesAreOne(Escape(s));
    if s != [] {
      EscapeRoundTrip(s[1..]);
      TwoPassesAreOne(Escape(s[1..]));
      EscapeByteDecodes(s[0], Escape(s[1..]));
    }
  }

  lemma EscapeInjective(a: Bytes, b: Bytes)
    requires Escape(a) == Escape(b)
    ensures a == b
  {
    EscapeRoundTrip(a);
    EscapeRoundTrip(b);
  }

  lemma {:induction false} EscapeConcat(a: Bytes, b: Bytes)
    ensures Escape(a + b) == Escape(a) + Escape(b)
  {
    if a == [] {
      assert a + b == b;
    } else {
      EscapeConcat(a[1..], b);
      assert (a + b)[0] == a[0] && (a + b)[1..] == a[1..] + b;
      Assoc(EscapeByte(a[0]), Escape(a[1..]), Escape(b));
    }
  }

  // ---------------------------------------------------------------- shape of encoded text

  predicate EscapedText(s: Bytes) {
    forall i :: 0 <= i < |s| ==> IsUnreserved(s[i]) || s[i] == PERCENT
  }

  lemma {:induction false} EscapeShape(s: Bytes)
    ensures EscapedText(Escape(s))
  {
    if s != [] {
      EscapeShape(s[1..]);
    }
  }

  /** Exactly the letters, digits and `-._~` of ASCII stay as they are. */
  lemma PlainBytes(b: Byte)
    ensures Escape([b]) == [b] <==>
            var c := b as char; 'a' <= c <= 'z' || 'A' <= c <= 'Z' || '0' <= c <= '9' || c in "-._~"
  {
    assert [b][1..] == [];
    assert EscapeByte(b) + [] == EscapeByte(b);
  }

  predicate UpperHex(b: Byte) {
    '0' <= b as char <= '9' || 'A' <= b as char <= 'F'
  }

  /** Every `%` of encoded text is followed by two digits, the letters among them upper-case. */
  predicate WellEscaped(s: Bytes) {
    forall i :: 0 <= i < |s| && s[i] == PERCENT ==> i + 2 < |s| && UpperHex(s[i + 1]) && UpperHex(s[i + 2])
  }

  lemma WellEscapedConcat(a: Bytes, b: Bytes)
    requires WellEscaped(a) && WellEscaped(b)
    ensures WellEscaped(a + b)
  {
    assert forall i :: 0 <= i < |b| ==> (a + b)[|a| + i] == b[i];
    forall i | 0 <= i < |a + b| && (a + b)[i] == PERCENT
      ensures i + 2 < |a + b| && UpperHex((a + b)[i + 1]) && UpperHex((a + b)[i + 2])
    {
      if i < |a| {
        assert a[i] == PERCENT;
      } else {
        assert b[i - |a|] == PERCENT;
      }
    }
  }

  lemma {:induction false} EscapeUpperCase(s: Bytes)
    ensures WellEscaped(Escape(s))
  {
    if s != [] {
      EscapeUpperCase(s[1..]);
      WellEscapedConcat(EscapeByte(s[0]), Escape(s[1..]));
    }
  }

  /** The value of a hexadecimal digit of either case. */
  predicate DigitFor(d: Byte, n: nat) {
    var c := d as char;
    if n < 10 then c == '0' + n as char else n < 16 && (c == 'A' + (n - 10) as char || c == 'a' + (n - 10) as char)
  }

  /** Every byte is read back from `%` and its two digits, whichever their case. */
  lemma EitherCaseDecodes(b: Byte, high: Byte, low: Byte, rest: Bytes)
    requires DigitFor(high, b / 16) && DigitFor(low, b % 16)
    ensures Unescape([PERCENT, high, low] + rest) == [b] + Unescape(rest)
  {
    var s := [PERCENT, high, low] + rest;
    assert s[3..] == rest;
    TwoPassesAreOne(s);
    TwoPassesAreOne(rest);
  }

  /** A byte that starts no such sequence stays, `+` and stray `%` included. */
  lemma MalformedStays(b: Byte, rest: Bytes)
    requires b == PERCENT ==>
               !exists high: nat, low: nat :: |rest| >= 2 && DigitFor(rest[0], high) && DigitFor(rest[1], low)
    ensures Unescape([b] + rest) == [b] + Unescape(rest)
  {
    var s := [b] + rest;
    assert s[1..] == rest;
    TwoPassesAreOne(s);
    TwoPassesAreOne(rest);
    if StartsWithEscape(s) {
      assert rest[0] == s[1] && rest[1] == s[2];
      assert DigitFor(rest[0], HexValue(rest[0])) && DigitFor(rest[1], HexValue(rest[1]));
    }
  }

  /** Text that `escape` leaves alone, and that `unescape` therefore leaves alone too. */
  lemma {:induction false} UnreservedFixed(s: Bytes)
    requires forall i :: 0 <= i < |s| ==> IsUnreserved(s[i])
    ensures Escape(s) == s && Unescape(s) == s
  {
    EscapeRoundTrip(s);
    if s != [] {
      UnreservedFixed(s[1..]);
    }
  }

  /** Text without `%` decodes to itself. */
  lemma {:induction false} UnescapeWithoutPercent(s: Bytes)
    requires PERCENT !in s
    ensures Unescape(s) == s
  {
    TwoPassesAreOne(s);
    if s != [] {
      assert s == [s[0]] + s[1..];
      UnescapeWithoutPercent(s[1..]);
      TwoPassesAreOne(s[1..]);
    }
  }

  // ---------------------------------------------------------------- prefixes and order

  /** Where the codes of two different bytes first differ. */
  function CodeSplit(a: Byte, b: Byte): (k: nat)
    requires a != b
    ensures k < |EscapeByte(a)| && k < |EscapeByte(b)|
    ensures EscapeByte(a)[..k] == EscapeByte(b)[..k] && EscapeByte(a)[k] != EscapeByte(b)[k]
  {
    if IsUnreserved(a) || IsUnreserved(b) then 0
    else if a / 16 != b / 16 then 1
    else 2
  }

  /** Encoding keeps and reflects the prefix relation, so the code is prefix-free. */
  lemma {:induction false} EscapePrefix(a: Bytes, b: Bytes)
    ensures Escape(a) <= Escape(b) <==> a <= b
  {
    if a != [] && b != [] {
      var ea, eb := EscapeByte(a[0]), EscapeByte(b[0]);
      var ta, tb := Escape(a[1..]), Escape(b[1..]);
      if a[0] == b[0] {
        EscapePrefix(a[1..], b[1..]);
        PrefixCommon(ea, ta, tb);
        PrefixCommon([a[0]], a[1..], b[1..]);
        assert a == [a[0]] + a[1..] && b == [a[0]] + b[1..];
      } else {
        var k := CodeSplit(a[0], b[0]);
        assert (ea + ta)[k] == ea[k] && (eb + tb)[k] == eb[k];
      }
    }
  }

  /** A prefix comes first. */
  lemma {:induction false} PrefixLeq(a: Bytes, b: Bytes)
    requires a <= b
    ensures Leq(a, b)
  {
    if a != [] {
      PrefixLeq(a[1..], b[1..]);
    }
  }

  lemma {:induction false} LeqCommonPrefix(p: Bytes, a: Bytes, b: Bytes)
    ensures Leq(p + a, p + b) == Leq(a, b)
  {
    if p == [] {
      assert p + a == a && p + b == b;
    } else {
      LeqCommonPrefix(p[1..], a, b);
      assert (p + a)[1..] == p[1..] + a && (p + b)[1..] == p[1..] + b;
    }
  }

  /** The first difference decides the order. */
  lemma LeqDecidedAt(k: nat, a: Bytes, b: Bytes)
    requires k < |a| && k < |b| && a[..k] == b[..k] && a[k] != b[k]
    ensures Leq(a, b) == (a[k] < b[k])
  {
    assert a == a[..k] + a[k..] && b == b[..k] + b[k..];
    LeqCommonPrefix(a[..k], a[k..], b[k..]);
  }

  predicate Over(s: Bytes, alphabet: set<Byte>) {
    forall i :: 0 <= i < |s| ==> s[i] in alphabet
  }

  /** Every byte of the alphabet that is encoded lies below every byte that is not. */
  ghost predicate ReservedBelowUnreserved(alphabet: set<Byte>) {
    forall r, u :: r in alphabet && u in alphabet && !IsUnreserved(r) && IsUnreserved(u) ==> r < u
  }

  ghost predicate EscapeKeepsOrderOn(alphabet: set<Byte>) {
    forall a, b :: Over(a, alphabet) && Over(b, alphabet) ==> Leq(Escape(a), Escape(b)) == Leq(a, b)
  }

  lemma CodeOrder(alphabet: set<Byte>, a: Byte, b: Byte)
    requires ReservedBelowUnreserved(alphabet) && a in alphabet && b in alphabet && a != b
    ensures EscapeByte(a)[CodeSplit(a, b)] < EscapeByte(b)[CodeSplit(a, b)] <==> a < b
  {
  }

  lemma {:induction false} EscapeMonotone(alphabet: set<Byte>, a: Bytes, b: Bytes)
    requires ReservedBelowUnreserved(alphabet) && Over(a, alphabet) && Over(b, alphabet)
    ensures Leq(Escape(a), Escape(b)) == Leq(a, b)
  {
    if a != [] && b != [] {
      var ea, eb := EscapeByte(a[0]), EscapeByte(b[0]);
      var ta, tb := Escape(a[1..]), Escape(b[1..]);
      if a[0] == b[0] {
        EscapeMonotone(alphabet, a[1..], b[1..]);
        LeqCommonPrefix(ea, ta, tb);
      } else {
        var k := CodeSplit(a[0], b[0]);
        CodeOrder(alphabet, a[0], b[0]);
        assert (ea + ta)[..k] == ea[..k] && (eb + tb)[..k] == eb[..k];
        LeqDecidedAt(k, ea + ta, eb + tb);
      }
    }
  }

  /**
   * Sorting before encoding is sorting after encoding exactly on the alphabets whose
   * encoded bytes all lie below their plain ones.
   */
  lemma EscapeOrderExact(alphabet: set<Byte>)
    ensures EscapeKeepsOrderOn(alphabet) <==> ReservedBelowUnreserved(alphabet)
  {
    if ReservedBelowUnreserved(alphabet) {
      forall a, b | Over(a, alphabet) && Over(b, alphabet)
        ensures Leq(Escape(a), Escape(b)) == Leq(a, b)
      {
        EscapeMonotone(alphabet, a, b);
      }
    } else {
      var r, u :| r in alphabet && u in alphabet && !IsUnreserved(r) && IsUnreserved(u) && r >= u;
      assert Over([r], alphabet) && Over([u], alphabet);
      assert [r][1..] == [] && [u][1..] == [];
      assert Escape([r])[0] == PERCENT && Escape([u])[0] == u;
      assert Leq([u], [r]) && !Leq([r], [u]);
      assert Leq(Escape([r]), Escape([u]));
    }
  }

  /** Unreserved bytes together with bytes 0x00 to 0x2C form such an alphabet. */
  lemma PlainAlphabetKeepsOrder(alphabet: set<Byte>)
    requires forall b :: b in alphabet ==> IsUnreserved(b) || b <= 0x2C
    ensures EscapeKeepsOrderOn(alphabet)
  {
    EscapeOrderExact(alphabet);
  }
}
