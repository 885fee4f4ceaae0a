/**
 * The Rails proxy's own path from raw text to signed parameters, which cuts every `=` and
 * keeps the list form, against the form parser the other proxies share.
 */
module ActionController {
  import opened Wrappers
  import opened Bytes
  import opened Codec
  import opened Normalize
  import opened Collect
  import opened Header
  import opened ClientHelper

  /** /\A\s*\z/ */
  predicate Blank(s: Bytes) {
    forall i :: 0 <= i < |s| ==> s[i] == SPACE || 0x09 <= s[i] <= 0x0D
  }

  predicate NotBlank(s: Bytes) {
    !Blank(s)
  }

  /** `p.split("=")` with every part decoded; the empty parts at the end are dropped. */
  function SplitParameter(piece: Bytes): seq<Bytes> {
    Map(FormDecode, DropTrailingEmpty(Split(piece, {EQUALS})))
  }

  predicate NotSignatureList(kv: seq<Bytes>) {
    kv == [] || kv[0] != SIGNATURE
  }

  /** `parameters_for_signature`: joined, cut at `&`, blanks dropped, cut at `=`. */
  function ListForSignature(texts: seq<Bytes>): seq<seq<Bytes>> {
    Filter(NotSignatureList,
           Map(SplitParameter, Filter(NotBlank, DropTrailingEmpty(Split(Join(texts, [AMP]), {AMP})))))
  }

  predicate NotSignature(f: Field) {
    f.name != SIGNATURE
  }

  // ---------------------------------------------------------------- one piece

  /** No escape spans an `=`. */
  lemma EscapeStops(x: Bytes, rest: Bytes)
    requires x != [] && rest != [] && rest[0] == EQUALS
    ensures StartsWithEscape(x + rest) == StartsWithEscape(x)
  {
    var s := x + rest;
    if |x| == 1 {
      assert s[1] == EQUALS;
    } else if |x| == 2 {
      assert s[2] == EQUALS;
    }
  }

  function HeadLength(s: Bytes): nat {
    if StartsWithEscape(s) then 3 else 1
  }

  function DecodedHead(s: Bytes): Byte
    requires s != []
  {
    if StartsWithEscape(s) then 16 * HexValue(s[1]) + HexValue(s[2]) else s[0]
  }

  lemma DecodeStep(s: Bytes)
    requires s != []
    ensures HeadLength(s) <= |s| && DecodeEscapes(s) == [DecodedHead(s)] + DecodeEscapes(s[HeadLength(s)..])
  {
  }

  lemma {:induction false} DecodeAcrossEquals(x: Bytes, rest: Bytes)
    requires rest != [] && rest[0] == EQUALS
    ensures DecodeEscapes(x + rest) == DecodeEscapes(x) + DecodeEscapes(rest)
    decreases |x|
  {
    if x == [] {
      assert x + rest == rest;
    } else {
      var s, n := x + rest, HeadLength(x);
      EscapeStops(x, rest);
      DecodeStep(x);
      DecodeStep(s);
      assert DecodedHead(s) == DecodedHead(x) && HeadLength(s) == n;
      assert s[n..] == x[n..] + rest;
      DecodeAcrossEquals(x[n..], rest);
      Assoc([DecodedHead(x)], DecodeEscapes(x[n..]), DecodeEscapes(rest));
    }
  }

  lemma FormDecodeLonger(x: Bytes, y: Bytes)
    ensures FormDecode(x + [EQUALS] + y) != FormDecode(x)
  {
    var rest := [EQUALS] + PlusToSpace(y);
    assert PlusToSpace(x + [EQUALS] + y) == PlusToSpace(x) + rest;
    DecodeAcrossEquals(PlusToSpace(x), rest);
    assert |DecodeEscapes(rest)| > 0;
  }

  /** Dropping empty parts at the end does not change the first two, read as "" when missing. */
  lemma {:induction false} DropKeepsFirstTwo(parts: seq<Bytes>)
    ensures FirstTwo(Map(FormDecode, DropTrailingEmpty(parts))) == FirstTwo(Map(FormDecode, parts))
  {
    if parts != [] && parts[|parts| - 1] == [] {
      var init := parts[..|parts| - 1];
      DropKeepsFirstTwo(init);
      assert FormDecode([]) == [];
      assert FirstTwo(Map(FormDecode, init)) == FirstTwo(Map(FormDecode, parts));
    }
  }

  /** One piece means the same pair to both parsers exactly when it holds at most one `=`. */
  lemma PieceAgreesExact(piece: Bytes)
    ensures FirstTwo(SplitParameter(piece)) == FieldPair(ParseField(piece)) <==> |Split(piece, {EQUALS})| <= 2
  {
    var parts := Split(piece, {EQUALS});
    DropKeepsFirstTwo(parts);
    if |parts| == 2 {
      assert parts[1..] == [parts[1]];
    } else if |parts| > 2 {
      assert Join(parts[1..], [EQUALS]) == parts[1] + [EQUALS] + Join(parts[1..][1..], [EQUALS]);
      FormDecodeLonger(parts[1], Join(parts[1..][1..], [EQUALS]));
    }
  }

  // ---------------------------------------------------------------- whole texts

  /** Every piece is empty or holds text, and has at most one `=`. */
  predicate PlainPieces(pieces: seq<Bytes>) {
    forall i :: 0 <= i < |pieces| ==> (pieces[i] == [] || NotBlank(pieces[i])) && |Split(pieces[i], {EQUALS})| <= 2
  }

  function ListOf(pieces: seq<Bytes>): seq<seq<Bytes>> {
    Filter(NotSignatureList, Map(SplitParameter, Filter(NotBlank, pieces)))
  }

  function FieldsOfPieces(pieces: seq<Bytes>): seq<Field> {
    Filter(NotSignature, Map(ParseField, Filter(NonEmpty, pieces)))
  }

  lemma SignaturePiece(piece: Bytes)
    ensures |Split(piece, {EQUALS})| <= 2 ==> NotSignatureList(SplitParameter(piece)) == NotSignature(ParseField(piece))
  {
    PieceAgreesExact(piece);
    SignatureNotEmpty();
  }

  lemma SignatureNotEmpty()
    ensures |SIGNATURE| == 15
  {
  }

  lemma {:induction false} PiecesAgree(pieces: seq<Bytes>)
    requires PlainPieces(pieces)
    ensures Map(FirstTwo, ListOf(pieces)) == Map(FieldPair, FieldsOfPieces(pieces))
  {
    if pieces != [] {
      PiecesAgree(pieces[1..]);
      PieceAgreesExact(pieces[0]);
      SignaturePiece(pieces[0]);
      assert NotBlank(pieces[0]) == NonEmpty(pieces[0]);
    }
  }

  lemma {:induction false} DropKeepsLists(pieces: seq<Bytes>)
    ensures Filter(NotBlank, DropTrailingEmpty(pieces)) == Filter(NotBlank, pieces)
  {
    if pieces != [] && pieces[|pieces| - 1] == [] {
      var init := pieces[..|pieces| - 1];
      DropKeepsLists(init);
      assert pieces == init + [[]];
      FilterConcat(NotBlank, init, [[]]);
      var last: seq<Bytes> := [[]];
      assert Filter(NotBlank, last) == [];
    }
  }

  /** The signed fields of a text, as the shared form parser reads it. */
  function SignedFields(texts: seq<Bytes>): seq<Field> {
    Filter(NotSignature, ParseForm(Join(texts, [AMP])))
  }

  /**
   * On text whose pieces hold at most one `=` and are not just white space, the Rails proxy
   * signs what normalizing the grouped fields signs exactly when bare keys stand alone.
   */
  lemma RailsListExact(texts: seq<Bytes>)
    requires PlainPieces(Split(Join(texts, [AMP]), {AMP}))
    ensures NormalizeHash(Group(SignedFields(texts))) == Ok(NormalizeList(ListForSignature(texts))) <==>
            BareKeysAlone(SignedFields(texts))
  {
    var pieces := Split(Join(texts, [AMP]), {AMP});
    DropKeepsLists(pieces);
    PiecesAgree(pieces);
    assert FieldsOfPieces(pieces) == SignedFields(texts);
    NormalizeListCanonical(ListForSignature(texts));
    FieldListPairs(SignedFields(texts));
    NormalizeListCanonical(Map(FieldList, SignedFields(texts)));
    GroupedEqualsPairListExact(SignedFields(texts));
  }

  /** A piece of white space is a parameter to the form parser and none to the Rails proxy. */
  lemma BlankPieceDiffers(piece: Bytes)
    requires piece != [] && forall i :: 0 <= i < |piece| ==> piece[i] in {0x09, 0x0A, 0x0B, 0x0C, 0x0D, 0x20}
    ensures ListForSignature([piece]) == [] && |ParseForm(piece)| == 1
  {
    SplitFree(piece, {AMP});
    assert Filter(NotBlank, [piece]) == [];
    assert Filter(NonEmpty, [piece]) == [piece];
  }
}
