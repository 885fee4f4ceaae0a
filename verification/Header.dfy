/**
 * The Authorization header (section 3.5.1 of RFC 5849): the client's printer, the shared
 * parser, and the server's selection of OAuth parameters.
 */
module Header {
  import opened Wrappers
  import opened Bytes
  import opened Codec
  import opened Sorting
  import opened Lists
  import opened Normalize
  import opened ParameterString
  import opened Collect

  /** NoMethod: the header is shorter than its scheme. Malformed: an odd number of pieces. */
  datatype HeaderError = NoMethod | Malformed

  const OAUTH_SCHEME: Bytes := [0x4F, 0x41, 0x75, 0x74, 0x68, 0x20]
  const OAUTH_PREFIX: Bytes := [0x6F, 0x61, 0x75, 0x74, 0x68, 0x5F]
  const REALM: Bytes := [0x72, 0x65, 0x61, 0x6C, 0x6D]

  function Separators(): set<Byte> {
    {COMMA, EQUALS, AMP}
  }

  // ---------------------------------------------------------------- printer

  function Quote(s: Bytes): Bytes {
    [QUOTE] + s + [QUOTE]
  }

  predicate FieldLeq(a: Field, b: Field) {
    Leq(a.name, b.name)
  }

  /** One printed parameter: its name and its quoted text. */
  function PrintedField(f: Field): Pair {
    Pair(f.name, Quote(EscapeScalar(f.value)))
  }

  function RealmItems(realm: Option<Bytes>): seq<Pair> {
    if realm.None? then [] else [Pair(REALM, Quote(realm.value))]
  }

  function PrintItem(p: Pair): Bytes {
    p.name + [EQUALS] + p.value
  }

  function PrintItems(items: seq<Pair>): Bytes {
    Join(Map(PrintItem, items), [COMMA, SPACE])
  }

  function RealmText(realm: Option<Bytes>): Bytes {
    if realm.None? then [] else REALM + [EQUALS] + Quote(realm.value) + [COMMA, SPACE]
  }

  /** The header value: scheme, optional realm, then the parameters in name order. */
  function HeaderText(realm: Option<Bytes>, ps: seq<Field>): Bytes {
    OAUTH_SCHEME + (RealmText(realm) + PrintItems(Map(PrintedField, Sort(FieldLeq, ps))))
  }

  // ---------------------------------------------------------------- parser

  predicate IsWhitespace(b: Byte) {
    b == 0 || 0x09 <= b <= 0x0D || b == SPACE
  }

  function StripLeft(s: Bytes): Bytes {
    if s != [] && IsWhitespace(s[0]) then StripLeft(s[1..]) else s
  }

  function StripRight(s: Bytes): Bytes {
    if s != [] && IsWhitespace(s[|s| - 1]) then StripRight(s[..|s| - 1]) else s
  }

  function Strip(s: Bytes): Bytes {
    StripRight(StripLeft(s))
  }

  predicate QuotedLine(line: Bytes) {
    |line| >= 2 && line[0] == QUOTE && line[|line| - 1] == QUOTE
  }

  /** The substitution of /^"(.*)"$/: only the first line that is quoted loses its quotes. */
  function UnquoteFirst(lines: seq<Bytes>): seq<Bytes> {
    if lines == [] then []
    else if QuotedLine(lines[0]) then [lines[0][1..|lines[0]| - 1]] + lines[1..]
    else [lines[0]] + UnquoteFirst(lines[1..])
  }

  function StripQuotes(s: Bytes): Bytes {
    Join(UnquoteFirst(Split(s, {NEWLINE})), [NEWLINE])
  }

  function Clean(piece: Bytes): Bytes {
    StripQuotes(Unescape(Strip(piece)))
  }

  /** String#split drops the empty pieces at the end. */
  function DropTrailingEmpty(pieces: seq<Bytes>): seq<Bytes> {
    if pieces != [] && pieces[|pieces| - 1] == [] then DropTrailingEmpty(pieces[..|pieces| - 1]) else pieces
  }

  /** Hash[*list]: alternating keys and values, a later key replacing an earlier one. */
  function HashOf(list: seq<Bytes>): seq<Entry>
    requires |list| % 2 == 0
  {
    if list == [] then []
    else Put(HashOf(list[..|list| - 2]), list[|list| - 2], Scalar(Some(list[|list| - 1])))
  }

  function ParseHeader(header: Bytes): Result<seq<Entry>, HeaderError> {
    if |header| < 6 then Err(NoMethod)
    else
      var pieces := DropTrailingEmpty(Split(header[6..], Separators()));
      if |pieces| % 2 == 1 then Err(Malformed) else Ok(HashOf(Map(Clean, pieces)))
  }

  /** The keys /^oauth_/ matches: some line of the key starts with the prefix. */
  predicate KeepsKey(key: Bytes) {
    exists i :: 0 <= i < |Split(key, {NEWLINE})| && OAUTH_PREFIX <= Split(key, {NEWLINE})[i]
  }

  predicate KeepsEntry(e: Entry) {
    KeepsKey(e.key)
  }

  /** `header_params`: the first of the three header fields that carries the OAuth scheme. */
  function HeaderParams(headers: seq<Option<Bytes>>): Result<seq<Entry>, HeaderError> {
    if headers == [] then Ok([])
    else if headers[0].Some? && OAUTH_SCHEME <= headers[0].value then
      match ParseHeader(headers[0].value)
      case Err(error) => Err(error)
      case Ok(h) => Ok(Filter(KeepsEntry, h))
    else HeaderParams(headers[1..])
  }

  /** The parser raises exactly on a header with no text after the scheme's place, or an odd number of pieces. */
  lemma HeaderRaisesExact(scheme: Bytes, text: Bytes)
    requires |scheme| == 6
    ensures ParseHeader(scheme + text).Err? <==> |DropTrailingEmpty(Split(text, Separators()))| % 2 == 1
    ensures forall n :: 0 <= n < 6 ==> ParseHeader(scheme[..n]) == Err(NoMethod)
  {
    assert (scheme + text)[6..] == text;
  }

  // ---------------------------------------------------------------- one piece at a time

  lemma {:induction false} UnquoteFirstFree(lines: seq<Bytes>)
    requires AllFree(lines, {NEWLINE})
    ensures |UnquoteFirst(lines)| == |lines|
    ensures AllFree(UnquoteFirst(lines), {NEWLINE})
  {
    if lines != [] && !QuotedLine(lines[0]) {
      UnquoteFirstFree(lines[1..]);
    }
  }

  lemma QuoteLines(v: Bytes)
    requires NEWLINE in v
    ensures |Split(Quote(v), {NEWLINE})| >= 2 && |Split(v, {NEWLINE})| >= 2
    ensures Split(Quote(v), {NEWLINE})[0] == [QUOTE] + Split(v, {NEWLINE})[0]
  {
    var lines := Split(v, {NEWLINE});
    JoinSplit(v, NEWLINE);
    assert Free(lines[0], {NEWLINE});
    assert |lines| > 1;
    var rest := Join(lines[1..], [NEWLINE]);
    assert v == lines[0] + [NEWLINE] + rest;
    assert Quote(v) == ([QUOTE] + lines[0]) + [NEWLINE] + (rest + [QUOTE]);
    SplitFirst([QUOTE] + lines[0], NEWLINE, rest + [QUOTE], {NEWLINE});
  }

  /** A quoted text loses exactly its own quotes if and only if it holds no line break. */
  lemma StripQuotesExact(v: Bytes)
    ensures StripQuotes(Quote(v)) == v <==> NEWLINE !in v
  {
    var lines := Split(Quote(v), {NEWLINE});
    JoinSplit(Quote(v), NEWLINE);
    if NEWLINE !in v {
      SplitFree(Quote(v), {NEWLINE});
      assert Quote(v)[1..|Quote(v)| - 1] == v;
    } else {
      QuoteLines(v);
      UnquoteFirstFree(lines);
      SplitJoin(UnquoteFirst(lines), NEWLINE, {NEWLINE});
      var first := Split(v, {NEWLINE})[0];
      assert |UnquoteFirst(lines)[0]| in {|first| + 1, |first| - 1};
    }
  }

  predicate TokenByte(b: Byte) {
    b !in {COMMA, EQUALS, AMP, QUOTE, PERCENT} && !IsWhitespace(b)
  }

  /** Names free of separators, quotes, white space and `%`; every OAuth name is one. */
  predicate TokenName(s: Bytes) {
    forall i :: 0 <= i < |s| ==> TokenByte(s[i])
  }

  lemma CleanToken(s: Bytes)
    requires TokenName(s)
    ensures Clean(s) == s && Clean([SPACE] + s) == s
  {
    assert ([SPACE] + s)[1..] == s;
    UnescapeWithoutPercent(s);
    SplitFree(s, {NEWLINE});
    assert UnquoteFirst([s]) == [s];
  }

  lemma {:induction false} DecodePrefix(v: Bytes, rest: Bytes)
    ensures DecodeEscapes(Escape(v) + rest) == v + DecodeEscapes(rest)
  {
    if v == [] {
      assert Escape(v) + rest == rest;
    } else {
      var code, tail := EscapeByte(v[0]), Escape(v[1..]);
      Assoc(code, tail, rest);
      EscapeByteDecodes(v[0], tail + rest);
      DecodePrefix(v[1..], rest);
      Assoc([v[0]], v[1..], DecodeEscapes(rest));
      assert v == [v[0]] + v[1..];
    }
  }

  lemma CleanQuoted(v: Bytes)
    ensures Clean(Quote(Escape(v))) == StripQuotes(Quote(v))
  {
    var s := Quote(Escape(v));
    assert Strip(s) == s;
    TwoPassesAreOne(s);
    assert s == [QUOTE] + (Escape(v) + [QUOTE]);
    assert s[1..] == Escape(v) + [QUOTE];
    DecodePrefix(v, [QUOTE]);
    assert DecodeEscapes([QUOTE]) == [QUOTE];
    assert DecodeEscapes(s) == Quote(v);
  }

  // ---------------------------------------------------------------- the whole header

  function CleanBoth(p: Pair): seq<Bytes> {
    [Clean(p.name), Clean(p.value)]
  }

  predicate Printable(p: Pair) {
    Free(p.name, Separators()) && Free(p.value, Separators()) && p.value != []
  }

  lemma SpaceCleans(s: Bytes)
    ensures Clean([SPACE] + s) == Clean(s)
  {
    assert ([SPACE] + s)[1..] == s;
  }

  /** The pieces of a text, cleaned. */
  function CleanPieces(text: Bytes): seq<Bytes> {
    Map(Clean, Split(text, Separators()))
  }

  predicate EndsNonEmpty(text: Bytes) {
    var pieces := Split(text, Separators());
    pieces[|pieces| - 1] != []
  }

  lemma PieceFirst(piece: Bytes, sep: Byte, rest: Bytes)
    requires Free(piece, Separators()) && sep in Separators()
    ensures CleanPieces(piece + [sep] + rest) == [Clean(piece)] + CleanPieces(rest)
    ensures EndsNonEmpty(piece + [sep] + rest) == EndsNonEmpty(rest)
  {
    SplitFirst(piece, sep, rest, Separators());
    var pieces := [piece] + Split(rest, Separators());
    assert pieces[1..] == Split(rest, Separators());
  }

  lemma PieceLast(piece: Bytes)
    requires Free(piece, Separators())
    ensures CleanPieces(piece) == [Clean(piece)] && EndsNonEmpty(piece) == (piece != [])
  {
    SplitFree(piece, Separators());
    assert [piece][1..] == [];
  }

  /** A leading space changes the first piece only, and cleaning drops it again. */
  lemma SpacedPieces(text: Bytes)
    ensures CleanPieces([SPACE] + text) == CleanPieces(text)
    ensures EndsNonEmpty(text) ==> EndsNonEmpty([SPACE] + text)
  {
    var pieces := Split(text, Separators());
    assert ([SPACE] + text)[1..] == text;
    var spaced := [[SPACE] + pieces[0]] + pieces[1..];
    assert Split([SPACE] + text, Separators()) == spaced;
    assert spaced[1..] == pieces[1..];
    SpaceCleans(pieces[0]);
  }

  lemma OneItem(p: Pair)
    requires Printable(p)
    ensures CleanPieces(PrintItem(p)) == CleanBoth(p) && EndsNonEmpty(PrintItem(p))
  {
    PieceFirst(p.name, EQUALS, p.value);
    PieceLast(p.value);
  }

  lemma MoreItems(p: Pair, rest: Bytes)
    requires Printable(p) && EndsNonEmpty(rest)
    ensures var text := p.name + [EQUALS] + (p.value + [COMMA] + ([SPACE] + rest));
            CleanPieces(text) == CleanBoth(p) + CleanPieces(rest) && EndsNonEmpty(text)
  {
    var tail := p.value + [COMMA] + ([SPACE] + rest);
    SpacedPieces(rest);
    PieceFirst(p.value, COMMA, [SPACE] + rest);
    PieceFirst(p.name, EQUALS, tail);
    Assoc([Clean(p.name)], [Clean(p.value)], CleanPieces(rest));
  }

  predicate AllPrintable(items: seq<Pair>) {
    forall i :: 0 <= i < |items| ==> Printable(items[i])
  }

  lemma {:induction false} ItemPieces(items: seq<Pair>)
    requires |items| > 0 && AllPrintable(items)
    ensures CleanPieces(PrintItems(items)) == FlatMap(CleanBoth, items)
    ensures EndsNonEmpty(PrintItems(items))
  {
    if |items| == 1 {
      assert items[1..] == [] && FlatMap(CleanBoth, items[1..]) == [];
      OneItem(items[0]);
    } else {
      ItemPieces(items[1..]);
      PrintItemsCons(items);
      MoreItems(items[0], PrintItems(items[1..]));
    }
  }

  lemma PrintItemsCons(items: seq<Pair>)
    requires |items| > 1
    ensures PrintItems(items) ==
            items[0].name + [EQUALS] + (items[0].value + [COMMA] + ([SPACE] + PrintItems(items[1..])))
  {
    assert Map(PrintItem, items)[1..] == Map(PrintItem, items[1..]);
    assert PrintItem(items[0]) + [COMMA, SPACE] ==
           items[0].name + [EQUALS] + (items[0].value + [COMMA] + [SPACE]);
  }

  function CleanEntry(p: Pair): Entry {
    Entry(Clean(p.name), Scalar(Some(Clean(p.value))))
  }

  lemma HashOfMore(list: seq<Bytes>, key: Bytes, value: Bytes)
    requires |list| % 2 == 0
    ensures HashOf(list + [key, value]) == Put(HashOf(list), key, Scalar(Some(value)))
  {
    var more := list + [key, value];
    assert more[..|more| - 2] == list;
  }

  function Both(p: Pair): seq<Bytes> {
    [p.name, p.value]
  }

  function TextEntry(p: Pair): Entry {
    Entry(p.name, Scalar(Some(p.value)))
  }

  function CleanPair(p: Pair): Pair {
    Pair(Clean(p.name), Clean(p.value))
  }

  lemma {:induction false} HashOfPairs(ps: seq<Pair>)
    requires DistinctKeys(Map(TextEntry, ps))
    ensures |FlatMap(Both, ps)| % 2 == 0
    ensures HashOf(FlatMap(Both, ps)) == Map(TextEntry, ps)
  {
    if ps != [] {
      var init, last := ps[..|ps| - 1], ps[|ps| - 1];
      var entries := Map(TextEntry, init);
      MapLast(TextEntry, ps);
      assert Map(TextEntry, ps) == entries + [TextEntry(last)];
      DistinctInit(entries, TextEntry(last));
      HashOfPairs(init);
      FlatMapLast(Both, ps);
      HashOfMore(FlatMap(Both, init), last.name, last.value);
      PutNew(entries, last.name, Scalar(Some(last.value)));
    }
  }

  lemma DistinctInit(entries: seq<Entry>, last: Entry)
    requires DistinctKeys(entries + [last])
    ensures DistinctKeys(entries) && forall i :: 0 <= i < |entries| ==> entries[i].key != last.key
  {
    var all := entries + [last];
    assert forall i :: 0 <= i < |entries| ==> all[i] == entries[i];
    assert all[|entries|] == last;
  }

  lemma {:induction false} CleanPairs(items: seq<Pair>)
    ensures FlatMap(CleanBoth, items) == FlatMap(Both, Map(CleanPair, items))
    ensures Map(CleanEntry, items) == Map(TextEntry, Map(CleanPair, items))
  {
    if items != [] {
      CleanPairs(items[1..]);
      assert Map(CleanPair, items)[1..] == Map(CleanPair, items[1..]);
    }
  }

  lemma HashOfItems(items: seq<Pair>)
    requires DistinctKeys(Map(CleanEntry, items))
    ensures |FlatMap(CleanBoth, items)| % 2 == 0
    ensures HashOf(FlatMap(CleanBoth, items)) == Map(CleanEntry, items)
  {
    CleanPairs(items);
    HashOfPairs(Map(CleanPair, items));
  }

  lemma {:induction false} PutNew(h: seq<Entry>, name: Bytes, v: Value)
    requires forall i :: 0 <= i < |h| ==> h[i].key != name
    ensures Put(h, name, v) == h + [Entry(name, v)]
  {
    if h != [] {
      PutNew(h[1..], name, v);
    }
  }

  /** What a list of printed items parses to. */
  lemma ParseItems(header: Bytes, items: seq<Pair>)
    requires |items| > 0 && AllPrintable(items)
    requires DistinctKeys(Map(CleanEntry, items))
    requires header == OAUTH_SCHEME + PrintItems(items)
    ensures ParseHeader(header) == Ok(Map(CleanEntry, items))
  {
    assert header[6..] == PrintItems(items);
    ItemPieces(items);
    HashOfItems(items);
  }

  /** Parameters the client may print: OAuth names, each once. */
  predicate HeaderFields(ps: seq<Field>) {
    && |ps| > 0
    && (forall i :: 0 <= i < |ps| ==> TokenName(ps[i].name) && OAUTH_PREFIX <= ps[i].name)
    && (forall i, j :: 0 <= i < j < |ps| ==> ps[i].name != ps[j].name)
  }

  predicate SafeRealm(realm: Option<Bytes>) {
    realm.Some? ==> Free(realm.value, Separators())
  }

  /** A parameter as the server reads it back. */
  function ReadBack(f: Field): Entry {
    Entry(f.name, Scalar(Some(StripQuotes(Quote(f.value.GetOr([]))))))
  }

  /** A parameter as the client meant it, nil read as "". */
  function Meant(f: Field): Entry {
    Entry(f.name, Scalar(Some(f.value.GetOr([]))))
  }

  function RealmEntries(realm: Option<Bytes>): seq<Entry> {
    if realm.None? then [] else [Entry(REALM, Scalar(Some(Clean(Quote(realm.value)))))]
  }

  lemma QuotedPrintable(v: Bytes)
    ensures Free(Quote(Escape(v)), Separators())
  {
    EscapeShape(v);
  }

  lemma PrintedFieldShape(f: Field)
    requires TokenName(f.name)
    ensures Printable(PrintedField(f)) && CleanEntry(PrintedField(f)) == ReadBack(f)
  {
    QuotedPrintable(f.value.GetOr([]));
    TokenCleans(f.name, Quote(EscapeScalar(f.value)));
    CleanQuoted(f.value.GetOr([]));
  }

  lemma SortedFields(ps: seq<Field>)
    requires HeaderFields(ps)
    ensures HeaderFields(Sort(FieldLeq, ps))
  {
    var sorted := Sort(FieldLeq, ps);
    forall i | 0 <= i < |sorted|
      ensures TokenName(sorted[i].name) && OAUTH_PREFIX <= sorted[i].name
    {
      InPermutation(ps, sorted, i);
    }
    forall i, j | 0 <= i < j < |sorted|
      ensures sorted[i].name != sorted[j].name
    {
      var x, y := LocateTwo(ps, sorted, i, j);
      assert x < y || y < x;
    }
  }

  lemma RealmJoins(realm: Option<Bytes>, items: seq<Pair>)
    requires |items| > 0
    ensures RealmText(realm) + PrintItems(items) == PrintItems(RealmItems(realm) + items)
  {
    if realm.Some? {
      var p := Pair(REALM, Quote(realm.value));
      JoinConcat([PrintItem(p)], Map(PrintItem, items), [COMMA, SPACE]);
      assert Map(PrintItem, [p] + items) == [PrintItem(p)] + Map(PrintItem, items);
    } else {
      assert RealmItems(realm) + items == items;
    }
  }

  lemma PrintedFields(sorted: seq<Field>)
    requires HeaderFields(sorted)
    ensures AllPrintable(Map(PrintedField, sorted))
    ensures Map(CleanEntry, Map(PrintedField, sorted)) == Map(ReadBack, sorted)
  {
    forall i | 0 <= i < |sorted|
      ensures Printable(PrintedField(sorted[i])) && CleanEntry(PrintedField(sorted[i])) == ReadBack(sorted[i])
    {
      PrintedFieldShape(sorted[i]);
    }
  }

  lemma RealmPrintable(r: Bytes)
    requires Free(r, Separators())
    ensures Printable(Pair(REALM, Quote(r)))
  {
    assert Free(REALM, Separators());
  }

  lemma TokenCleans(name: Bytes, value: Bytes)
    requires TokenName(name)
    ensures CleanEntry(Pair(name, value)) == Entry(name, Scalar(Some(Clean(value))))
  {
    CleanToken(name);
  }

  lemma RealmItem(realm: Option<Bytes>)
    requires SafeRealm(realm)
    ensures AllPrintable(RealmItems(realm))
    ensures Map(CleanEntry, RealmItems(realm)) == RealmEntries(realm)
  {
    if realm.Some? {
      RealmPrintable(realm.value);
      TokenCleans(REALM, Quote(realm.value));
      MapOne(CleanEntry, Pair(REALM, Quote(realm.value)));
    }
  }

  lemma HeaderItems(realm: Option<Bytes>, sorted: seq<Field>)
    requires HeaderFields(sorted) && SafeRealm(realm)
    ensures var items := RealmItems(realm) + Map(PrintedField, sorted);
            && AllPrintable(items)
            && Map(CleanEntry, items) == RealmEntries(realm) + Map(ReadBack, sorted)
  {
    PrintedFields(sorted);
    RealmItem(realm);
    MapConcat(CleanEntry, RealmItems(realm), Map(PrintedField, sorted));
  }

  lemma ReadEntriesDistinct(realm: Option<Bytes>, sorted: seq<Field>)
    requires HeaderFields(sorted)
    ensures DistinctKeys(RealmEntries(realm) + Map(ReadBack, sorted))
  {
    assert REALM[0] != OAUTH_PREFIX[0];
    forall i | 0 <= i < |sorted|
      ensures sorted[i].name != REALM
    {
      assert sorted[i].name[0] == OAUTH_PREFIX[0];
    }
  }

  /** What the server reads from the client's header: every name, every value unquoted. */
  lemma HeaderReadBack(realm: Option<Bytes>, ps: seq<Field>)
    requires HeaderFields(ps) && SafeRealm(realm)
    ensures ParseHeader(HeaderText(realm, ps)) ==
            Ok(RealmEntries(realm) + Map(ReadBack, Sort(FieldLeq, ps)))
  {
    var sorted := Sort(FieldLeq, ps);
    SortedFields(ps);
    RealmJoins(realm, Map(PrintedField, sorted));
    HeaderItems(realm, sorted);
    ReadEntriesDistinct(realm, sorted);
    ParseItems(HeaderText(realm, ps), RealmItems(realm) + Map(PrintedField, sorted));
  }

  /** No value of the list holds a line break. */
  predicate NewlineFree(ps: seq<Field>) {
    forall i :: 0 <= i < |ps| ==> NEWLINE !in ps[i].value.GetOr([])
  }

  lemma ReadBackExact(f: Field)
    ensures ReadBack(f) == Meant(f) <==> NEWLINE !in f.value.GetOr([])
  {
    StripQuotesExact(f.value.GetOr([]));
  }

  /**
   * `parse_header` undoes `header` exactly when no value holds a line break; quotes, commas,
   * `=`, `&`, `%`, empty values and bytes above 0x7F all survive.
   */
  lemma HeaderRoundTripExact(ps: seq<Field>)
    requires HeaderFields(ps)
    ensures ParseHeader(HeaderText(None, ps)) == Ok(Map(Meant, Sort(FieldLeq, ps))) <==> NewlineFree(ps)
  {
    var sorted := Sort(FieldLeq, ps);
    HeaderReadBack(None, ps);
    assert RealmEntries(None) + Map(ReadBack, sorted) == Map(ReadBack, sorted);
    ReadBackAll(sorted);
    NewlineFreeSorted(ps);
  }

  lemma {:induction false} ReadBackAll(fs: seq<Field>)
    ensures Map(ReadBack, fs) == Map(Meant, fs) <==> NewlineFree(fs)
  {
    if fs != [] {
      ReadBackExact(fs[0]);
      ReadBackAll(fs[1..]);
      assert Map(ReadBack, fs)[1..] == Map(ReadBack, fs[1..]) && Map(Meant, fs)[1..] == Map(Meant, fs[1..]);
      assert NewlineFree(fs) <==> NEWLINE !in fs[0].value.GetOr([]) && NewlineFree(fs[1..]);
    }
  }

  lemma NewlineFreeSorted(ps: seq<Field>)
    ensures NewlineFree(Sort(FieldLeq, ps)) <==> NewlineFree(ps)
  {
    var sorted := Sort(FieldLeq, ps);
    forall i | 0 <= i < |sorted|
      ensures exists j :: 0 <= j < |ps| && ps[j] == sorted[i]
    {
      InPermutation(ps, sorted, i);
    }
    forall i | 0 <= i < |ps|
      ensures exists j :: 0 <= j < |sorted| && sorted[j] == ps[i]
    {
      InPermutation(sorted, ps, i);
    }
  }

  lemma KeptKeys(e: Entry)
    requires TokenName(e.key) && OAUTH_PREFIX <= e.key
    ensures KeepsEntry(e)
  {
    SplitFree(e.key, {NEWLINE});
    assert OAUTH_PREFIX <= Split(e.key, {NEWLINE})[0];
  }

  lemma KeptParams(realm: Option<Bytes>, sorted: seq<Field>)
    requires HeaderFields(sorted)
    ensures Filter(KeepsEntry, RealmEntries(realm) + Map(ReadBack, sorted)) == Map(ReadBack, sorted)
  {
    var kept := Map(ReadBack, sorted);
    forall i | 0 <= i < |kept|
      ensures KeepsEntry(kept[i])
    {
      KeptKeys(kept[i]);
    }
    FilterAll(KeepsEntry, kept);
    FilterConcat(KeepsEntry, RealmEntries(realm), kept);
    RealmDropped(realm);
  }

  /** `header_params` of the client's header: every parameter read back, the realm dropped. */
  lemma {:induction false} HeaderParamsReadBack(
    realm: Option<Bytes>, ps: seq<Field>, headers: seq<Option<Bytes>>, at: nat)
    requires HeaderFields(ps) && SafeRealm(realm)
    requires at < |headers| && headers[at] == Some(HeaderText(realm, ps))
    requires forall i :: 0 <= i < at && headers[i].Some? ==> !(OAUTH_SCHEME <= headers[i].value)
    ensures HeaderParams(headers) == Ok(Map(ReadBack, Sort(FieldLeq, ps)))
    decreases at
  {
    if at > 0 {
      HeaderParamsReadBack(realm, ps, headers[1..], at - 1);
    } else {
      HeaderReadBack(realm, ps);
      SortedFields(ps);
      KeptParams(realm, Sort(FieldLeq, ps));
    }
  }

  lemma RealmDropped(realm: Option<Bytes>)
    ensures Filter(KeepsEntry, RealmEntries(realm)) == []
  {
    assert Free(REALM, {NEWLINE});
    SplitFree(REALM, {NEWLINE});
    assert REALM[0] != OAUTH_PREFIX[0];
  }
}
