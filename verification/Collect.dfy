/**
 * Collecting request parameters: form decoding into fields, the name-to-array hash built
 * from them, and the option parameters that are appended to it before signing.
 */
module Collect {
  import opened Wrappers
  import opened Bytes
  import opened Codec
  import opened Lists
  import opened ParameterString
  import opened Normalize

  /** One decoded field; a bare key has no value. */
  datatype Field = Field(name: Bytes, value: Option<Bytes>)

  // ---------------------------------------------------------------- form text

  function PlusToSpace(s: Bytes): (r: Bytes)
    ensures |r| == |s|
  {
    seq(|s|, i requires 0 <= i < |s| => if s[i] == PLUS then SPACE else s[i])
  }

  function FormDecode(s: Bytes): Bytes {
    DecodeEscapes(PlusToSpace(s))
  }

  function ParseField(piece: Bytes): Field {
    var parts := Split(piece, {EQUALS});
    Field(FormDecode(parts[0]),
          if |parts| == 1 then None else Some(FormDecode(Join(parts[1..], [EQUALS]))))
  }

  predicate NonEmpty(piece: Bytes) {
    piece != []
  }

  /** The shared pair parser: pieces at `&`, each cut at its first `=`. */
  function ParseForm(text: Bytes): seq<Field> {
    Map(ParseField, Filter(NonEmpty, Split(text, {AMP})))
  }

  lemma ParseFormConcat(a: Bytes, b: Bytes)
    ensures ParseForm(a + [AMP] + b) == ParseForm(a) + ParseForm(b)
  {
    SplitConcat(a, AMP, b, {AMP});
    FilterConcat(NonEmpty, Split(a, {AMP}), Split(b, {AMP}));
    MapConcat(ParseField, Filter(NonEmpty, Split(a, {AMP})), Filter(NonEmpty, Split(b, {AMP})));
  }

  lemma ParseFormEmpty()
    ensures ParseForm([]) == []
  {
    assert Filter(NonEmpty, [[]]) == [];
  }

  lemma {:induction false} FilterAll<T>(keep: T -> bool, s: seq<T>)
    requires forall i :: 0 <= i < |s| ==> keep(s[i])
    ensures Filter(keep, s) == s
  {
    if s != [] {
      FilterAll(keep, s[1..]);
    }
  }

  /** Joining printed fields with `&` and parsing the text returns the fields. */
  lemma ParseJoined(show: Field -> Bytes, fields: seq<Field>)
    requires forall f :: f in fields ==>
               show(f) != [] && Free(show(f), {AMP}) && ParseField(show(f)) == f
    ensures ParseForm(Join(Map(show, fields), [AMP])) == fields
  {
    var parts := Map(show, fields);
    if fields == [] {
      ParseFormEmpty();
    } else {
      SplitJoin(parts, AMP, {AMP});
      FilterAll(NonEmpty, parts);
      assert Map(ParseField, parts) == fields;
    }
  }

  /** A field as the query-string scheme prints it: nil becomes an empty value. */
  function EscapeField(f: Field): Bytes {
    Escape(f.name) + [EQUALS] + EscapeScalar(f.value)
  }

  function Valued(f: Field): Field {
    Field(f.name, Some(f.value.GetOr([])))
  }

  lemma NoPlusDecode(s: Bytes)
    requires PLUS !in s
    ensures FormDecode(s) == DecodeEscapes(s)
  {
    assert PlusToSpace(s) == s;
  }

  lemma EscapeThenFormDecode(s: Bytes)
    ensures FormDecode(Escape(s)) == s
  {
    EscapeShape(s);
    NoPlusDecode(Escape(s));
    TwoPassesAreOne(Escape(s));
    EscapeRoundTrip(s);
  }

  /** A text cut at its only `=`. */
  lemma ParseNameValue(name: Bytes, value: Bytes)
    requires Free(name, {EQUALS}) && Free(value, {EQUALS})
    ensures ParseField(name + [EQUALS] + value) == Field(FormDecode(name), Some(FormDecode(value)))
  {
    SplitFirst(name, EQUALS, value, {EQUALS});
    SplitFree(value, {EQUALS});
    var parts := [name] + [value];
    assert parts[1..] == [value];
  }

  lemma EscapeFieldShape(f: Field)
    ensures EscapeField(f) != [] && Free(EscapeField(f), {AMP})
  {
    EscapeShape(f.name);
    EscapeShape(f.value.GetOr([]));
  }

  lemma ParseEscapedField(f: Field)
    requires f.value.Some?
    ensures EscapeField(f) != [] && Free(EscapeField(f), {AMP}) && ParseField(EscapeField(f)) == f
  {
    EscapeFieldShape(f);
    EscapedFree(f.name);
    EscapedFree(f.value.value);
    ParseNameValue(Escape(f.name), Escape(f.value.value));
    EscapeThenFormDecode(f.name);
    EscapeThenFormDecode(f.value.value);
  }

  lemma ParseEscaped(fields: seq<Field>)
    ensures ParseForm(Join(Map(EscapeField, fields), [AMP])) == Map(Valued, fields)
  {
    var valued := Map(Valued, fields);
    forall f | f in valued
      ensures EscapeField(f) != [] && Free(EscapeField(f), {AMP}) && ParseField(EscapeField(f)) == f
    {
      ParseEscapedField(f);
    }
    ParseJoined(EscapeField, valued);
    assert Map(EscapeField, fields) == Map(EscapeField, valued);
  }

  /** URI.encode_www_form_component: space is `+`, and `*` rather than `~` stays plain. */
  function FormEncodeByte(b: Byte): Bytes {
    if b == SPACE then [PLUS]
    else if (IsUnreserved(b) && b != 0x7E) || b == 0x2A then [b]
    else [PERCENT, HexDigit(b / 16), HexDigit(b % 16)]
  }

  function FormEncode(s: Bytes): Bytes {
    if s == [] then [] else FormEncodeByte(s[0]) + FormEncode(s[1..])
  }

  lemma FormEncodedByte(b: Byte, tail: Bytes)
    ensures FormDecode(FormEncodeByte(b) + tail) == [b] + FormDecode(tail)
  {
    var head := FormEncodeByte(b);
    var text := PlusToSpace(head + tail);
    if |head| == 1 {
      assert text[1..] == PlusToSpace(tail);
    } else {
      assert text[3..] == PlusToSpace(tail);
      assert HexValue(HexDigit(b / 16)) == b / 16 && HexValue(HexDigit(b % 16)) == b % 16;
    }
  }

  lemma {:induction false} FormRoundTrip(s: Bytes)
    ensures FormDecode(FormEncode(s)) == s
    ensures Free(FormEncode(s), {AMP, EQUALS})
    ensures s != [] ==> FormEncode(s) != []
  {
    if s != [] {
      FormRoundTrip(s[1..]);
      FormEncodedByte(s[0], FormEncode(s[1..]));
      assert s == [s[0]] + s[1..];
    }
  }

  /** Letters, digits and `*-._` stay; of the rest only a space takes one byte, a `+`. */
  lemma FormPlainBytes(b: Byte)
    ensures FormEncode([b]) == [b] <==>
            var c := b as char; 'a' <= c <= 'z' || 'A' <= c <= 'Z' || '0' <= c <= '9' || c in "*-._"
    ensures |FormEncode([b])| == 1 && FormEncode([b]) != [b] <==> b == SPACE
    ensures WellEscaped(FormEncode([b]))
  {
    assert [b][1..] == [];
    assert FormEncodeByte(b) + [] == FormEncodeByte(b);
  }

  /** One field of URI.encode_www_form: a nil value leaves the key bare. */
  function FormEncodeField(f: Field): Bytes {
    FormEncode(f.name) + if f.value.None? then [] else [EQUALS] + FormEncode(f.value.value)
  }

  lemma ParseFormEncoded(fields: seq<Field>)
    requires forall f :: f in fields ==> f.name != [] || f.value.Some?
    ensures ParseForm(Join(Map(FormEncodeField, fields), [AMP])) == fields
  {
    forall f | f in fields
      ensures FormEncodeField(f) != [] && Free(FormEncodeField(f), {AMP})
      ensures ParseField(FormEncodeField(f)) == f
    {
      var name := FormEncode(f.name);
      FormRoundTrip(f.name);
      if f.value.None? {
        assert FormEncodeField(f) == name;
        SplitFree(name, {EQUALS});
      } else {
        var value := FormEncode(f.value.value);
        FormRoundTrip(f.value.value);
        assert FormEncodeField(f) == name + [EQUALS] + value;
        ParseNameValue(name, value);
      }
    }
    ParseJoined(FormEncodeField, fields);
  }

  // ---------------------------------------------------------------- hashes

  function Lookup(h: seq<Entry>, name: Bytes): Option<Value> {
    if h == [] then None
    else if h[0].key == name then Some(h[0].value)
    else Lookup(h[1..], name)
  }

  /** Hash#[]=: replaces the entry in place or appends a new one. */
  function Put(h: seq<Entry>, name: Bytes, v: Value): seq<Entry> {
    if h == [] then [Entry(name, v)]
    else if h[0].key == name then [Entry(name, v)] + h[1..]
    else [h[0]] + Put(h[1..], name, v)
  }

  lemma {:induction false} LookupPut(h: seq<Entry>, name: Bytes, v: Value, other: Bytes)
    ensures Lookup(Put(h, name, v), other) == if other == name then Some(v) else Lookup(h, other)
  {
    if h != [] && h[0].key != name {
      LookupPut(h[1..], name, v, other);
    }
  }

  lemma {:induction false} LookupNone(h: seq<Entry>, name: Bytes)
    ensures Lookup(h, name).None? <==> forall i :: 0 <= i < |h| ==> h[i].key != name
  {
    if h != [] {
      LookupNone(h[1..], name);
      if Lookup(h, name).None? {
        forall i | 0 <= i < |h|
          ensures h[i].key != name
        {
          if i > 0 {
            assert h[i] == h[1..][i - 1];
          }
        }
      }
    }
  }

  lemma {:induction false} PutKeys(h: seq<Entry>, name: Bytes, v: Value)
    ensures forall e :: e in Put(h, name, v) ==> e.key == name || e in h
  {
    if h != [] && h[0].key != name {
      PutKeys(h[1..], name, v);
    }
  }

  lemma {:induction false} PutDistinct(h: seq<Entry>, name: Bytes, v: Value)
    requires DistinctKeys(h)
    ensures DistinctKeys(Put(h, name, v))
  {
    if h != [] && h[0].key != name {
      PutDistinct(h[1..], name, v);
      PutKeys(h[1..], name, v);
      var rest := Put(h[1..], name, v);
      forall j | 0 <= j < |rest|
        ensures rest[j].key != h[0].key
      {
        assert rest[j] in rest;
        if rest[j] in h[1..] {
          var k :| 0 <= k < |h[1..]| && h[1..][k] == rest[j];
          assert h[k + 1] == rest[j];
        }
      }
    }
  }

  predicate AllValues(h: seq<Entry>, p: Value -> bool) {
    forall i :: 0 <= i < |h| ==> p(h[i].value)
  }

  lemma {:induction false} PutValues(h: seq<Entry>, name: Bytes, v: Value, p: Value -> bool)
    requires AllValues(h, p) && p(v)
    ensures AllValues(Put(h, name, v), p)
  {
    if h != [] && h[0].key != name {
      PutValues(h[1..], name, v, p);
    }
  }

  lemma {:induction false} LookupValue(h: seq<Entry>, name: Bytes, p: Value -> bool)
    requires AllValues(h, p) && Lookup(h, name).Some?
    ensures p(Lookup(h, name).value)
  {
    if h[0].key != name {
      LookupValue(h[1..], name, p);
    }
  }

  /** The texts a hash signs under one name; none when the name is missing. */
  function TextsAt(h: seq<Entry>, name: Bytes): seq<Bytes> {
    match Lookup(h, name)
    case None => []
    case Some(v) => Texts(v)
  }

  lemma {:induction false} PairWithTexts(name: Bytes, texts: seq<Bytes>, other: Bytes)
    ensures TextsOf(Map(PairWith(name), texts), other) == if other == name then texts else []
  {
    if texts != [] {
      PairWithTexts(name, texts[1..], other);
      assert Map(PairWith(name), texts)[1..] == Map(PairWith(name), texts[1..]);
    }
  }

  /** The pairs a hash signs under one name are the texts it holds there. */
  lemma {:induction false} SignedTexts(h: seq<Entry>, name: Bytes)
    requires DistinctKeys(h)
    ensures TextsOf(SignedPairs(h), name) == TextsAt(h, name)
  {
    if h != [] {
      SignedTexts(h[1..], name);
      TextsOfConcat(EntryPairs(h[0]), SignedPairs(h[1..]), name);
      PairWithTexts(h[0].key, Texts(h[0].value), name);
      if h[0].key == name {
        LookupNone(h[1..], name);
      }
    }
  }

  // ---------------------------------------------------------------- grouping by name

  function TextScalar(s: Bytes): Value {
    Scalar(Some(s))
  }

  function ValueOf(f: Field): seq<Value> {
    if f.value.Some? then [Scalar(f.value)] else []
  }

  function Push(v: Value, more: seq<Value>): Value {
    if v.Arr? then Arr(v.elems + more) else v
  }

  /** One step of CGI.parse: the key gets an array, a value is pushed onto it. */
  function AddField(h: seq<Entry>, f: Field): seq<Entry> {
    match Lookup(h, f.name)
    case None => Put(h, f.name, Arr(ValueOf(f)))
    case Some(v) => Put(h, f.name, Push(v, ValueOf(f)))
  }

  /** CGI.parse: the name-to-array hash of a list of fields. */
  function Group(fields: seq<Field>): seq<Entry> {
    if fields == [] then []
    else AddField(Group(fields[..|fields| - 1]), fields[|fields| - 1])
  }

  predicate Occurs(fields: seq<Field>, name: Bytes) {
    exists i :: 0 <= i < |fields| && fields[i].name == name
  }

  function NamedValue(f: Field, name: Bytes): seq<Bytes> {
    if f.name == name && f.value.Some? then [f.value.value] else []
  }

  function NamedValueAt(name: Bytes): Field -> seq<Bytes> {
    f => NamedValue(f, name)
  }

  /** The values given for one name, in order; bare keys give none. */
  function NamedValues(fields: seq<Field>, name: Bytes): seq<Bytes> {
    FlatMap(NamedValueAt(name), fields)
  }

  lemma OccursConcat(a: seq<Field>, b: seq<Field>, name: Bytes)
    ensures Occurs(a + b, name) <==> Occurs(a, name) || Occurs(b, name)
  {
    if i :| 0 <= i < |b| && b[i].name == name {
      assert (a + b)[|a| + i].name == name;
    }
    if i :| 0 <= i < |a| && a[i].name == name {
      assert (a + b)[i].name == name;
    }
  }

  lemma NamedValuesConcat(a: seq<Field>, b: seq<Field>, name: Bytes)
    ensures NamedValues(a + b, name) == NamedValues(a, name) + NamedValues(b, name)
  {
    FlatMapConcat(NamedValueAt(name), a, b);
  }

  lemma NamedValuesOne(f: Field, name: Bytes)
    ensures NamedValues([f], name) == NamedValue(f, name)
  {
    FlatMapOne(NamedValueAt(name), f);
  }

  lemma {:induction false} NamedValuesAbsent(fields: seq<Field>, name: Bytes)
    requires !Occurs(fields, name)
    ensures NamedValues(fields, name) == []
  {
    if fields != [] {
      assert fields[0].name != name;
      assert forall i :: 0 <= i < |fields[1..]| ==> fields[1..][i] == fields[i + 1];
      NamedValuesAbsent(fields[1..], name);
    }
  }

  /** What the hash holds under the added field's name afterwards. */
  function Added(old': Option<Value>, f: Field): Value {
    match old'
    case None => Arr(ValueOf(f))
    case Some(v) => Push(v, ValueOf(f))
  }

  lemma AddFieldLookup(h: seq<Entry>, f: Field, name: Bytes)
    ensures Lookup(AddField(h, f), name) ==
            if name == f.name then Some(Added(Lookup(h, name), f)) else Lookup(h, name)
  {
    LookupPut(h, f.name, Added(Lookup(h, f.name), f), name);
  }

  lemma {:induction false} GroupLookup(fields: seq<Field>, name: Bytes)
    ensures Lookup(Group(fields), name) ==
            if Occurs(fields, name) then Some(Arr(Map(TextScalar, NamedValues(fields, name)))) else None
  {
    if fields != [] {
      var rest, last := fields[..|fields| - 1], fields[|fields| - 1];
      GroupLookup(rest, name);
      AddFieldLookup(Group(rest), last, name);
      assert fields == rest + [last];
      OccursConcat(rest, [last], name);
      assert [last][0] == last;
      NamedValuesConcat(rest, [last], name);
      NamedValuesOne(last, name);
      if last.name == name {
        assert ValueOf(last) == Map(TextScalar, NamedValue(last, name));
        MapConcat(TextScalar, NamedValues(rest, name), NamedValue(last, name));
        if !Occurs(rest, name) {
          NamedValuesAbsent(rest, name);
        }
      } else {
        assert NamedValues(fields, name) == NamedValues(rest, name);
      }
    }
  }

  /** Arrays of text or lone nils: always sortable. */
  predicate Signable(v: Value) {
    FlatValue(v) && Comparable(v)
  }

  predicate TextArray(v: Value) {
    v.Arr? && forall i :: 0 <= i < |v.elems| ==> v.elems[i].Scalar? && v.elems[i].text.Some?
  }

  lemma {:induction false} GroupShape(fields: seq<Field>)
    ensures DistinctKeys(Group(fields)) && AllValues(Group(fields), TextArray)
  {
    if fields != [] {
      var h, f := Group(fields[..|fields| - 1]), fields[|fields| - 1];
      GroupShape(fields[..|fields| - 1]);
      match Lookup(h, f.name)
      case None =>
        PutDistinct(h, f.name, Arr(ValueOf(f)));
        PutValues(h, f.name, Arr(ValueOf(f)), TextArray);
      case Some(v) =>
        LookupValue(h, f.name, TextArray);
        PutDistinct(h, f.name, Push(v, ValueOf(f)));
        PutValues(h, f.name, Push(v, ValueOf(f)), TextArray);
    }
  }

  // ---------------------------------------------------------------- the signed texts of fields

  /** The values given for a name, or one "" if it is only mentioned. */
  function OneOrNone(values: seq<Bytes>, mentioned: bool): seq<Bytes> {
    if values != [] then values else if mentioned then [[]] else []
  }

  /** What a list of fields signs under one name once grouped: its values, or one "" if all bare. */
  function GroupedTexts(fields: seq<Field>, name: Bytes): seq<Bytes> {
    OneOrNone(NamedValues(fields, name), Occurs(fields, name))
  }

  lemma GroupedTextsAt(fields: seq<Field>, name: Bytes)
    ensures TextsAt(Group(fields), name) == GroupedTexts(fields, name)
  {
    GroupLookup(fields, name);
    if Occurs(fields, name) {
      assert Map(TextOf, Map(TextScalar, NamedValues(fields, name))) == NamedValues(fields, name);
    } else {
      NamedValuesAbsent(fields, name);
    }
  }

  /** Grouping signs the same pairs whatever the order of the fields. */
  lemma GroupOrderIrrelevant(a: seq<Field>, b: seq<Field>)
    requires multiset(a) == multiset(b)
    ensures multiset(SignedPairs(Group(a))) == multiset(SignedPairs(Group(b)))
    ensures NormalizeHash(Group(a)) == NormalizeHash(Group(b))
  {
    GroupNormalizes(a);
    GroupNormalizes(b);
    CanonicalFaithful(SignedPairs(Group(a)), SignedPairs(Group(b)));
    forall n
      ensures SameTexts(SignedPairs(Group(a)), SignedPairs(Group(b)), n)
    {
      GroupedSigned(a, n);
      GroupedSigned(b, n);
      FlatMapMultiset(NamedValueAt(n), a, b);
      assert |NamedValues(a, n)| == |multiset(NamedValues(a, n))| == |NamedValues(b, n)|;
      OccursPermute(a, b, n);
      OccursPermute(b, a, n);
    }
    PairsByName(SignedPairs(Group(a)), SignedPairs(Group(b)));
  }

  lemma GroupedSigned(fields: seq<Field>, name: Bytes)
    ensures TextsOf(SignedPairs(Group(fields)), name) == GroupedTexts(fields, name)
  {
    GroupShape(fields);
    SignedTexts(Group(fields), name);
    GroupedTextsAt(fields, name);
  }

  lemma OccursPermute(a: seq<Field>, b: seq<Field>, name: Bytes)
    requires multiset(a) == multiset(b)
    ensures Occurs(a, name) ==> Occurs(b, name)
  {
    if i :| 0 <= i < |a| && a[i].name == name {
      InPermutation(b, a, i);
    }
  }

  // ---------------------------------------------------------------- grouped form and pair-list form

  function FieldPair(f: Field): Pair {
    Pair(f.name, f.value.GetOr([]))
  }

  /** One field as the ActionController proxy keeps it: `["k"]` or `["k", "v"]`. */
  function FieldList(f: Field): seq<Bytes> {
    if f.value.None? then [f.name] else [f.name, f.value.value]
  }

  function AllTexts(fields: seq<Field>, name: Bytes): seq<Bytes> {
    TextsOf(Map(FieldPair, fields), name)
  }

  function Occurrences(fields: seq<Field>, name: Bytes): nat {
    if fields == [] then 0
    else (if fields[0].name == name then 1 else 0) + Occurrences(fields[1..], name)
  }

  /** No bare key shares its name with any other field. */
  predicate BareKeysAlone(fields: seq<Field>) {
    forall i :: 0 <= i < |fields| && fields[i].value.None? ==> Occurrences(fields, fields[i].name) == 1
  }

  predicate HasBare(fields: seq<Field>, name: Bytes) {
    exists i :: 0 <= i < |fields| && fields[i] == Field(name, None)
  }

  lemma HasBareStep(fields: seq<Field>, name: Bytes)
    requires fields != []
    ensures HasBare(fields, name) <==> fields[0] == Field(name, None) || HasBare(fields[1..], name)
    ensures Occurs(fields, name) <==> fields[0].name == name || Occurs(fields[1..], name)
  {
    var rest := fields[1..];
    assert forall i :: 0 <= i < |rest| ==> rest[i] == fields[i + 1];
    if i :| 0 <= i < |rest| && rest[i] == Field(name, None) {
      assert fields[i + 1] == Field(name, None);
    }
    if i :| 0 <= i < |rest| && rest[i].name == name {
      assert fields[i + 1].name == name;
    }
    if i :| 0 <= i < |fields| && fields[i].name == name {
      assert i == 0 || rest[i - 1].name == name;
    }
    if i :| 0 <= i < |fields| && fields[i] == Field(name, None) {
      assert i == 0 || rest[i - 1] == Field(name, None);
    }
  }

  lemma {:induction false} TextsSplit(fields: seq<Field>, name: Bytes)
    ensures |AllTexts(fields, name)| == Occurrences(fields, name) >= |NamedValues(fields, name)|
    ensures HasBare(fields, name) <==> Occurrences(fields, name) > |NamedValues(fields, name)|
    ensures !HasBare(fields, name) ==> AllTexts(fields, name) == NamedValues(fields, name)
    ensures Occurrences(fields, name) == 1 && HasBare(fields, name) ==> AllTexts(fields, name) == [[]]
    ensures Occurs(fields, name) <==> Occurrences(fields, name) > 0
  {
    if fields != [] {
      TextsSplit(fields[1..], name);
      HasBareStep(fields, name);
      assert Map(FieldPair, fields)[1..] == Map(FieldPair, fields[1..]);
      assert AllTexts(fields, name) ==
             (if fields[0].name == name then [fields[0].value.GetOr([])] else []) + AllTexts(fields[1..], name);
    }
  }

  predicate AloneAt(fields: seq<Field>, name: Bytes) {
    HasBare(fields, name) ==> Occurrences(fields, name) == 1
  }

  lemma BareKeysAloneByName(fields: seq<Field>)
    ensures BareKeysAlone(fields) <==> forall n :: AloneAt(fields, n)
  {
    if forall n :: AloneAt(fields, n) {
      forall i | 0 <= i < |fields| && fields[i].value.None?
        ensures Occurrences(fields, fields[i].name) == 1
      {
        assert fields[i] == Field(fields[i].name, None);
        assert AloneAt(fields, fields[i].name);
      }
    }
  }

  lemma GroupedTextsAgree(fields: seq<Field>, name: Bytes)
    ensures SameTexts(SignedPairs(Group(fields)), Map(FieldPair, fields), name) <==> AloneAt(fields, name)
  {
    TextsSplit(fields, name);
    GroupedSigned(fields, name);
    var grouped, all := GroupedTexts(fields, name), AllTexts(fields, name);
    if multiset(grouped) == multiset(all) {
      assert |grouped| == |multiset(grouped)| == |multiset(all)| == |all|;
    }
  }

  lemma GroupedPairsExact(fields: seq<Field>)
    ensures multiset(SignedPairs(Group(fields))) == multiset(Map(FieldPair, fields)) <==> BareKeysAlone(fields)
  {
    PairsByName(SignedPairs(Group(fields)), Map(FieldPair, fields));
    BareKeysAloneByName(fields);
    forall n
      ensures SameTexts(SignedPairs(Group(fields)), Map(FieldPair, fields), n) <==> AloneAt(fields, n)
    {
      GroupedTextsAgree(fields, n);
    }
  }

  lemma FieldListPairs(fields: seq<Field>)
    ensures Map(FirstTwo, Map(FieldList, fields)) == Map(FieldPair, fields)
  {
  }

  /**
   * Normalizing the list of parameters (the ActionController proxy) and normalizing the
   * name-to-array hash built from them (the Net::HTTP proxy) give the same string exactly
   * when no bare key shares its name with another field: CGI.parse drops such keys.
   */
  lemma GroupedEqualsPairListExact(fields: seq<Field>)
    ensures NormalizeHash(Group(fields)) == Ok(NormalizeList(Map(FieldList, fields))) <==> BareKeysAlone(fields)
  {
    GroupNormalizes(fields);
    NormalizeListCanonical(Map(FieldList, fields));
    FieldListPairs(fields);
    CanonicalFaithful(SignedPairs(Group(fields)), Map(FieldPair, fields));
    GroupedPairsExact(fields);
  }

  lemma GroupNormalizes(fields: seq<Field>)
    ensures NormalizeHash(Group(fields)) == Ok(Canonical(SignedPairs(Group(fields))))
  {
    GroupShape(fields);
    NormalizeFlat(Group(fields));
  }
}
