/**
 * The body scheme: the parameters are printed as a form, the request is signed as it then
 * stands, and the parameters collected from it are printed once more with the signature.
 */
module BodyScheme {
  import opened Wrappers
  import opened Bytes
  import opened Lists
  import opened Normalize
  import opened Collect
  import opened Options
  import opened Uris
  import opened ClientHelper
  import opened Requests
  import opened Agreement
  import opened Schemes

  // ---------------------------------------------------------------- what is printed

  /** The request's own parameters override OAuth parameters of the same name. */
  function WithOauth(r: Request, ps: seq<Field>): seq<Entry> {
    Merge(Map(ScalarEntry, ps), ClientHash(r, []))
  }

  function ScalarEntry(f: Field): Entry {
    Entry(f.name, Scalar(f.value))
  }

  /** The fields URI.encode_www_form prints for one entry: none for an empty array. */
  function EntryFields(e: Entry): seq<Field> {
    match e.value
    case Scalar(t) => [Field(e.key, t)]
    case Arr(vs) => Map(ElementField(e.key), vs)
    case Hash(_) => []
  }

  function ElementField(key: Bytes): Value -> Field {
    v => Field(key, ScalarText(v))
  }

  function HashFields(h: seq<Entry>): seq<Field> {
    FlatMap(EntryFields, h)
  }

  function EncodeEntry(e: Entry): Bytes {
    Join(Map(FormEncodeField, EntryFields(e)), [AMP])
  }

  function EncodeWwwForm(h: seq<Entry>): Bytes {
    Join(Map(EncodeEntry, h), [AMP])
  }

  /** The request at the moment `set_oauth_body` signs it. */
  function BodySigning(r: Request, ps: seq<Field>): Request {
    r.(body := Some(EncodeWwwForm(WithOauth(r, ps))), form := true)
  }

  /** The parameters printed the second time: those collected from the first printing, signed. */
  function SignedHash(r: Request, ps: seq<Field>, sig: Bytes): seq<Entry> {
    Put(ClientHash(BodySigning(r, ps), []), SIGNATURE, Scalar(Some(sig)))
  }

  /** The request `set_oauth_body` leaves. */
  function SignedByBody(r: Request, ps: seq<Field>, sig: Bytes): Request {
    BodySigning(r, ps).(body := Some(EncodeWwwForm(SignedHash(r, ps, sig))))
  }

  // ---------------------------------------------------------------- printing and parsing

  lemma {:induction false} JoinedForms(parts: seq<Bytes>)
    ensures ParseForm(Join(parts, [AMP])) == FlatMap(ParseForm, parts)
  {
    ParseFormEmpty();
    if |parts| == 1 {
      FlatMapOne(ParseForm, parts[0]);
      assert parts == [parts[0]];
    } else if parts != [] {
      JoinedForms(parts[1..]);
      ParseFormConcat(parts[0], Join(parts[1..], [AMP]));
    }
  }

  /** The one kind of entry that prints to nothing readable: a nil under the empty name. */
  predicate Prints(e: Entry) {
    e.key != [] || (e.value.Scalar? && e.value.text.Some?) || TextArray(e.value)
  }

  lemma EncodedEntry(e: Entry)
    requires Prints(e)
    ensures ParseForm(EncodeEntry(e)) == EntryFields(e)
  {
    ParseFormEncoded(EntryFields(e));
  }

  lemma {:induction false} EncodedEntries(h: seq<Entry>)
    requires forall i :: 0 <= i < |h| ==> Prints(h[i])
    ensures FlatMap(ParseForm, Map(EncodeEntry, h)) == HashFields(h)
  {
    if h != [] {
      EncodedEntry(h[0]);
      EncodedEntries(h[1..]);
      assert Map(EncodeEntry, h)[1..] == Map(EncodeEntry, h[1..]);
    }
  }

  /** Printing a parameter hash as a form and parsing it yields the hash's fields. */
  lemma FormRoundTripHash(h: seq<Entry>)
    requires forall i :: 0 <= i < |h| ==> Prints(h[i])
    ensures ParseForm(EncodeWwwForm(h)) == HashFields(h)
  {
    JoinedForms(Map(EncodeEntry, h));
    EncodedEntries(h);
  }

  // ---------------------------------------------------------------- the fields of a hash, by name

  lemma {:induction false} ElementFieldValues(key: Bytes, vs: seq<Value>, name: Bytes)
    requires TextArray(Arr(vs))
    ensures NamedValues(Map(ElementField(key), vs), name) == if key == name then Map(TextOf, vs) else []
    ensures Occurs(Map(ElementField(key), vs), name) <==> key == name && vs != []
  {
    if vs != [] {
      ElementFieldValues(key, vs[1..], name);
      var fs := Map(ElementField(key), vs);
      assert fs[1..] == Map(ElementField(key), vs[1..]);
      assert fs[0] == Field(key, Some(TextOf(vs[0])));
      assert fs == [fs[0]] + fs[1..];
    }
  }

  /** What the fields of a hash give one name. */
  function HashValues(h: seq<Entry>, name: Bytes): seq<Bytes> {
    match Lookup(h, name)
    case None => []
    case Some(v) => if v.Scalar? then (if v.text.None? then [] else [v.text.value])
                    else if v.Arr? then Map(TextOf, v.elems) else []
  }

  /** Whether they mention it at all: an empty array prints nothing. */
  predicate HashMentions(h: seq<Entry>, name: Bytes) {
    var v := Lookup(h, name);
    v.Some? && (v.value.Scalar? || (v.value.Arr? && v.value.elems != []))
  }

  predicate ScalarOrTexts(v: Value) {
    v.Scalar? || TextArray(v)
  }

  lemma EntryFieldsNamed(e: Entry, name: Bytes)
    requires ScalarOrTexts(e.value)
    ensures NamedValues(EntryFields(e), name) == if e.key == name then HashValues([e], name) else []
    ensures Occurs(EntryFields(e), name) <==> e.key == name && HashMentions([e], name)
  {
    if e.value.Scalar? {
      NamedValuesOne(Field(e.key, e.value.text), name);
      assert EntryFields(e)[0] == Field(e.key, e.value.text);
    } else {
      ElementFieldValues(e.key, e.value.elems, name);
    }
  }

  lemma HashFieldsStep(h: seq<Entry>, name: Bytes)
    requires h != []
    ensures NamedValues(HashFields(h), name) ==
            NamedValues(EntryFields(h[0]), name) + NamedValues(HashFields(h[1..]), name)
    ensures Occurs(HashFields(h), name) <==> Occurs(EntryFields(h[0]), name) || Occurs(HashFields(h[1..]), name)
  {
    NamedValuesConcat(EntryFields(h[0]), HashFields(h[1..]), name);
    OccursConcat(EntryFields(h[0]), HashFields(h[1..]), name);
  }

  lemma {:induction false} HashFieldsNamed(h: seq<Entry>, name: Bytes)
    requires DistinctKeys(h) && AllValues(h, ScalarOrTexts)
    ensures NamedValues(HashFields(h), name) == HashValues(h, name)
    ensures Occurs(HashFields(h), name) <==> HashMentions(h, name)
  {
    if h != [] {
      HashFieldsStep(h, name);
      HashFieldsNamed(h[1..], name);
      EntryFieldsNamed(h[0], name);
      if h[0].key == name {
        LookupNone(h[1..], name);
        assert HashValues(h[1..], name) == [] && !HashMentions(h[1..], name);
      } else {
        assert Lookup(h, name) == Lookup(h[1..], name);
      }
    }
  }

  lemma TextsBack(texts: seq<Bytes>)
    ensures Map(TextOf, Map(TextScalar, texts)) == texts
  {
  }

  // ---------------------------------------------------------------- the first printing

  lemma {:induction false} ScalarEntryLookup(ps: seq<Field>, name: Bytes)
    ensures Lookup(Map(ScalarEntry, ps), name) ==
            match OptionAt(ps, name) case None => None case Some(f) => Some(Scalar(f.value))
  {
    if ps != [] {
      ScalarEntryLookup(ps[1..], name);
      assert Map(ScalarEntry, ps)[1..] == Map(ScalarEntry, ps[1..]);
    }
  }

  lemma WithOauthShape(r: Request, ps: seq<Field>)
    requires DistinctNames(ps)
    ensures DistinctKeys(WithOauth(r, ps)) && AllValues(WithOauth(r, ps), ScalarOrTexts)
  {
    GroupShape(ClientFields(r));
    MergeShape(Map(ScalarEntry, ps), Group(ClientFields(r)), ScalarOrTexts);
  }

  lemma WithOauthLookup(r: Request, ps: seq<Field>, name: Bytes)
    ensures Lookup(WithOauth(r, ps), name) ==
            if Occurs(ClientFields(r), name) then Some(Arr(Map(TextScalar, NamedValues(ClientFields(r), name))))
            else match OptionAt(ps, name) case None => None case Some(f) => Some(Scalar(f.value))
  {
    GroupShape(ClientFields(r));
    MergeLookup(Map(ScalarEntry, ps), Group(ClientFields(r)), name);
    GroupLookup(ClientFields(r), name);
    ScalarEntryLookup(ps, name);
  }

  /** OAuth parameters a form can hold: no nil under the empty name. */
  predicate FormParameters(ps: seq<Field>) {
    DistinctNames(ps) && Field([], None) !in ps
  }

  lemma WithOauthPrints(r: Request, ps: seq<Field>)
    requires FormParameters(ps)
    ensures forall i :: 0 <= i < |WithOauth(r, ps)| ==> Prints(WithOauth(r, ps)[i])
  {
    var h := WithOauth(r, ps);
    WithOauthShape(r, ps);
    forall i | 0 <= i < |h|
      ensures Prints(h[i])
    {
      LookupAt(h, i);
      WithOauthLookup(r, ps, h[i].key);
      OptionAbsent(ps, h[i].key);
    }
  }

  /** The fields the client collects from the first printing: POST and PUT only. */
  function Collected(r: Request, ps: seq<Field>): seq<Field> {
    if FormVerb(r.verb) then HashFields(WithOauth(r, ps)) else []
  }

  lemma BodySigningFields(r: Request, ps: seq<Field>)
    requires Fresh(r) && FormParameters(ps)
    ensures ClientFields(BodySigning(r, ps)) == FieldsOf(r.query) + Collected(r, ps)
  {
    ClientFieldsOf(BodySigning(r, ps));
    WithOauthPrints(r, ps);
    FormRoundTripHash(WithOauth(r, ps));
  }

  lemma WithOauthAt(r: Request, ps: seq<Field>, name: Bytes)
    requires DistinctNames(ps)
    ensures HashValues(WithOauth(r, ps), name) ==
            NamedValues(if Occurs(ClientFields(r), name) then ClientFields(r) else ps, name)
    ensures HashMentions(WithOauth(r, ps), name) <==>
            if Occurs(ClientFields(r), name) then NamedValues(ClientFields(r), name) != [] else Occurs(ps, name)
  {
    WithOauthLookup(r, ps, name);
    OptionAbsent(ps, name);
    OptionValues(ps, name);
    TextsBack(NamedValues(ClientFields(r), name));
  }

  lemma PrintedNamed(r: Request, ps: seq<Field>, name: Bytes)
    requires DistinctNames(ps)
    ensures NamedValues(HashFields(WithOauth(r, ps)), name) ==
            NamedValues(if Occurs(ClientFields(r), name) then ClientFields(r) else ps, name)
    ensures Occurs(HashFields(WithOauth(r, ps)), name) <==>
            if Occurs(ClientFields(r), name) then NamedValues(ClientFields(r), name) != [] else Occurs(ps, name)
  {
    WithOauthShape(r, ps);
    WithOauthAt(r, ps, name);
    HashFieldsNamed(WithOauth(r, ps), name);
  }

  lemma RequestNamed(r: Request, name: Bytes)
    requires Fresh(r)
    ensures NamedValues(ClientFields(r), name) ==
            NamedValues(FieldsOf(r.query), name) + NamedValues(FieldsOf(BodyText(r)), name)
    ensures Occurs(FieldsOf(r.query), name) ==> Occurs(ClientFields(r), name)
    ensures !Occurs(FieldsOf(r.query), name) ==> NamedValues(FieldsOf(r.query), name) == []
    ensures !Occurs(ClientFields(r), name) ==> NamedValues(ClientFields(r), name) == []
  {
    ClientFieldsOf(r);
    NamedValuesConcat(FieldsOf(r.query), FieldsOf(BodyText(r)), name);
    OccursConcat(FieldsOf(r.query), FieldsOf(BodyText(r)), name);
    NamedValuesAbsentOr(FieldsOf(r.query), name);
    NamedValuesAbsentOr(ClientFields(r), name);
  }

  lemma OtherVerbNamed(r: Request, name: Bytes)
    requires Fresh(r) && !FormVerb(r.verb)
    ensures ClientFields(r) == FieldsOf(r.query)
  {
    ClientFieldsOf(r);
  }

  // ---------------------------------------------------------------- what one name signs

  /** What the request and the OAuth parameters give one name. */
  datatype Given = Given(
    form: bool,                       // POST or PUT
    inRequest: bool,                  // the client collects a field of the name
    lastQueried: Option<Bytes>,       // the text of the query's last field of the name
    queried: seq<Bytes>,              // the query's values
    sent: seq<Bytes>,                 // the query's values, then the collected body's
    oauth: Option<Option<Bytes>>)     // the OAuth value, nil or text

  function GivenAt(r: Request, ps: seq<Field>, name: Bytes): Given {
    Given(FormVerb(r.verb), Occurs(ClientFields(r), name),
          match LastAt(FieldsOf(r.query), name) case None => None case Some(f) => Some(f.value.GetOr([])),
          NamedValues(FieldsOf(r.query), name), NamedValues(ClientFields(r), name),
          match OptionAt(ps, name) case None => None case Some(f) => Some(f.value))
  }

  predicate Consistent(g: Given) {
    && (g.lastQueried.Some? ==> g.inRequest)
    && (g.lastQueried.None? ==> g.queried == [])
    && (g.lastQueried.Some? && g.queried == [] ==> g.lastQueried.value == [])
    && (!g.inRequest ==> g.sent == [])
    && (g.sent == [] ==> g.queried == [])
    && (!g.form ==> g.lastQueried.Some? == g.inRequest && g.queried == g.sent)
  }

  lemma GivenConsistent(r: Request, ps: seq<Field>, name: Bytes)
    requires Fresh(r)
    ensures Consistent(GivenAt(r, ps, name))
  {
    RequestNamed(r, name);
    LastAbsent(FieldsOf(r.query), name);
    if !FormVerb(r.verb) {
      OtherVerbNamed(r, name);
    }
    if LastAt(FieldsOf(r.query), name).Some? && NamedValues(FieldsOf(r.query), name) == [] {
      BareOnly(FieldsOf(r.query), LastAt(FieldsOf(r.query), name).value);
    }
  }

  /** What the body scheme signs: a form repeats the query's values, and drops bare keys. */
  function BodyTexts(g: Given): seq<Bytes> {
    if !g.form then OneOrNone(g.sent, g.inRequest)
    else if !g.inRequest then match g.oauth case None => [] case Some(v) => [v.GetOr([])]
    else if g.sent != [] then g.queried + g.sent
    else if g.lastQueried.Some? then [[]] else []
  }

  /** What the header scheme signs. */
  function HeaderTexts(g: Given): seq<Bytes> {
    match g.oauth
    case None => OneOrNone(g.sent, g.inRequest)
    case Some(v) => if v.None? then [[]] else g.sent + [v.value]
  }

  lemma HeaderTextsAt(r: Request, ps: seq<Field>, name: Bytes)
    requires Fresh(r) && DistinctNames(ps)
    ensures TextsAt(ClientHash(r, ps), name) == HeaderTexts(GivenAt(r, ps, name))
  {
    HeaderSchemeTexts(r, ps, name);
  }

  lemma GroupedConcat(a: seq<Field>, b: seq<Field>, name: Bytes)
    ensures TextsAt(Group(a + b), name) ==
            OneOrNone(NamedValues(a, name) + NamedValues(b, name), Occurs(a, name) || Occurs(b, name))
  {
    GroupedTextsAt(a + b, name);
    NamedValuesConcat(a, b, name);
    OccursConcat(a, b, name);
  }

  /** The values the collected fields of the first printing give one name. */
  function Printed(g: Given): seq<Bytes> {
    if !g.form then []
    else if g.inRequest then g.sent
    else match g.oauth case None => [] case Some(v) => if v.None? then [] else [v.value]
  }

  predicate PrintedMentions(g: Given) {
    g.form && if g.inRequest then g.sent != [] else g.oauth.Some?
  }

  lemma GivenValues(r: Request, ps: seq<Field>, name: Bytes)
    requires DistinctNames(ps)
    ensures GivenAt(r, ps, name).oauth.Some? <==> Occurs(ps, name)
    ensures NamedValues(ps, name) ==
            match GivenAt(r, ps, name).oauth case None => [] case Some(v) => if v.None? then [] else [v.value]
  {
    OptionValues(ps, name);
    OptionAbsent(ps, name);
  }

  lemma CollectedNamed(r: Request, ps: seq<Field>, name: Bytes)
    requires DistinctNames(ps)
    ensures NamedValues(Collected(r, ps), name) == Printed(GivenAt(r, ps, name))
    ensures Occurs(Collected(r, ps), name) <==> PrintedMentions(GivenAt(r, ps, name))
  {
    if FormVerb(r.verb) {
      PrintedNamed(r, ps, name);
      GivenValues(r, ps, name);
    } else {
      assert Collected(r, ps) == [];
    }
  }

  lemma PrintedTexts(g: Given)
    requires Consistent(g)
    ensures OneOrNone(g.queried + Printed(g), g.lastQueried.Some? || PrintedMentions(g)) == BodyTexts(g)
  {
    if g.queried == [] {
      assert g.queried + Printed(g) == Printed(g);
    } else if !g.form {
      assert g.queried + Printed(g) == g.queried;
    }
  }

  lemma BodyTextsAt(r: Request, ps: seq<Field>, name: Bytes)
    requires Fresh(r) && FormParameters(ps)
    ensures TextsAt(ClientHash(BodySigning(r, ps), []), name) == BodyTexts(GivenAt(r, ps, name))
  {
    BodySigningFields(r, ps);
    GroupedConcat(FieldsOf(r.query), Collected(r, ps), name);
    CollectedNamed(r, ps, name);
    GivenConsistent(r, ps, name);
    LastAbsent(FieldsOf(r.query), name);
    PrintedTexts(GivenAt(r, ps, name));
  }

  /**
   * One name signed alike by the body and header schemes. POST and PUT: the request does not
   * mention it; or only bare keys do, one of them in the query, and no OAuth text is added; or
   * the query's values, which the form repeats, are exactly its OAuth value. Other methods,
   * which sign no form: it has no OAuth value, or one that bare keys or a blank stand for.
   */
  predicate BodyKeeps(g: Given) {
    var blank := g.oauth in {None, Some(None), Some(Some([]))};
    if g.form then
      !g.inRequest ||
      if g.sent == [] then g.lastQueried.Some? && blank
      else if g.oauth == Some(None) then g.queried == [] && g.sent == [[]]
      else g.queried == (if g.oauth.None? then [] else [g.oauth.value.value])
    else
      g.oauth.None? || (g.inRequest && blank && (g.sent == [] || (g.sent == [[]] && g.oauth == Some(None))))
  }

  lemma SameAddend(x: seq<Bytes>, y: seq<Bytes>, z: seq<Bytes>)
    ensures multiset(x + y) == multiset(y + z) <==> multiset(x) == multiset(z)
  {
    assert multiset(x + y) == multiset(x) + multiset(y);
    assert multiset(y + z) == multiset(y) + multiset(z);
    assert multiset(x + y) - multiset(y) == multiset(x);
    assert multiset(y + z) - multiset(y) == multiset(z);
  }

  lemma ValueReplaced(x: seq<Bytes>, y: seq<Bytes>, z: seq<Bytes>)
    requires |z| <= 1
    ensures multiset(x + y) == multiset(y + z) <==> x == z
  {
    SameAddend(x, y, z);
    SmallMultisets(x, z);
  }

  lemma OneBlank(x: seq<Bytes>, y: seq<Bytes>)
    requires y != []
    ensures multiset(x + y) == multiset([[]]) <==> x == [] && y == [[]]
  {
    SmallMultisets(x + y, [[]]);
    if x == [] {
      assert x + y == y;
    } else {
      assert |x + y| >= 2;
    }
  }

  /** A form whose values the request gives. */
  lemma FormKeeps(g: Given)
    requires Consistent(g) && g.form && g.inRequest && g.sent != []
    ensures multiset(BodyTexts(g)) == multiset(HeaderTexts(g)) <==> BodyKeeps(g)
  {
    match g.oauth
    case None =>
      assert g.sent + [] == g.sent;
      ValueReplaced(g.queried, g.sent, []);
    case Some(None) => OneBlank(g.queried, g.sent);
    case Some(Some(v)) => ValueReplaced(g.queried, g.sent, [v]);
  }

  lemma BareKeeps(g: Given)
    requires Consistent(g) && g.sent == []
    ensures multiset(BodyTexts(g)) == multiset(HeaderTexts(g)) <==> BodyKeeps(g)
  {
    assert forall v: Bytes :: g.sent + [v] == [v];
    SmallMultisets(BodyTexts(g), HeaderTexts(g));
  }

  lemma OtherKeeps(g: Given)
    requires Consistent(g) && !g.form && g.sent != []
    ensures multiset(BodyTexts(g)) == multiset(HeaderTexts(g)) <==> BodyKeeps(g)
  {
    match g.oauth
    case None =>
    case Some(None) => SmallMultisets(g.sent, [[]]);
    case Some(Some(v)) =>
      if multiset(g.sent) == multiset(g.sent + [v]) {
        SameLength(g.sent, g.sent + [v]);
      }
  }

  lemma BodyKeepsExact(g: Given)
    requires Consistent(g)
    ensures multiset(BodyTexts(g)) == multiset(HeaderTexts(g)) <==> BodyKeeps(g)
  {
    if g.sent == [] {
      BareKeeps(g);
    } else if g.form {
      FormKeeps(g);
    } else {
      OtherKeeps(g);
    }
  }

  lemma BodySchemeAt(r: Request, ps: seq<Field>, excluded: set<Bytes>, name: Bytes)
    requires Fresh(r) && FormParameters(ps)
    ensures AgreeAt(ClientHash(BodySigning(r, ps), []), ClientHash(r, ps), excluded, name) <==>
            name in excluded || BodyKeeps(GivenAt(r, ps, name))
  {
    BodyTextsAt(r, ps, name);
    HeaderTextsAt(r, ps, name);
    GivenConsistent(r, ps, name);
    BodyKeepsExact(GivenAt(r, ps, name));
  }

  /**
   * The body and header schemes sign the same base string exactly when every signed name meets
   * `BodyKeeps`, for every method and all OAuth values, nil ones included.
   */
  lemma BodySchemeExact(r: Request, ps: seq<Field>, unsigned: set<Bytes>)
    requires Fresh(r) && FormParameters(ps)
    ensures ClientBase(BodySigning(r, ps), [], unsigned) == ClientBase(r, ps, unsigned) <==>
            forall n :: n in unsigned + {SIGNATURE} || BodyKeeps(GivenAt(r, ps, n))
  {
    var excluded := unsigned + {SIGNATURE};
    var h, k := ClientHash(BodySigning(r, ps), []), ClientHash(r, ps);
    ClientHashShape(BodySigning(r, ps), []);
    ClientHashShape(r, ps);
    SameBaseExact(r.verb, NormalizedUri(r.uri), h, k, excluded);
    forall n
      ensures AgreeAt(h, k, excluded, n) <==> n in excluded || BodyKeeps(GivenAt(r, ps, n))
    {
      BodySchemeAt(r, ps, excluded, n);
    }
  }

  lemma {:induction false} ValuedOccurs(fields: seq<Field>, name: Bytes)
    requires AllValued(fields) && Occurs(fields, name)
    ensures NamedValues(fields, name) != []
  {
    if fields[0].name != name {
      assert fields == [fields[0]] + fields[1..];
      OccursConcat([fields[0]], fields[1..], name);
      assert forall i :: 0 <= i < |fields[1..]| ==> fields[1..][i] == fields[i + 1];
      assert !Occurs([fields[0]], name);
      ValuedOccurs(fields[1..], name);
    } else {
      assert HasValue(fields[0]);
    }
  }

  /** The plain case: POST or PUT, no query, OAuth names all new, every form field with a value. */
  lemma BodySchemeAgrees(r: Request, ps: seq<Field>, unsigned: set<Bytes>)
    requires Fresh(r) && FormVerb(r.verb) && FormParameters(ps)
    requires FieldsOf(r.query) == [] && AllValued(ClientFields(r))
    requires forall f :: f in ps ==> !Occurs(ClientFields(r), f.name)
    ensures ClientBase(BodySigning(r, ps), [], unsigned) == ClientBase(r, ps, unsigned)
  {
    BodySchemeExact(r, ps, unsigned);
    forall n
      ensures BodyKeeps(GivenAt(r, ps, n))
    {
      if Occurs(ClientFields(r), n) {
        ValuedOccurs(ClientFields(r), n);
        OptionAbsent(ps, n);
      }
    }
  }

  // ---------------------------------------------------------------- the second printing

  lemma SignedHashShape(r: Request, ps: seq<Field>, sig: Bytes)
    ensures DistinctKeys(SignedHash(r, ps, sig)) && AllValues(SignedHash(r, ps, sig), ValuedTexts)
    ensures AllValues(SignedHash(r, ps, sig), ScalarOrTexts)
  {
    var h := ClientHash(BodySigning(r, ps), []);
    GroupShape(ClientFields(BodySigning(r, ps)));
    PutDistinct(h, SIGNATURE, Scalar(Some(sig)));
    PutValues(h, SIGNATURE, Scalar(Some(sig)), ValuedTexts);
  }

  /** Values every printed field of which has a text. */
  predicate ValuedTexts(v: Value) {
    (v.Scalar? && v.text.Some?) || TextArray(v)
  }

  lemma {:induction false} HashFieldsValued(h: seq<Entry>)
    requires AllValues(h, ValuedTexts)
    ensures AllValued(HashFields(h))
  {
    if h != [] {
      HashFieldsValued(h[1..]);
      assert ValuedTexts(h[0].value);
    }
  }

  /** What the final body gives one name besides the signature's. */
  function FinalTexts(g: Given): seq<Bytes> {
    g.queried + Printed(g)
  }

  lemma SignedBodyParses(r: Request, ps: seq<Field>, sig: Bytes)
    ensures RackBody(SignedByBody(r, ps, sig)) == HashFields(SignedHash(r, ps, sig))
    ensures AllValued(RackBody(SignedByBody(r, ps, sig)))
  {
    SignedHashShape(r, ps, sig);
    FormRoundTripHash(SignedHash(r, ps, sig));
    HashFieldsValued(SignedHash(r, ps, sig));
  }

  lemma GroupValues(fields: seq<Field>, name: Bytes)
    ensures HashValues(Group(fields), name) == NamedValues(fields, name)
  {
    GroupLookup(fields, name);
    TextsBack(NamedValues(fields, name));
    NamedValuesAbsentOr(fields, name);
  }

  lemma SignedHashValues(r: Request, ps: seq<Field>, sig: Bytes, name: Bytes)
    ensures HashValues(SignedHash(r, ps, sig), name) ==
            if name == SIGNATURE then [sig] else NamedValues(ClientFields(BodySigning(r, ps)), name)
  {
    var fields := ClientFields(BodySigning(r, ps));
    LookupPut(Group(fields), SIGNATURE, Scalar(Some(sig)), name);
    GroupValues(fields, name);
  }

  /**
   * Exactly which fields the final body carries, for every method: the signature once; under any
   * other name the query's values and, for POST and PUT, the request's values or else the OAuth
   * value. None of them is bare.
   */
  lemma SignedBodyCarries(r: Request, ps: seq<Field>, sig: Bytes, name: Bytes)
    requires Fresh(r) && FormParameters(ps)
    ensures AllValued(RackBody(SignedByBody(r, ps, sig)))
    ensures NamedValues(RackBody(SignedByBody(r, ps, sig)), name) ==
            if name == SIGNATURE then [sig] else FinalTexts(GivenAt(r, ps, name))
  {
    SignedBodyParses(r, ps, sig);
    SignedHashShape(r, ps, sig);
    HashFieldsNamed(SignedHash(r, ps, sig), name);
    SignedHashValues(r, ps, sig, name);
    BodySigningFields(r, ps);
    NamedValuesConcat(FieldsOf(r.query), Collected(r, ps), name);
    CollectedNamed(r, ps, name);
  }

  /** For methods other than POST and PUT no OAuth parameter survives, nor any form field. */
  lemma OtherVerbsLoseParameters(r: Request, ps: seq<Field>, sig: Bytes)
    requires Fresh(r) && FormParameters(ps) && !FormVerb(r.verb)
    ensures forall n :: n != SIGNATURE && Occurs(RackBody(SignedByBody(r, ps, sig)), n) ==> Occurs(FieldsOf(r.query), n)
    ensures FieldsOf(r.query) == [] ==> RackBody(SignedByBody(r, ps, sig)) == [SignatureField(sig)]
  {
    var fields := RackBody(SignedByBody(r, ps, sig));
    forall n | n != SIGNATURE && Occurs(fields, n)
      ensures Occurs(FieldsOf(r.query), n)
    {
      SignedBodyCarries(r, ps, sig, n);
      ValuedOccurs(fields, n);
      NamedValuesAbsentOr(FieldsOf(r.query), n);
    }
    if FieldsOf(r.query) == [] {
      SignedBodyParses(r, ps, sig);
      BodySigningFields(r, ps);
      assert SignedHash(r, ps, sig) == [Entry(SIGNATURE, Scalar(Some(sig)))];
      FlatMapOne(EntryFields, Entry(SIGNATURE, Scalar(Some(sig))));
    }
  }

  // ---------------------------------------------------------------- the body scheme on the server

  lemma BodySchemeServes(r: Request, ps: seq<Field>, sig: Bytes)
    requires Fresh(r)
    ensures var signed := SignedByBody(r, ps, sig);
            RackParameters(signed) == Ok(Merge(RackHash(RackBody(signed)), RackHash(FieldsOf(r.query))))
  {
    NoHeaderParams([None, None, r.authorization]);
  }

  /** Where no field is bare, the last one of a name has the last value. */
  lemma {:induction false} LastValue(fields: seq<Field>, name: Bytes)
    requires AllValued(fields)
    ensures var values := NamedValues(fields, name);
            LastAt(fields, name) == if values == [] then None else Some(Field(name, Some(values[|values| - 1])))
  {
    if fields != [] {
      var rest, last := fields[..|fields| - 1], fields[|fields| - 1];
      LastValue(rest, name);
      assert fields == rest + [last] && HasValue(last);
      NamedValuesConcat(rest, [last], name);
      NamedValuesOne(last, name);
    }
  }

  /** What Rack keeps of one name: the query's last field, else the final body's last value. */
  function ServedTexts(g: Given): seq<Bytes> {
    match g.lastQueried
    case Some(text) => [text]
    case None => if Printed(g) == [] then [] else [Printed(g)[|Printed(g)| - 1]]
  }

  lemma ServedTextsAt(r: Request, ps: seq<Field>, sig: Bytes, name: Bytes)
    requires Fresh(r) && FormParameters(ps) && name != SIGNATURE
    ensures KeptTexts(SignedByBody(r, ps, sig), name) == ServedTexts(GivenAt(r, ps, name))
  {
    var g := GivenAt(r, ps, name);
    SignedBodyCarries(r, ps, sig, name);
    LastValue(RackBody(SignedByBody(r, ps, sig)), name);
    GivenConsistent(r, ps, name);
    assert g.queried == [] ==> FinalTexts(g) == Printed(g);
  }

  /**
   * What the body scheme needs of one name at the server. In the query: no value there, for a
   * form repeats it, and at most one blank value in the body; other methods may have the one
   * value of the last query field. Not in the query: at most one value in the form, and no nil
   * OAuth value, which is signed as a blank and then printed away.
   */
  predicate BodyServed(g: Given) {
    match g.lastQueried
    case Some(text) => if g.form then g.queried == [] && g.sent in {[], [[]]} else g.queried in {[], [text]}
    case None =>
      if g.form && !g.inRequest then g.oauth != Some(None)
      else |g.sent| <= 1
  }

  /** A name the query mentions. */
  lemma QueriedServed(g: Given)
    requires Consistent(g) && g.lastQueried.Some?
    ensures BodyTexts(g) == ServedTexts(g) <==> BodyServed(g)
  {
    if g.queried == [] {
      assert g.queried + g.sent == g.sent;
    } else if g.form {
      assert |g.queried + g.sent| >= 2;
    }
  }

  /** A name the query does not mention. */
  lemma UnqueriedServed(g: Given)
    requires Consistent(g) && g.lastQueried.None?
    ensures BodyTexts(g) == ServedTexts(g) <==> BodyServed(g)
  {
    assert g.queried + g.sent == g.sent;
  }

  lemma BodyServedExact(g: Given)
    requires Consistent(g)
    ensures multiset(BodyTexts(g)) == multiset(ServedTexts(g)) <==> BodyServed(g)
  {
    SmallMultisets(BodyTexts(g), ServedTexts(g));
    if g.lastQueried.Some? {
      QueriedServed(g);
    } else {
      UnqueriedServed(g);
    }
  }

  /**
   * The Rack proxy rebuilds from the final request the base string that the body scheme signed
   * exactly when every signed name meets `BodyServed`.
   */
  lemma BodySchemeServesExact(r: Request, ps: seq<Field>, sig: Bytes, seen: Uri, unsigned: set<Bytes>)
    requires Fresh(r) && FormParameters(ps) && SameResource(r.uri, seen)
    requires RackFlat(FieldsOf(r.query) + RackBody(r) + ps)
    ensures RackParameters(SignedByBody(r, ps, sig)).Ok?
    ensures ServerBase(seen, r, RackParameters(SignedByBody(r, ps, sig)).value, unsigned) ==
            ClientBase(BodySigning(r, ps), [], unsigned) <==>
            forall n :: n in unsigned + {SIGNATURE} || BodyServed(GivenAt(r, ps, n))
  {
    var excluded, signed := unsigned + {SIGNATURE}, SignedByBody(r, ps, sig);
    var server := Merge(RackHash(RackBody(signed)), RackHash(FieldsOf(r.query)));
    var client := ClientHash(BodySigning(r, ps), []);
    BodySchemeServes(r, ps, sig);
    RackHashShape(RackBody(signed));
    RackHashShape(FieldsOf(r.query));
    MergeShape(RackHash(RackBody(signed)), RackHash(FieldsOf(r.query)), Signable);
    ClientHashShape(BodySigning(r, ps), []);
    NormalizedUriExact(r.uri, seen);
    SameBaseExact(r.verb, NormalizedUri(seen), server, client, excluded);
    forall n
      ensures AgreeAt(server, client, excluded, n) <==> n in excluded || BodyServed(GivenAt(r, ps, n))
    {
      if n !in excluded {
        RackTexts(signed, n);
        ServedTextsAt(r, ps, sig, n);
        BodyTextsAt(r, ps, n);
        GivenConsistent(r, ps, n);
        BodyServedExact(GivenAt(r, ps, n));
      }
    }
  }

  lemma BodySignatureRead(r: Request, ps: seq<Field>, sig: Bytes)
    requires Fresh(r) && FormParameters(ps) && !Occurs(FieldsOf(r.query), SIGNATURE)
    ensures GivenSignature(Merge(RackHash(RackBody(SignedByBody(r, ps, sig))), RackHash(FieldsOf(r.query)))) == sig
  {
    var body, query := RackBody(SignedByBody(r, ps, sig)), FieldsOf(r.query);
    SignedBodyCarries(r, ps, sig, SIGNATURE);
    LastValue(body, SIGNATURE);
    RackHashShape(query);
    MergeLookup(RackHash(body), RackHash(query), SIGNATURE);
    RackHashLookup(body, SIGNATURE);
    RackHashLookup(query, SIGNATURE);
    LastAbsent(query, SIGNATURE);
  }
}
