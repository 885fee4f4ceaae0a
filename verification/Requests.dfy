/**
 * Requests as the two proxies see them: the Net::HTTP proxy on the signing side and the Rack
 * proxy on the verifying side, and the signature over what each of them collects.
 */
module Requests {
  import opened Wrappers
  import opened Bytes
  import opened Codec
  import opened Lists
  import opened Normalize
  import opened Collect
  import opened Header
  import opened Options
  import opened Uris
  import opened ClientHelper

  /** `form`: the content type starts with application/x-www-form-urlencoded. */
  datatype Request = Request(
    verb: Bytes,
    uri: Uri,
    query: Option<Bytes>,
    form: bool,
    body: Option<Bytes>,
    authorization: Option<Bytes>)

  // ---------------------------------------------------------------- client side

  const POST: Bytes := [0x70, 0x6F, 0x73, 0x74]
  const PUT: Bytes := [0x70, 0x75, 0x74]

  predicate FormVerb(verb: Bytes) {
    Downcase(verb) == POST || Downcase(verb) == PUT
  }

  function Listed(text: Option<Bytes>): seq<Bytes> {
    if text.None? then [] else [text.value]
  }

  /** An Authorization header counts when it starts with OAuth, its first five bytes. */
  function AuthText(r: Request): Option<Bytes> {
    if r.authorization.Some? && OAUTH_SCHEME[..5] <= r.authorization.value then r.authorization else None
  }

  function BodyText(r: Request): Option<Bytes> {
    if FormVerb(r.verb) && r.form then r.body else None
  }

  /** `query_string`: query, OAuth header and form body, joined with `&`. */
  function QueryText(r: Request): Bytes {
    Join(Listed(r.query) + Listed(AuthText(r)) + Listed(BodyText(r)), [AMP])
  }

  /** `query_string` as the proxy builds it, one part appended after another. */
  method QueryString(r: Request) returns (text: Bytes)
    ensures text == QueryText(r)
  {
    var params: seq<Option<Bytes>> := [r.query, AuthText(r)];
    if FormVerb(r.verb) && r.form {
      params := params + [r.body];
    }
    var compact: seq<Bytes> := [];
    for i := 0 to |params|
      invariant compact == FlatMap(Listed, params[..i])
    {
      FlatMapConcat(Listed, params[..i], [params[i]]);
      assert params[..i + 1] == params[..i] + [params[i]];
      FlatMapOne(Listed, params[i]);
      if params[i].Some? {
        compact := compact + [params[i].value];
      }
    }
    assert params[..|params|] == params;
    FlatThree(Listed, r.query, AuthText(r), r.body);
    assert compact == Listed(r.query) + Listed(AuthText(r)) + Listed(BodyText(r));
    text := Join(compact, [AMP]);
  }

  lemma FlatThree<T, U>(f: T -> seq<U>, a: T, b: T, c: T)
    ensures FlatMap(f, [a, b]) == f(a) + f(b)
    ensures FlatMap(f, [a, b, c]) == f(a) + f(b) + f(c)
  {
    FlatMapOne(f, a);
    FlatMapOne(f, b);
    FlatMapOne(f, c);
    FlatMapConcat(f, [a], [b]);
    FlatMapConcat(f, [a, b], [c]);
    assert [a] + [b] == [a, b] && [a, b] + [c] == [a, b, c];
  }

  function ClientFields(r: Request): seq<Field> {
    ParseForm(QueryText(r))
  }

  function FieldsOf(text: Option<Bytes>): seq<Field> {
    if text.None? then [] else ParseForm(text.value)
  }

  /** A request not signed before carries no Authorization header. */
  predicate Fresh(r: Request) {
    r.authorization.None?
  }

  /** Texts, some of them missing, whose fields are wanted. */
  function ListedFields(texts: seq<Option<Bytes>>): seq<Field> {
    FlatMap(FieldsOf, texts)
  }

  /** Joining the texts there are and parsing yields the fields of each. */
  lemma {:induction false} ListedParse(texts: seq<Option<Bytes>>)
    ensures ParseForm(Join(FlatMap(Listed, texts), [AMP])) == ListedFields(texts)
  {
    ParseFormEmpty();
    if texts != [] {
      var rest := FlatMap(Listed, texts[1..]);
      ListedParse(texts[1..]);
      if texts[0].None? {
        assert FlatMap(Listed, texts) == rest;
        assert ListedFields(texts) == ListedFields(texts[1..]);
      } else {
        var all := [texts[0].value] + rest;
        assert FlatMap(Listed, texts) == all && all[1..] == rest;
        if rest != [] {
          ParseFormConcat(texts[0].value, Join(rest, [AMP]));
        } else {
          assert ListedFields(texts) == FieldsOf(texts[0]) + [];
        }
      }
    }
  }

  /** The client collects the fields of the query, of an OAuth header, and of a signed form body. */
  lemma CollectedFields(r: Request)
    ensures ClientFields(r) == FieldsOf(r.query) + FieldsOf(AuthText(r)) + FieldsOf(BodyText(r))
    ensures AuthText(r).Some? <==> r.authorization.Some? && [0x4F, 0x41, 0x75, 0x74, 0x68] <= r.authorization.value
  {
    var texts := [r.query, AuthText(r), BodyText(r)];
    ListedParse(texts);
    FlatThree(Listed, r.query, AuthText(r), BodyText(r));
    FlatThree(FieldsOf, r.query, AuthText(r), BodyText(r));
  }

  lemma ClientFieldsOf(r: Request)
    requires Fresh(r)
    ensures ClientFields(r) == FieldsOf(r.query) + FieldsOf(BodyText(r))
  {
    CollectedFields(r);
    assert FieldsOf(r.query) + FieldsOf(AuthText(r)) == FieldsOf(r.query);
  }

  /** POST and PUT, in letters of either case. */
  lemma FormVerbs(verb: Bytes)
    ensures FormVerb(verb) <==> Downcase(verb) in {Downcase(Ascii("POST")), Downcase(Ascii("PUT"))}
  {
    assert Downcase(Ascii("POST")) == POST;
    assert Downcase(Ascii("PUT")) == PUT;
  }

  /** The parameters the client signs, `opts` being the options' parameters. */
  function ClientHash(r: Request, opts: seq<Field>): seq<Entry> {
    PutOptions(Group(ClientFields(r)), opts)
  }

  function ClientBase(r: Request, opts: seq<Field>, unsigned: set<Bytes>): Result<Bytes, Error> {
    BaseOf(r.verb, NormalizedUri(r.uri), ClientHash(r, opts), unsigned + {SIGNATURE})
  }

  lemma ClientHashShape(r: Request, opts: seq<Field>)
    requires DistinctNames(opts)
    ensures SignableHash(ClientHash(r, opts))
  {
    GroupShape(ClientFields(r));
    PutOptionsShape(Group(ClientFields(r)), opts);
  }

  /** The text signed for a request, which always exists for OAuth option parameters. */
  function SignedText(r: Request, opts: seq<Field>, unsigned: set<Bytes>): Bytes {
    match ClientBase(r, opts, unsigned) case Ok(text) => text case Err(_) => []
  }

  lemma ClientBaseExists(r: Request, opts: seq<Field>, unsigned: set<Bytes>)
    requires DistinctNames(opts)
    ensures ClientBase(r, opts, unsigned) == Ok(SignedText(r, opts, unsigned))
  {
    ClientHashShape(r, opts);
    BaseOfSignable(r.verb, NormalizedUri(r.uri), ClientHash(r, opts), unsigned + {SIGNATURE});
  }

  // ---------------------------------------------------------------- server side

  /** Rack's hash of flat fields: one scalar a name, the last one given. */
  function RackHash(fields: seq<Field>): seq<Entry> {
    if fields == [] then []
    else Put(RackHash(fields[..|fields| - 1]), fields[|fields| - 1].name, Scalar(fields[|fields| - 1].value))
  }

  /** Hash#merge: the second hash's entries win. */
  function Merge(h: seq<Entry>, k: seq<Entry>): seq<Entry>
    decreases |k|
  {
    if k == [] then h else Merge(Put(h, k[0].key, k[0].value), k[1..])
  }

  /** The body fields Rack parses, whatever the method. */
  function RackBody(r: Request): seq<Field> {
    if r.form then FieldsOf(r.body) else []
  }

  /** `RackRequest#parameters`: form body, query and header parameters merged. */
  function RackParameters(r: Request): Result<seq<Entry>, HeaderError> {
    match HeaderParams([None, None, r.authorization])
    case Err(error) => Err(error)
    case Ok(header) => Ok(Merge(Merge(RackHash(RackBody(r)), RackHash(FieldsOf(r.query))), header))
  }

  function ServerBase(seen: Uri, r: Request, params: seq<Entry>, unsigned: set<Bytes>): Result<Bytes, Error> {
    BaseOf(r.verb, NormalizedUri(seen), params, unsigned + {SIGNATURE})
  }

  lemma {:induction false} MergeLookup(h: seq<Entry>, k: seq<Entry>, name: Bytes)
    requires DistinctKeys(k)
    ensures Lookup(Merge(h, k), name) == if Lookup(k, name).Some? then Lookup(k, name) else Lookup(h, name)
    decreases |k|
  {
    if k != [] {
      LookupPut(h, k[0].key, k[0].value, name);
      MergeLookup(Put(h, k[0].key, k[0].value), k[1..], name);
      if k[0].key == name {
        LookupNone(k[1..], name);
      }
    }
  }

  lemma {:induction false} MergeShape(h: seq<Entry>, k: seq<Entry>, p: Value -> bool)
    requires DistinctKeys(h) && AllValues(h, p) && AllValues(k, p)
    ensures DistinctKeys(Merge(h, k)) && AllValues(Merge(h, k), p)
    decreases |k|
  {
    if k != [] {
      PutDistinct(h, k[0].key, k[0].value);
      PutValues(h, k[0].key, k[0].value, p);
      MergeShape(Put(h, k[0].key, k[0].value), k[1..], p);
    }
  }

  lemma {:induction false} RackHashShape(fields: seq<Field>)
    ensures DistinctKeys(RackHash(fields)) && AllValues(RackHash(fields), Signable)
  {
    if fields != [] {
      var rest, last := fields[..|fields| - 1], fields[|fields| - 1];
      RackHashShape(rest);
      PutDistinct(RackHash(rest), last.name, Scalar(last.value));
      PutValues(RackHash(rest), last.name, Scalar(last.value), Signable);
    }
  }

  /** The last field of a name. */
  function LastAt(fields: seq<Field>, name: Bytes): Option<Field> {
    if fields == [] then None
    else if fields[|fields| - 1].name == name then Some(fields[|fields| - 1])
    else LastAt(fields[..|fields| - 1], name)
  }

  /** Rack keeps the last field of every name. */
  lemma {:induction false} RackHashLookup(fields: seq<Field>, name: Bytes)
    ensures Lookup(RackHash(fields), name) ==
            match LastAt(fields, name) case None => None case Some(f) => Some(Scalar(f.value))
  {
    if fields != [] {
      var n := |fields| - 1;
      RackHashLookup(fields[..n], name);
      LookupPut(RackHash(fields[..n]), fields[n].name, Scalar(fields[n].value), name);
    }
  }

  lemma {:induction false} LastAbsent(fields: seq<Field>, name: Bytes)
    ensures LastAt(fields, name).None? <==> !Occurs(fields, name)
    ensures LastAt(fields, name).Some? ==>
              LastAt(fields, name).value in fields && LastAt(fields, name).value.name == name
  {
    if fields != [] {
      var rest, last := fields[..|fields| - 1], fields[|fields| - 1];
      LastAbsent(rest, name);
      assert fields == rest + [last];
      OccursConcat(rest, [last], name);
      assert [last][0] == last;
    }
  }

  lemma {:induction false} LastAtConcat(a: seq<Field>, b: seq<Field>, name: Bytes)
    ensures LastAt(a + b, name) == if LastAt(b, name).Some? then LastAt(b, name) else LastAt(a, name)
  {
    if b == [] {
      assert a + b == a;
    } else {
      var rest := b[..|b| - 1];
      LastAtConcat(a, rest, name);
      assert (a + b)[..|a + b| - 1] == a + rest;
    }
  }

  /** Where every name occurs once, its first field is its last. */
  lemma LastIsOnly(fields: seq<Field>, name: Bytes)
    requires DistinctNames(fields)
    ensures LastAt(fields, name) == OptionAt(fields, name)
  {
    LastAbsent(fields, name);
    OptionAbsent(fields, name);
    if LastAt(fields, name).Some? {
      var i :| 0 <= i < |fields| && fields[i] == LastAt(fields, name).value;
      OptionFound(fields, i);
    }
  }

  /** A name without values has bare fields only. */
  lemma {:induction false} BareOnly(fields: seq<Field>, f: Field)
    requires f in fields && NamedValues(fields, f.name) == []
    ensures f.value.None?
  {
    if fields[0] != f {
      assert fields == [fields[0]] + fields[1..];
      BareOnly(fields[1..], f);
    }
  }

  /** The field whose value Rack merges under a name: the query's last, else the form body's last. */
  function RackKeeps(r: Request, name: Bytes): Option<Field> {
    var inQuery := LastAt(FieldsOf(r.query), name);
    if inQuery.Some? then inQuery else LastAt(RackBody(r), name)
  }

  function KeptTexts(r: Request, name: Bytes): seq<Bytes> {
    match RackKeeps(r, name) case None => [] case Some(f) => [f.value.GetOr([])]
  }

  lemma RackTexts(r: Request, name: Bytes)
    ensures TextsAt(Merge(RackHash(RackBody(r)), RackHash(FieldsOf(r.query))), name) == KeptTexts(r, name)
  {
    RackHashShape(FieldsOf(r.query));
    MergeLookup(RackHash(RackBody(r)), RackHash(FieldsOf(r.query)), name);
    RackHashLookup(RackBody(r), name);
    RackHashLookup(FieldsOf(r.query), name);
  }

  /**
   * The client signs a name that Rack keeps, and signs no value for it other than the one of
   * the field Rack keeps.
   */
  predicate KeptAlone(r: Request, name: Bytes) {
    match RackKeeps(r, name)
    case None => true
    case Some(f) =>
      Occurs(ClientFields(r), name) && NamedValues(ClientFields(r), name) in {[], [f.value.GetOr([])]}
  }

  lemma KeptField(r: Request, name: Bytes)
    requires Fresh(r)
    ensures RackKeeps(r, name).None? ==> !Occurs(ClientFields(r), name)
    ensures RackKeeps(r, name).Some? ==> RackKeeps(r, name).value.name == name
    ensures RackKeeps(r, name).Some? && Occurs(ClientFields(r), name) ==> RackKeeps(r, name).value in ClientFields(r)
  {
    ClientFieldsOf(r);
    LastAbsent(FieldsOf(r.query), name);
    LastAbsent(RackBody(r), name);
    OccursConcat(FieldsOf(r.query), FieldsOf(BodyText(r)), name);
  }

  lemma KeptAloneExact(r: Request, name: Bytes)
    requires Fresh(r)
    ensures multiset(GroupedTexts(ClientFields(r), name)) == multiset(KeptTexts(r, name)) <==> KeptAlone(r, name)
  {
    var fields := ClientFields(r);
    KeptField(r, name);
    NamedValuesAbsentOr(fields, name);
    SmallMultisets(GroupedTexts(fields, name), KeptTexts(r, name));
    if RackKeeps(r, name).Some? && Occurs(fields, name) && NamedValues(fields, name) == [] {
      BareOnly(fields, RackKeeps(r, name).value);
    }
  }

  lemma {:induction false} OptionAtConcat(a: seq<Field>, b: seq<Field>, name: Bytes)
    ensures OptionAt(a + b, name) == if OptionAt(a, name).Some? then OptionAt(a, name) else OptionAt(b, name)
  {
    if a == [] {
      assert a + b == b;
    } else {
      OptionAtConcat(a[1..], b, name);
      assert (a + b)[1..] == a[1..] + b;
    }
  }

  // ---------------------------------------------------------------- signatures

  const RETURN: Byte := 0x0D

  /** String#chomp. */
  function Chomp(s: Bytes): Bytes {
    if s == [] then s
    else if s[|s| - 1] == NEWLINE then
      if |s| > 1 && s[|s| - 2] == RETURN then s[..|s| - 2] else s[..|s| - 1]
    else if s[|s| - 1] == RETURN then s[..|s| - 1]
    else s
  }

  predicate NotNewline(b: Byte) {
    b != NEWLINE
  }

  /** The secrets of consumer and token, escaped and joined. */
  function SigningKey(consumerSecret: Option<Bytes>, tokenSecret: Option<Bytes>): Bytes {
    EscapeScalar(consumerSecret) + [AMP] + EscapeScalar(tokenSecret)
  }

  /** The signing key determines both secrets, a missing one read as "". */
  lemma SigningKeyExact(
    consumer: Option<Bytes>, token: Option<Bytes>, consumer': Option<Bytes>, token': Option<Bytes>)
    ensures SigningKey(consumer, token) == SigningKey(consumer', token') <==>
            consumer.GetOr([]) == consumer'.GetOr([]) && token.GetOr([]) == token'.GetOr([])
  {
    if SigningKey(consumer, token) == SigningKey(consumer', token') {
      EscapeShape(consumer.GetOr([]));
      EscapeShape(consumer'.GetOr([]));
      CutUnique(EscapeScalar(consumer), AMP, EscapeScalar(token), EscapeScalar(consumer'), AMP, EscapeScalar(token'));
      EscapeInjective(consumer.GetOr([]), consumer'.GetOr([]));
      EscapeInjective(token.GetOr([]), token'.GetOr([]));
    }
  }

  /** The signature of a text: `mac` is the keyed digest in Base64, of which nothing is assumed. */
  function Signature(mac: (Bytes, Bytes) -> Bytes, key: Bytes, text: Bytes): Bytes {
    Filter(NotNewline, Chomp(mac(key, text)))
  }

  lemma {:induction false} FilteredClean(s: Bytes)
    ensures NEWLINE !in Filter(NotNewline, s)
  {
    if s != [] {
      FilteredClean(s[1..]);
    }
  }

  lemma SignatureHasNoNewline(mac: (Bytes, Bytes) -> Bytes, key: Bytes, text: Bytes)
    ensures NEWLINE !in Signature(mac, key, text)
  {
    FilteredClean(Chomp(mac(key, text)));
  }

  /** What chomp and delete leave of an encoded digest: its lines, one after another. */
  lemma SignatureLines(mac: (Bytes, Bytes) -> Bytes, key: Bytes, text: Bytes, lines: seq<Bytes>)
    requires mac(key, text) == FlatMap(Line, lines)
    requires forall i :: 0 <= i < |lines| ==> Free(lines[i], {NEWLINE, RETURN})
    ensures Signature(mac, key, text) == FlatMap(Unbroken, lines)
  {
    LinesFiltered(lines);
    LinesChomped(lines);
  }

  /** One line of an encoded digest, with and without its line break. */
  function Line(line: Bytes): Bytes {
    line + [NEWLINE]
  }

  function Unbroken(line: Bytes): Bytes {
    line
  }

  lemma LineFiltered(line: Bytes)
    requires Free(line, {NEWLINE, RETURN})
    ensures Filter(NotNewline, Line(line)) == line
  {
    FilterAll(NotNewline, line);
    FilterConcat(NotNewline, line, [NEWLINE]);
    var last: Bytes := [NEWLINE];
    assert Filter(NotNewline, last) == [];
  }

  lemma {:induction false} LinesFiltered(lines: seq<Bytes>)
    requires forall i :: 0 <= i < |lines| ==> Free(lines[i], {NEWLINE, RETURN})
    ensures Filter(NotNewline, FlatMap(Line, lines)) == FlatMap(Unbroken, lines)
  {
    if lines != [] {
      LineFiltered(lines[0]);
      LinesFiltered(lines[1..]);
      FilterConcat(NotNewline, Line(lines[0]), FlatMap(Line, lines[1..]));
    }
  }

  lemma ChompBreak(text: Bytes)
    requires text == [] || text[|text| - 1] != RETURN
    ensures Chomp(text + [NEWLINE]) == text
  {
  }

  lemma LinesChomped(lines: seq<Bytes>)
    requires forall i :: 0 <= i < |lines| ==> Free(lines[i], {NEWLINE, RETURN})
    ensures Filter(NotNewline, Chomp(FlatMap(Line, lines))) == Filter(NotNewline, FlatMap(Line, lines))
  {
    if lines != [] {
      var init, last := FlatMap(Line, lines[..|lines| - 1]), lines[|lines| - 1];
      FlatMapLast(Line, lines);
      Assoc(init, last, [NEWLINE]);
      NoReturnAtEnd(lines[..|lines| - 1], last);
      ChompBreak(init + last);
      FilterConcat(NotNewline, init + last, [NEWLINE]);
      var one: Bytes := [NEWLINE];
      assert Filter(NotNewline, one) == [];
    }
  }

  lemma NoReturnAtEnd(lines: seq<Bytes>, last: Bytes)
    requires Free(last, {NEWLINE, RETURN})
    ensures var text := FlatMap(Line, lines) + last; text == [] || text[|text| - 1] != RETURN
  {
    EndsInBreak(lines);
    if last != [] {
      assert last[|last| - 1] != RETURN;
    }
  }

  lemma EndsInBreak(lines: seq<Bytes>)
    ensures var text := FlatMap(Line, lines); text != [] ==> text[|text| - 1] == NEWLINE
  {
    if lines != [] {
      FlatMapLast(Line, lines);
    }
  }

  /** A digest that answers to one key and one text only. */
  function Recognizing(key: Bytes, text: Bytes): (Bytes, Bytes) -> Bytes {
    (k, t) => if k == key && t == text then [0x31] else []
  }

  lemma Recognized(key: Bytes, text: Bytes, k: Bytes, t: Bytes)
    ensures Signature(Recognizing(key, text), k, t) == if k == key && t == text then [0x31] else []
  {
    assert [0x31][1..] == [];
  }

  /** Signatures agree under every digest exactly when secrets and texts do. */
  lemma SignaturesTell(
    consumer: Option<Bytes>, token: Option<Bytes>, text: Bytes,
    consumer': Option<Bytes>, token': Option<Bytes>, text': Bytes)
    ensures (forall mac: (Bytes, Bytes) -> Bytes ::
               Signature(mac, SigningKey(consumer, token), text) ==
               Signature(mac, SigningKey(consumer', token'), text')) <==>
            consumer.GetOr([]) == consumer'.GetOr([]) && token.GetOr([]) == token'.GetOr([]) && text == text'
  {
    var key, key' := SigningKey(consumer, token), SigningKey(consumer', token');
    SigningKeyExact(consumer, token, consumer', token');
    Recognized(key, text, key, text);
    Recognized(key, text, key', text');
    if forall mac: (Bytes, Bytes) -> Bytes :: Signature(mac, key, text) == Signature(mac, key', text') {
      assert Signature(Recognizing(key, text), key, text) == Signature(Recognizing(key, text), key', text');
    }
  }
}
