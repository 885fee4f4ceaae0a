/**
 * End to end: what the Rack side rebuilds from a signed request, against what the client
 * signed.
 */
module Agreement {
  import opened Wrappers
  import opened Bytes
  import opened Lists
  import opened Sorting
  import opened Normalize
  import opened Collect
  import opened Header
  import opened Options
  import opened Uris
  import opened ClientHelper
  import opened Requests

  function SignatureField(sig: Bytes): Field {
    Field(SIGNATURE, Some(sig))
  }

  /** The request after `set_oauth_header`. */
  function SignedByHeader(r: Request, realm: Option<Bytes>, ps: seq<Field>, sig: Bytes): Request {
    r.(authorization := Some(HeaderText(realm, ps + [SignatureField(sig)])))
  }

  /** Names Rack reads as flat parameters: not empty and without brackets. */
  predicate RackFlat(fields: seq<Field>) {
    forall i :: 0 <= i < |fields| ==> fields[i].name != [] && Free(fields[i].name, {OPEN, CLOSE})
  }

  /** Every name occurs once across query, form body and OAuth parameters. */
  predicate UniqueNames(r: Request, ps: seq<Field>) {
    DistinctNames(FieldsOf(r.query) + RackBody(r) + ps)
  }

  /** The server reached the same resource: same origin, same path. */
  predicate SameResource(u: Uri, v: Uri) {
    IsHttp(u) && IsHttp(v) && !CrossOrigin(u, v) && PathText(u) == PathText(v)
  }

  predicate SignedNewlineFree(ps: seq<Field>, excluded: set<Bytes>) {
    forall i :: 0 <= i < |ps| ==> ps[i].name in excluded || NEWLINE !in ps[i].value.GetOr([])
  }

  /** The client signs the form body too: the method is POST or PUT, or nothing in it is signed. */
  predicate BodySigned(r: Request, excluded: set<Bytes>) {
    FormVerb(r.verb) || forall i :: 0 <= i < |RackBody(r)| ==> RackBody(r)[i].name in excluded
  }

  // ---------------------------------------------------------------- what the header yields

  lemma SignatureName()
    ensures TokenName(SIGNATURE) && OAUTH_PREFIX <= SIGNATURE
  {
    AsciiName("oauth_signature");
  }

  lemma PrintableFields(ps: seq<Field>, sig: Bytes)
    requires NameList(ps)
    ensures HeaderFields(ps + [SignatureField(sig)])
  {
    SignatureName();
  }

  function ReadValue(f: Field): Value {
    ReadBack(f).value
  }

  lemma {:induction false} ReadBackLookup(fs: seq<Field>, name: Bytes)
    ensures Lookup(Map(ReadBack, fs), name) ==
            match OptionAt(fs, name) case None => None case Some(f) => Some(ReadValue(f))
  {
    if fs != [] {
      ReadBackLookup(fs[1..], name);
      assert Map(ReadBack, fs)[1..] == Map(ReadBack, fs[1..]);
    }
  }

  lemma OptionAtSorted(fs: seq<Field>, name: Bytes)
    requires HeaderFields(fs)
    ensures OptionAt(Sort(FieldLeq, fs), name) == OptionAt(fs, name)
  {
    var sorted := Sort(FieldLeq, fs);
    SortedFields(fs);
    OptionAbsent(sorted, name);
    OptionAbsent(fs, name);
    if i :| 0 <= i < |fs| && fs[i].name == name {
      InPermutation(sorted, fs, i);
      var j :| 0 <= j < |sorted| && sorted[j] == fs[i];
      OptionFound(fs, i);
      OptionFound(sorted, j);
    } else if j :| 0 <= j < |sorted| && sorted[j].name == name {
      InPermutation(fs, sorted, j);
    }
  }

  predicate ScalarValue(v: Value) {
    v.Scalar?
  }

  lemma RackHashScalars(fields: seq<Field>)
    ensures AllValues(RackHash(fields), ScalarValue)
  {
    if fields != [] {
      var n := |fields| - 1;
      RackHashScalars(fields[..n]);
      PutValues(RackHash(fields[..n]), fields[n].name, Scalar(fields[n].value), ScalarValue);
    }
  }

  /** The header parameters of a signed request, as the server merges them. */
  function HeaderEntries(ps: seq<Field>, sig: Bytes): seq<Entry> {
    Map(ReadBack, Sort(FieldLeq, ps + [SignatureField(sig)]))
  }

  function ServerParameters(r: Request, header: seq<Entry>): seq<Entry> {
    Merge(Merge(RackHash(RackBody(r)), RackHash(FieldsOf(r.query))), header)
  }

  lemma HeaderEntriesShape(ps: seq<Field>, sig: Bytes)
    requires NameList(ps)
    ensures DistinctKeys(HeaderEntries(ps, sig)) && AllValues(HeaderEntries(ps, sig), ScalarValue)
  {
    PrintableFields(ps, sig);
    SortedFields(ps + [SignatureField(sig)]);
  }

  lemma ServerReads(r: Request, realm: Option<Bytes>, ps: seq<Field>, sig: Bytes)
    requires NameList(ps) && SafeRealm(realm)
    ensures RackParameters(SignedByHeader(r, realm, ps, sig)) == Ok(ServerParameters(r, HeaderEntries(ps, sig)))
  {
    PrintableFields(ps, sig);
    var text := HeaderText(realm, ps + [SignatureField(sig)]);
    HeaderParamsReadBack(realm, ps + [SignatureField(sig)], [None, None, Some(text)], 2);
  }

  lemma ServerShape(r: Request, header: seq<Entry>)
    requires DistinctKeys(header) && AllValues(header, ScalarValue)
    ensures SignableHash(ServerParameters(r, header))
    ensures AllValues(ServerParameters(r, header), ScalarValue)
  {
    RackHashShape(RackBody(r));
    RackHashScalars(RackBody(r));
    RackHashShape(FieldsOf(r.query));
    RackHashScalars(FieldsOf(r.query));
    MergeShape(RackHash(RackBody(r)), RackHash(FieldsOf(r.query)), ScalarValue);
    MergeShape(Merge(RackHash(RackBody(r)), RackHash(FieldsOf(r.query))), header, ScalarValue);
  }

  // ---------------------------------------------------------------- name by name

  function TextAt(fields: seq<Field>, name: Bytes): seq<Bytes> {
    match OptionAt(fields, name) case None => [] case Some(f) => [f.value.GetOr([])]
  }

  lemma ServerTexts(r: Request, header: seq<Entry>, name: Bytes)
    requires DistinctKeys(header)
    ensures TextsAt(ServerParameters(r, header), name) ==
            if Lookup(header, name).Some? then TextsAt(header, name) else KeptTexts(r, name)
  {
    MergeLookup(Merge(RackHash(RackBody(r)), RackHash(FieldsOf(r.query))), header, name);
    RackTexts(r, name);
  }

  lemma HeaderTexts(ps: seq<Field>, sig: Bytes, name: Bytes)
    requires NameList(ps)
    ensures Lookup(HeaderEntries(ps, sig), name) ==
            match OptionAt(ps, name)
            case Some(f) => Some(ReadValue(f))
            case None => if name == SIGNATURE then Some(ReadValue(SignatureField(sig))) else None
  {
    var all := ps + [SignatureField(sig)];
    PrintableFields(ps, sig);
    ReadBackLookup(Sort(FieldLeq, all), name);
    OptionAtSorted(all, name);
    OptionAtConcat(ps, [SignatureField(sig)], name);
    var one := [SignatureField(sig)];
    assert one[1..] == [];
  }

  /**
   * What the base strings need of one name. A name with an OAuth value: no request value beside
   * it, and no line break in it; a nil one replaces all request values, on both sides. Any other
   * name: the client signs only the value of the field that Rack keeps.
   */
  predicate NameServed(r: Request, ps: seq<Field>, name: Bytes) {
    match OptionAt(ps, name)
    case None => KeptAlone(r, name)
    case Some(f) => f.value.None? || (NEWLINE !in f.value.value && NamedValues(ClientFields(r), name) == [])
  }

  ghost predicate AllServed(r: Request, ps: seq<Field>, excluded: set<Bytes>) {
    forall n :: n in excluded || NameServed(r, ps, n)
  }

  /** A signed list against the one text read back from the header. */
  lemma ReadBackTexts(values: seq<Bytes>, value: Option<Bytes>)
    ensures multiset([StripQuotes(Quote(value.GetOr([])))]) ==
            multiset(if value.None? then [[]] else values + [value.value]) <==>
            value.None? || (NEWLINE !in value.value && values == [])
  {
    StripQuotesExact(value.GetOr([]));
    if value.Some? {
      var read := StripQuotes(Quote(value.value));
      SmallMultisets(values + [value.value], [read]);
      if values == [] {
        assert values + [value.value] == [value.value];
      } else {
        assert |values + [value.value]| >= 2;
      }
    }
  }

  lemma AgreeExact(r: Request, ps: seq<Field>, sig: Bytes, excluded: set<Bytes>, name: Bytes)
    requires Fresh(r) && NameList(ps) && SIGNATURE in excluded
    ensures AgreeAt(ServerParameters(r, HeaderEntries(ps, sig)), ClientHash(r, ps), excluded, name) <==>
            name in excluded || NameServed(r, ps, name)
  {
    if name !in excluded {
      HeaderEntriesShape(ps, sig);
      ServerTexts(r, HeaderEntries(ps, sig), name);
      HeaderTexts(ps, sig, name);
      OptionTextsAt(ClientFields(r), ps, name);
      match OptionAt(ps, name)
      case None => KeptAloneExact(r, name);
      case Some(f) => ReadBackTexts(NamedValues(ClientFields(r), name), f.value);
    }
  }

  // ---------------------------------------------------------------- header scheme

  /**
   * For every fresh request, whatever its names and however often they occur, the base string
   * the Rack proxy rebuilds from header, query and body is the client's exactly when every
   * signed name meets `NameServed`.
   */
  lemma HeaderSchemeExact(
    r: Request, realm: Option<Bytes>, ps: seq<Field>, sig: Bytes, seen: Uri, unsigned: set<Bytes>)
    requires Fresh(r) && NameList(ps) && SafeRealm(realm) && SameResource(r.uri, seen)
    requires RackFlat(FieldsOf(r.query) + RackBody(r))
    ensures RackParameters(SignedByHeader(r, realm, ps, sig)).Ok?
    ensures ServerBase(seen, r, RackParameters(SignedByHeader(r, realm, ps, sig)).value, unsigned) ==
            ClientBase(r, ps, unsigned) <==>
            AllServed(r, ps, unsigned + {SIGNATURE})
  {
    var excluded := unsigned + {SIGNATURE};
    var server := ServerParameters(r, HeaderEntries(ps, sig));
    ServerReads(r, realm, ps, sig);
    HeaderEntriesShape(ps, sig);
    ServerShape(r, HeaderEntries(ps, sig));
    ClientHashShape(r, ps);
    NormalizedUriExact(r.uri, seen);
    SameBaseExact(r.verb, NormalizedUri(seen), server, ClientHash(r, ps), excluded);
    forall n
      ensures AgreeAt(server, ClientHash(r, ps), excluded, n) <==> n in excluded || NameServed(r, ps, n)
    {
      AgreeExact(r, ps, sig, excluded, n);
    }
  }

  /** A signed name with two values never agrees, since the Rack proxy keeps one value a name. */
  lemma RepeatedNameBreaks(
    r: Request, realm: Option<Bytes>, ps: seq<Field>, sig: Bytes, seen: Uri, unsigned: set<Bytes>, name: Bytes)
    requires NameList(ps) && SafeRealm(realm) && SameResource(r.uri, seen)
    requires name !in unsigned + {SIGNATURE} && |OptionTexts(ClientFields(r), ps, name)| >= 2
    ensures RackParameters(SignedByHeader(r, realm, ps, sig)).Ok?
    ensures ServerBase(seen, r, RackParameters(SignedByHeader(r, realm, ps, sig)).value, unsigned) !=
            ClientBase(r, ps, unsigned)
  {
    var server := ServerParameters(r, HeaderEntries(ps, sig));
    ServerReads(r, realm, ps, sig);
    HeaderEntriesShape(ps, sig);
    ServerShape(r, HeaderEntries(ps, sig));
    ClientHashShape(r, ps);
    NormalizedUriExact(r.uri, seen);
    SameBaseExact(r.verb, NormalizedUri(seen), server, ClientHash(r, ps), unsigned + {SIGNATURE});
    OptionTextsAt(ClientFields(r), ps, name);
    if Lookup(server, name).Some? {
      LookupValue(server, name, ScalarValue);
    }
    assert |multiset(TextsAt(server, name))| <= 1;
    assert |multiset(TextsAt(ClientHash(r, ps), name))| >= 2;
    assert !AgreeAt(server, ClientHash(r, ps), unsigned + {SIGNATURE}, name);
  }

  lemma TwoFields(a: Field, b: Field)
    requires a.name == b.name
    ensures NamedValues([a, b], a.name) == NamedValue(a, a.name) + NamedValue(b, a.name)
    ensures Occurs([a, b], a.name) && LastAt([a, b], a.name) == Some(b)
  {
    assert [a, b] == [a] + [b] && [a, b][0].name == a.name;
    NamedValuesConcat([a], [b], a.name);
    NamedValuesOne(a, a.name);
    NamedValuesOne(b, a.name);
  }

  /** `n=v&n` is signed with its value but kept without it; `n&n=v` is kept as it is signed. */
  lemma BareKeyLast(r: Request, name: Bytes, v: Bytes)
    requires Fresh(r) && RackBody(r) == [] && v != []
    ensures FieldsOf(r.query) == [Field(name, Some(v)), Field(name, None)] ==> !NameServed(r, [], name)
    ensures FieldsOf(r.query) == [Field(name, None), Field(name, Some(v))] ==> NameServed(r, [], name)
  {
    var bare, valued := Field(name, None), Field(name, Some(v));
    ClientFieldsOf(r);
    assert FieldsOf(BodyText(r)) == [];
    assert ClientFields(r) == FieldsOf(r.query);
    TwoFields(valued, bare);
    TwoFields(bare, valued);
    assert NamedValue(valued, name) + NamedValue(bare, name) == [v];
    assert NamedValue(bare, name) + NamedValue(valued, name) == [v];
  }

  // ---------------------------------------------------------------- names that occur once

  /** Of two lists side by side, each has distinct names, and only one mentions a given name. */
  lemma DistinctSides(a: seq<Field>, b: seq<Field>, name: Bytes)
    requires DistinctNames(a + b)
    ensures DistinctNames(a) && DistinctNames(b)
    ensures Occurs(b, name) ==> !Occurs(a, name)
  {
    var all := a + b;
    assert forall i :: 0 <= i < |a| ==> all[i] == a[i];
    assert forall i :: 0 <= i < |b| ==> all[|a| + i] == b[i];
    if Occurs(b, name) {
      var k :| 0 <= k < |b| && b[k].name == name;
      assert all[|a| + k].name == name;
    }
  }

  lemma DistinctParts(a: seq<Field>, b: seq<Field>, c: seq<Field>, name: Bytes)
    requires DistinctNames(a + b + c)
    ensures DistinctNames(a) && DistinctNames(b) && DistinctNames(c)
    ensures DistinctNames(a + b)
    ensures Occurs(c, name) ==> !Occurs(a, name) && !Occurs(b, name)
    ensures Occurs(b, name) ==> !Occurs(a, name)
  {
    DistinctSides(a + b, c, name);
    DistinctSides(a, b, name);
    OccursConcat(a, b, name);
  }

  predicate NameAgrees(r: Request, ps: seq<Field>, name: Bytes) {
    && (forall f :: f in ps && f.name == name ==> NEWLINE !in f.value.GetOr([]))
    && (FormVerb(r.verb) || !Occurs(RackBody(r), name))
  }

  /** The fields the client collects from the form body: POST and PUT only. */
  lemma CollectedBody(r: Request)
    ensures FieldsOf(BodyText(r)) == if FormVerb(r.verb) then RackBody(r) else []
  {
  }

  /** A name whose fields are all distinct is kept as it is signed, if it is signed. */
  lemma UniqueKept(r: Request, name: Bytes)
    requires Fresh(r) && DistinctNames(FieldsOf(r.query) + RackBody(r))
    ensures KeptAlone(r, name) <==> FormVerb(r.verb) || !Occurs(RackBody(r), name)
  {
    var q, body, collected := FieldsOf(r.query), RackBody(r), FieldsOf(BodyText(r));
    ClientFieldsOf(r);
    CollectedBody(r);
    assert DistinctNames(q + collected) by {
      assert collected == [] ==> q + collected == q;
      assert forall i :: 0 <= i < |q| ==> (q + body)[i] == q[i];
    }
    DistinctParts(q, body, [], name);
    LastIsOnly(q, name);
    LastIsOnly(body, name);
    OptionValues(q + collected, name);
    OptionAtConcat(q, collected, name);
    OptionAbsent(q, name);
    OptionAbsent(body, name);
    OccursConcat(q, collected, name);
  }

  lemma UniqueServed(r: Request, ps: seq<Field>, name: Bytes)
    requires Fresh(r) && UniqueNames(r, ps)
    ensures NameServed(r, ps, name) <==> NameAgrees(r, ps, name)
  {
    var q, body := FieldsOf(r.query), RackBody(r);
    DistinctParts(q, body, ps, name);
    OptionAbsent(ps, name);
    if Occurs(ps, name) {
      OnlyField(ps, OptionAt(ps, name).value, name);
      ClientFieldsOf(r);
      CollectedBody(r);
      OccursConcat(q, FieldsOf(BodyText(r)), name);
      NamedValuesAbsent(ClientFields(r), name);
    } else {
      NotAmong(ps, name);
      UniqueKept(r, name);
    }
  }

  lemma OnlyField(ps: seq<Field>, f: Field, name: Bytes)
    requires DistinctNames(ps) && f in ps && f.name == name
    ensures forall g :: g in ps && g.name == name ==> g == f
  {
  }

  lemma NotAmong(ps: seq<Field>, name: Bytes)
    requires !Occurs(ps, name)
    ensures forall g :: g in ps ==> g.name != name
  {
    forall g | g in ps
      ensures g.name != name
    {
      var i :| 0 <= i < |ps| && ps[i] == g;
    }
  }

  lemma NamesCovered(r: Request, ps: seq<Field>, excluded: set<Bytes>)
    requires DistinctNames(ps)
    ensures SignedNewlineFree(ps, excluded) && BodySigned(r, excluded) <==>
            forall n :: n in excluded || NameAgrees(r, ps, n)
  {
    if SignedNewlineFree(ps, excluded) && BodySigned(r, excluded) {
      forall n | n !in excluded
        ensures NameAgrees(r, ps, n)
      {
      }
    }
    if forall n :: n in excluded || NameAgrees(r, ps, n) {
      forall i | 0 <= i < |ps|
        ensures ps[i].name in excluded || NEWLINE !in ps[i].value.GetOr([])
      {
        assert ps[i] in ps;
        assert ps[i].name in excluded || NameAgrees(r, ps, ps[i].name);
      }
      if !FormVerb(r.verb) {
        forall i | 0 <= i < |RackBody(r)|
          ensures RackBody(r)[i].name in excluded
        {
          var n := RackBody(r)[i].name;
          assert Occurs(RackBody(r), n);
          assert n in excluded || NameAgrees(r, ps, n);
        }
      }
    }
  }

  /**
   * For a fresh request whose names each occur once, the base string the Rack proxy rebuilds
   * from header, query and body is the client's exactly when no signed OAuth value holds a
   * line break and the client signed the form body at all.
   */
  lemma HeaderSchemeAgreesExact(
    r: Request, realm: Option<Bytes>, ps: seq<Field>, sig: Bytes, seen: Uri, unsigned: set<Bytes>)
    requires Fresh(r) && NameList(ps) && SafeRealm(realm) && UniqueNames(r, ps) && SameResource(r.uri, seen)
    requires RackFlat(FieldsOf(r.query) + RackBody(r))
    ensures RackParameters(SignedByHeader(r, realm, ps, sig)).Ok?
    ensures ServerBase(seen, r, RackParameters(SignedByHeader(r, realm, ps, sig)).value, unsigned) ==
            ClientBase(r, ps, unsigned) <==>
            SignedNewlineFree(ps, unsigned + {SIGNATURE}) && BodySigned(r, unsigned + {SIGNATURE})
  {
    HeaderSchemeExact(r, realm, ps, sig, seen, unsigned);
    UniqueAllServed(r, ps, unsigned + {SIGNATURE});
  }

  lemma UniqueAllServed(r: Request, ps: seq<Field>, excluded: set<Bytes>)
    requires Fresh(r) && UniqueNames(r, ps)
    ensures AllServed(r, ps, excluded) <==> SignedNewlineFree(ps, excluded) && BodySigned(r, excluded)
  {
    DistinctParts(FieldsOf(r.query), RackBody(r), ps, []);
    NamesCovered(r, ps, excluded);
    forall n
      ensures NameServed(r, ps, n) <==> NameAgrees(r, ps, n)
    {
      UniqueServed(r, ps, n);
    }
  }

  // ---------------------------------------------------------------- verification

  /** `signature` of a proxy: the first text under oauth_signature, or "". */
  function GivenSignature(params: seq<Entry>): Bytes {
    match Lookup(params, SIGNATURE) case None => [] case Some(v) => ScalarText(v).GetOr([])
  }

  /** `verify`: the rebuilt signature against the one the request carries. */
  function Verified(
    mac: (Bytes, Bytes) -> Bytes, key: Bytes, seen: Uri, r: Request, unsigned: set<Bytes>): bool
  {
    match RackParameters(r)
    case Err(_) => false
    case Ok(params) =>
      match ServerBase(seen, r, params, unsigned)
      case Err(_) => false
      case Ok(text) => Signature(mac, key, text) == GivenSignature(params)
  }

  lemma SignatureReadBack(r: Request, ps: seq<Field>, sig: Bytes)
    requires NameList(ps)
    ensures NEWLINE !in sig ==> GivenSignature(ServerParameters(r, HeaderEntries(ps, sig))) == sig
  {
    HeaderEntriesShape(ps, sig);
    MergeLookup(Merge(RackHash(RackBody(r)), RackHash(FieldsOf(r.query))), HeaderEntries(ps, sig), SIGNATURE);
    HeaderTexts(ps, sig, SIGNATURE);
    OptionAbsent(ps, SIGNATURE);
    StripQuotesExact(sig);
  }

  /** A header with an odd number of pieces raises, so nothing verifies. */
  lemma MalformedRefused(
    mac: (Bytes, Bytes) -> Bytes, key: Bytes, seen: Uri, r: Request, unsigned: set<Bytes>, text: Bytes)
    requires r.authorization == Some(OAUTH_SCHEME + text)
    requires |DropTrailingEmpty(Split(text, Separators()))| % 2 == 1
    ensures RackParameters(r) == Err(Malformed) && !Verified(mac, key, seen, r, unsigned)
  {
    var header := r.authorization;
    assert (OAUTH_SCHEME + text)[6..] == text;
    assert ParseHeader(header.value) == Err(Malformed);
    assert [None, None, header][1..] == [None, header] && [None, header][1..] == [header];
    assert HeaderParams([header]) == Err(Malformed);
    assert HeaderParams([None, header]) == Err(Malformed);
  }

  /** The realm is sent as it was given, in front of the parameters. */
  lemma RealmSent(r: Request, realm: Option<Bytes>, ps: seq<Field>, sig: Bytes)
    requires NameList(ps) && SafeRealm(realm)
    ensures var header := SignedByHeader(r, realm, ps, sig).authorization;
            header.Some? && ParseHeader(header.value) == Ok(RealmEntries(realm) + HeaderEntries(ps, sig))
  {
    PrintableFields(ps, sig);
    HeaderReadBack(realm, ps + [SignatureField(sig)]);
  }

  /** Where nothing is sent under the signature's name, only an empty signature is accepted. */
  lemma UnsignedVerifies(
    mac: (Bytes, Bytes) -> Bytes, key: Bytes, seen: Uri, r: Request, unsigned: set<Bytes>, params: seq<Entry>)
    requires RackParameters(r) == Ok(params) && ServerBase(seen, r, params, unsigned).Ok?
    requires forall i :: 0 <= i < |params| ==> params[i].key != SIGNATURE
    ensures Verified(mac, key, seen, r, unsigned) <==>
            Signature(mac, key, ServerBase(seen, r, params, unsigned).value) == []
  {
    LookupNone(params, SIGNATURE);
  }
}
