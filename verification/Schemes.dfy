/**
 * The three ways a Net::HTTP request carries its OAuth parameters, and when they sign the
 * same base string.
 */
module Schemes {
  import opened Wrappers
  import opened Bytes
  import opened Codec
  import opened Lists
  import opened Collect
  import opened Header
  import opened Options
  import opened Uris
  import opened ClientHelper
  import opened Requests
  import opened Agreement

  // ---------------------------------------------------------------- query-string scheme

  function OauthText(ps: seq<Field>): Bytes {
    Join(Map(EscapeField, ps), [AMP])
  }

  /** The query with the OAuth parameters appended; a blank query is replaced. */
  function QueryWith(query: Option<Bytes>, ps: seq<Field>): Bytes {
    if query.GetOr([]) == [] then OauthText(ps) else query.value + [AMP] + OauthText(ps)
  }

  /** The request at the moment `set_oauth_query_string` signs it. */
  function QuerySigning(r: Request, ps: seq<Field>): Request {
    r.(query := Some(QueryWith(r.query, ps)))
  }

  /** The request it leaves: the signature appended last. */
  function SignedByQuery(r: Request, ps: seq<Field>, sig: Bytes): Request {
    r.(query := Some(QueryWith(r.query, ps) + [AMP] + SIGNATURE + [EQUALS] + Escape(sig)))
  }

  lemma QueryWithFields(query: Option<Bytes>, ps: seq<Field>)
    ensures ParseForm(QueryWith(query, ps)) == FieldsOf(query) + Map(Valued, ps)
  {
    ParseEscaped(ps);
    if query.GetOr([]) != [] {
      ParseFormConcat(query.value, OauthText(ps));
    } else {
      ParseFormEmpty();
      assert FieldsOf(query) == [];
      assert [] + Map(Valued, ps) == Map(Valued, ps);
    }
  }

  /** The query's own pieces stay, and one `name=value` piece follows for each OAuth parameter. */
  lemma QueryWithPieces(query: Option<Bytes>, ps: seq<Field>)
    requires ps != []
    ensures Split(QueryWith(query, ps), {AMP}) ==
            (if query.GetOr([]) == [] then [] else Split(query.value, {AMP})) + Map(EscapeField, ps)
  {
    forall i | 0 <= i < |ps|
      ensures Free(Map(EscapeField, ps)[i], {AMP})
    {
      EscapeFieldShape(ps[i]);
    }
    SplitJoin(Map(EscapeField, ps), AMP, {AMP});
    if query.GetOr([]) != [] {
      SplitConcat(query.value, AMP, OauthText(ps), {AMP});
    } else {
      assert [] + Map(EscapeField, ps) == Map(EscapeField, ps);
    }
  }

  lemma SignatureText(sig: Bytes)
    ensures ParseForm(SIGNATURE + [EQUALS] + Escape(sig)) == [SignatureField(sig)]
  {
    SignatureUnreserved();
    UnreservedFixed(SIGNATURE);
    ParseEscaped([SignatureField(sig)]);
    MapOne(EscapeField, SignatureField(sig));
    MapOne(Valued, SignatureField(sig));
  }

  lemma SignedByQueryFields(r: Request, ps: seq<Field>, sig: Bytes)
    ensures FieldsOf(SignedByQuery(r, ps, sig).query) ==
            FieldsOf(r.query) + Map(Valued, ps) + [SignatureField(sig)]
  {
    var first, last := QueryWith(r.query, ps), SIGNATURE + [EQUALS] + Escape(sig);
    QueryWithFields(r.query, ps);
    SignatureText(sig);
    ParseFormConcat(first, last);
    Regroup(first + [AMP], SIGNATURE, [EQUALS], Escape(sig));
  }

  lemma Regroup(a: Bytes, b: Bytes, c: Bytes, d: Bytes)
    ensures a + b + c + d == a + (b + c + d)
  {
    Assoc(a, b, c);
    Assoc(a, b + c, d);
  }

  lemma SignatureUnreserved()
    ensures forall i :: 0 <= i < |SIGNATURE| ==> IsUnreserved(SIGNATURE[i])
  {
    LowerUnreserved("oauth_signature");
  }

  lemma LowerUnreserved(s: string)
    requires LowerCase(s)
    ensures forall i :: 0 <= i < |Ascii(s)| ==> IsUnreserved(Ascii(s)[i])
  {
    assert forall i :: 0 <= i < |s| ==> Ascii(s)[i] == s[i] as int % 256;
  }

  lemma QuerySigningFields(r: Request, ps: seq<Field>)
    requires Fresh(r)
    ensures ClientFields(QuerySigning(r, ps)) == FieldsOf(r.query) + Map(Valued, ps) + FieldsOf(BodyText(r))
  {
    ClientFieldsOf(QuerySigning(r, ps));
    QueryWithFields(r.query, ps);
  }

  lemma {:induction false} ValuedOption(ps: seq<Field>, name: Bytes)
    requires DistinctNames(ps)
    ensures NamedValues(Map(Valued, ps), name) == TextAt(ps, name)
    ensures Occurs(Map(Valued, ps), name) <==> Occurs(ps, name)
  {
    if ps != [] {
      ValuedOption(ps[1..], name);
      OptionAbsent(ps[1..], name);
      assert Map(Valued, ps)[1..] == Map(Valued, ps[1..]);
      assert ps == [ps[0]] + ps[1..];
      OccursConcat([ps[0]], ps[1..], name);
      OccursConcat([Valued(ps[0])], Map(Valued, ps[1..]), name);
      assert [ps[0]][0].name == [Valued(ps[0])][0].name;
    }
  }

  /** A nil option replaces what the request sends under its name; it must send no value. */
  predicate NilHarmless(fields: seq<Field>, ps: seq<Field>, name: Bytes) {
    OptionAt(ps, name) == Some(Field(name, None)) ==> NamedValues(fields, name) == []
  }

  /** Appending a text before or after the body's values makes no difference. */
  lemma InsertedText(nq: seq<Bytes>, text: seq<Bytes>, nb: seq<Bytes>)
    ensures multiset(nq + text + nb) == multiset(nq + nb + text)
    ensures |text| == 1 ==> (multiset(nq + text + nb) == multiset(text) <==> nq + nb == [])
  {
    assert multiset(nq + text + nb) == multiset(nq) + multiset(text) + multiset(nb);
    if |text| == 1 && multiset(nq + text + nb) == multiset(text) {
      SameLength(nq + text + nb, text);
    }
  }

  lemma QueryTexts(r: Request, ps: seq<Field>, name: Bytes)
    requires Fresh(r) && DistinctNames(ps)
    ensures var nq, nb := NamedValues(FieldsOf(r.query), name), NamedValues(FieldsOf(BodyText(r)), name);
            TextsAt(ClientHash(QuerySigning(r, ps), []), name) ==
            OneOrNone(nq + TextAt(ps, name) + nb, Occurs(ClientFields(r), name))
  {
    var q, b, o := FieldsOf(r.query), FieldsOf(BodyText(r)), Map(Valued, ps);
    QuerySigningFields(r, ps);
    ClientFieldsOf(r);
    OptionTextsAt(q + o + b, [], name);
    ValuedOption(ps, name);
    NamedValuesConcat(q + o, b, name);
    NamedValuesConcat(q, o, name);
    OccursConcat(q + o, b, name);
    OccursConcat(q, o, name);
    OccursConcat(q, b, name);
    OptionAbsent(ps, name);
  }

  lemma HeaderSchemeTexts(r: Request, ps: seq<Field>, name: Bytes)
    requires Fresh(r) && DistinctNames(ps)
    ensures var nf := NamedValues(ClientFields(r), name);
            TextsAt(ClientHash(r, ps), name) ==
            match OptionAt(ps, name)
            case None => OneOrNone(nf, Occurs(ClientFields(r), name))
            case Some(f) => if f.value.None? then [[]] else nf + [f.value.value]
    ensures NamedValues(ClientFields(r), name) ==
            NamedValues(FieldsOf(r.query), name) + NamedValues(FieldsOf(BodyText(r)), name)
  {
    OptionTextsAt(ClientFields(r), ps, name);
    ClientFieldsOf(r);
    NamedValuesConcat(FieldsOf(r.query), FieldsOf(BodyText(r)), name);
  }

  lemma QueryCaseExact(nq: seq<Bytes>, nb: seq<Bytes>, given: Option<Option<Bytes>>, mentioned: bool)
    ensures var inQuery := OneOrNone(nq + (if given.None? then [] else [given.value.GetOr([])]) + nb, mentioned);
            var inHeader := match given
              case None => OneOrNone(nq + nb, mentioned)
              case Some(v) => if v.None? then [[]] else nq + nb + [v.value];
            multiset(inQuery) == multiset(inHeader) <==> (given == Some(None) ==> nq + nb == [])
  {
    if given.None? {
      assert nq + [] + nb == nq + nb;
    } else {
      InsertedText(nq, [given.value.GetOr([])], nb);
    }
  }

  lemma QuerySchemeAt(r: Request, ps: seq<Field>, excluded: set<Bytes>, name: Bytes)
    requires Fresh(r) && DistinctNames(ps)
    ensures AgreeAt(ClientHash(QuerySigning(r, ps), []), ClientHash(r, ps), excluded, name) <==>
            name in excluded || NilHarmless(ClientFields(r), ps, name)
  {
    var nq, nb := NamedValues(FieldsOf(r.query), name), NamedValues(FieldsOf(BodyText(r)), name);
    var given := match OptionAt(ps, name) case None => None case Some(f) => Some(f.value);
    QueryTexts(r, ps, name);
    HeaderSchemeTexts(r, ps, name);
    OptionAbsent(ps, name);
    QueryCaseExact(nq, nb, given, Occurs(ClientFields(r), name));
  }

  /**
   * The header and query-string schemes sign the same base string exactly when no nil OAuth
   * value shares its name with a value the request sends; OAuth names already in the query
   * make no difference.
   */
  lemma QuerySchemeExact(r: Request, ps: seq<Field>, unsigned: set<Bytes>)
    requires Fresh(r) && DistinctNames(ps)
    ensures ClientBase(QuerySigning(r, ps), [], unsigned) == ClientBase(r, ps, unsigned) <==>
            forall n :: n in unsigned + {SIGNATURE} || NilHarmless(ClientFields(r), ps, n)
  {
    var excluded := unsigned + {SIGNATURE};
    var h, k := ClientHash(QuerySigning(r, ps), []), ClientHash(r, ps);
    ClientHashShape(QuerySigning(r, ps), []);
    ClientHashShape(r, ps);
    SameBaseExact(r.verb, NormalizedUri(r.uri), h, k, excluded);
    forall n
      ensures AgreeAt(h, k, excluded, n) <==> n in excluded || NilHarmless(ClientFields(r), ps, n)
    {
      QuerySchemeAt(r, ps, excluded, n);
    }
  }

  // ---------------------------------------------------------------- the query-string scheme on the server

  lemma {:induction false} NoHeaderParams(headers: seq<Option<Bytes>>)
    requires forall i :: 0 <= i < |headers| ==> headers[i].None?
    ensures HeaderParams(headers) == Ok([])
  {
    if headers != [] {
      NoHeaderParams(headers[1..]);
    }
  }

  /** Rack reads a request signed in the query; line breaks survive there. */
  lemma QuerySchemeServes(r: Request, ps: seq<Field>, sig: Bytes)
    requires Fresh(r)
    ensures RackParameters(SignedByQuery(r, ps, sig)) ==
            Ok(Merge(RackHash(RackBody(r)), RackHash(FieldsOf(r.query) + Map(Valued, ps) + [SignatureField(sig)])))
  {
    SignedByQueryFields(r, ps, sig);
    NoHeaderParams([None, None, r.authorization]);
  }

  lemma {:induction false} ValuedAt(ps: seq<Field>, name: Bytes)
    ensures OptionAt(Map(Valued, ps), name) ==
            match OptionAt(ps, name) case None => None case Some(f) => Some(Valued(f))
  {
    if ps != [] {
      ValuedAt(ps[1..], name);
      assert Map(Valued, ps)[1..] == Map(Valued, ps[1..]);
    }
  }

  lemma ValuedDistinct(ps: seq<Field>)
    requires DistinctNames(ps)
    ensures DistinctNames(Map(Valued, ps))
  {
  }

  lemma QueryServerAt(r: Request, ps: seq<Field>, sig: Bytes, name: Bytes)
    requires DistinctNames(ps) && name != SIGNATURE
    ensures var fields := FieldsOf(r.query) + Map(Valued, ps) + [SignatureField(sig)];
            TextsAt(Merge(RackHash(RackBody(r)), RackHash(fields)), name) ==
            match OptionAt(ps, name) case None => KeptTexts(r, name) case Some(f) => [f.value.GetOr([])]
  {
    var q, o, last := FieldsOf(r.query), Map(Valued, ps), [SignatureField(sig)];
    RackHashShape(q + o + last);
    MergeLookup(RackHash(RackBody(r)), RackHash(q + o + last), name);
    RackHashLookup(q + o + last, name);
    RackHashLookup(RackBody(r), name);
    LastAtConcat(q + o, last, name);
    LastAtConcat(q, o, name);
    assert last[..0] == [] && LastAt(last, name).None?;
    ValuedDistinct(ps);
    LastIsOnly(o, name);
    ValuedAt(ps, name);
  }

  /**
   * What the query-string scheme needs of one name: a name with an OAuth value has no request
   * value beside it, and of any other the client signs only the field that Rack keeps.
   */
  predicate QueryServed(r: Request, ps: seq<Field>, name: Bytes) {
    if OptionAt(ps, name).Some? then NamedValues(ClientFields(r), name) == [] else KeptAlone(r, name)
  }

  /** A text between the query's and the body's values. */
  lemma MiddleText(nq: seq<Bytes>, text: seq<Bytes>, nb: seq<Bytes>, mentioned: bool)
    ensures OneOrNone(nq + text + nb, mentioned) ==
            if text == [] then OneOrNone(nq + nb, mentioned) else nq + text + nb
  {
    assert text == [] ==> nq + text + nb == nq + nb;
  }

  lemma RequestValues(r: Request, name: Bytes)
    requires Fresh(r)
    ensures NamedValues(ClientFields(r), name) ==
            NamedValues(FieldsOf(r.query), name) + NamedValues(FieldsOf(BodyText(r)), name)
  {
    ClientFieldsOf(r);
    NamedValuesConcat(FieldsOf(r.query), FieldsOf(BodyText(r)), name);
  }

  lemma QueryClientAt(r: Request, ps: seq<Field>, name: Bytes)
    requires Fresh(r) && DistinctNames(ps)
    ensures var nq, nb := NamedValues(FieldsOf(r.query), name), NamedValues(FieldsOf(BodyText(r)), name);
            TextsAt(ClientHash(QuerySigning(r, ps), []), name) ==
            match OptionAt(ps, name)
            case None => GroupedTexts(ClientFields(r), name)
            case Some(f) => nq + [f.value.GetOr([])] + nb
  {
    QueryTexts(r, ps, name);
    RequestValues(r, name);
    MiddleText(NamedValues(FieldsOf(r.query), name), TextAt(ps, name), NamedValues(FieldsOf(BodyText(r)), name),
               Occurs(ClientFields(r), name));
  }

  lemma QueryAgreeAt(r: Request, ps: seq<Field>, sig: Bytes, name: Bytes)
    requires Fresh(r) && DistinctNames(ps) && name != SIGNATURE
    ensures var fields := FieldsOf(r.query) + Map(Valued, ps) + [SignatureField(sig)];
            multiset(TextsAt(Merge(RackHash(RackBody(r)), RackHash(fields)), name)) ==
            multiset(TextsAt(ClientHash(QuerySigning(r, ps), []), name)) <==>
            QueryServed(r, ps, name)
  {
    QueryServerAt(r, ps, sig, name);
    QueryClientAt(r, ps, name);
    RequestValues(r, name);
    match OptionAt(ps, name)
    case None => KeptAloneExact(r, name);
    case Some(f) =>
      InsertedText(NamedValues(FieldsOf(r.query), name), [f.value.GetOr([])], NamedValues(FieldsOf(BodyText(r)), name));
  }

  /**
   * For every fresh request the Rack proxy rebuilds the base string that the query-string scheme
   * signs exactly when every signed name meets `QueryServed`; line breaks do no harm here.
   */
  lemma QuerySchemeServesExact(r: Request, ps: seq<Field>, sig: Bytes, seen: Uri, unsigned: set<Bytes>)
    requires Fresh(r) && DistinctNames(ps) && SameResource(r.uri, seen)
    requires RackFlat(FieldsOf(r.query) + RackBody(r) + ps)
    ensures RackParameters(SignedByQuery(r, ps, sig)).Ok?
    ensures ServerBase(seen, r, RackParameters(SignedByQuery(r, ps, sig)).value, unsigned) ==
            ClientBase(QuerySigning(r, ps), [], unsigned) <==>
            forall n :: n in unsigned + {SIGNATURE} || QueryServed(r, ps, n)
  {
    var excluded := unsigned + {SIGNATURE};
    var fields := FieldsOf(r.query) + Map(Valued, ps) + [SignatureField(sig)];
    var server, client := Merge(RackHash(RackBody(r)), RackHash(fields)), ClientHash(QuerySigning(r, ps), []);
    QuerySchemeServes(r, ps, sig);
    RackHashShape(RackBody(r));
    RackHashShape(fields);
    MergeShape(RackHash(RackBody(r)), RackHash(fields), Signable);
    ClientHashShape(QuerySigning(r, ps), []);
    NormalizedUriExact(r.uri, seen);
    SameBaseExact(r.verb, NormalizedUri(seen), server, client, excluded);
    forall n
      ensures AgreeAt(server, client, excluded, n) <==> n in excluded || QueryServed(r, ps, n)
    {
      if n !in excluded {
        QueryAgreeAt(r, ps, sig, n);
      }
    }
  }

  predicate BodyNameSigned(r: Request, name: Bytes) {
    FormVerb(r.verb) || !Occurs(RackBody(r), name)
  }

  lemma BodyCovered(r: Request, excluded: set<Bytes>)
    ensures BodySigned(r, excluded) <==> forall n :: n in excluded || BodyNameSigned(r, n)
  {
    if forall n :: n in excluded || BodyNameSigned(r, n) {
      forall i | 0 <= i < |RackBody(r)|
        ensures FormVerb(r.verb) || RackBody(r)[i].name in excluded
      {
        assert Occurs(RackBody(r), RackBody(r)[i].name);
        assert RackBody(r)[i].name in excluded || BodyNameSigned(r, RackBody(r)[i].name);
      }
    }
  }

  /** With names that occur once, exactly when the client signed the form body. */
  lemma QuerySchemeAgreesExact(r: Request, ps: seq<Field>, sig: Bytes, seen: Uri, unsigned: set<Bytes>)
    requires Fresh(r) && UniqueNames(r, ps) && SameResource(r.uri, seen)
    requires RackFlat(FieldsOf(r.query) + RackBody(r) + ps)
    ensures RackParameters(SignedByQuery(r, ps, sig)).Ok?
    ensures ServerBase(seen, r, RackParameters(SignedByQuery(r, ps, sig)).value, unsigned) ==
            ClientBase(QuerySigning(r, ps), [], unsigned) <==>
            BodySigned(r, unsigned + {SIGNATURE})
  {
    DistinctParts(FieldsOf(r.query), RackBody(r), ps, []);
    QuerySchemeServesExact(r, ps, sig, seen, unsigned);
    BodyCovered(r, unsigned + {SIGNATURE});
    forall n
      ensures QueryServed(r, ps, n) <==> BodyNameSigned(r, n)
    {
      UniqueQueryServed(r, ps, n);
    }
  }

  lemma UniqueQueryServed(r: Request, ps: seq<Field>, name: Bytes)
    requires Fresh(r) && UniqueNames(r, ps)
    ensures QueryServed(r, ps, name) <==> BodyNameSigned(r, name)
  {
    DistinctParts(FieldsOf(r.query), RackBody(r), ps, name);
    OptionAbsent(ps, name);
    if Occurs(ps, name) {
      ClientFieldsOf(r);
      CollectedBody(r);
      OccursConcat(FieldsOf(r.query), FieldsOf(BodyText(r)), name);
      NamedValuesAbsent(ClientFields(r), name);
    } else {
      UniqueKept(r, name);
    }
  }

  lemma QuerySignatureRead(r: Request, ps: seq<Field>, sig: Bytes)
    ensures var fields := FieldsOf(r.query) + Map(Valued, ps) + [SignatureField(sig)];
            GivenSignature(Merge(RackHash(RackBody(r)), RackHash(fields))) == sig
  {
    var fields := FieldsOf(r.query) + Map(Valued, ps) + [SignatureField(sig)];
    RackHashShape(fields);
    MergeLookup(RackHash(RackBody(r)), RackHash(fields), SIGNATURE);
    RackHashLookup(fields, SIGNATURE);
  }
}
