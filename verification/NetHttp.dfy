/** A Net::HTTP request that `oauth!` signs in place, under each of the three schemes. */
module NetHttp {
  import opened Wrappers
  import opened Bytes
  import opened Codec
  import opened Normalize
  import opened Collect
  import opened Header
  import opened Options
  import opened Uris
  import opened ClientHelper
  import opened Requests
  import opened Agreement
  import opened Schemes
  import opened BodyScheme
  import opened Verification

  /** A server with the same key accepts the request wherever the scheme serves every signed name. */
  ghost predicate Accepted(
    mac: (Bytes, Bytes) -> Bytes, key: Bytes, s: Scheme, before: Request, ps: seq<Field>, unsigned: set<Bytes>,
    after: Request)
  {
    forall seen :: Offered(s, before, ps, seen) && ServesAll(s, before, ps, unsigned) ==>
      Verified(mac, key, seen, after, unsigned)
  }

  /** The request a scheme leaves, signed with one digest and key. */
  function Signed(
    mac: (Bytes, Bytes) -> Bytes, key: Bytes, s: Scheme, r: Request, ps: seq<Field>, unsigned: set<Bytes>): Request
  {
    SignedBy(s, r, ps, Signature(mac, key, TextToSign(s, r, ps, unsigned)))
  }

  lemma SignedAccepted(
    mac: (Bytes, Bytes) -> Bytes, key: Bytes, s: Scheme, r: Request, ps: seq<Field>, unsigned: set<Bytes>)
    ensures Accepted(mac, key, s, r, ps, unsigned, Signed(mac, key, s, r, ps, unsigned))
  {
    forall seen | Offered(s, r, ps, seen) && ServesAll(s, r, ps, unsigned)
      ensures Verified(mac, key, seen, Signed(mac, key, s, r, ps, unsigned), unsigned)
    {
      AcceptsSameKey(mac, s, key, r, ps, seen, unsigned);
    }
  }

  lemma HelperNames(helper: Helper)
    requires helper.Drawn()
    ensures NameList(helper.Parameters()) && FormParameters(helper.Parameters())
  {
    OauthParametersNamed(helper.options, helper.nonce.value, helper.timestamp.value);
    FormNames(helper.Parameters());
  }

  /**
   * The fields of a body signed for `r`: no bare one, the signature once, and under every other
   * name the query's values and, for POST and PUT, the request's values or else the OAuth value.
   */
  ghost predicate CarriesSigned(fields: seq<Field>, r: Request, ps: seq<Field>, sig: Bytes) {
    && AllValued(fields)
    && forall n :: NamedValues(fields, n) == if n == SIGNATURE then [sig] else FinalTexts(GivenAt(r, ps, n))
  }

  lemma BodyCarriesSigned(r: Request, ps: seq<Field>, sig: Bytes)
    requires FormParameters(ps)
    ensures Fresh(r) ==> CarriesSigned(RackBody(SignedByBody(r, ps, sig)), r, ps, sig)
  {
    SignedBodyParses(r, ps, sig);
    if Fresh(r) {
      forall n
        ensures NamedValues(RackBody(SignedByBody(r, ps, sig)), n) ==
                if n == SIGNATURE then [sig] else FinalTexts(GivenAt(r, ps, n))
      {
        SignedBodyCarries(r, ps, sig, n);
      }
    }
  }

  class HttpRequest {
    const verb: Bytes
    const uri: Uri
    const mac: (Bytes, Bytes) -> Bytes
    const key: Bytes
    const unsigned: set<Bytes>
    var query: Option<Bytes>
    var form: bool
    var body: Option<Bytes>
    var authorization: Option<Bytes>

    constructor (r: Request, mac: (Bytes, Bytes) -> Bytes, key: Bytes, unsigned: set<Bytes>)
      ensures View() == r && this.mac == mac && this.key == key && this.unsigned == unsigned
    {
      this.verb, this.uri, this.mac, this.key, this.unsigned := r.verb, r.uri, mac, key, unsigned;
      this.query, this.form, this.body, this.authorization := r.query, r.form, r.body, r.authorization;
    }

    function View(): Request
      reads this
    {
      Request(verb, uri, query, form, body, authorization)
    }

    /** The signature of the request as it stands, with the given option parameters. */
    function CurrentSignature(opts: seq<Field>): Bytes
      reads this
    {
      Signature(mac, key, SignedText(View(), opts, unsigned))
    }

    /** Signs with the given parameters and overwrites the Authorization header. */
    method WriteHeader(realm: Option<Bytes>, ps: seq<Field>)
      modifies this`authorization
      ensures View() == Signed(mac, key, InHeader(realm), old(View()), ps, unsigned)
    {
      authorization := Some(HeaderText(realm, ps + [SignatureField(CurrentSignature(ps))]));
    }

    /** `set_oauth_header`. */
    method SetOauthHeader(helper: Helper, realm: Option<Bytes>, random: Bytes, clock: Bytes)
      modifies this`authorization, helper
      ensures helper.Drawn() && (old(helper.Drawn()) ==> helper.Parameters() == old(helper.Parameters()))
      ensures View() == Signed(mac, key, InHeader(realm), old(View()), helper.Parameters(), unsigned)
      ensures Accepted(mac, key, InHeader(realm), old(View()), helper.Parameters(), unsigned, View())
    {
      var ps := helper.OauthParameterList(random, clock);
      SignedAccepted(mac, key, InHeader(realm), View(), ps, unsigned);
      WriteHeader(realm, ps);
    }

    /** `set_oauth_query_string`: extends the query, signs that, then appends the signature. */
    method SetOauthQueryString(helper: Helper, random: Bytes, clock: Bytes)
      modifies this`query, helper
      ensures helper.Drawn() && (old(helper.Drawn()) ==> helper.Parameters() == old(helper.Parameters()))
      ensures View() == Signed(mac, key, InQuery, old(View()), helper.Parameters(), unsigned)
      ensures Accepted(mac, key, InQuery, old(View()), helper.Parameters(), unsigned, View())
    {
      SignedAccepted(mac, key, InQuery, View(), helper.After(random, clock), unsigned);
      var ps := helper.OauthParameterList(random, clock);
      query := Some(QueryWith(query, ps));
      var sig := CurrentSignature([]);
      query := Some(query.value + [AMP] + SIGNATURE + [EQUALS] + Escape(sig));
    }

    /**
     * `set_oauth_body`: prints the parameters as the form, signs it, prints it again signed. The
     * fields that form carries are those of `SignedBodyCarries`.
     */
    method SetOauthBody(helper: Helper, random: Bytes, clock: Bytes)
      modifies this`body, this`form, helper
      ensures helper.Drawn() && (old(helper.Drawn()) ==> helper.Parameters() == old(helper.Parameters()))
      ensures View() == Signed(mac, key, InBody, old(View()), helper.Parameters(), unsigned)
      ensures Accepted(mac, key, InBody, old(View()), helper.Parameters(), unsigned, View())
      ensures Fresh(old(View())) ==>
                exists sig :: CarriesSigned(RackBody(View()), old(View()), helper.Parameters(), sig)
    {
      SignedAccepted(mac, key, InBody, View(), helper.After(random, clock), unsigned);
      var ps := helper.OauthParameterList(random, clock);
      ghost var before := View();
      body, form := Some(EncodeWwwForm(WithOauth(View(), ps))), true;
      assert View() == BodySigning(before, ps);
      var params := AllParameters(ClientFields(View()), []);
      assert params == ClientHash(BodySigning(before, ps), []);
      var sig := CurrentSignature([]);
      body := Some(EncodeWwwForm(Put(params, SIGNATURE, Scalar(Some(sig)))));
      assert View() == SignedByBody(before, ps, sig);
      HelperNames(helper);
      BodyCarriesSigned(before, ps, sig);
    }

    /** `oauth!` after the body hash: one of the three, as the scheme option says. */
    method Oauth(s: Scheme, helper: Helper, random: Bytes, clock: Bytes)
      modifies this, helper
      ensures helper.Drawn() && (old(helper.Drawn()) ==> helper.Parameters() == old(helper.Parameters()))
      ensures View() == Signed(mac, key, s, old(View()), helper.Parameters(), unsigned)
      ensures Accepted(mac, key, s, old(View()), helper.Parameters(), unsigned, View())
    {
      match s
      case InHeader(realm) => SetOauthHeader(helper, realm, random, clock);
      case InQuery => SetOauthQueryString(helper, random, clock);
      case InBody => SetOauthBody(helper, random, clock);
    }
  }

  /** The signature both schemes put on a fresh request. */
  function SchemeSignature(
    mac: (Bytes, Bytes) -> Bytes, key: Bytes, r: Request, ps: seq<Field>, unsigned: set<Bytes>): Bytes
  {
    Signature(mac, key, SignedText(r, ps, unsigned))
  }

  predicate NilsHarmless(r: Request, ps: seq<Field>, unsigned: set<Bytes>) {
    forall i :: 0 <= i < |ps| ==> ps[i].name in unsigned + {SIGNATURE} || NilHarmless(ClientFields(r), ps, ps[i].name)
  }

  lemma SchemesShareText(r: Request, ps: seq<Field>, unsigned: set<Bytes>)
    requires Fresh(r) && DistinctNames(ps) && NilsHarmless(r, ps, unsigned)
    ensures SignedText(QuerySigning(r, ps), [], unsigned) == SignedText(r, ps, unsigned)
  {
    forall n
      ensures n in unsigned + {SIGNATURE} || NilHarmless(ClientFields(r), ps, n)
    {
      OptionAbsent(ps, n);
      if Occurs(ps, n) {
        var i :| 0 <= i < |ps| && ps[i].name == n;
        assert ps[i].name in unsigned + {SIGNATURE} || NilHarmless(ClientFields(r), ps, ps[i].name);
      }
    }
    QuerySchemeExact(r, ps, unsigned);
  }

  /** A copy of a request signed by header carries the scheme signature. */
  method HeaderCopy(r: Request, helper: Helper, mac: (Bytes, Bytes) -> Bytes, key: Bytes, unsigned: set<Bytes>,
                    random: Bytes, clock: Bytes) returns (copy: HttpRequest)
    requires helper.Drawn()
    modifies helper
    ensures helper.Drawn() && helper.Parameters() == old(helper.Parameters()) && fresh(copy)
    ensures var ps := old(helper.Parameters());
            copy.View() == SignedByHeader(r, None, ps, SchemeSignature(mac, key, r, ps, unsigned))
  {
    ghost var ps := helper.Parameters();
    copy := new HttpRequest(r, mac, key, unsigned);
    copy.SetOauthHeader(helper, None, random, clock);
  }

  /**
   * So does a copy signed in the query string, when no nil OAuth value meets a value the
   * request sends under its name.
   */
  method QueryCopy(r: Request, helper: Helper, mac: (Bytes, Bytes) -> Bytes, key: Bytes, unsigned: set<Bytes>,
                   random: Bytes, clock: Bytes) returns (copy: HttpRequest)
    requires helper.Drawn() && Fresh(r) && NilsHarmless(r, helper.Parameters(), unsigned)
    modifies helper
    ensures helper.Drawn() && helper.Parameters() == old(helper.Parameters()) && fresh(copy)
    ensures var ps := old(helper.Parameters());
            copy.View() == SignedByQuery(r, ps, SchemeSignature(mac, key, r, ps, unsigned))
  {
    ghost var ps := helper.Parameters();
    HelperNames(helper);
    SchemesShareText(r, ps, unsigned);
    copy := new HttpRequest(r, mac, key, unsigned);
    copy.SetOauthQueryString(helper, random, clock);
  }
}
