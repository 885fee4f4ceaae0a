/**
 * Signing under one pair of secrets and verifying under another, whichever of the three
 * schemes carries the signature.
 */
module Verification {
  import opened Wrappers
  import opened Bytes
  import opened Collect
  import opened Header
  import opened Normalize
  import opened Uris
  import opened ClientHelper
  import opened Requests
  import opened Agreement
  import opened Schemes
  import opened BodyScheme

  datatype Scheme = InHeader(realm: Option<Bytes>) | InQuery | InBody

  /** The request at the moment it is signed, and the parameters that are signed beside it. */
  function Signing(s: Scheme, r: Request, ps: seq<Field>): Request {
    match s
    case InHeader(_) => r
    case InQuery => QuerySigning(r, ps)
    case InBody => BodySigning(r, ps)
  }

  function Beside(s: Scheme, ps: seq<Field>): seq<Field> {
    if s.InHeader? then ps else []
  }

  function TextToSign(s: Scheme, r: Request, ps: seq<Field>, unsigned: set<Bytes>): Bytes {
    SignedText(Signing(s, r, ps), Beside(s, ps), unsigned)
  }

  /** The request once it carries a signature. */
  function SignedBy(s: Scheme, r: Request, ps: seq<Field>, sig: Bytes): Request {
    match s
    case InHeader(realm) => SignedByHeader(r, realm, ps, sig)
    case InQuery => SignedByQuery(r, ps, sig)
    case InBody => SignedByBody(r, ps, sig)
  }

  /** What every scheme is offered: an unsigned request, OAuth parameters, and a server that gets there. */
  predicate Offered(s: Scheme, r: Request, ps: seq<Field>, seen: Uri) {
    && Fresh(r) && NameList(ps) && SameResource(r.uri, seen)
    && match s
       case InHeader(realm) => SafeRealm(realm) && RackFlat(FieldsOf(r.query) + RackBody(r))
       case _ => RackFlat(FieldsOf(r.query) + RackBody(r) + ps)
  }

  /** What a scheme needs of one signed name for the server to rebuild what it signed. */
  predicate Serves(s: Scheme, r: Request, ps: seq<Field>, name: Bytes) {
    match s
    case InHeader(_) => NameServed(r, ps, name)
    case InQuery => QueryServed(r, ps, name)
    case InBody => BodyServed(GivenAt(r, ps, name))
  }

  /** All of them; and in a body the signature must not be hidden by one in the query. */
  ghost predicate ServesAll(s: Scheme, r: Request, ps: seq<Field>, unsigned: set<Bytes>) {
    && (forall n :: n in unsigned + {SIGNATURE} || Serves(s, r, ps, n))
    && (s.InBody? ==> !Occurs(FieldsOf(r.query), SIGNATURE))
  }

  /** Whether a server holding `key'` accepts what is signed with `key`. */
  predicate Accepts(
    mac: (Bytes, Bytes) -> Bytes, s: Scheme, key: Bytes, key': Bytes, r: Request, ps: seq<Field>,
    seen: Uri, unsigned: set<Bytes>)
  {
    Verified(mac, key', seen, SignedBy(s, r, ps, Signature(mac, key, TextToSign(s, r, ps, unsigned))), unsigned)
  }

  // ---------------------------------------------------------------- what the server receives

  lemma FormNames(ps: seq<Field>)
    requires NameList(ps)
    ensures FormParameters(ps)
  {
  }

  /** The text the server rebuilds is the signed one exactly when every signed name is served. */
  lemma RebuiltExact(s: Scheme, r: Request, ps: seq<Field>, sig: Bytes, seen: Uri, unsigned: set<Bytes>)
    requires Offered(s, r, ps, seen)
    ensures RackParameters(SignedBy(s, r, ps, sig)).Ok?
    ensures ServerBase(seen, r, RackParameters(SignedBy(s, r, ps, sig)).value, unsigned) ==
            Ok(TextToSign(s, r, ps, unsigned)) <==>
            forall n :: n in unsigned + {SIGNATURE} || Serves(s, r, ps, n)
  {
    ClientBaseExists(Signing(s, r, ps), Beside(s, ps), unsigned);
    match s
    case InHeader(realm) => HeaderSchemeExact(r, realm, ps, sig, seen, unsigned);
    case InQuery => QuerySchemeServesExact(r, ps, sig, seen, unsigned);
    case InBody =>
      FormNames(ps);
      BodySchemeServesExact(r, ps, sig, seen, unsigned);
  }

  /** The server reads the signature it was sent, unless the query hides that of a body. */
  lemma SignatureReceived(s: Scheme, r: Request, ps: seq<Field>, sig: Bytes, seen: Uri)
    requires Offered(s, r, ps, seen) && NEWLINE !in sig
    requires s.InBody? ==> !Occurs(FieldsOf(r.query), SIGNATURE)
    ensures RackParameters(SignedBy(s, r, ps, sig)).Ok?
    ensures GivenSignature(RackParameters(SignedBy(s, r, ps, sig)).value) == sig
  {
    match s
    case InHeader(realm) =>
      ServerReads(r, realm, ps, sig);
      SignatureReadBack(r, ps, sig);
    case InQuery =>
      QuerySchemeServes(r, ps, sig);
      QuerySignatureRead(r, ps, sig);
    case InBody =>
      FormNames(ps);
      BodySchemeServes(r, ps, sig);
      BodySignatureRead(r, ps, sig);
  }

  lemma QueryPrevails(h: seq<Entry>, fields: seq<Field>, name: Bytes)
    requires Occurs(fields, name)
    ensures LastAt(fields, name).Some?
    ensures Lookup(Merge(h, RackHash(fields)), name) == Some(Scalar(LastAt(fields, name).value.value))
  {
    RackHashShape(fields);
    MergeLookup(h, RackHash(fields), name);
    RackHashLookup(fields, name);
    LastAbsent(fields, name);
  }

  /** A signature in the query hides that of a body, whatever it is. */
  lemma SignatureHidden(r: Request, ps: seq<Field>, sig: Bytes)
    requires Fresh(r) && Occurs(FieldsOf(r.query), SIGNATURE)
    ensures LastAt(FieldsOf(r.query), SIGNATURE).Some?
    ensures RackParameters(SignedBy(InBody, r, ps, sig)).Ok?
    ensures GivenSignature(RackParameters(SignedBy(InBody, r, ps, sig)).value) ==
            LastAt(FieldsOf(r.query), SIGNATURE).value.value.GetOr([])
  {
    BodySchemeServes(r, ps, sig);
    QueryPrevails(RackHash(RackBody(SignedByBody(r, ps, sig))), FieldsOf(r.query), SIGNATURE);
  }

  // ---------------------------------------------------------------- acceptance

  lemma VerifiedWhen(
    mac: (Bytes, Bytes) -> Bytes, key: Bytes, seen: Uri, r: Request, unsigned: set<Bytes>, params: seq<Entry>)
    requires RackParameters(r) == Ok(params)
    ensures Verified(mac, key, seen, r, unsigned) <==>
            && ServerBase(seen, r, params, unsigned).Ok?
            && Signature(mac, key, ServerBase(seen, r, params, unsigned).value) == GivenSignature(params)
  {
  }

  /** Acceptance, where the signature is not hidden: the two signatures are compared. */
  lemma AcceptsWhen(
    mac: (Bytes, Bytes) -> Bytes, s: Scheme, key: Bytes, key': Bytes, r: Request, ps: seq<Field>,
    seen: Uri, unsigned: set<Bytes>) returns (rebuilt: Result<Bytes, Error>)
    requires Offered(s, r, ps, seen) && (s.InBody? ==> !Occurs(FieldsOf(r.query), SIGNATURE))
    ensures rebuilt == Ok(TextToSign(s, r, ps, unsigned)) <==>
            forall n :: n in unsigned + {SIGNATURE} || Serves(s, r, ps, n)
    ensures Accepts(mac, s, key, key', r, ps, seen, unsigned) <==>
            && rebuilt.Ok?
            && Signature(mac, key', rebuilt.value) == Signature(mac, key, TextToSign(s, r, ps, unsigned))
  {
    var sig := Signature(mac, key, TextToSign(s, r, ps, unsigned));
    SignatureHasNoNewline(mac, key, TextToSign(s, r, ps, unsigned));
    RebuiltExact(s, r, ps, sig, seen, unsigned);
    SignatureReceived(s, r, ps, sig, seen);
    var params := RackParameters(SignedBy(s, r, ps, sig)).value;
    VerifiedWhen(mac, key', seen, SignedBy(s, r, ps, sig), unsigned, params);
    rebuilt := ServerBase(seen, r, params, unsigned);
  }

  /** With one key on both sides and every signed name served, every digest is accepted. */
  lemma AcceptsSameKey(
    mac: (Bytes, Bytes) -> Bytes, s: Scheme, key: Bytes, r: Request, ps: seq<Field>, seen: Uri, unsigned: set<Bytes>)
    requires Offered(s, r, ps, seen) && ServesAll(s, r, ps, unsigned)
    ensures Accepts(mac, s, key, key, r, ps, seen, unsigned)
  {
    var rebuilt := AcceptsWhen(mac, s, key, key, r, ps, seen, unsigned);
  }

  /** Otherwise some digest is refused. */
  lemma Refuses(s: Scheme, key: Bytes, key': Bytes, r: Request, ps: seq<Field>, seen: Uri, unsigned: set<Bytes>)
    returns (mac: (Bytes, Bytes) -> Bytes)
    requires Offered(s, r, ps, seen) && (key != key' || !ServesAll(s, r, ps, unsigned))
    ensures !Accepts(mac, s, key, key', r, ps, seen, unsigned)
  {
    var text := TextToSign(s, r, ps, unsigned);
    if s.InBody? && Occurs(FieldsOf(r.query), SIGNATURE) {
      mac := RefusesHidden(key, key', r, ps, seen, unsigned);
    } else {
      mac := Recognizing(key, text);
      var rebuilt := AcceptsWhen(mac, s, key, key', r, ps, seen, unsigned);
      Recognized(key, text, key, text);
      if rebuilt.Ok? {
        Recognized(key, text, key', rebuilt.value);
      }
    }
  }

  /** A digest that always gives one byte, in its two forms. */
  function Constant(b: Byte): (Bytes, Bytes) -> Bytes {
    (k, t) => [b]
  }

  lemma ConstantSigns(b: Byte, key: Bytes, text: Bytes)
    requires b !in {NEWLINE, RETURN}
    ensures Signature(Constant(b), key, text) == [b]
  {
    var one: Bytes := [b];
    assert one[1..] == [] && Filter(NotNewline, one[1..]) == [];
    assert Chomp(one) == one;
  }

  /** Where the server reads a signature of its own, one of two constant digests is refused. */
  lemma ConstantRefused(key: Bytes, seen: Uri, r: Request, unsigned: set<Bytes>, params: seq<Entry>, b: Byte)
    requires RackParameters(r) == Ok(params) && GivenSignature(params) != [b] && b !in {NEWLINE, RETURN}
    ensures !Verified(Constant(b), key, seen, r, unsigned)
  {
    VerifiedWhen(Constant(b), key, seen, r, unsigned, params);
    var rebuilt := ServerBase(seen, r, params, unsigned);
    if rebuilt.Ok? {
      ConstantSigns(b, key, rebuilt.value);
    }
  }

  /** The signature the server reads from the query, if there is one. */
  function Queried(r: Request): Bytes {
    match LastAt(FieldsOf(r.query), SIGNATURE) case None => [] case Some(f) => f.value.GetOr([])
  }

  lemma HiddenRefused(key: Bytes, r: Request, ps: seq<Field>, sig: Bytes, seen: Uri, unsigned: set<Bytes>, b: Byte)
    requires Fresh(r) && Occurs(FieldsOf(r.query), SIGNATURE)
    requires Queried(r) != [b] && b !in {NEWLINE, RETURN}
    ensures !Verified(Constant(b), key, seen, SignedBy(InBody, r, ps, sig), unsigned)
  {
    SignatureHidden(r, ps, sig);
    var params := RackParameters(SignedBy(InBody, r, ps, sig)).value;
    ConstantRefused(key, seen, SignedBy(InBody, r, ps, sig), unsigned, params, b);
  }

  lemma RefusesHidden(key: Bytes, key': Bytes, r: Request, ps: seq<Field>, seen: Uri, unsigned: set<Bytes>)
    returns (mac: (Bytes, Bytes) -> Bytes)
    requires Fresh(r) && Occurs(FieldsOf(r.query), SIGNATURE)
    ensures !Accepts(mac, InBody, key, key', r, ps, seen, unsigned)
  {
    var b: Byte := if Queried(r) == [0x31] then 0x32 else 0x31;
    mac := Constant(b);
    HiddenRefused(key', r, ps, Signature(mac, key, TextToSign(InBody, r, ps, unsigned)), seen, unsigned, b);
  }

  /**
   * A request signed by any scheme under one pair of secrets is accepted by a server holding
   * another pair, under every digest, exactly when every signed name is served and the secrets
   * agree, a missing one read as "".
   */
  lemma SchemeVerifiesExact(
    s: Scheme, consumer: Option<Bytes>, token: Option<Bytes>, consumer': Option<Bytes>, token': Option<Bytes>,
    r: Request, ps: seq<Field>, seen: Uri, unsigned: set<Bytes>)
    requires Offered(s, r, ps, seen)
    ensures (forall mac ::
               Accepts(mac, s, SigningKey(consumer, token), SigningKey(consumer', token'), r, ps, seen, unsigned)) <==>
            && ServesAll(s, r, ps, unsigned)
            && consumer.GetOr([]) == consumer'.GetOr([]) && token.GetOr([]) == token'.GetOr([])
  {
    var key, key' := SigningKey(consumer, token), SigningKey(consumer', token');
    SigningKeyExact(consumer, token, consumer', token');
    if key == key' && ServesAll(s, r, ps, unsigned) {
      forall mac
        ensures Accepts(mac, s, key, key', r, ps, seen, unsigned)
      {
        AcceptsSameKey(mac, s, key, r, ps, seen, unsigned);
      }
    } else {
      var mac := Refuses(s, key, key', r, ps, seen, unsigned);
    }
  }

  /** The whole client path: the helper's own parameters meet the conditions on names. */
  lemma ClientParametersVerify(
    mac: (Bytes, Bytes) -> Bytes, key: Bytes, r: Request, realm: Option<Bytes>, o: ClientOptions,
    nonce: Bytes, timestamp: Bytes, seen: Uri)
    requires var ps := OauthParameters(o, nonce, timestamp);
             Fresh(r) && SafeRealm(realm) && UniqueNames(r, ps) && SameResource(r.uri, seen) &&
             RackFlat(FieldsOf(r.query) + RackBody(r)) && NewlineFree(ps) && BodySigned(r, {SIGNATURE})
    ensures Accepts(mac, InHeader(realm), key, key, r, OauthParameters(o, nonce, timestamp), seen, {})
  {
    var ps := OauthParameters(o, nonce, timestamp);
    OauthParametersNamed(o, nonce, timestamp);
    assert {} + {SIGNATURE} == {SIGNATURE};
    UniqueAllServed(r, ps, {SIGNATURE});
    AcceptsSameKey(mac, InHeader(realm), key, r, ps, seen, {});
  }
}
