/** The client's OAuth parameters and its memoised nonce and timestamp. */
module ClientHelper {
  import opened Wrappers
  import opened Bytes
  import opened Collect
  import opened Header
  import opened Options

  /** `allow_empty_params`: true, or the names (possibly none) that may stay empty. */
  datatype EmptyAllowed = AllowAll | AllowOnly(names: set<Bytes>)

  /** Request options the parameters are drawn from; no token at all is told from a nil one. */
  datatype ClientOptions = ClientOptions(
    bodyHash: Option<Bytes>,
    callback: Option<Bytes>,
    consumerKey: Option<Bytes>,
    token: Option<Option<Bytes>>,
    signatureMethod: Option<Bytes>,
    verifier: Option<Bytes>,
    version: Option<Bytes>,
    sessionHandle: Option<Bytes>,
    emptyAllowed: EmptyAllowed)

  const SIGNATURE: Bytes := Ascii("oauth_signature")

  function AllParametersOf(o: ClientOptions, nonce: Bytes, timestamp: Bytes): seq<Field> {
    [ Field(Ascii("oauth_body_hash"), o.bodyHash),
      Field(Ascii("oauth_callback"), o.callback),
      Field(Ascii("oauth_consumer_key"), o.consumerKey),
      Field(Ascii("oauth_token"), if o.token.Some? then o.token.value else Some([])),
      Field(Ascii("oauth_signature_method"), Some(o.signatureMethod.GetOr(Ascii("HMAC-SHA1")))),
      Field(Ascii("oauth_timestamp"), Some(timestamp)),
      Field(Ascii("oauth_nonce"), Some(nonce)),
      Field(Ascii("oauth_verifier"), o.verifier),
      Field(Ascii("oauth_version"), Some(o.version.GetOr(Ascii("1.0")))),
      Field(Ascii("oauth_session_handle"), o.sessionHandle) ]
  }

  predicate Kept(allowed: EmptyAllowed, f: Field) {
    f.value.GetOr([]) != [] || allowed.AllowAll? || f.name in allowed.names
  }

  function KeptUnder(allowed: EmptyAllowed): Field -> bool {
    f => Kept(allowed, f)
  }

  /** `oauth_parameters` with the nonce and timestamp already drawn. */
  function OauthParameters(o: ClientOptions, nonce: Bytes, timestamp: Bytes): seq<Field> {
    Filter(KeptUnder(o.emptyAllowed), AllParametersOf(o, nonce, timestamp))
  }

  // ---------------------------------------------------------------- their shape

  /** An OAuth name other than the signature's, made of lower-case letters and `_`. */
  predicate OauthName(n: Bytes) {
    TokenName(n) && OAUTH_PREFIX <= n && n != SIGNATURE
  }

  predicate NameList(fs: seq<Field>) {
    DistinctNames(fs) && forall i :: 0 <= i < |fs| ==> OauthName(fs[i].name)
  }

  /** Length and seventh byte tell the names apart. */
  predicate NamedLike(n: Bytes, length: nat, seventh: Byte) {
    TokenName(n) && OAUTH_PREFIX <= n && |n| == length && length > 6 && n[6] == seventh
  }

  predicate LowerCase(s: string) {
    forall i :: 0 <= i < |s| ==> s[i] == '_' || 'a' <= s[i] <= 'z'
  }

  /** An ASCII literal of lower-case letters and `_` that starts with oauth_ is an OAuth name. */
  lemma AsciiName(s: string)
    requires LowerCase(s) && |s| > 6 && "oauth_" <= s
    ensures NamedLike(Ascii(s), |s|, Ascii(s)[6])
  {
    assert s[..6] == "oauth_";
    assert forall i :: 0 <= i < |s| ==> Ascii(s)[i] == s[i] as int % 256;
    assert s[0] == 'o' && s[1] == 'a' && s[2] == 'u' && s[3] == 't' && s[4] == 'h' && s[5] == '_';
  }

  lemma NameBodyHash()
    ensures NamedLike(Ascii("oauth_body_hash"), 15, 0x62)
  {
    AsciiName("oauth_body_hash");
  }

  lemma NameCallback()
    ensures NamedLike(Ascii("oauth_callback"), 14, 0x63)
  {
    AsciiName("oauth_callback");
  }

  lemma NameConsumerKey()
    ensures NamedLike(Ascii("oauth_consumer_key"), 18, 0x63)
  {
    AsciiName("oauth_consumer_key");
  }

  lemma NameToken()
    ensures NamedLike(Ascii("oauth_token"), 11, 0x74)
  {
    AsciiName("oauth_token");
  }

  lemma NameSignatureMethod()
    ensures NamedLike(Ascii("oauth_signature_method"), 22, 0x73)
  {
    AsciiName("oauth_signature_method");
  }

  lemma NameTimestamp()
    ensures NamedLike(Ascii("oauth_timestamp"), 15, 0x74)
  {
    AsciiName("oauth_timestamp");
  }

  lemma NameNonce()
    ensures NamedLike(Ascii("oauth_nonce"), 11, 0x6E)
  {
    AsciiName("oauth_nonce");
  }

  lemma NameVerifier()
    ensures NamedLike(Ascii("oauth_verifier"), 14, 0x76)
  {
    AsciiName("oauth_verifier");
  }

  lemma NameVersion()
    ensures NamedLike(Ascii("oauth_version"), 13, 0x76)
  {
    AsciiName("oauth_version");
  }

  lemma NameSessionHandle()
    ensures NamedLike(Ascii("oauth_session_handle"), 20, 0x73)
  {
    AsciiName("oauth_session_handle");
  }

  lemma AllNames(o: ClientOptions, nonce: Bytes, timestamp: Bytes)
    ensures NameList(AllParametersOf(o, nonce, timestamp))
  {
    NameBodyHash();
    NameCallback();
    NameConsumerKey();
    NameToken();
    NameSignatureMethod();
    NameTimestamp();
    NameNonce();
    NameVerifier();
    NameVersion();
    NameSessionHandle();
    assert |SIGNATURE| == 15 && SIGNATURE[6] == 0x73;
  }

  lemma {:induction false} FilterNames(keep: Field -> bool, fs: seq<Field>)
    requires NameList(fs)
    ensures NameList(Filter(keep, fs))
    ensures forall f :: f in Filter(keep, fs) ==> f in fs
  {
    if fs != [] {
      FilterNames(keep, fs[1..]);
      assert fs == [fs[0]] + fs[1..];
      var tail := Filter(keep, fs[1..]);
      forall j | 0 <= j < |tail|
        ensures tail[j].name != fs[0].name
      {
        assert tail[j] in fs[1..];
        var k :| 0 <= k < |fs[1..]| && fs[1..][k] == tail[j];
        assert fs[k + 1] == tail[j];
      }
    }
  }

  /** Whatever the options, the parameters carry distinct, printable OAuth names. */
  lemma OauthParametersNamed(o: ClientOptions, nonce: Bytes, timestamp: Bytes)
    ensures NameList(OauthParameters(o, nonce, timestamp))
  {
    AllNames(o, nonce, timestamp);
    FilterNames(KeptUnder(o.emptyAllowed), AllParametersOf(o, nonce, timestamp));
  }

  // ---------------------------------------------------------------- their values

  lemma {:induction false} FilterOption(keep: Field -> bool, fs: seq<Field>, name: Bytes)
    requires DistinctNames(fs)
    ensures OptionAt(Filter(keep, fs), name) ==
            match OptionAt(fs, name) case None => None case Some(f) => if keep(f) then Some(f) else None
  {
    if fs != [] {
      FilterOption(keep, fs[1..], name);
      OptionAbsent(fs[1..], name);
    }
  }

  /** What is sent under a name for a value: nothing for an empty one, unless the name may stay empty. */
  function SentAs(allowed: EmptyAllowed, name: Bytes, value: Option<Bytes>): Option<Field> {
    if value in {None, Some([])} && !(allowed.AllowAll? || name in allowed.names) then None
    else Some(Field(name, value))
  }

  predicate Carries(o: ClientOptions, ps: seq<Field>, name: string, value: Option<Bytes>) {
    OptionAt(ps, Ascii(name)) == SentAs(o.emptyAllowed, Ascii(name), value)
  }

  lemma CarriesAt(o: ClientOptions, nonce: Bytes, timestamp: Bytes, name: string, i: nat)
    requires i < 10 && AllParametersOf(o, nonce, timestamp)[i].name == Ascii(name)
    ensures Carries(o, OauthParameters(o, nonce, timestamp), name, AllParametersOf(o, nonce, timestamp)[i].value)
  {
    AllNames(o, nonce, timestamp);
    FilterOption(KeptUnder(o.emptyAllowed), AllParametersOf(o, nonce, timestamp), Ascii(name));
    OptionFound(AllParametersOf(o, nonce, timestamp), i);
  }

  /** The value sent under each of the ten names, with the defaults for what the options leave out. */
  lemma ParameterValues(o: ClientOptions, nonce: Bytes, timestamp: Bytes)
    ensures var ps := OauthParameters(o, nonce, timestamp);
            && Carries(o, ps, "oauth_nonce", Some(nonce))
            && Carries(o, ps, "oauth_timestamp", Some(timestamp))
            && Carries(o, ps, "oauth_consumer_key", o.consumerKey)
            && Carries(o, ps, "oauth_token", if o.token.None? then Some([]) else o.token.value)
            && Carries(o, ps, "oauth_signature_method", Some(o.signatureMethod.GetOr(Ascii("HMAC-SHA1"))))
            && Carries(o, ps, "oauth_version", Some(o.version.GetOr(Ascii("1.0"))))
            && Carries(o, ps, "oauth_body_hash", o.bodyHash)
            && Carries(o, ps, "oauth_callback", o.callback)
            && Carries(o, ps, "oauth_verifier", o.verifier)
            && Carries(o, ps, "oauth_session_handle", o.sessionHandle)
  {
    CarriesAt(o, nonce, timestamp, "oauth_body_hash", 0);
    CarriesAt(o, nonce, timestamp, "oauth_callback", 1);
    CarriesAt(o, nonce, timestamp, "oauth_consumer_key", 2);
    CarriesAt(o, nonce, timestamp, "oauth_token", 3);
    CarriesAt(o, nonce, timestamp, "oauth_signature_method", 4);
    CarriesAt(o, nonce, timestamp, "oauth_timestamp", 5);
    CarriesAt(o, nonce, timestamp, "oauth_nonce", 6);
    CarriesAt(o, nonce, timestamp, "oauth_verifier", 7);
    CarriesAt(o, nonce, timestamp, "oauth_version", 8);
    CarriesAt(o, nonce, timestamp, "oauth_session_handle", 9);
  }

  lemma NoOtherParameter(o: ClientOptions, nonce: Bytes, timestamp: Bytes, name: Bytes)
    requires name !in {Ascii("oauth_body_hash"), Ascii("oauth_callback"), Ascii("oauth_consumer_key"),
                       Ascii("oauth_token"), Ascii("oauth_signature_method"), Ascii("oauth_timestamp"),
                       Ascii("oauth_nonce"), Ascii("oauth_verifier"), Ascii("oauth_version"),
                       Ascii("oauth_session_handle")}
    ensures OptionAt(OauthParameters(o, nonce, timestamp), name).None?
  {
    AllNames(o, nonce, timestamp);
    FilterOption(KeptUnder(o.emptyAllowed), AllParametersOf(o, nonce, timestamp), name);
    OptionAbsent(AllParametersOf(o, nonce, timestamp), name);
  }

  // ---------------------------------------------------------------- memoisation

  class Helper {
    const options: ClientOptions
    var nonce: Option<Bytes>
    var timestamp: Option<Bytes>

    constructor (options: ClientOptions, nonce: Option<Bytes>, timestamp: Option<Bytes>)
      ensures this.options == options && this.nonce == nonce && this.timestamp == timestamp
    {
      this.options := options;
      this.nonce := nonce;
      this.timestamp := timestamp;
    }

    /** `options[:nonce] ||= generate_key`: drawn once, then kept. */
    method Nonce(fresh': Bytes) returns (n: Bytes)
      modifies this`nonce
      ensures n == old(nonce).GetOr(fresh') && nonce == Some(n)
    {
      if nonce.None? {
        nonce := Some(fresh');
      }
      n := nonce.value;
    }

    method Timestamp(clock: Bytes) returns (t: Bytes)
      modifies this`timestamp
      ensures t == old(timestamp).GetOr(clock) && timestamp == Some(t)
    {
      if timestamp.None? {
        timestamp := Some(clock);
      }
      t := timestamp.value;
    }

    predicate Drawn()
      reads this
    {
      nonce.Some? && timestamp.Some?
    }

    function Parameters(): seq<Field>
      reads this
      requires Drawn()
    {
      OauthParameters(options, nonce.value, timestamp.value)
    }

    /** The parameters once nonce and timestamp are drawn, from this key source and clock if need be. */
    function After(fresh': Bytes, clock: Bytes): seq<Field>
      reads this
    {
      OauthParameters(options, nonce.GetOr(fresh'), timestamp.GetOr(clock))
    }

    /** `oauth_parameters`: once nonce and timestamp are drawn, every call returns the same list. */
    method OauthParameterList(fresh': Bytes, clock: Bytes) returns (ps: seq<Field>)
      modifies this
      ensures Drawn() && ps == Parameters() == old(After(fresh', clock))
      ensures old(Drawn()) ==> nonce == old(nonce) && timestamp == old(timestamp) && ps == old(Parameters())
      ensures nonce == Some(old(nonce).GetOr(fresh')) && timestamp == Some(old(timestamp).GetOr(clock))
    {
      var t := Timestamp(clock);
      var n := Nonce(fresh');
      ps := OauthParameters(options, n, t);
    }
  }

  /** Two draws on one helper give one list, whatever the later key source and clock say. */
  method DrawTwice(h: Helper, key1: Bytes, clock1: Bytes, key2: Bytes, clock2: Bytes)
    returns (first: seq<Field>, second: seq<Field>)
    modifies h
    ensures first == second
  {
    first := h.OauthParameterList(key1, clock1);
    second := h.OauthParameterList(key2, clock2);
  }
}
