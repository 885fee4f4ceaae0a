/** The signature base string (section 3.4.1.1 of RFC 5849) and what it commits to. */
module SignatureBase {
  import opened Bytes
  import opened Codec
  import opened Sorting
  import opened ParameterString

  function BaseString(verb: Bytes, uri: Bytes, normalized: Bytes): Bytes {
    Join([Escape(verb), Escape(uri), Escape(normalized)], [AMP])
  }

  /** What can be read back from a base string. */
  function Reading(text: Bytes): (Bytes, Bytes, seq<Pair>) {
    var parts := Split(text, {AMP});
    if |parts| == 3 then (Unescape(parts[0]), Unescape(parts[1]), ParseCanonical(Unescape(parts[2])))
    else ([], [], [])
  }

  lemma BaseStringParts(verb: Bytes, uri: Bytes, normalized: Bytes)
    ensures Split(BaseString(verb, uri, normalized), {AMP}) == [Escape(verb), Escape(uri), Escape(normalized)]
  {
    EscapeShape(verb);
    EscapeShape(uri);
    EscapeShape(normalized);
    SplitJoin([Escape(verb), Escape(uri), Escape(normalized)], AMP, {AMP});
  }

  /** Splitting on `&` and decoding recovers method, URI and the signed pairs in sorted order. */
  lemma BaseStringRoundTrip(verb: Bytes, uri: Bytes, ps: seq<Pair>)
    ensures Reading(BaseString(verb, uri, Canonical(ps))) == (verb, uri, Sort(PairLeq, ps))
  {
    BaseStringParts(verb, uri, Canonical(ps));
    EscapeRoundTrip(verb);
    EscapeRoundTrip(uri);
    EscapeRoundTrip(Canonical(ps));
    CanonicalRoundTrip(ps);
  }

  /** Base strings are equal exactly when method, URI and multiset of signed pairs are. */
  lemma BaseStringFaithful(verb: Bytes, uri: Bytes, ps: seq<Pair>, verb': Bytes, uri': Bytes, qs: seq<Pair>)
    ensures BaseString(verb, uri, Canonical(ps)) == BaseString(verb', uri', Canonical(qs)) <==>
            verb == verb' && uri == uri' && multiset(ps) == multiset(qs)
  {
    BaseStringRoundTrip(verb, uri, ps);
    BaseStringRoundTrip(verb', uri', qs);
    CanonicalFaithful(ps, qs);
    if BaseString(verb, uri, Canonical(ps)) == BaseString(verb', uri', Canonical(qs)) {
      PairLeqIsTotalOrder();
      SortDetermined(PairLeq, ps, qs);
    }
  }
}
