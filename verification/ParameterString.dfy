/**
 * The canonical parameter string: sorted (name, value) pairs, encoded and joined. Every
 * signing path of the library is measured against it.
 */
module ParameterString {
  import opened Bytes
  import opened Codec
  import opened Sorting

  datatype Pair = Pair(name: Bytes, value: Bytes)

  predicate PairLeq(p: Pair, q: Pair) {
    if p.name != q.name then Leq(p.name, q.name) else Leq(p.value, q.value)
  }

  lemma PairLeqIsTotalOrder()
    ensures TotalOrder(PairLeq)
  {
    LeqIsTotalOrder();
  }

  function Render(p: Pair): Bytes {
    Escape(p.name) + [EQUALS] + Escape(p.value)
  }

  function Canonical(ps: seq<Pair>): Bytes {
    Join(Map(Render, Sort(PairLeq, ps)), [AMP])
  }

  // ---------------------------------------------------------------- reading it back

  function ParsePair(piece: Bytes): Pair {
    var parts := Split(piece, {EQUALS});
    Pair(Unescape(parts[0]), if |parts| > 1 then Unescape(parts[1]) else [])
  }

  function ParseCanonical(text: Bytes): seq<Pair> {
    if text == [] then [] else Map(ParsePair, Split(text, {AMP}))
  }

  lemma RenderFree(p: Pair)
    ensures Free(Render(p), {AMP}) && Render(p) != []
  {
    EscapeShape(p.name);
    EscapeShape(p.value);
  }

  lemma EscapedFree(s: Bytes)
    ensures Free(Escape(s), {EQUALS})
  {
    EscapeShape(s);
  }

  lemma RenderShape(p: Pair)
    ensures Free(Render(p), {AMP}) && Render(p) != []
    ensures ParsePair(Render(p)) == p
  {
    RenderFree(p);
    EscapedFree(p.name);
    EscapedFree(p.value);
    SplitFirst(Escape(p.name), EQUALS, Escape(p.value), {EQUALS});
    SplitFree(Escape(p.value), {EQUALS});
    EscapeRoundTrip(p.name);
    EscapeRoundTrip(p.value);
  }

  lemma ParseRendered(ps: seq<Pair>)
    ensures ParseCanonical(Join(Map(Render, ps), [AMP])) == ps
  {
    forall i | 0 <= i < |ps|
      ensures Free(Map(Render, ps)[i], {AMP}) && Map(Render, ps)[i] != []
      ensures ParsePair(Map(Render, ps)[i]) == ps[i]
    {
      RenderShape(ps[i]);
    }
    if ps != [] {
      SplitJoin(Map(Render, ps), AMP, {AMP});
      StartsWithFirst(Map(Render, ps));
      assert Map(ParsePair, Map(Render, ps)) == ps;
    }
  }

  /** Splitting on `&` and `=` and decoding recovers the signed pairs, sorted. */
  lemma CanonicalRoundTrip(ps: seq<Pair>)
    ensures ParseCanonical(Canonical(ps)) == Sort(PairLeq, ps)
  {
    ParseRendered(Sort(PairLeq, ps));
  }

  /** Two parameter strings are equal exactly when the same pairs were signed. */
  lemma CanonicalFaithful(ps: seq<Pair>, qs: seq<Pair>)
    ensures Canonical(ps) == Canonical(qs) <==> multiset(ps) == multiset(qs)
  {
    CanonicalRoundTrip(ps);
    CanonicalRoundTrip(qs);
    PairLeqIsTotalOrder();
    SortDetermined(PairLeq, ps, qs);
  }

  // ---------------------------------------------------------------- pairs, name by name

  /** The values a list of pairs gives one name, in order. */
  function TextsOf(ps: seq<Pair>, name: Bytes): seq<Bytes> {
    if ps == [] then []
    else (if ps[0].name == name then [ps[0].value] else []) + TextsOf(ps[1..], name)
  }

  lemma {:induction false} TextsOfConcat(a: seq<Pair>, b: seq<Pair>, name: Bytes)
    ensures TextsOf(a + b, name) == TextsOf(a, name) + TextsOf(b, name)
  {
    if a == [] {
      assert a + b == b;
    } else {
      TextsOfConcat(a[1..], b, name);
      assert (a + b)[0] == a[0] && (a + b)[1..] == a[1..] + b;
      Assoc(if a[0].name == name then [a[0].value] else [], TextsOf(a[1..], name), TextsOf(b, name));
    }
  }

  lemma {:induction false} TextsOfCount(ps: seq<Pair>, p: Pair)
    ensures multiset(ps)[p] == multiset(TextsOf(ps, p.name))[p.value]
  {
    if ps != [] {
      assert ps == [ps[0]] + ps[1..];
      TextsOfCount(ps[1..], p);
    }
  }

  ghost predicate SameTexts(ps: seq<Pair>, qs: seq<Pair>, name: Bytes) {
    multiset(TextsOf(ps, name)) == multiset(TextsOf(qs, name))
  }

  lemma SameTextsGiven(ps: seq<Pair>, qs: seq<Pair>, name: Bytes)
    requires multiset(ps) == multiset(qs)
    ensures SameTexts(ps, qs, name)
  {
    forall v
      ensures multiset(TextsOf(ps, name))[v] == multiset(TextsOf(qs, name))[v]
    {
      TextsOfCount(ps, Pair(name, v));
      TextsOfCount(qs, Pair(name, v));
    }
  }

  /** Two lists hold the same pairs exactly when they give every name the same values. */
  lemma PairsByName(ps: seq<Pair>, qs: seq<Pair>)
    ensures multiset(ps) == multiset(qs) <==> forall n :: SameTexts(ps, qs, n)
  {
    if multiset(ps) == multiset(qs) {
      forall n
        ensures SameTexts(ps, qs, n)
      {
        SameTextsGiven(ps, qs, n);
      }
    }
    if forall n :: SameTexts(ps, qs, n) {
      forall p: Pair
        ensures multiset(ps)[p] == multiset(qs)[p]
      {
        assert SameTexts(ps, qs, p.name);
        TextsOfCount(ps, p);
        TextsOfCount(qs, p);
      }
    }
  }

  // ---------------------------------------------------------------- section 3.4.1.3.2 of RFC 5849

  function EncodePair(p: Pair): Pair {
    Pair(Escape(p.name), Escape(p.value))
  }

  function Equate(p: Pair): Bytes {
    p.name + [EQUALS] + p.value
  }

  /** The standard's order of work: encode first, sort the encoded pairs, then concatenate. */
  function RfcNormalize(ps: seq<Pair>): Bytes {
    Join(Map(Equate, Sort(PairLeq, Map(EncodePair, ps))), [AMP])
  }

  predicate PairsOver(ps: seq<Pair>, alphabet: set<Byte>) {
    forall i :: 0 <= i < |ps| ==> Over(ps[i].name, alphabet) && Over(ps[i].value, alphabet)
  }

  ghost predicate MatchesRfcOn(alphabet: set<Byte>) {
    forall ps :: PairsOver(ps, alphabet) ==> Canonical(ps) == RfcNormalize(ps)
  }

  lemma RenderIsEncodeThenEquate(ps: seq<Pair>)
    ensures Map(Render, ps) == Map(Equate, Map(EncodePair, ps))
  {
  }

  lemma RfcOrderAgrees(ps: seq<Pair>, alphabet: set<Byte>)
    requires ReservedBelowUnreserved(alphabet) && PairsOver(ps, alphabet)
    ensures Canonical(ps) == RfcNormalize(ps)
  {
    forall p, q | p in ps && q in ps
      ensures PairLeq(p, q) == PairLeq(EncodePair(p), EncodePair(q))
    {
      EscapeMonotone(alphabet, p.name, q.name);
      EscapeMonotone(alphabet, p.value, q.value);
      if Escape(p.name) == Escape(q.name) {
        EscapeInjective(p.name, q.name);
      }
    }
    SortMap(PairLeq, PairLeq, EncodePair, ps);
    RenderIsEncodeThenEquate(Sort(PairLeq, ps));
  }

  lemma SortTwo(p: Pair, q: Pair)
    ensures Sort(PairLeq, [p, q]) == if PairLeq(p, q) then [p, q] else [q, p]
  {
    assert [p, q][1..] == [q] && [q][1..] == [];
    assert Sort(PairLeq, [q]) == [q];
  }

  lemma EscapeOne(b: Byte)
    ensures Escape([b]) == EscapeByte(b)
  {
    assert [b][1..] == [];
  }

  lemma OrdersDisagree(p: Pair, q: Pair)
    requires PairLeq(q, p) && !PairLeq(p, q) && PairLeq(EncodePair(p), EncodePair(q))
    requires Render(q)[0] != Render(p)[0]
    ensures Canonical([p, q]) != RfcNormalize([p, q])
  {
    SortTwo(p, q);
    SortTwo(EncodePair(p), EncodePair(q));
    assert Map(EncodePair, [p, q]) == [EncodePair(p), EncodePair(q)];
    StartsWithFirst(Map(Render, [q, p]));
    StartsWithFirst(Map(Equate, [EncodePair(p), EncodePair(q)]));
  }

  /** Two parameters named by one byte each. */
  function OneByteNames(r: Byte, u: Byte): seq<Pair> {
    [Pair([r], []), Pair([u], [])]
  }

  /** An encoded byte above a plain one: the two orders put the two names differently. */
  lemma RfcOrderBreaks(r: Byte, u: Byte)
    requires !IsUnreserved(r) && IsUnreserved(u) && u <= r
    ensures Canonical(OneByteNames(r, u)) != RfcNormalize(OneByteNames(r, u))
  {
    var p, q := Pair([r], []), Pair([u], []);
    EscapeOne(r);
    EscapeOne(u);
    LeqDecidedAt(0, [r], [u]);
    LeqDecidedAt(0, [u], [r]);
    LeqDecidedAt(0, Escape([r]), Escape([u]));
    assert [r][0] == r && [u][0] == u;
    OrdersDisagree(p, q);
  }

  lemma OneByteNamesOver(r: Byte, u: Byte, alphabet: set<Byte>)
    requires r in alphabet && u in alphabet
    ensures PairsOver(OneByteNames(r, u), alphabet)
  {
  }

  lemma StartsWithFirst(parts: seq<Bytes>)
    requires |parts| > 0 && parts[0] != []
    ensures Join(parts, [AMP]) != [] && Join(parts, [AMP])[0] == parts[0][0]
  {
  }

  /**
   * The library sorts raw names and values where the standard sorts encoded ones: the two
   * agree on all inputs over an alphabet exactly when its encoded bytes lie below its plain ones.
   */
  lemma RfcOrderExact(alphabet: set<Byte>)
    ensures MatchesRfcOn(alphabet) <==> ReservedBelowUnreserved(alphabet)
  {
    if ReservedBelowUnreserved(alphabet) {
      forall ps | PairsOver(ps, alphabet)
        ensures Canonical(ps) == RfcNormalize(ps)
      {
        RfcOrderAgrees(ps, alphabet);
      }
    } else {
      RfcOrderFails(alphabet);
    }
  }

  lemma RfcOrderFails(alphabet: set<Byte>)
    requires !ReservedBelowUnreserved(alphabet)
    ensures !MatchesRfcOn(alphabet)
  {
    var r, u :| r in alphabet && u in alphabet && !IsUnreserved(r) && IsUnreserved(u) && r >= u;
    RfcOrderBreaks(r, u);
    OneByteNamesOver(r, u, alphabet);
  }
}
