/**
 * The parameters a request proxy signs: option parameters merged into the grouped request
 * fields, selection of the signed names, and when two parameter hashes sign the same text.
 */
module Options {
  import opened Wrappers
  import opened Bytes
  import opened ParameterString
  import opened Normalize
  import opened Collect
  import opened SignatureBase

  // ---------------------------------------------------------------- option parameters

  /** One turn of the loop in `all_parameters`: push onto an existing array, else replace. */
  function PutOption(h: seq<Entry>, f: Field): seq<Entry> {
    match Lookup(h, f.name)
    case Some(v) => Put(h, f.name, if f.value.Some? then Push(v, [Scalar(f.value)]) else Arr([Scalar(None)]))
    case None => Put(h, f.name, Arr([Scalar(f.value)]))
  }

  function PutOptions(h: seq<Entry>, opts: seq<Field>): seq<Entry>
    decreases |opts|
  {
    if opts == [] then h else PutOptions(PutOption(h, opts[0]), opts[1..])
  }

  /** `all_parameters`: the grouped request fields, then the option parameters one by one. */
  method AllParameters(fields: seq<Field>, opts: seq<Field>) returns (requestParams: seq<Entry>)
    ensures requestParams == PutOptions(Group(fields), opts)
  {
    requestParams := Group(fields);
    for i := 0 to |opts|
      invariant PutOptions(requestParams, opts[i..]) == PutOptions(Group(fields), opts)
    {
      var k, v := opts[i].name, opts[i].value;
      assert opts[i..][1..] == opts[i + 1..];
      var present := Lookup(requestParams, k);
      if present.Some? && v.Some? {
        requestParams := Put(requestParams, k, Push(present.value, [Scalar(v)]));
      } else {
        requestParams := Put(requestParams, k, Arr([Scalar(v)]));
      }
    }
  }

  predicate DistinctNames(fs: seq<Field>) {
    forall i, j :: 0 <= i < j < |fs| ==> fs[i].name != fs[j].name
  }

  /** The option given for a name, if any. */
  function OptionAt(opts: seq<Field>, name: Bytes): Option<Field> {
    if opts == [] then None
    else if opts[0].name == name then Some(opts[0])
    else OptionAt(opts[1..], name)
  }

  lemma {:induction false} OptionAbsent(opts: seq<Field>, name: Bytes)
    ensures OptionAt(opts, name).None? <==> !Occurs(opts, name)
    ensures OptionAt(opts, name).Some? ==> OptionAt(opts, name).value in opts && OptionAt(opts, name).value.name == name
  {
    if opts != [] {
      OptionAbsent(opts[1..], name);
      assert opts == [opts[0]] + opts[1..];
      OccursConcat([opts[0]], opts[1..], name);
      assert [opts[0]][0] == opts[0];
    }
  }

  lemma {:induction false} OptionFound(opts: seq<Field>, i: nat)
    requires DistinctNames(opts) && i < |opts|
    ensures OptionAt(opts, opts[i].name) == Some(opts[i])
  {
    if i > 0 {
      OptionFound(opts[1..], i - 1);
    }
  }

  function WithOption(old': Option<Value>, f: Field): Value {
    if old'.Some? && f.value.Some? then Push(old'.value, [Scalar(f.value)]) else Arr([Scalar(f.value)])
  }

  lemma PutOptionLookup(h: seq<Entry>, f: Field, name: Bytes)
    ensures Lookup(PutOption(h, f), name) ==
            if name == f.name then Some(WithOption(Lookup(h, name), f)) else Lookup(h, name)
  {
    LookupPut(h, f.name, WithOption(Lookup(h, f.name), f), name);
  }

  lemma {:induction false} PutOptionsLookup(h: seq<Entry>, opts: seq<Field>, name: Bytes)
    requires DistinctNames(opts)
    ensures Lookup(PutOptions(h, opts), name) ==
            match OptionAt(opts, name)
            case None => Lookup(h, name)
            case Some(f) => Some(WithOption(Lookup(h, name), f))
    decreases |opts|
  {
    if opts != [] {
      PutOptionLookup(h, opts[0], name);
      PutOptionsLookup(PutOption(h, opts[0]), opts[1..], name);
      OptionAbsent(opts[1..], name);
    }
  }

  /** A hash whose keys are distinct and whose values sort without raising. */
  predicate SignableHash(h: seq<Entry>) {
    DistinctKeys(h) && AllValues(h, Signable)
  }

  lemma {:induction false} PutOptionsShape(h: seq<Entry>, opts: seq<Field>)
    requires DistinctKeys(h) && AllValues(h, TextArray) && DistinctNames(opts)
    ensures SignableHash(PutOptions(h, opts))
  {
    PutOptionsKeys(h, opts);
    var all := PutOptions(h, opts);
    forall i | 0 <= i < |all|
      ensures Signable(all[i].value)
    {
      LookupAt(all, i);
      PutOptionsLookup(h, opts, all[i].key);
      if Lookup(h, all[i].key).Some? {
        LookupValue(h, all[i].key, TextArray);
      }
    }
  }

  lemma {:induction false} LookupAt(h: seq<Entry>, i: nat)
    requires DistinctKeys(h) && i < |h|
    ensures Lookup(h, h[i].key) == Some(h[i].value)
  {
    if i > 0 {
      LookupAt(h[1..], i - 1);
    }
  }

  lemma {:induction false} PutOptionsKeys(h: seq<Entry>, opts: seq<Field>)
    requires DistinctKeys(h)
    ensures DistinctKeys(PutOptions(h, opts))
    decreases |opts|
  {
    if opts != [] {
      PutDistinct(h, opts[0].name, WithOption(Lookup(h, opts[0].name), opts[0]));
      PutOptionsKeys(PutOption(h, opts[0]), opts[1..]);
    }
  }

  /** What the fields and options together sign under one name. */
  function OptionTexts(fields: seq<Field>, opts: seq<Field>, name: Bytes): seq<Bytes> {
    match OptionAt(opts, name)
    case None => GroupedTexts(fields, name)
    case Some(f) => if f.value.None? then [[]] else NamedValues(fields, name) + [f.value.value]
  }

  lemma OptionTextsAt(fields: seq<Field>, opts: seq<Field>, name: Bytes)
    requires DistinctNames(opts)
    ensures TextsAt(PutOptions(Group(fields), opts), name) == OptionTexts(fields, opts, name)
  {
    PutOptionsLookup(Group(fields), opts, name);
    GroupedTextsAt(fields, name);
    GroupLookup(fields, name);
    match OptionAt(opts, name)
    case None =>
    case Some(f) => {
      if f.value.Some? && Occurs(fields, name) {
        var values := NamedValues(fields, name);
        assert Push(Arr(Map(TextScalar, values)), [Scalar(f.value)]).elems ==
               Map(TextScalar, values) + [Scalar(f.value)];
        assert Map(TextOf, Map(TextScalar, values) + [Scalar(f.value)]) == values + [f.value.value];
      } else {
        NamedValuesAbsentOr(fields, name);
      }
    }
  }

  lemma NamedValuesAbsentOr(fields: seq<Field>, name: Bytes)
    ensures !Occurs(fields, name) ==> NamedValues(fields, name) == []
  {
    if !Occurs(fields, name) {
      NamedValuesAbsent(fields, name);
    }
  }

  predicate HasValue(f: Field) {
    f.value.Some?
  }

  predicate AllValued(fs: seq<Field>) {
    forall i :: 0 <= i < |fs| ==> HasValue(fs[i])
  }

  /** One blank pair stands for each name that only bare keys mention. */
  function BlankPair(fields: seq<Field>, name: Bytes): seq<Bytes> {
    if Occurs(fields, name) && NamedValues(fields, name) == [] then [[]] else []
  }

  /** What a name should sign: the request's values, its option, one blank if all bare. */
  ghost function Conserved(fields: seq<Field>, opts: seq<Field>, name: Bytes): multiset<Bytes> {
    multiset(NamedValues(fields, name)) + multiset(NamedValues(opts, name)) +
    multiset(BlankPair(fields + opts, name))
  }

  /**
   * Collecting parameters loses and invents nothing under a name, bare keys being absorbed by
   * any value, exactly when no nil option replaces values of the request there.
   */
  lemma AllParametersConservesExact(fields: seq<Field>, opts: seq<Field>, name: Bytes)
    requires DistinctNames(opts)
    ensures multiset(TextsOf(SignedPairs(PutOptions(Group(fields), opts)), name)) == Conserved(fields, opts, name) <==>
            (OptionAt(opts, name) == Some(Field(name, None)) ==> NamedValues(fields, name) in {[], [[]]})
  {
    GroupShape(fields);
    PutOptionsKeys(Group(fields), opts);
    SignedTexts(PutOptions(Group(fields), opts), name);
    OptionTextsAt(fields, opts, name);
    ConservedCase(fields, opts, name);
  }

  lemma ConservedValues(nf: seq<Bytes>, given: Option<Option<Bytes>>, inFields: bool)
    requires !inFields ==> nf == []
    ensures var no := if given.Some? && given.value.Some? then [given.value.value] else [];
            var blank := if (inFields || given.Some?) && nf + no == [] then [[]] else [];
            var texts := match given
              case None => if nf != [] then nf else if inFields then [[]] else []
              case Some(v) => if v.None? then [[]] else nf + [v.value];
            multiset(texts) == multiset(nf) + multiset(no) + multiset(blank) <==>
            (given == Some(None) ==> nf in {[], [[]]})
  {
    var none: seq<Bytes> := [];
    assert nf + none == nf;
    if given == Some(None) {
      BlankOrNot(nf);
    }
  }

  lemma ConservedCase(fields: seq<Field>, opts: seq<Field>, name: Bytes)
    requires DistinctNames(opts)
    ensures multiset(OptionTexts(fields, opts, name)) == Conserved(fields, opts, name) <==>
            (OptionAt(opts, name) == Some(Field(name, None)) ==> NamedValues(fields, name) in {[], [[]]})
  {
    var given := match OptionAt(opts, name) case None => None case Some(f) => Some(f.value);
    OptionAbsent(opts, name);
    OptionValues(opts, name);
    OccursConcat(fields, opts, name);
    NamedValuesConcat(fields, opts, name);
    NamedValuesAbsentOr(fields, name);
    ConservedValues(NamedValues(fields, name), given, Occurs(fields, name));
  }

  lemma BlankOrNot(values: seq<Bytes>)
    ensures multiset([[]]) == multiset(values) + multiset(if values == [] then [[]] else []) <==>
            values in {[], [[]]}
  {
    var blank: seq<Bytes> := [[]];
    if values != [] && multiset(blank) == multiset(values) {
      assert |values| == |multiset(values)| == 1;
      assert values[0] in multiset(blank);
      assert values == [values[0]];
    }
  }

  lemma {:induction false} OptionValues(opts: seq<Field>, name: Bytes)
    requires DistinctNames(opts)
    ensures NamedValues(opts, name) ==
            match OptionAt(opts, name) case None => [] case Some(f) => NamedValue(f, name)
  {
    if opts != [] {
      OptionValues(opts[1..], name);
      if opts[0].name == name {
        assert !Occurs(opts[1..], name);
        NamedValuesAbsent(opts[1..], name);
        assert NamedValues(opts, name) == NamedValue(opts[0], name) + NamedValues(opts[1..], name);
      }
    }
  }

  // ---------------------------------------------------------------- signed selection

  function Excluding(unsigned: set<Bytes>): Entry -> bool {
    (e: Entry) => e.key !in unsigned
  }

  /** `parameters_for_signature`: without the signature itself and the unsigned names. */
  function ForSignature(h: seq<Entry>, unsigned: set<Bytes>): seq<Entry> {
    Filter(Excluding(unsigned), h)
  }

  lemma {:induction false} SelectionLookup(h: seq<Entry>, unsigned: set<Bytes>, name: Bytes)
    ensures Lookup(ForSignature(h, unsigned), name) == if name in unsigned then None else Lookup(h, name)
  {
    if h != [] {
      SelectionLookup(h[1..], unsigned, name);
    }
  }

  lemma {:induction false} SelectionMembers(h: seq<Entry>, unsigned: set<Bytes>)
    ensures forall e :: e in ForSignature(h, unsigned) ==> e in h
  {
    if h != [] {
      SelectionMembers(h[1..], unsigned);
      assert h == [h[0]] + h[1..];
    }
  }

  lemma {:induction false} SelectionShape(h: seq<Entry>, unsigned: set<Bytes>)
    requires SignableHash(h)
    ensures SignableHash(ForSignature(h, unsigned))
  {
    if h != [] {
      var tail := ForSignature(h[1..], unsigned);
      SelectionShape(h[1..], unsigned);
      SelectionMembers(h[1..], unsigned);
      forall j | 0 <= j < |tail|
        ensures tail[j].key != h[0].key
      {
        assert tail[j] in tail && tail[j] in h[1..];
        var k :| 0 <= k < |h[1..]| && h[1..][k] == tail[j];
        assert h[k + 1].key != h[0].key;
      }
    }
  }

  /** The base string of a method, a normalized URI and a parameter hash. */
  function BaseOf(verb: Bytes, uri: Bytes, h: seq<Entry>, unsigned: set<Bytes>): Result<Bytes, Error> {
    match NormalizeHash(ForSignature(h, unsigned))
    case Err(error) => Err(error)
    case Ok(normalized) => Ok(BaseString(verb, uri, normalized))
  }

  lemma BaseOfSignable(verb: Bytes, uri: Bytes, h: seq<Entry>, unsigned: set<Bytes>)
    requires SignableHash(h)
    ensures BaseOf(verb, uri, h, unsigned) ==
            Ok(BaseString(verb, uri, Canonical(SignedPairs(ForSignature(h, unsigned)))))
  {
    SelectionShape(h, unsigned);
    var signed := ForSignature(h, unsigned);
    assert forall i :: 0 <= i < |signed| ==> Signable(signed[i].value);
    NormalizeFlat(signed);
  }

  /** Two hashes give a signed name the same values. */
  ghost predicate AgreeAt(h: seq<Entry>, k: seq<Entry>, unsigned: set<Bytes>, name: Bytes) {
    name in unsigned || multiset(TextsAt(h, name)) == multiset(TextsAt(k, name))
  }

  lemma SelectionTexts(h: seq<Entry>, unsigned: set<Bytes>, name: Bytes)
    requires SignableHash(h)
    ensures TextsOf(SignedPairs(ForSignature(h, unsigned)), name) == if name in unsigned then [] else TextsAt(h, name)
  {
    SelectionShape(h, unsigned);
    SignedTexts(ForSignature(h, unsigned), name);
    SelectionLookup(h, unsigned, name);
  }

  /**
   * The base string is faithful: for flat parameter hashes it is equal exactly when method,
   * URI and the multiset of signed (name, value) pairs are, nil and empty arrays read as "".
   */
  lemma FlatBaseFaithful(
    verb: Bytes, uri: Bytes, h: seq<Entry>, verb': Bytes, uri': Bytes, k: seq<Entry>, unsigned: set<Bytes>)
    requires SignableHash(h) && SignableHash(k)
    ensures BaseOf(verb, uri, h, unsigned) == BaseOf(verb', uri', k, unsigned) <==>
            && verb == verb' && uri == uri'
            && multiset(SignedPairs(ForSignature(h, unsigned))) == multiset(SignedPairs(ForSignature(k, unsigned)))
  {
    BaseOfSignable(verb, uri, h, unsigned);
    BaseOfSignable(verb', uri', k, unsigned);
    BaseStringFaithful(verb, uri, SignedPairs(ForSignature(h, unsigned)),
                       verb', uri', SignedPairs(ForSignature(k, unsigned)));
  }

  /**
   * With method and URI fixed, two parameter hashes sign the same base string exactly when
   * they agree on every signed name.
   */
  lemma SameBaseExact(verb: Bytes, uri: Bytes, h: seq<Entry>, k: seq<Entry>, unsigned: set<Bytes>)
    requires SignableHash(h) && SignableHash(k)
    ensures BaseOf(verb, uri, h, unsigned) == BaseOf(verb, uri, k, unsigned) <==>
            forall n :: AgreeAt(h, k, unsigned, n)
  {
    var ps, qs := SignedPairs(ForSignature(h, unsigned)), SignedPairs(ForSignature(k, unsigned));
    BaseOfSignable(verb, uri, h, unsigned);
    BaseOfSignable(verb, uri, k, unsigned);
    BaseStringFaithful(verb, uri, ps, verb, uri, qs);
    PairsByName(ps, qs);
    forall n
      ensures SameTexts(ps, qs, n) <==> AgreeAt(h, k, unsigned, n)
    {
      SelectionTexts(h, unsigned, n);
      SelectionTexts(k, unsigned, n);
    }
  }
}
