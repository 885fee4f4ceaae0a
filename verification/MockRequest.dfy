/**
 * A hash-backed request whose parameter arrays are shared objects: `normalize` appends nil
 * to the caller's empty arrays, and `sign!` writes into the very hash it signs.
 */
module MockRequest {
  import opened Wrappers
  import opened Bytes
  import opened Sorting
  import opened Normalize
  import opened Collect
  import opened Options
  import opened ClientHelper
  import opened Requests
  import opened SignatureCheck

  /** An array object held by a parameter hash. */
  class ParamArray {
    var items: seq<Value>

    constructor (items: seq<Value>)
      ensures this.items == items
    {
      this.items := items;
    }
  }

  /** A value of the live hash: one of its own, or an array that others may also hold. */
  datatype Live = Own(value: Value) | Shared(arr: ParamArray)
  datatype LiveEntry = LiveEntry(key: Bytes, live: Live)

  function Arrays(h: seq<LiveEntry>): (arrs: set<ParamArray>)
    ensures forall e :: e in h && e.live.Shared? ==> e.live.arr in arrs
  {
    set e | e in h && e.live.Shared? :: e.live.arr
  }

  type Contents = map<ParamArray, seq<Value>>

  /** The items of the arrays at one moment. */
  function Snapshot(arrs: set<ParamArray>): (c: Contents)
    reads arrs
    ensures c.Keys == arrs && forall a :: a in arrs ==> c[a] == a.items
  {
    map a | a in arrs :: a.items
  }

  function Frozen(c: Contents): LiveEntry -> Entry {
    (e: LiveEntry) => Entry(e.key, LiveValue(c, e.live))
  }

  function LiveValue(c: Contents, live: Live): Value {
    match live
    case Own(v) => v
    case Shared(a) => if a in c then Arr(c[a]) else Arr([])
  }

  /** The parameter hash as a value. */
  function View(h: seq<LiveEntry>): seq<Entry>
    reads Arrays(h)
  {
    Map(Frozen(Snapshot(Arrays(h))), h)
  }

  lemma ViewFrom(h: seq<LiveEntry>, c: Contents)
    requires c.Keys == Arrays(h) && forall a :: a in c ==> c[a] == a.items
    ensures View(h) == Map(Frozen(c), h)
  {
    assert Snapshot(Arrays(h)) == c;
  }

  // ---------------------------------------------------------------- padding

  /** An empty array after `values << nil if values.empty?`. */
  function Padded(items: seq<Value>): seq<Value> {
    if items == [] then [Scalar(None)] else items
  }

  function PadEntry(e: Entry): Entry {
    if e.value.Arr? then Entry(e.key, Arr(Padded(e.value.elems))) else e
  }

  /** Two hashes that differ at most by padding. */
  predicate SamePadded(h: seq<Entry>, k: seq<Entry>) {
    Map(PadEntry, h) == Map(PadEntry, k)
  }

  lemma PadStrings(e: Entry)
    ensures EntryStrings(PadEntry(e)) == EntryStrings(e)
  {
  }

  lemma PadAllStrings(es: seq<Entry>)
    ensures AllStrings(Map(PadEntry, es)) == AllStrings(es)
  {
    forall e | e in es
      ensures EntryStrings(PadEntry(e)) == EntryStrings(e)
    {
      PadStrings(e);
    }
    MappedStrings(PadEntry, es);
  }

  /** Padding never changes a normalization, now or later. */
  lemma PaddingInvisible(h: seq<Entry>, k: seq<Entry>)
    requires SamePadded(h, k)
    ensures NormalizeHash(h) == NormalizeHash(k)
  {
    SortMap(EntryLeq, EntryLeq, PadEntry, h);
    SortMap(EntryLeq, EntryLeq, PadEntry, k);
    PadAllStrings(Sort(EntryLeq, h));
    PadAllStrings(Sort(EntryLeq, k));
  }

  lemma {:induction false} PadSelection(h: seq<Entry>, k: seq<Entry>, unsigned: set<Bytes>)
    requires SamePadded(h, k)
    ensures SamePadded(ForSignature(h, unsigned), ForSignature(k, unsigned))
  {
    if h == [] {
      assert |Map(PadEntry, k)| == 0;
    } else {
      assert |h| == |k|;
      assert PadEntry(h[0]) == PadEntry(k[0]);
      assert Map(PadEntry, h)[1..] == Map(PadEntry, h[1..]) && Map(PadEntry, k)[1..] == Map(PadEntry, k[1..]);
      PadSelection(h[1..], k[1..], unsigned);
    }
  }

  lemma PadBase(verb: Bytes, uri: Bytes, h: seq<Entry>, k: seq<Entry>, unsigned: set<Bytes>)
    requires SamePadded(h, k)
    ensures BaseOf(verb, uri, h, unsigned) == BaseOf(verb, uri, k, unsigned)
  {
    PadSelection(h, k, unsigned);
    PaddingInvisible(ForSignature(h, unsigned), ForSignature(k, unsigned));
  }

  /** Each array is as it was, or was empty and now holds one nil. */
  predicate PaddedFrom(before: Contents)
    reads before.Keys
  {
    forall a :: a in before ==> a.items == before[a] || a.items == Padded(before[a])
  }

  lemma PaddedEntry(e: LiveEntry, before: Contents, now: Contents)
    requires e.live.Shared? ==>
               e.live.arr in before && e.live.arr in now &&
               (now[e.live.arr] == before[e.live.arr] || now[e.live.arr] == Padded(before[e.live.arr]))
    ensures PadEntry(Frozen(before)(e)) == PadEntry(Frozen(now)(e))
  {
  }

  lemma {:induction false} PaddedMaps(h: seq<LiveEntry>, before: Contents, now: Contents)
    requires forall e :: e in h && e.live.Shared? ==> e.live.arr in before
    requires before.Keys == now.Keys && forall a :: a in before ==> now[a] == before[a] || now[a] == Padded(before[a])
    ensures SamePadded(Map(Frozen(before), h), Map(Frozen(now), h))
  {
    if h != [] {
      assert h == [h[0]] + h[1..];
      PaddedEntry(h[0], before, now);
      PaddedMaps(h[1..], before, now);
      assert Map(Frozen(before), h)[1..] == Map(Frozen(before), h[1..]);
      assert Map(Frozen(now), h)[1..] == Map(Frozen(now), h[1..]);
    }
  }

  lemma PaddedViews(h: seq<LiveEntry>, before: Contents)
    requires before.Keys == Arrays(h) && PaddedFrom(before)
    ensures SamePadded(Map(Frozen(before), h), View(h))
  {
    PaddedMaps(h, before, Snapshot(Arrays(h)));
  }

  // ---------------------------------------------------------------- normalize

  predicate LiveLeq(a: LiveEntry, b: LiveEntry) {
    Leq(a.key, b.key)
  }

  lemma {:induction false} AllStringsStep(es: seq<Entry>, i: nat)
    requires i < |es| && AllStrings(es[..i]).Ok?
    ensures EntryStrings(es[i]).Err? ==> AllStrings(es) == Err(EntryStrings(es[i]).error)
    ensures EntryStrings(es[i]).Ok? ==>
              AllStrings(es[..i + 1]) == Ok(AllStrings(es[..i]).value + [EntryStrings(es[i]).value])
  {
    var some, more := es[..i], es[..i + 1];
    if i == 0 {
      assert more[1..] == [] && more[0] == es[0] && some == [];
      assert AllStrings(more[1..]) == Ok([]);
      if EntryStrings(es[0]).Ok? {
        assert [EntryStrings(es[0]).value] + [] == [] + [EntryStrings(es[0]).value];
      }
    } else {
      assert some[1..] == es[1..][..i - 1];
      assert more[1..] == es[1..][..i];
      AllStringsStep(es[1..], i - 1);
      if EntryStrings(es[i]).Ok? {
        assert AllStrings(more).value == AllStrings(some).value + [EntryStrings(es[i]).value];
      }
    }
  }

  /** Exactly the arrays in `done` have been padded. */
  predicate Walked(c: Contents, done: set<ParamArray>)
    reads c.Keys
  {
    forall a :: a in c ==> a.items == if a in done then Padded(c[a]) else c[a]
  }

  /** The strings of one entry; an empty array is padded in its own object first. */
  method StringsInPlace(e: LiveEntry, ghost c: Contents, ghost done: set<ParamArray>)
    returns (r: Result<seq<Bytes>, Error>)
    requires Walked(c, done) && (e.live.Shared? ==> e.live.arr in c)
    modifies if e.live.Shared? then {e.live.arr} else {}
    ensures r == EntryStrings(Frozen(c)(e))
    ensures Walked(c, done + if e.live.Shared? then {e.live.arr} else {})
  {
    var value := Scalar(None);
    match e.live {
      case Own(v) =>
        value := v;
      case Shared(a) =>
        if a.items == [] {
          a.items := [Scalar(None)];
        }
        value := Arr(a.items);
    }
    PadStrings(Frozen(c)(e));
    PadStrings(Entry(e.key, value));
    r := EntryStrings(Entry(e.key, value));
  }

  lemma ArraysStep(s: seq<LiveEntry>, i: nat)
    requires i < |s|
    ensures Arrays(s[..i + 1]) == Arrays(s[..i]) + if s[i].live.Shared? then {s[i].live.arr} else {}
    ensures Arrays(s[..i + 1]) <= Arrays(s)
  {
    assert s[..i + 1] == s[..i] + [s[i]];
  }

  /** Walks the sorted entries, padding each empty array in its own object. */
  method StringsOfAll(sorted: seq<LiveEntry>) returns (r: Result<seq<seq<Bytes>>, Error>)
    modifies Arrays(sorted)
    ensures r == AllStrings(Map(Frozen(old(Snapshot(Arrays(sorted)))), sorted))
    ensures PaddedFrom(old(Snapshot(Arrays(sorted))))
    ensures r.Ok? ==> Walked(old(Snapshot(Arrays(sorted))), Arrays(sorted))
  {
    ghost var c := Snapshot(Arrays(sorted));
    ghost var es := Map(Frozen(c), sorted);
    var groups: seq<seq<Bytes>> := [];
    for i := 0 to |sorted|
      invariant AllStrings(es[..i]) == Ok(groups)
      invariant Walked(c, Arrays(sorted[..i]))
    {
      ArraysStep(sorted, i);
      AllStringsStep(es, i);
      var strings := StringsInPlace(sorted[i], c, Arrays(sorted[..i]));
      if strings.Err? {
        return Err(strings.error);
      }
      groups := groups + [strings.value];
    }
    assert es[..|sorted|] == es && sorted[..|sorted|] == sorted;
    r := Ok(groups);
  }

  lemma SortedArrays(params: seq<LiveEntry>)
    ensures Arrays(Sort(LiveLeq, params)) == Arrays(params)
  {
    SortedMembers(params);
    forall e | e in params
      ensures e in Sort(LiveLeq, params)
    {
      InSorted(params, e);
    }
  }

  lemma SortedView(c: Contents, params: seq<LiveEntry>)
    ensures Map(Frozen(c), Sort(LiveLeq, params)) == Sort(EntryLeq, Map(Frozen(c), params))
  {
    SortMap(LiveLeq, EntryLeq, Frozen(c), params);
  }

  /**
   * `normalize` on live arrays computes the normal form of the hash as it was, raises where
   * that raises, and pads each empty array of the caller once.
   */
  method NormalizeInPlace(params: seq<LiveEntry>) returns (r: Result<Bytes, Error>)
    modifies Arrays(params)
    ensures r == NormalizeHash(old(View(params)))
    ensures PaddedFrom(old(Snapshot(Arrays(params))))
    ensures r.Ok? ==> forall a :: a in Arrays(params) ==> a.items == Padded(old(a.items))
  {
    var sorted := Sort(LiveLeq, params);
    ghost var c := Snapshot(Arrays(params));
    SortedArrays(params);
    SortedView(c, params);
    var groups := StringsOfAll(sorted);
    if groups.Err? {
      return Err(groups.error);
    }
    r := Ok(JoinGroups(groups.value));
  }

  lemma SortedMembers(params: seq<LiveEntry>)
    ensures forall e :: e in Sort(LiveLeq, params) ==> e in params
  {
    forall e | e in Sort(LiveLeq, params)
      ensures e in params
    {
      assert e in multiset(Sort(LiveLeq, params));
      assert e in multiset(params);
    }
  }

  lemma InSorted(params: seq<LiveEntry>, e: LiveEntry)
    requires e in params
    ensures e in Sort(LiveLeq, params)
  {
    assert e in multiset(params);
    assert e in multiset(Sort(LiveLeq, params));
  }

  // ---------------------------------------------------------------- sign! and verify

  function LivePut(h: seq<LiveEntry>, name: Bytes, v: Live): seq<LiveEntry> {
    if h == [] then [LiveEntry(name, v)]
    else if h[0].key == name then [LiveEntry(name, v)] + h[1..]
    else [h[0]] + LivePut(h[1..], name, v)
  }

  predicate LiveSigned(unsigned: set<Bytes>, e: LiveEntry) {
    e.key !in unsigned
  }

  function LiveForSignature(h: seq<LiveEntry>, unsigned: set<Bytes>): seq<LiveEntry> {
    Filter((e: LiveEntry) => LiveSigned(unsigned, e), h)
  }

  lemma {:induction false} SelectionFrozen(c: Contents, h: seq<LiveEntry>, unsigned: set<Bytes>)
    ensures Map(Frozen(c), LiveForSignature(h, unsigned)) == ForSignature(Map(Frozen(c), h), unsigned)
    ensures forall e :: e in LiveForSignature(h, unsigned) ==> e in h
  {
    if h != [] {
      SelectionFrozen(c, h[1..], unsigned);
      assert Map(Frozen(c), h)[1..] == Map(Frozen(c), h[1..]);
      assert h == [h[0]] + h[1..];
    }
  }

  lemma FrozenAgree(c: Contents, d: Contents, h: seq<LiveEntry>)
    requires forall e :: e in h && e.live.Shared? ==>
               e.live.arr in c && e.live.arr in d && c[e.live.arr] == d[e.live.arr]
    ensures Map(Frozen(c), h) == Map(Frozen(d), h)
  {
    forall i | 0 <= i < |h|
      ensures Frozen(c)(h[i]) == Frozen(d)(h[i])
    {
      assert h[i] in h;
    }
  }

  lemma SelectionView(h: seq<LiveEntry>, unsigned: set<Bytes>)
    ensures Arrays(LiveForSignature(h, unsigned)) <= Arrays(h)
    ensures View(LiveForSignature(h, unsigned)) == ForSignature(View(h), unsigned)
  {
    var some := LiveForSignature(h, unsigned);
    SelectionFrozen(Snapshot(Arrays(h)), h, unsigned);
    FrozenAgree(Snapshot(Arrays(some)), Snapshot(Arrays(h)), some);
  }

  lemma {:induction false} PutFrozen(c: Contents, h: seq<LiveEntry>, name: Bytes, v: Value)
    ensures Map(Frozen(c), LivePut(h, name, Own(v))) == Put(Map(Frozen(c), h), name, v)
    ensures forall e :: e in LivePut(h, name, Own(v)) ==> e in h || e == LiveEntry(name, Own(v))
  {
    if h != [] {
      assert h == [h[0]] + h[1..];
      assert Map(Frozen(c), h)[1..] == Map(Frozen(c), h[1..]);
      if h[0].key != name {
        PutFrozen(c, h[1..], name, v);
      }
    }
  }

  lemma PutView(h: seq<LiveEntry>, name: Bytes, v: Value)
    ensures Arrays(LivePut(h, name, Own(v))) <= Arrays(h)
    ensures View(LivePut(h, name, Own(v))) == Put(View(h), name, v)
  {
    var more := LivePut(h, name, Own(v));
    PutFrozen(Snapshot(Arrays(h)), h, name, v);
    FrozenAgree(Snapshot(Arrays(more)), Snapshot(Arrays(h)), more);
  }

  lemma PutBase(verb: Bytes, uri: Bytes, h: seq<Entry>, v: Value, unsigned: set<Bytes>)
    ensures BaseOf(verb, uri, Put(h, SIGNATURE, v), unsigned + {SIGNATURE}) ==
            BaseOf(verb, uri, h, unsigned + {SIGNATURE})
  {
    PutUnsigned(h, SIGNATURE, v, unsigned + {SIGNATURE});
  }

  lemma StoreFacts(verb: Bytes, uri: Bytes, h: seq<LiveEntry>, v: Value, unsigned: set<Bytes>)
    ensures var more := LivePut(h, SIGNATURE, Own(v));
            && Arrays(more) <= Arrays(h)
            && View(more) == Put(View(h), SIGNATURE, v)
            && BaseOf(verb, uri, View(more), unsigned + {SIGNATURE}) ==
               BaseOf(verb, uri, View(h), unsigned + {SIGNATURE})
  {
    PutView(h, SIGNATURE, v);
    PutBase(verb, uri, View(h), v, unsigned);
  }

  lemma {:induction false} PutUnsigned(h: seq<Entry>, name: Bytes, v: Value, unsigned: set<Bytes>)
    requires name in unsigned
    ensures ForSignature(Put(h, name, v), unsigned) == ForSignature(h, unsigned)
  {
    var more := Put(h, name, v);
    if h == [] {
      assert more[1..] == [];
    } else if h[0].key == name {
      assert more[1..] == h[1..];
    } else {
      PutUnsigned(h[1..], name, v, unsigned);
      assert more[1..] == Put(h[1..], name, v);
    }
  }

  /** `[v].flatten.first`, nil read as "". */
  function FirstText(v: Value): Bytes {
    match FirstScalar([v]) case None => [] case Some(s) => s.GetOr([])
  }

  /** The first element left when nested arrays are flattened; a hash has no text. */
  function FirstScalar(vs: seq<Value>): Option<Option<Bytes>>
    decreases vs
  {
    if vs == [] then None
    else
      match vs[0]
      case Scalar(t) => Some(t)
      case Hash(_) => Some(None)
      case Arr(inner) =>
        var first := FirstScalar(inner);
        if first.Some? then first else FirstScalar(vs[1..])
  }

  /** The scalars of nested arrays, in order; a hash counts as one without text. */
  function Flattened(vs: seq<Value>): seq<Option<Bytes>>
    decreases vs
  {
    if vs == [] then []
    else (match vs[0]
          case Scalar(t) => [t]
          case Hash(_) => [None]
          case Arr(inner) => Flattened(inner)) + Flattened(vs[1..])
  }

  /** The first element of the flattened array is found without flattening it. */
  lemma {:induction false} FirstOfFlattened(vs: seq<Value>)
    ensures FirstScalar(vs) == if Flattened(vs) == [] then None else Some(Flattened(vs)[0])
    decreases vs
  {
    if vs != [] {
      FirstOfFlattened(vs[1..]);
      if vs[0].Arr? {
        FirstOfFlattened(vs[0].elems);
      }
    }
  }

  function CurrentSignature(params: seq<Entry>): Bytes {
    match Lookup(params, SIGNATURE) case None => [] case Some(v) => FirstText(v)
  }

  /** The stored signature is the first scalar under its name, and "" if there is none or it is nil. */
  lemma SignatureIsFirst(params: seq<Entry>)
    ensures var scalars := match Lookup(params, SIGNATURE) case None => [] case Some(v) => Flattened([v]);
            CurrentSignature(params) == if scalars == [] then [] else scalars[0].GetOr([])
  {
    if Lookup(params, SIGNATURE).Some? {
      FirstOfFlattened([Lookup(params, SIGNATURE).value]);
    }
  }

  class HashRequest {
    const verb: Bytes
    const uri: Bytes
    const unsigned: set<Bytes>
    var parameters: seq<LiveEntry>
    var signed: bool

    constructor (verb: Bytes, uri: Bytes, unsigned: set<Bytes>, parameters: seq<LiveEntry>)
      ensures this.verb == verb && this.uri == uri && this.unsigned == unsigned
      ensures this.parameters == parameters && !signed
    {
      this.verb, this.uri, this.unsigned, this.parameters := verb, uri, unsigned, parameters;
      signed := false;
    }

    function Held(): set<ParamArray>
      reads this
    {
      Arrays(parameters)
    }

    function Parameters(): seq<Entry>
      reads this, Held()
    {
      View(parameters)
    }

    /** The base string of the request as it stands, as a value. */
    function Base(): Result<Bytes, Error>
      reads this, Held()
    {
      BaseOf(verb, uri, Parameters(), unsigned + {SIGNATURE})
    }

    /** `signature_base_string`: the selected hash is new, its arrays are the live ones. */
    method SignatureBaseString() returns (r: Result<Bytes, Error>)
      modifies Held()
      ensures r == old(Base()) == Base()
      ensures PaddedFrom(old(Snapshot(Held()))) && Held() == old(Held())
    {
      ghost var before := Snapshot(Held());
      var selected := LiveForSignature(parameters, unsigned + {SIGNATURE});
      SelectionView(parameters, unsigned + {SIGNATURE});
      var normalized := NormalizeInPlace(selected);
      PaddedViews(parameters, before);
      PadBase(verb, uri, old(Parameters()), Parameters(), unsigned + {SIGNATURE});
      match normalized {
        case Err(error) => r := Err(error);
        case Ok(text) => r := Ok(SignatureBase.BaseString(verb, uri, text));
      }
    }

    /** `parameters["oauth_signature"] = …` on the live hash; what is signed does not change. */
    method Store(value: Value)
      modifies this
      ensures Held() <= old(Held()) && signed
      ensures Parameters() == Put(old(Parameters()), SIGNATURE, value)
      ensures Base() == old(Base())
    {
      StoreFacts(verb, uri, parameters, value, unsigned);
      ghost var more := LivePut(parameters, SIGNATURE, Own(value));
      ghost var c := Snapshot(Arrays(more));
      ViewFrom(more, c);
      parameters := LivePut(parameters, SIGNATURE, Own(value));
      signed := true;
      ViewFrom(more, c);
    }

    /** `sign!`: stores the signature in the live hash and returns it; nothing is stored on a raise. */
    method Sign(mac: (Bytes, Bytes) -> Bytes, key: Bytes) returns (r: Result<Bytes, Error>)
      modifies this, Held()
      ensures Held() <= old(Held()) && PaddedFrom(old(Snapshot(Held())))
      ensures Base() == old(Base())
      ensures old(Base()).Err? ==>
                r == Err(old(Base()).error) && parameters == old(parameters) && signed == old(signed)
      ensures old(Base()).Ok? ==>
                && r == Ok(Signature(mac, key, old(Base()).value))
                && CurrentSignature(Parameters()) == r.value
                && signed
    {
      var base := SignatureBaseString();
      if base.Err? {
        return Err(base.error);
      }
      var value := Scalar(Some(Signature(mac, key, base.value)));
      LookupPut(Parameters(), SIGNATURE, value, SIGNATURE);
      Store(value);
      r := Ok(CurrentSignature(Parameters()));
    }

    /** `verify`: the recomputed signature compared with the stored one. */
    method Verify(mac: (Bytes, Bytes) -> Bytes, key: Bytes) returns (r: Result<bool, Error>)
      modifies Held()
      ensures PaddedFrom(old(Snapshot(Held()))) && Held() == old(Held())
      ensures Base() == old(Base())
      ensures old(Base()).Err? ==> r == Err(old(Base()).error)
      ensures old(Base()).Ok? ==>
                r == Ok(Signature(mac, key, old(Base()).value) == old(CurrentSignature(Parameters())))
    {
      var given := CurrentSignature(Parameters());
      var base := SignatureBaseString();
      match base {
        case Err(error) =>
          r := Err(error);
        case Ok(text) =>
          var same := Equal(Signature(mac, key, text), given);
          r := Ok(same);
      }
    }
  }

  /**
   * Signing with one key and verifying with another compares the two signatures of the base
   * string: with equal keys that succeeds, and a digest that answers to one key only refuses any
   * other.
   */
  method SignThenVerify(r: HashRequest, mac: (Bytes, Bytes) -> Bytes, key: Bytes, key': Bytes)
    returns (signature: Result<Bytes, Error>, verified: Result<bool, Error>)
    modifies r, r.Held()
    ensures r.Held() <= old(r.Held()) && PaddedFrom(old(Snapshot(r.Held())))
    ensures r.Base() == old(r.Base())
    ensures signature == match old(r.Base()) case Ok(text) => Ok(Signature(mac, key, text)) case Err(e) => Err(e)
    ensures signature.Ok? && key == key' ==> verified == Ok(true)
    ensures signature.Ok? && mac == Recognizing(key, old(r.Base()).value) ==> verified == Ok(key == key')
  {
    ghost var before := Snapshot(r.Held());
    ghost var base := r.Base();
    signature := r.Sign(mac, key);
    ghost var then' := Snapshot(r.Held());
    verified := r.Verify(mac, key');
    PaddedAgain(before, then');
    if base.Ok? {
      Recognized(key, base.value, key, base.value);
      Recognized(key, base.value, key', base.value);
    }
  }

  /**
   * `sign!` is stable: for any prior signature and any empty arrays, verifying right after
   * signing succeeds, signing again returns the same signature, and no array is padded twice.
   */
  method SignVerifySign(r: HashRequest, mac: (Bytes, Bytes) -> Bytes, key: Bytes)
    returns (first: Result<Bytes, Error>, verified: Result<bool, Error>, second: Result<Bytes, Error>)
    modifies r, r.Held()
    ensures first.Ok? <==> old(r.Base()).Ok?
    ensures first.Ok? ==> verified == Ok(true) && second == first
    ensures PaddedFrom(old(Snapshot(r.Held())))
  {
    ghost var before := Snapshot(r.Held());
    first, verified := SignThenVerify(r, mac, key, key);
    ghost var then' := Snapshot(r.Held());
    second := r.Sign(mac, key);
    PaddedAgain(before, then');
  }

  /** Padding once more changes nothing that was padded before. */
  lemma PaddedAgain(before: Contents, then': Contents)
    requires PaddedFrom(then')
    requires forall a :: a in before && a in then' ==> then'[a] == before[a] || then'[a] == Padded(before[a])
    requires forall a :: a in before && a !in then' ==> a.items == before[a] || a.items == Padded(before[a])
    ensures PaddedFrom(before)
  {
  }
}
