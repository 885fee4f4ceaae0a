/**
 * `normalize` and `normalize_nested_query`. A Ruby hash is the list of its entries in
 * insertion order, with distinct keys; nil is a scalar without text.
 */
module Normalize {
  import opened Wrappers
  import opened Bytes
  import opened Codec
  import opened Sorting
  import opened Lists
  import opened ParameterString

  datatype Value =
    | Scalar(text: Option<Bytes>)
    | Arr(elems: seq<Value>)
    | Hash(entries: seq<Entry>)

  datatype Entry = Entry(key: Bytes, value: Value)

  /** Incomparable: Array#sort raised on nil next to text. OutsideModel: arrays of arrays. */
  datatype Error = Incomparable | OutsideModel

  predicate EntryLeq(a: Entry, b: Entry) {
    Leq(a.key, b.key)
  }

  predicate DistinctKeys(h: seq<Entry>) {
    forall i, j :: 0 <= i < j < |h| ==> h[i].key != h[j].key
  }

  // ---------------------------------------------------------------- nested values

  const OPEN: Byte := 0x5B
  const CLOSE: Byte := 0x5D

  function ElementPath(prefix: Option<Bytes>): Bytes {
    prefix.GetOr([]) + [OPEN, CLOSE]
  }

  function EntryPath(prefix: Option<Bytes>, key: Bytes): Bytes {
    if prefix.None? then key else prefix.value + [OPEN] + key + [CLOSE]
  }

  /** `normalize_nested_query`: an array or hash collects its children's strings and sorts them. */
  function NestedQuery(v: Value, prefix: Option<Bytes>): seq<Bytes>
    decreases v, 1
  {
    match v
    case Scalar(t) => [Escape(prefix.GetOr([])) + [EQUALS] + EscapeScalar(t)]
    case Arr(vs) => Sort(Leq, NestedElements(vs, ElementPath(prefix)))
    case Hash(es) => Sort(Leq, NestedEntries(es, prefix))
  }

  function NestedElements(vs: seq<Value>, path: Bytes): seq<Bytes>
    decreases vs, 0
  {
    if vs == [] then [] else NestedQuery(vs[0], Some(path)) + NestedElements(vs[1..], path)
  }

  function NestedEntries(es: seq<Entry>, prefix: Option<Bytes>): seq<Bytes>
    decreases es, 0
  {
    if es == [] then []
    else NestedQuery(es[0].value, Some(EntryPath(prefix, es[0].key))) + NestedEntries(es[1..], prefix)
  }

  /** The leaves of a value, each with its full bracketed path, in the value's own order. */
  function Leaves(v: Value, prefix: Option<Bytes>): seq<Pair>
    decreases v, 1
  {
    match v
    case Scalar(t) => [Pair(prefix.GetOr([]), t.GetOr([]))]
    case Arr(vs) => ElementLeaves(vs, ElementPath(prefix))
    case Hash(es) => EntryLeaves(es, prefix)
  }

  function ElementLeaves(vs: seq<Value>, path: Bytes): seq<Pair>
    decreases vs, 0
  {
    if vs == [] then [] else Leaves(vs[0], Some(path)) + ElementLeaves(vs[1..], path)
  }

  function EntryLeaves(es: seq<Entry>, prefix: Option<Bytes>): seq<Pair>
    decreases es, 0
  {
    if es == [] then []
    else Leaves(es[0].value, Some(EntryPath(prefix, es[0].key))) + EntryLeaves(es[1..], prefix)
  }

  lemma {:induction false} NestedIsPermutation(v: Value, prefix: Option<Bytes>)
    ensures multiset(NestedQuery(v, prefix)) == multiset(Map(Render, Leaves(v, prefix)))
    decreases v, 1
  {
    match v
    case Scalar(t) =>
      assert Map(Render, Leaves(v, prefix)) == NestedQuery(v, prefix);
    case Arr(vs) => ElementsArePermutation(vs, ElementPath(prefix));
    case Hash(es) => EntriesArePermutation(es, prefix);
  }

  lemma {:induction false} ElementsArePermutation(vs: seq<Value>, path: Bytes)
    ensures multiset(NestedElements(vs, path)) == multiset(Map(Render, ElementLeaves(vs, path)))
    decreases vs, 0
  {
    if vs != [] {
      NestedIsPermutation(vs[0], Some(path));
      ElementsArePermutation(vs[1..], path);
      MapConcat(Render, Leaves(vs[0], Some(path)), ElementLeaves(vs[1..], path));
    }
  }

  lemma {:induction false} EntriesArePermutation(es: seq<Entry>, prefix: Option<Bytes>)
    ensures multiset(NestedEntries(es, prefix)) == multiset(Map(Render, EntryLeaves(es, prefix)))
    decreases es, 0
  {
    if es != [] {
      var path := Some(EntryPath(prefix, es[0].key));
      NestedIsPermutation(es[0].value, path);
      EntriesArePermutation(es[1..], prefix);
      MapConcat(Render, Leaves(es[0].value, path), EntryLeaves(es[1..], prefix));
    }
  }

  /** Sorting at every level of a tree is collecting all its leaves and sorting once. */
  lemma NestedIsOneSort(v: Value, prefix: Option<Bytes>)
    ensures NestedQuery(v, prefix) == Sort(Leq, Map(Render, Leaves(v, prefix)))
  {
    NestedIsPermutation(v, prefix);
    LeqIsTotalOrder();
    match v
    case Scalar(t) => SortIs(Leq, NestedQuery(v, prefix), Map(Render, Leaves(v, prefix)));
    case Arr(vs) =>
      SortDetermined(Leq, NestedElements(vs, ElementPath(prefix)), Map(Render, Leaves(v, prefix)));
    case Hash(es) =>
      SortDetermined(Leq, NestedEntries(es, prefix), Map(Render, Leaves(v, prefix)));
  }

  /** Two trees normalize alike exactly when they hold the same multiset of leaves. */
  lemma NestedDeterminedByLeaves(v: Value, w: Value, prefix: Option<Bytes>)
    ensures NestedQuery(v, prefix) == NestedQuery(w, prefix) <==>
            multiset(Leaves(v, prefix)) == multiset(Leaves(w, prefix))
  {
    NestedIsOneSort(v, prefix);
    NestedIsOneSort(w, prefix);
    LeqIsTotalOrder();
    var a, b := Leaves(v, prefix), Leaves(w, prefix);
    SortDetermined(Leq, Map(Render, a), Map(Render, b));
    forall p
      ensures ParsePair(Render(p)) == p
    {
      RenderShape(p);
    }
    MapMultisetExact(Render, ParsePair, a, b);
  }

  /** Exchanges children `i` and `j` of the node reached by following `path` from the root. */
  function SwapChildren(v: Value, path: seq<nat>, i: nat, j: nat): Value
    decreases path
  {
    match v
    case Scalar(_) => v
    case Arr(vs) =>
      if path == [] then Arr(Swap(vs, i, j))
      else if path[0] < |vs| then Arr(vs[path[0] := SwapChildren(vs[path[0]], path[1..], i, j)])
      else v
    case Hash(es) =>
      if path == [] then Hash(Swap(es, i, j))
      else if path[0] < |es| then
        Hash(es[path[0] := es[path[0]].(value := SwapChildren(es[path[0]].value, path[1..], i, j))])
      else v
  }

  function Swap<T>(s: seq<T>, i: nat, j: nat): (r: seq<T>)
    ensures multiset(r) == multiset(s)
  {
    if i < |s| && j < |s| then s[i := s[j]][j := s[i]] else s
  }

  lemma {:induction false} ElementLeavesFlat(vs: seq<Value>, path: Bytes)
    ensures ElementLeaves(vs, path) == FlatMap(v => Leaves(v, Some(path)), vs)
    decreases vs
  {
    if vs != [] {
      ElementLeavesFlat(vs[1..], path);
    }
  }

  lemma {:induction false} EntryLeavesFlat(es: seq<Entry>, prefix: Option<Bytes>)
    ensures EntryLeaves(es, prefix) ==
            FlatMap((e: Entry) => Leaves(e.value, Some(EntryPath(prefix, e.key))), es)
    decreases es
  {
    if es != [] {
      EntryLeavesFlat(es[1..], prefix);
    }
  }

  /** Replacing one element of a list changes only what it contributes. */
  lemma FlatMapReplace<T, U>(f: T -> seq<U>, s: seq<T>, i: nat, x: T)
    requires i < |s| && multiset(f(x)) == multiset(f(s[i]))
    ensures multiset(FlatMap(f, s[i := x])) == multiset(FlatMap(f, s))
  {
    FlatMapRemove(f, s, i);
    FlatMapRemove(f, s[i := x], i);
    assert s[i := x][..i] + s[i := x][i + 1..] == s[..i] + s[i + 1..];
  }

  lemma {:induction false} SwapKeepsLeaves(v: Value, path: seq<nat>, i: nat, j: nat, prefix: Option<Bytes>)
    ensures multiset(Leaves(SwapChildren(v, path, i, j), prefix)) == multiset(Leaves(v, prefix))
    decreases path
  {
    match v
    case Scalar(_) =>
    case Arr(vs) => {
      var p := ElementPath(prefix);
      var f := (x: Value) => Leaves(x, Some(p));
      ElementLeavesFlat(vs, p);
      if path == [] {
        ElementLeavesFlat(Swap(vs, i, j), p);
        FlatMapMultiset(f, Swap(vs, i, j), vs);
      } else if path[0] < |vs| {
        var child := SwapChildren(vs[path[0]], path[1..], i, j);
        SwapKeepsLeaves(vs[path[0]], path[1..], i, j, Some(p));
        ElementLeavesFlat(vs[path[0] := child], p);
        FlatMapReplace(f, vs, path[0], child);
      }
    }
    case Hash(es) => {
      var f := (e: Entry) => Leaves(e.value, Some(EntryPath(prefix, e.key)));
      EntryLeavesFlat(es, prefix);
      if path == [] {
        EntryLeavesFlat(Swap(es, i, j), prefix);
        FlatMapMultiset(f, Swap(es, i, j), es);
      } else if path[0] < |es| {
        var e := es[path[0]];
        var child := e.(value := SwapChildren(e.value, path[1..], i, j));
        SwapKeepsLeaves(e.value, path[1..], i, j, Some(EntryPath(prefix, e.key)));
        EntryLeavesFlat(es[path[0] := child], prefix);
        FlatMapReplace(f, es, path[0], child);
      }
    }
  }

  /** The order of children, at any depth of a tree, never shows in its normal form. */
  lemma NestedOrderIrrelevant(v: Value, path: seq<nat>, i: nat, j: nat, prefix: Option<Bytes>)
    ensures NestedQuery(SwapChildren(v, path, i, j), prefix) == NestedQuery(v, prefix)
  {
    SwapKeepsLeaves(v, path, i, j, prefix);
    NestedDeterminedByLeaves(SwapChildren(v, path, i, j), v, prefix);
  }

  // ---------------------------------------------------------------- top level

  predicate AllNil(values: seq<Value>) {
    forall i :: 0 <= i < |values| ==> values[i] == Scalar(None)
  }

  predicate AllText(values: seq<Value>) {
    forall i :: 0 <= i < |values| ==> values[i].Scalar? && values[i].text.Some?
  }

  predicate AllArrays(values: seq<Value>) {
    forall i :: 0 <= i < |values| ==> values[i].Arr?
  }

  /** Array#sort of scalars: text in byte order, nils only among themselves. */
  function SortScalars(vs: seq<Value>): Result<seq<Option<Bytes>>, Error> {
    if AllNil(vs) then Ok(Map(ScalarText, vs))
    else if AllText(vs) then
      Ok(Map(Present, Sort(Leq, Map(TextOf, vs))))
    else if AllArrays(vs) then Err(OutsideModel)
    else Err(Incomparable)
  }

  function Present(s: Bytes): Option<Bytes> {
    Some(s)
  }

  function ScalarText(v: Value): Option<Bytes> {
    if v.Scalar? then v.text else None
  }

  function TextOf(v: Value): Bytes {
    ScalarText(v).GetOr([])
  }

  function ScalarString(key: Bytes): Option<Bytes> -> Bytes {
    t => Escape(key) + [EQUALS] + EscapeScalar(t)
  }

  /** The strings one top-level entry contributes. */
  function EntryStrings(e: Entry): Result<seq<Bytes>, Error> {
    match e.value
    case Scalar(t) => Ok([ScalarString(e.key)(t)])
    case Hash(_) => Ok(NestedQuery(e.value, Some(e.key)))
    case Arr(elems) =>
      var values := if elems == [] then [Scalar(None)] else elems;
      if values[0].Hash? then Ok(NestedQuery(Arr(values), Some(e.key)))
      else match SortScalars(values)
        case Err(error) => Err(error)
        case Ok(sorted) => Ok(Map(ScalarString(e.key), sorted))
  }

  function AllStrings(es: seq<Entry>): Result<seq<seq<Bytes>>, Error> {
    if es == [] then Ok([])
    else match EntryStrings(es[0])
      case Err(error) => Err(error)
      case Ok(first) =>
        match AllStrings(es[1..])
        case Err(error) => Err(error)
        case Ok(rest) => Ok([first] + rest)
  }

  /** Entries may be replaced by others that contribute the same strings. */
  lemma {:induction false} MappedStrings(f: Entry -> Entry, es: seq<Entry>)
    requires forall e :: e in es ==> EntryStrings(f(e)) == EntryStrings(e)
    ensures AllStrings(Map(f, es)) == AllStrings(es)
  {
    if es != [] {
      MappedStrings(f, es[1..]);
      assert Map(f, es)[1..] == Map(f, es[1..]);
    }
  }

  function Ampersands(parts: seq<Bytes>): Bytes {
    Join(parts, [AMP])
  }

  /** Array#* joins a nested array's own join, even when that is empty. */
  function JoinGroups(groups: seq<seq<Bytes>>): Bytes {
    Ampersands(Map(Ampersands, groups))
  }

  function NormalizeHash(params: seq<Entry>): Result<Bytes, Error> {
    match AllStrings(Sort(EntryLeq, params))
    case Err(error) => Err(error)
    case Ok(groups) => Ok(JoinGroups(groups))
  }

  // ---------------------------------------------------------------- joining the groups

  function Identity<T>(x: T): T {
    x
  }

  function Flatten(groups: seq<seq<Bytes>>): seq<Bytes> {
    FlatMap(Identity, groups)
  }

  lemma {:induction false} JoinNonEmptyGroups(groups: seq<seq<Bytes>>)
    requires forall i :: 0 <= i < |groups| ==> groups[i] != []
    ensures JoinGroups(groups) == Ampersands(Flatten(groups))
    ensures groups != [] ==> Flatten(groups) != []
  {
    if |groups| == 1 {
      assert groups[1..] == [] && Flatten(groups[1..]) == [];
      assert Flatten(groups) == groups[0];
    } else if groups != [] {
      JoinNonEmptyGroups(groups[1..]);
      JoinConcat(groups[0], Flatten(groups[1..]), [AMP]);
      assert Map(Ampersands, groups)[1..] == Map(Ampersands, groups[1..]);
    }
  }

  // ---------------------------------------------------------------- flat parameters

  /** Scalars and arrays of scalars: what query strings, forms and headers decode to. */
  predicate Flat(h: seq<Entry>) {
    forall i :: 0 <= i < |h| ==> FlatValue(h[i].value)
  }

  predicate FlatValue(v: Value) {
    v.Scalar? || (v.Arr? && forall i :: 0 <= i < |v.elems| ==> v.elems[i].Scalar?)
  }

  /** Array#sort can compare the values: all text or all nil. */
  predicate Comparable(v: Value) {
    v.Arr? ==> AllNil(v.elems) || AllText(v.elems)
  }

  /** The texts a flat value signs: nil is "", and an empty array is one "". */
  function Texts(v: Value): seq<Bytes> {
    match v
    case Scalar(t) => [t.GetOr([])]
    case Arr(elems) => if elems == [] then [[]] else Map(TextOf, elems)
    case Hash(_) => []
  }

  function PairWith(name: Bytes): Bytes -> Pair {
    value => Pair(name, value)
  }

  function EntryPairs(e: Entry): seq<Pair> {
    Map(PairWith(e.key), Texts(e.value))
  }

  /** The (name, value) pairs a flat hash signs, in the hash's own order. */
  function SignedPairs(h: seq<Entry>): seq<Pair> {
    FlatMap(EntryPairs, h)
  }

  function SortedEntryPairs(e: Entry): seq<Pair> {
    Map(PairWith(e.key), Sort(Leq, Texts(e.value)))
  }

  lemma BlankTexts(texts: seq<Bytes>)
    requires forall i :: 0 <= i < |texts| ==> texts[i] == []
    ensures Sort(Leq, texts) == texts
  {
    LeqIsTotalOrder();
    SortIs(Leq, texts, texts);
  }

  lemma SortNils(values: seq<Value>)
    requires AllNil(values)
    ensures SortScalars(values) == Ok(Map(ScalarText, values))
    ensures Sort(Leq, Map(TextOf, values)) == Map(ScalarTextOr, Map(ScalarText, values))
  {
    BlankTexts(Map(TextOf, values));
  }

  lemma SortTexts(values: seq<Value>)
    requires values != [] && AllText(values)
    ensures SortScalars(values) == Ok(Map(Present, Sort(Leq, Map(TextOf, values))))
    ensures Map(ScalarTextOr, Map(Present, Sort(Leq, Map(TextOf, values)))) == Sort(Leq, Map(TextOf, values))
  {
    assert values[0] != Scalar(None);
  }

  /** Sorting comparable scalars yields the texts in byte order. */
  lemma SortScalarsTexts(values: seq<Value>)
    requires values != [] && FlatValue(Arr(values))
    ensures Comparable(Arr(values)) ==>
              && SortScalars(values).Ok?
              && Sort(Leq, Map(TextOf, values)) == Map(ScalarTextOr, SortScalars(values).value)
    ensures !Comparable(Arr(values)) ==> SortScalars(values) == Err(Incomparable)
  {
    if AllNil(values) {
      SortNils(values);
    } else if AllText(values) {
      SortTexts(values);
    } else {
      assert values[0].Scalar?;
    }
  }

  function ScalarTextOr(t: Option<Bytes>): Bytes {
    t.GetOr([])
  }

  lemma ScalarStringsRender(key: Bytes, ts: seq<Option<Bytes>>)
    ensures Map(ScalarString(key), ts) == Map(Render, Map(PairWith(key), Map(ScalarTextOr, ts)))
  {
  }

  lemma ArrayStringsFlat(key: Bytes, elems: seq<Value>)
    requires FlatValue(Arr(elems))
    ensures Comparable(Arr(elems)) ==>
              EntryStrings(Entry(key, Arr(elems))) == Ok(Map(Render, SortedEntryPairs(Entry(key, Arr(elems)))))
    ensures !Comparable(Arr(elems)) ==> EntryStrings(Entry(key, Arr(elems))) == Err(Incomparable)
  {
    var values := if elems == [] then [Scalar(None)] else elems;
    assert values[0].Scalar?;
    assert Texts(Arr(elems)) == Map(TextOf, values);
    SortScalarsTexts(values);
    if Comparable(Arr(elems)) {
      assert Comparable(Arr(values));
      ScalarStringsRender(key, SortScalars(values).value);
    }
  }

  lemma EntryStringsFlat(e: Entry)
    requires FlatValue(e.value)
    ensures Comparable(e.value) ==> EntryStrings(e) == Ok(Map(Render, SortedEntryPairs(e)))
    ensures !Comparable(e.value) ==> EntryStrings(e) == Err(Incomparable)
    ensures SortedEntryPairs(e) != []
  {
    if e.value.Scalar? {
      LeqTotal(Texts(e.value)[0], Texts(e.value)[0]);
      LeqIsTotalOrder();
      SortIs(Leq, Texts(e.value), Texts(e.value));
      ScalarStringsRender(e.key, [e.value.text]);
      assert Map(ScalarTextOr, [e.value.text]) == Texts(e.value);
      assert Map(ScalarString(e.key), [e.value.text]) == [ScalarString(e.key)(e.value.text)];
    } else {
      ArrayStringsFlat(e.key, e.value.elems);
    }
  }

  lemma {:induction false} AllStringsFlat(es: seq<Entry>)
    requires Flat(es)
    requires forall i :: 0 <= i < |es| ==> Comparable(es[i].value)
    ensures AllStrings(es).Ok?
    ensures Flatten(AllStrings(es).value) == Map(Render, FlatMap(SortedEntryPairs, es))
    ensures forall i :: 0 <= i < |AllStrings(es).value| ==> AllStrings(es).value[i] != []
  {
    if es != [] {
      EntryStringsFlat(es[0]);
      AllStringsFlat(es[1..]);
      MapConcat(Render, SortedEntryPairs(es[0]), FlatMap(SortedEntryPairs, es[1..]));
      var all := AllStrings(es).value;
      assert all[0] == Map(Render, SortedEntryPairs(es[0])) && all[1..] == AllStrings(es[1..]).value;
    }
  }

  predicate AllComparable(es: seq<Entry>) {
    forall i :: 0 <= i < |es| ==> Comparable(es[i].value)
  }

  lemma {:induction false} AllStringsErr(es: seq<Entry>)
    requires Flat(es)
    ensures AllStrings(es).Err? <==> !AllComparable(es)
    ensures AllStrings(es).Err? ==> AllStrings(es).error == Incomparable
  {
    if es != [] {
      EntryStringsFlat(es[0]);
      AllStringsErr(es[1..]);
      assert AllComparable(es) <==> Comparable(es[0].value) && AllComparable(es[1..]);
    }
  }

  lemma {:induction false} SortedPairsPermute(es: seq<Entry>)
    ensures multiset(FlatMap(SortedEntryPairs, es)) == multiset(FlatMap(EntryPairs, es))
  {
    if es != [] {
      SortedPairsPermute(es[1..]);
      MapMultiset(PairWith(es[0].key), Sort(Leq, Texts(es[0].value)), Texts(es[0].value));
    }
  }

  lemma SortedConcat<T>(leq: (T, T) -> bool, a: seq<T>, b: seq<T>)
    requires Sorted(leq, a) && Sorted(leq, b)
    requires forall i, j :: 0 <= i < |a| && 0 <= j < |b| ==> leq(a[i], b[j])
    ensures Sorted(leq, a + b)
  {
  }

  lemma {:induction false} SortedPairsNames(es: seq<Entry>, key: Bytes)
    requires forall i :: 0 <= i < |es| ==> es[i].key != key && Leq(key, es[i].key)
    ensures forall j :: 0 <= j < |FlatMap(SortedEntryPairs, es)| ==>
              var name := FlatMap(SortedEntryPairs, es)[j].name; name != key && Leq(key, name)
  {
    if es != [] {
      SortedPairsNames(es[1..], key);
      assert forall j :: 0 <= j < |SortedEntryPairs(es[0])| ==> SortedEntryPairs(es[0])[j].name == es[0].key;
    }
  }

  lemma {:induction false} SortedPairsSorted(es: seq<Entry>)
    requires Sorted(EntryLeq, es) && DistinctKeys(es)
    ensures Sorted(PairLeq, FlatMap(SortedEntryPairs, es))
  {
    if es != [] {
      var first, rest := SortedEntryPairs(es[0]), FlatMap(SortedEntryPairs, es[1..]);
      SortedPairsSorted(es[1..]);
      LeqIsTotalOrder();
      SortSorted(Leq, Texts(es[0].value));
      forall i | 0 <= i < |es[1..]|
        ensures es[1..][i].key != es[0].key && Leq(es[0].key, es[1..][i].key)
      {
        assert EntryLeq(es[0], es[i + 1]);
      }
      SortedPairsNames(es[1..], es[0].key);
      SortedConcat(PairLeq, first, rest);
    }
  }

  lemma SortEntries(h: seq<Entry>)
    requires DistinctKeys(h)
    ensures DistinctKeys(Sort(EntryLeq, h)) && Sorted(EntryLeq, Sort(EntryLeq, h))
  {
    LeqIsTotalOrder();
    SortSorted(EntryLeq, h);
    DistinctKeysPermute(h, Sort(EntryLeq, h));
  }

  lemma DistinctKeysPermute(a: seq<Entry>, b: seq<Entry>)
    requires DistinctKeys(a) && multiset(a) == multiset(b)
    ensures DistinctKeys(b)
  {
    forall x, y | 0 <= x < y < |b|
      ensures b[x].key != b[y].key
    {
      var i, j := LocateTwo(a, b, x, y);
      assert a[i].key != a[j].key;
    }
  }

  lemma InPermutation<T>(a: seq<T>, b: seq<T>, i: nat)
    requires multiset(a) == multiset(b) && i < |b|
    ensures exists j :: 0 <= j < |a| && a[j] == b[i]
  {
    assert b[i] in multiset(b);
    assert b[i] in multiset(a);
  }

  /** `normalize` of flat parameters is the canonical string of the pairs they sign. */
  lemma NormalizeFlat(h: seq<Entry>)
    requires Flat(h) && DistinctKeys(h)
    requires forall i :: 0 <= i < |h| ==> Comparable(h[i].value)
    ensures NormalizeHash(h) == Ok(Canonical(SignedPairs(h)))
  {
    var es := Sort(EntryLeq, h);
    SortEntries(h);
    forall i | 0 <= i < |es|
      ensures FlatValue(es[i].value) && Comparable(es[i].value)
    {
      InPermutation(h, es, i);
    }
    AllStringsFlat(es);
    JoinNonEmptyGroups(AllStrings(es).value);
    var ps := FlatMap(SortedEntryPairs, es);
    SortedPairsSorted(es);
    SortedPairsPermute(es);
    FlatMapMultiset(EntryPairs, es, h);
    PairLeqIsTotalOrder();
    SortIs(PairLeq, ps, SignedPairs(h));
  }

  /** Normalizing flat parameters raises exactly when an array mixes nil and text. */
  lemma NormalizeRaisesExact(h: seq<Entry>)
    requires Flat(h)
    ensures NormalizeHash(h).Err? <==> !AllComparable(h)
    ensures NormalizeHash(h).Err? ==> NormalizeHash(h).error == Incomparable
  {
    var es := Sort(EntryLeq, h);
    forall i | 0 <= i < |es|
      ensures exists j :: 0 <= j < |h| && h[j] == es[i]
    {
      InPermutation(h, es, i);
    }
    forall i | 0 <= i < |h|
      ensures exists j :: 0 <= j < |es| && es[j] == h[i]
    {
      InPermutation(es, h, i);
    }
    AllStringsErr(es);
  }

  // ---------------------------------------------------------------- pair lists

  /** Array#<=> on arrays of strings, restricted to "less or equal". */
  predicate ListLeq(a: seq<Bytes>, b: seq<Bytes>) {
    if a == [] then true
    else if b == [] then false
    else if a[0] != b[0] then Leq(a[0], b[0])
    else ListLeq(a[1..], b[1..])
  }

  /** What `|k, values|` binds for one split parameter, nil read as "". */
  function FirstTwo(kv: seq<Bytes>): Pair {
    Pair(if |kv| > 0 then kv[0] else [], if |kv| > 1 then kv[1] else [])
  }

  function RenderSplit(kv: seq<Bytes>): Bytes {
    Render(FirstTwo(kv))
  }

  /** `normalize` of the list of split parameters the ActionController proxy builds. */
  function NormalizeList(kvs: seq<seq<Bytes>>): Bytes {
    Ampersands(Map(RenderSplit, Sort(ListLeq, kvs)))
  }

  lemma {:induction false} ListLeqTotal(a: seq<Bytes>, b: seq<Bytes>)
    ensures ListLeq(a, b) || ListLeq(b, a)
  {
    if a != [] && b != [] {
      LeqTotal(a[0], b[0]);
      ListLeqTotal(a[1..], b[1..]);
    }
  }

  lemma {:induction false} ListLeqTransitive(a: seq<Bytes>, b: seq<Bytes>, c: seq<Bytes>)
    requires ListLeq(a, b) && ListLeq(b, c)
    ensures ListLeq(a, c)
  {
    if a != [] {
      if a[0] == b[0] && b[0] == c[0] {
        ListLeqTransitive(a[1..], b[1..], c[1..]);
      } else {
        LeqIsTotalOrder();
      }
    }
  }

  lemma ListLeqIsTotalPreorder()
    ensures TotalPreorder(ListLeq)
  {
    forall a, b
      ensures ListLeq(a, b) || ListLeq(b, a)
    {
      ListLeqTotal(a, b);
    }
    forall a, b, c | ListLeq(a, b) && ListLeq(b, c)
      ensures ListLeq(a, c)
    {
      ListLeqTransitive(a, b, c);
    }
  }

  lemma ListLeqGivesPairLeq(a: seq<Bytes>, b: seq<Bytes>)
    requires ListLeq(a, b)
    ensures PairLeq(FirstTwo(a), FirstTwo(b))
  {
    LeqTotal([], []);
    if a != [] && a[0] == b[0] && |a| > 1 {
      assert a[1..][0] == a[1] && b[1..][0] == b[1];
      LeqTotal(a[1], a[1]);
    }
  }

  /** Sorting whole split lists, longer tails included, still signs the canonical string. */
  lemma NormalizeListCanonical(kvs: seq<seq<Bytes>>)
    ensures NormalizeList(kvs) == Canonical(Map(FirstTwo, kvs))
  {
    var sorted := Sort(ListLeq, kvs);
    FirstTwoSorted(kvs);
    MapMultiset(FirstTwo, sorted, kvs);
    PairLeqIsTotalOrder();
    SortIs(PairLeq, Map(FirstTwo, sorted), Map(FirstTwo, kvs));
    RenderSplits(sorted);
  }

  lemma RenderSplits(kvs: seq<seq<Bytes>>)
    ensures Map(RenderSplit, kvs) == Map(Render, Map(FirstTwo, kvs))
  {
  }

  lemma FirstTwoSorted(kvs: seq<seq<Bytes>>)
    ensures Sorted(PairLeq, Map(FirstTwo, Sort(ListLeq, kvs)))
  {
    var sorted := Sort(ListLeq, kvs);
    ListLeqIsTotalPreorder();
    SortSorted(ListLeq, kvs);
    forall i, j | 0 <= i < j < |sorted|
      ensures PairLeq(FirstTwo(sorted[i]), FirstTwo(sorted[j]))
    {
      ListLeqGivesPairLeq(sorted[i], sorted[j]);
    }
  }
}
