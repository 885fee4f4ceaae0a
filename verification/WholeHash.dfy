/**
 * `normalize` of whole parameter hashes, where scalars, arrays and nested values stand side by
 * side: what can be read back from the text, and what its value does not depend on.
 */
module WholeHash {
  import opened Wrappers
  import opened Bytes
  import opened Sorting
  import opened Lists
  import opened ParameterString
  import opened Normalize

  /** Values that `normalize` hands to `normalize_nested_query`. */
  predicate Nested(v: Value) {
    v.Hash? || (v.Arr? && v.elems != [] && v.elems[0].Hash?)
  }

  /** The pairs one entry stands for: its leaves with their bracketed paths, or its flat texts. */
  function LeavesOf(e: Entry): seq<Pair> {
    if Nested(e.value) then Leaves(e.value, Some(e.key)) else EntryPairs(e)
  }

  function HashLeaves(h: seq<Entry>): seq<Pair> {
    FlatMap(LeavesOf, h)
  }

  predicate AllBearLeaves(h: seq<Entry>) {
    forall i :: 0 <= i < |h| ==> LeavesOf(h[i]) != []
  }

  /** The strings one entry contributes; none when it raises. */
  function StringsOf(e: Entry): seq<Bytes> {
    match EntryStrings(e) case Ok(strings) => strings case Err(_) => []
  }

  /** The strings of a whole hash, its entries in name order. */
  function HashStrings(h: seq<Entry>): seq<Bytes> {
    FlatMap(StringsOf, Sort(EntryLeq, h))
  }

  // ---------------------------------------------------------------- strings are the rendered leaves

  lemma SortedScalars(values: seq<Value>)
    requires values != [] && SortScalars(values).Ok?
    ensures FlatValue(Arr(values)) && Comparable(Arr(values))
  {
  }

  lemma EntryPermutation(e: Entry)
    requires EntryStrings(e).Ok?
    ensures multiset(StringsOf(e)) == multiset(Map(Render, LeavesOf(e)))
  {
    if Nested(e.value) {
      NestedIsPermutation(e.value, Some(e.key));
    } else {
      if e.value.Arr? && e.value.elems != [] {
        SortedScalars(e.value.elems);
      }
      EntryStringsFlat(e);
      MapMultiset(PairWith(e.key), Sort(Leq, Texts(e.value)), Texts(e.value));
      MapMultiset(Render, SortedEntryPairs(e), EntryPairs(e));
    }
  }

  lemma SameSize<T, U>(a: seq<T>, b: seq<T>, f: U -> T, c: seq<U>)
    requires multiset(a) == multiset(b) && b == Map(f, c)
    ensures |a| == |c|
  {
    assert |a| == |multiset(a)| == |multiset(b)| == |b|;
  }

  lemma {:induction false} GroupsPermutation(es: seq<Entry>)
    requires AllStrings(es).Ok?
    ensures AllStrings(es).value == Map(StringsOf, es)
    ensures multiset(FlatMap(StringsOf, es)) == multiset(Map(Render, HashLeaves(es)))
    ensures forall i :: 0 <= i < |es| ==> (StringsOf(es[i]) == [] <==> LeavesOf(es[i]) == [])
  {
    if es != [] {
      EntryPermutation(es[0]);
      SameSize(StringsOf(es[0]), Map(Render, LeavesOf(es[0])), Render, LeavesOf(es[0]));
      GroupsPermutation(es[1..]);
      MapConcat(Render, LeavesOf(es[0]), HashLeaves(es[1..]));
    }
  }

  lemma {:induction false} FlattenMap<T>(f: T -> seq<Bytes>, s: seq<T>)
    ensures Flatten(Map(f, s)) == FlatMap(f, s)
  {
    if s != [] {
      FlattenMap(f, s[1..]);
      assert Map(f, s)[1..] == Map(f, s[1..]);
    }
  }

  /** A string that stands between two separators. */
  predicate IsPiece(s: Bytes) {
    s != [] && Free(s, {AMP})
  }

  predicate AllPieces(strings: seq<Bytes>) {
    forall s :: s in strings ==> IsPiece(s)
  }

  lemma RenderedPieces(strings: seq<Bytes>, leaves: seq<Pair>)
    requires multiset(strings) == multiset(Map(Render, leaves))
    ensures AllPieces(strings)
  {
    forall s | s in strings
      ensures IsPiece(s)
    {
      assert s in multiset(Map(Render, leaves));
      var i :| 0 <= i < |leaves| && Map(Render, leaves)[i] == s;
      RenderFree(leaves[i]);
    }
  }

  // ---------------------------------------------------------------- splitting the joined groups

  /** What stands between the separators for one group: its strings, or nothing at all. */
  function PiecesOf(group: seq<Bytes>): seq<Bytes> {
    if group == [] then [[]] else group
  }

  lemma SplitGroup(group: seq<Bytes>)
    requires AllPieces(group)
    ensures Split(Ampersands(group), {AMP}) == PiecesOf(group)
  {
    if group != [] {
      assert forall i :: 0 <= i < |group| ==> IsPiece(group[i]);
      SplitJoin(group, AMP, {AMP});
    }
  }

  lemma {:induction false} SplitGroups(groups: seq<seq<Bytes>>)
    requires groups != [] && AllPieces(Flatten(groups))
    ensures Split(JoinGroups(groups), {AMP}) == FlatMap(PiecesOf, groups)
  {
    var first, rest := groups[0], groups[1..];
    assert Flatten(groups) == first + Flatten(rest);
    SplitGroup(first);
    if |groups| == 1 {
      FlatMapOne(PiecesOf, first);
      assert groups == [first];
    } else {
      SplitGroups(rest);
      assert Map(Ampersands, groups)[1..] == Map(Ampersands, rest);
      SplitConcat(Ampersands(first), AMP, JoinGroups(rest), {AMP});
    }
  }

  predicate NoneEmpty(groups: seq<seq<Bytes>>) {
    forall i :: 0 <= i < |groups| ==> groups[i] != []
  }

  /** Each empty group adds one piece that is no string. */
  lemma {:induction false} PiecesCount(groups: seq<seq<Bytes>>)
    ensures |FlatMap(PiecesOf, groups)| >= |Flatten(groups)|
    ensures |FlatMap(PiecesOf, groups)| == |Flatten(groups)| <==> NoneEmpty(groups)
    ensures NoneEmpty(groups) ==> FlatMap(PiecesOf, groups) == Flatten(groups)
  {
    if groups != [] {
      PiecesCount(groups[1..]);
      assert forall i :: 0 < i < |groups| ==> groups[i] == groups[1..][i - 1];
    }
  }

  lemma TextNotEmpty(groups: seq<seq<Bytes>>)
    requires AllPieces(Flatten(groups)) && (|groups| >= 2 || Flatten(groups) != [])
    ensures JoinGroups(groups) != []
  {
    if |groups| < 2 {
      assert groups == [groups[0]] && Flatten(groups[1..]) == [];
      assert Flatten(groups) == groups[0];
      assert IsPiece(groups[0][0]);
      StartsWithFirst(groups[0]);
      assert Map(Ampersands, groups) == [Ampersands(groups[0])];
    }
  }

  /** What the text of some groups parses to, and when that is the pairs behind their strings. */
  lemma ParseGroups(groups: seq<seq<Bytes>>)
    requires AllPieces(Flatten(groups))
    ensures |groups| <= 1 || NoneEmpty(groups) ==>
              ParseCanonical(JoinGroups(groups)) == Map(ParsePair, Flatten(groups))
    ensures |groups| >= 2 && !NoneEmpty(groups) ==>
              |ParseCanonical(JoinGroups(groups))| > |Flatten(groups)|
  {
    PiecesCount(groups);
    if groups != [] {
      SplitGroups(groups);
      if |groups| >= 2 || Flatten(groups) != [] {
        TextNotEmpty(groups);
      } else {
        assert groups == [[]];
        assert Map(Ampersands, groups) == [[]];
      }
    }
  }

  // ---------------------------------------------------------------- the whole hash

  lemma SortedBear(h: seq<Entry>)
    ensures AllBearLeaves(Sort(EntryLeq, h)) <==> AllBearLeaves(h)
  {
    var es := Sort(EntryLeq, h);
    forall i | 0 <= i < |es|
      ensures exists j :: 0 <= j < |h| && h[j] == es[i]
    {
      InPermutation(h, es, i);
    }
    forall i | 0 <= i < |h|
      ensures exists j :: 0 <= j < |es| && es[j] == h[i]
    {
      InPermutation(es, h, i);
    }
  }

  lemma SortedLeaves(h: seq<Entry>)
    ensures multiset(Map(Render, HashLeaves(Sort(EntryLeq, h)))) == multiset(Map(Render, HashLeaves(h)))
  {
    FlatMapMultiset(LeavesOf, Sort(EntryLeq, h), h);
    MapMultiset(Render, HashLeaves(Sort(EntryLeq, h)), HashLeaves(h));
  }

  /** The groups behind a normalized hash. */
  lemma HashGroups(h: seq<Entry>) returns (groups: seq<seq<Bytes>>)
    requires NormalizeHash(h).Ok?
    ensures |groups| == |h| && NormalizeHash(h).value == JoinGroups(groups)
    ensures Flatten(groups) == HashStrings(h) && AllPieces(Flatten(groups))
    ensures multiset(Flatten(groups)) == multiset(Map(Render, HashLeaves(h)))
    ensures NoneEmpty(groups) <==> AllBearLeaves(h)
  {
    var es := Sort(EntryLeq, h);
    groups := AllStrings(es).value;
    GroupsPermutation(es);
    FlattenMap(StringsOf, es);
    SortedLeaves(h);
    RenderedPieces(Flatten(groups), HashLeaves(h));
    SortedBear(h);
  }

  /**
   * Reading a normalized hash back yields the very pairs it stands for, no leaf lost and none
   * made up, exactly when every nested value has a leaf or the hash has a single entry.
   */
  lemma ReadsBackExact(h: seq<Entry>)
    requires NormalizeHash(h).Ok?
    ensures multiset(ParseCanonical(NormalizeHash(h).value)) == multiset(HashLeaves(h)) <==>
            |h| <= 1 || AllBearLeaves(h)
  {
    var groups := HashGroups(h);
    ParseGroups(groups);
    if |h| <= 1 || AllBearLeaves(h) {
      ParsedLeaves(Flatten(groups), HashLeaves(h));
    } else {
      SameSize(Flatten(groups), Map(Render, HashLeaves(h)), Render, HashLeaves(h));
      assert |multiset(ParseCanonical(NormalizeHash(h).value))| > |multiset(HashLeaves(h))|;
    }
  }

  lemma ParsedLeaves(strings: seq<Bytes>, leaves: seq<Pair>)
    requires multiset(strings) == multiset(Map(Render, leaves))
    ensures multiset(Map(ParsePair, strings)) == multiset(leaves)
  {
    MapMultiset(ParsePair, strings, Map(Render, leaves));
    ParseRenders(leaves);
  }

  lemma {:induction false} ParseRenders(leaves: seq<Pair>)
    ensures Map(ParsePair, Map(Render, leaves)) == leaves
  {
    if leaves != [] {
      RenderShape(leaves[0]);
      ParseRenders(leaves[1..]);
      assert Map(Render, leaves)[1..] == Map(Render, leaves[1..]);
    }
  }

  /**
   * An entry without leaves leaves a stray separator: the text is the `&`-join of the entries'
   * strings exactly when every nested value has a leaf or the hash has a single entry.
   */
  lemma StraySeparatorExact(h: seq<Entry>)
    requires NormalizeHash(h).Ok?
    ensures NormalizeHash(h).value == Ampersands(HashStrings(h)) <==> |h| <= 1 || AllBearLeaves(h)
  {
    var groups := HashGroups(h);
    ParseGroups(groups);
    ParseJoinedStrings(HashStrings(h));
    if AllBearLeaves(h) {
      JoinNonEmptyGroups(groups);
    } else if |h| == 1 {
      FlatMapOne(Identity<seq<Bytes>>, groups[0]);
      assert groups == [groups[0]];
      assert Map(Ampersands, groups) == [Ampersands(groups[0])];
    }
  }

  lemma ParseJoinedStrings(strings: seq<Bytes>)
    requires AllPieces(strings)
    ensures ParseCanonical(Ampersands(strings)) == Map(ParsePair, strings)
  {
    if strings != [] {
      SplitGroup(strings);
      assert IsPiece(strings[0]);
      StartsWithFirst(strings);
    }
  }

  /** {"a" => {}, "b" => "c"} normalizes to "&b=c". */
  lemma StraySeparatorHappens()
    ensures var h := [Entry([0x61], Hash([])), Entry([0x62], Scalar(Some([0x63])))];
            && NormalizeHash(h) == Ok([AMP, 0x62, EQUALS, 0x63])
            && Ampersands(HashStrings(h)) == [0x62, EQUALS, 0x63]
  {
    var a, b := Entry([0x61], Hash([])), Entry([0x62], Scalar(Some([0x63])));
    var text := [0x62, EQUALS, 0x63];
    assert [a, b][1..] == [b] && [b][1..] == [];
    assert Sort(EntryLeq, [b]) == [b];
    assert Sort(EntryLeq, [a, b]) == [a, b];
    EscapeOne(0x62);
    EscapeOne(0x63);
    assert ScalarString([0x62])(Some([0x63])) == text;
    TwoGroups(a, b, text);
    assert [AMP] + text == [AMP, 0x62, EQUALS, 0x63];
  }

  lemma TwoGroups(a: Entry, b: Entry, text: Bytes)
    requires EntryStrings(a) == Ok([]) && EntryStrings(b) == Ok([text])
    ensures AllStrings([a, b]) == Ok([[], [text]])
    ensures JoinGroups([[], [text]]) == [AMP] + text
    ensures Ampersands(FlatMap(StringsOf, [a, b])) == text
  {
    var rest: seq<seq<Bytes>> := [];
    assert [a, b][1..] == [b] && [b][1..] == [];
    assert AllStrings([]) == Ok(rest) && [[text]] + rest == [[text]];
    assert AllStrings([b]) == Ok([[text]]);
    assert [[]] + [[text]] == [[], [text]];
    var empty: seq<Bytes> := [];
    assert [empty, [text]][1..] == [[text]];
    assert Map(Ampersands, [empty, [text]]) == [[], text];
    assert [[], text][1..] == [text];
    FlatMapOne(StringsOf, b);
  }

  // ---------------------------------------------------------------- order

  lemma SortedByKeyUnique(a: seq<Entry>, b: seq<Entry>)
    requires DistinctKeys(a) && Sorted(EntryLeq, a) && Sorted(EntryLeq, b) && multiset(a) == multiset(b)
    ensures a == b
  {
    LeqIsTotalOrder();
    SortedUnique(EntryLeq, a, b);
  }

  /** The order in which a hash lists its entries never shows. */
  lemma EntryOrderIrrelevant(h: seq<Entry>, k: seq<Entry>)
    requires DistinctKeys(h) && multiset(h) == multiset(k)
    ensures NormalizeHash(h) == NormalizeHash(k)
  {
    DistinctKeysPermute(h, k);
    SortEntries(h);
    SortEntries(k);
    SortedByKeyUnique(Sort(EntryLeq, h), Sort(EntryLeq, k));
  }

  lemma SwapKinds(vs: seq<Value>, i: nat, j: nat)
    ensures AllNil(Swap(vs, i, j)) == AllNil(vs) && AllText(Swap(vs, i, j)) == AllText(vs)
    ensures AllArrays(Swap(vs, i, j)) == AllArrays(vs)
  {
    if i < |vs| && j < |vs| {
      var ws := Swap(vs, i, j);
      assert ws[i] == vs[j] && ws[j] == vs[i];
      assert forall k :: 0 <= k < |vs| && k != i && k != j ==> ws[k] == vs[k];
    }
  }

  lemma SwapTexts(vs: seq<Value>, i: nat, j: nat)
    ensures Sort(Leq, Map(TextOf, Swap(vs, i, j))) == Sort(Leq, Map(TextOf, vs))
  {
    LeqIsTotalOrder();
    MapMultiset(TextOf, Swap(vs, i, j), vs);
    SortDetermined(Leq, Map(TextOf, Swap(vs, i, j)), Map(TextOf, vs));
  }

  lemma NilTexts(a: seq<Value>, b: seq<Value>)
    requires AllNil(a) && AllNil(b) && |a| == |b|
    ensures Map(ScalarText, a) == Map(ScalarText, b)
  {
  }

  lemma SwapScalars(vs: seq<Value>, i: nat, j: nat)
    ensures SortScalars(Swap(vs, i, j)) == SortScalars(vs)
  {
    SwapKinds(vs, i, j);
    if AllNil(vs) {
      NilTexts(Swap(vs, i, j), vs);
    } else {
      SwapTexts(vs, i, j);
    }
  }

  lemma SwapInside(vs: seq<Value>, at: nat, path: seq<nat>, i: nat, j: nat)
    requires at < |vs|
    ensures SortScalars(vs[at := SwapChildren(vs[at], path, i, j)]) == SortScalars(vs)
  {
    var child := SwapChildren(vs[at], path, i, j);
    var ws := vs[at := child];
    if vs[at].Scalar? {
      assert ws == vs;
    } else {
      assert child.Scalar? == false && child.Arr? == vs[at].Arr?;
      assert ws[at] == child && forall k :: 0 <= k < |vs| && k != at ==> ws[k] == vs[k];
      assert !AllNil(ws) && !AllText(ws) && !AllNil(vs) && !AllText(vs);
      assert AllArrays(ws) == AllArrays(vs);
    }
  }

  /** Exchanging two children anywhere below an entry, unless the entry stops or starts being nested. */
  lemma ChildrenStrings(key: Bytes, v: Value, path: seq<nat>, i: nat, j: nat)
    requires Nested(SwapChildren(v, path, i, j)) == Nested(v)
    ensures EntryStrings(Entry(key, SwapChildren(v, path, i, j))) == EntryStrings(Entry(key, v))
  {
    if Nested(v) {
      NestedOrderIrrelevant(v, path, i, j, Some(key));
    } else if v.Arr? && v.elems != [] {
      if path == [] {
        SwapScalars(v.elems, i, j);
      } else if path[0] < |v.elems| {
        SwapInside(v.elems, path[0], path[1..], i, j);
      }
    }
  }

  /** An entry with its value replaced, and every other entry as it was. */
  function Replacing(key: Bytes, w: Value): Entry -> Entry {
    (e: Entry) => if e.key == key then Entry(key, w) else e
  }

  /** The hash with two children exchanged in the value of entry `at`. */
  function SwapInEntry(h: seq<Entry>, at: nat, path: seq<nat>, i: nat, j: nat): seq<Entry>
    requires at < |h|
  {
    h[at := Entry(h[at].key, SwapChildren(h[at].value, path, i, j))]
  }

  lemma ReplacedMap(h: seq<Entry>, at: nat, w: Value)
    requires DistinctKeys(h) && at < |h|
    ensures Map(Replacing(h[at].key, w), h) == h[at := Entry(h[at].key, w)]
  {
    forall k | 0 <= k < |h|
      ensures Replacing(h[at].key, w)(h[k]) == h[at := Entry(h[at].key, w)][k]
    {
      assert k < at ==> h[k].key != h[at].key;
      assert at < k ==> h[at].key != h[k].key;
    }
  }

  lemma ReplacedEntries(h: seq<Entry>, at: nat, w: Value)
    requires DistinctKeys(h) && at < |h|
    ensures Sort(EntryLeq, h[at := Entry(h[at].key, w)]) == Map(Replacing(h[at].key, w), Sort(EntryLeq, h))
  {
    var f := Replacing(h[at].key, w);
    ReplacedMap(h, at, w);
    forall x, y | x in h && y in h
      ensures EntryLeq(x, y) == EntryLeq(f(x), f(y))
    {
      assert f(x).key == x.key && f(y).key == y.key;
    }
    SortMap(EntryLeq, EntryLeq, f, h);
  }

  /** One entry that raises makes the whole hash raise. */
  lemma {:induction false} RaisingEntry(es: seq<Entry>, e: Entry)
    requires e in es && EntryStrings(e).Err?
    ensures AllStrings(es).Err?
  {
    if es[0] != e {
      assert es == [es[0]] + es[1..];
      RaisingEntry(es[1..], e);
    }
  }

  lemma OnlyEntry(h: seq<Entry>, at: nat, e: Entry)
    requires DistinctKeys(h) && at < |h| && e in Sort(EntryLeq, h) && e.key == h[at].key
    ensures e == h[at]
  {
    assert e in multiset(h);
    assert e in h;
  }

  /** An array that starts with a hash and no longer does, or the other way round, cannot be sorted. */
  lemma MixedScalars(vs: seq<Value>, ws: seq<Value>)
    requires vs != [] && ws != [] && vs[0].Hash? != ws[0].Hash?
    requires vs[0] in ws && ws[0] in vs
    ensures vs[0].Hash? ==> SortScalars(ws).Err?
    ensures ws[0].Hash? ==> SortScalars(vs).Err?
  {
  }

  lemma FrontSwapped(vs: seq<Value>, i: nat, j: nat)
    requires vs != [] && Swap(vs, i, j)[0] != vs[0]
    ensures vs[0] in Swap(vs, i, j) && Swap(vs, i, j)[0] in vs
  {
    var at := if i == 0 then j else i;
    assert Swap(vs, i, j)[at] == vs[0] && Swap(vs, i, j)[0] == vs[at];
  }

  lemma KindKept(v: Value, path: seq<nat>, i: nat, j: nat)
    ensures SwapChildren(v, path, i, j).Hash? == v.Hash? && SwapChildren(v, path, i, j).Arr? == v.Arr?
  {
  }

  /** Only a swap at the front of an array changes whether it is nested. */
  lemma NestedChanged(v: Value, path: seq<nat>, i: nat, j: nat)
    requires Nested(SwapChildren(v, path, i, j)) != Nested(v)
    ensures v.Arr? && v.elems != [] && SwapChildren(v, path, i, j) == Arr(Swap(v.elems, i, j))
  {
    if v.Arr? && path != [] && path[0] < |v.elems| {
      KindKept(v.elems[path[0]], path[1..], i, j);
    }
  }

  lemma MixedRaises(key: Bytes, v: Value, path: seq<nat>, i: nat, j: nat)
    requires Nested(SwapChildren(v, path, i, j)) != Nested(v) && EntryStrings(Entry(key, v)).Ok?
    ensures EntryStrings(Entry(key, SwapChildren(v, path, i, j))).Err?
  {
    NestedChanged(v, path, i, j);
    FrontSwapped(v.elems, i, j);
    MixedScalars(v.elems, Swap(v.elems, i, j));
  }

  lemma ChangedRaises(es: seq<Entry>, key: Bytes, v: Value, path: seq<nat>, i: nat, j: nat)
    requires Nested(SwapChildren(v, path, i, j)) != Nested(v)
    requires AllStrings(es).Ok? && exists n :: 0 <= n < |es| && es[n] == Entry(key, v)
    ensures AllStrings(Map(Replacing(key, SwapChildren(v, path, i, j)), es)).Err?
  {
    var w := SwapChildren(v, path, i, j);
    var n :| 0 <= n < |es| && es[n] == Entry(key, v);
    if EntryStrings(Entry(key, v)).Err? {
      RaisingEntry(es, Entry(key, v));
    } else {
      MixedRaises(key, v, path, i, j);
      assert Map(Replacing(key, w), es)[n] == Entry(key, w);
      RaisingEntry(Map(Replacing(key, w), es), Entry(key, w));
    }
  }

  /**
   * Exchanging any two children, at any depth of any entry, never shows, scalars, arrays and
   * nested values mixed as they may be. The one exception is an array whose first element
   * decides that it is nested: moving another kind of value there makes the hash raise.
   */
  lemma ChildOrderExact(h: seq<Entry>, at: nat, path: seq<nat>, i: nat, j: nat)
    requires DistinctKeys(h) && at < |h|
    ensures var v, k := h[at].value, SwapInEntry(h, at, path, i, j);
            && (Nested(k[at].value) == Nested(v) ==> NormalizeHash(k) == NormalizeHash(h))
            && (Nested(k[at].value) != Nested(v) && NormalizeHash(h).Ok? ==> NormalizeHash(k).Err?)
  {
    var key, v := h[at].key, h[at].value;
    var w := SwapChildren(v, path, i, j);
    var es, f := Sort(EntryLeq, h), Replacing(key, w);
    ReplacedEntries(h, at, w);
    if Nested(w) == Nested(v) {
      ChildrenStrings(key, v, path, i, j);
      forall e | e in es
        ensures EntryStrings(f(e)) == EntryStrings(e)
      {
        if e.key == key {
          OnlyEntry(h, at, e);
        }
      }
      MappedStrings(f, es);
    } else if NormalizeHash(h).Ok? {
      InPermutation(es, h, at);
      ChangedRaises(es, key, v, path, i, j);
    }
  }
}
