/**
 * What the bracketed names of nested parameters mean: the steps from the top-level name to a
 * leaf, read back from the text.
 */
module NestedPaths {
  import opened Wrappers
  import opened Bytes
  import opened Codec
  import opened Sorting
  import opened Lists
  import opened ParameterString
  import opened Normalize
  import opened WholeHash

  /** From a hash to the value of a key, or from an array to one of its elements. */
  datatype Step = Key(name: Bytes) | Each

  /** A scalar of a tree: the top-level name, the steps that lead to it, and its text. */
  datatype Leaf = Leaf(root: Bytes, steps: seq<Step>, text: Bytes)

  // ---------------------------------------------------------------- leaves of a tree, without names

  function TreeLeaves(v: Value, root: Bytes, trail: seq<Step>): seq<Leaf>
    decreases v, 1
  {
    match v
    case Scalar(t) => [Leaf(root, trail, t.GetOr([]))]
    case Arr(vs) => ElementsTree(vs, root, trail)
    case Hash(es) => EntriesTree(es, root, trail)
  }

  function ElementsTree(vs: seq<Value>, root: Bytes, trail: seq<Step>): seq<Leaf>
    decreases vs, 0
  {
    if vs == [] then [] else TreeLeaves(vs[0], root, trail + [Each]) + ElementsTree(vs[1..], root, trail)
  }

  function EntriesTree(es: seq<Entry>, root: Bytes, trail: seq<Step>): seq<Leaf>
    decreases es, 0
  {
    if es == [] then []
    else TreeLeaves(es[0].value, root, trail + [Key(es[0].key)]) + EntriesTree(es[1..], root, trail)
  }

  // ---------------------------------------------------------------- names, written and read

  function StepText(s: Step): Bytes {
    match s
    case Key(name) => [OPEN] + name + [CLOSE]
    case Each => [OPEN, CLOSE]
  }

  function NameText(root: Bytes, steps: seq<Step>): Bytes {
    root + FlatMap(StepText, steps)
  }

  /** Cuts a text at its brackets; nothing between them is an array's mark. */
  function ReadSteps(text: Bytes): seq<Step>
    decreases |text|
  {
    if text == [] || text[0] != OPEN then []
    else
      var n := BytesUntil(text[1..], {CLOSE}, false);
      var inner, rest := text[1..][..n], text[1..][n..];
      [if inner == [] then Each else Key(inner)] + if rest == [] then [] else ReadSteps(rest[1..])
  }

  function ReadLeaf(p: Pair): Leaf {
    var n := BytesUntil(p.name, {OPEN}, false);
    Leaf(p.name[..n], ReadSteps(p.name[n..]), p.value)
  }

  predicate PlainStep(s: Step) {
    s.Key? ==> s.name != [] && Free(s.name, {CLOSE})
  }

  /** Names that brackets do not make ambiguous. */
  predicate Plain(l: Leaf) {
    Free(l.root, {OPEN}) && forall i :: 0 <= i < |l.steps| ==> PlainStep(l.steps[i])
  }

  predicate AllPlain(leaves: seq<Leaf>) {
    forall l :: l in leaves ==> Plain(l)
  }

  function LeafPair(l: Leaf): Pair {
    Pair(NameText(l.root, l.steps), l.text)
  }

  lemma {:induction false} UntilFree(text: Bytes, ends: set<Byte>)
    ensures Free(text[..BytesUntil(text, ends, false)], ends)
  {
    if text != [] && text[0] !in ends {
      UntilFree(text[1..], ends);
      var n := BytesUntil(text, ends, false);
      assert text[..n] == [text[0]] + text[1..][..n - 1];
    }
  }

  lemma {:induction false} ReadStepsPlain(text: Bytes)
    ensures forall i :: 0 <= i < |ReadSteps(text)| ==> PlainStep(ReadSteps(text)[i])
    decreases |text|
  {
    if text != [] && text[0] == OPEN {
      var n := BytesUntil(text[1..], {CLOSE}, false);
      var rest := text[1..][n..];
      UntilFree(text[1..], {CLOSE});
      if rest != [] {
        ReadStepsPlain(rest[1..]);
      }
    }
  }

  /** Whatever is read is plain. */
  lemma ReadPlain(p: Pair)
    ensures Plain(ReadLeaf(p))
  {
    var n := BytesUntil(p.name, {OPEN}, false);
    UntilFree(p.name, {OPEN});
    ReadStepsPlain(p.name[n..]);
  }

  lemma BracketReads(inner: Bytes, rest: Bytes)
    requires Free(inner, {CLOSE})
    ensures ReadSteps([OPEN] + (inner + [CLOSE] + rest)) ==
            [if inner == [] then Each else Key(inner)] + ReadSteps(rest)
  {
    var text := inner + [CLOSE] + rest;
    UntilAppended(inner, CLOSE, rest, {CLOSE}, false);
    assert ([OPEN] + text)[1..] == text;
    assert text[..|inner|] == inner && text[|inner|..] == [CLOSE] + rest;
    assert ([CLOSE] + rest)[1..] == rest;
  }

  /** What stands between the brackets of a step. */
  function Inner(s: Step): Bytes {
    if s.Key? then s.name else []
  }

  lemma StepWritten(s: Step, rest: Bytes)
    ensures StepText(s) + rest == [OPEN] + (Inner(s) + [CLOSE] + rest)
  {
    assert StepText(s) == [OPEN] + Inner(s) + [CLOSE];
    Assoc([OPEN], Inner(s), [CLOSE]);
    Assoc([OPEN], Inner(s) + [CLOSE], rest);
  }

  lemma StepReads(s: Step, rest: Bytes)
    requires PlainStep(s)
    ensures ReadSteps(StepText(s) + rest) == [s] + ReadSteps(rest)
  {
    StepWritten(s, rest);
    BracketReads(Inner(s), rest);
  }

  lemma {:induction false} StepsRead(steps: seq<Step>)
    requires forall i :: 0 <= i < |steps| ==> PlainStep(steps[i])
    ensures ReadSteps(FlatMap(StepText, steps)) == steps
  {
    if steps != [] {
      StepsRead(steps[1..]);
      StepReads(steps[0], FlatMap(StepText, steps[1..]));
    }
  }

  lemma {:induction false} UntilEnd(text: Bytes, ends: set<Byte>)
    requires Free(text, ends)
    ensures BytesUntil(text, ends, false) == |text|
  {
    if text != [] {
      UntilEnd(text[1..], ends);
    }
  }

  lemma RootReads(root: Bytes, steps: seq<Step>)
    requires Free(root, {OPEN})
    ensures BytesUntil(NameText(root, steps), {OPEN}, false) == |root|
  {
    if steps == [] {
      assert NameText(root, steps) == root;
      UntilEnd(root, {OPEN});
    } else {
      var tail := FlatMap(StepText, steps);
      assert tail[0] == OPEN;
      assert root + tail == root + [OPEN] + tail[1..];
      UntilAppended(root, OPEN, tail[1..], {OPEN}, false);
    }
  }

  /** A written name reads back exactly when its root has no `[` and its keys are not empty and have no `]`. */
  lemma LeafReadsExact(l: Leaf)
    ensures ReadLeaf(LeafPair(l)) == l <==> Plain(l)
  {
    if Plain(l) {
      var name := NameText(l.root, l.steps);
      RootReads(l.root, l.steps);
      assert name[..|l.root|] == l.root && name[|l.root|..] == FlatMap(StepText, l.steps);
      StepsRead(l.steps);
    } else {
      ReadPlain(LeafPair(l));
    }
  }

  // ---------------------------------------------------------------- the names of normalize_nested_query

  lemma NameExtends(root: Bytes, trail: seq<Step>, s: Step)
    ensures NameText(root, trail + [s]) == NameText(root, trail) + StepText(s)
  {
    FlatMapConcat(StepText, trail, [s]);
    FlatMapOne(StepText, s);
    Assoc(root, FlatMap(StepText, trail), StepText(s));
  }

  lemma {:induction false} LeavesNamed(v: Value, root: Bytes, trail: seq<Step>)
    ensures Leaves(v, Some(NameText(root, trail))) == Map(LeafPair, TreeLeaves(v, root, trail))
    decreases v, 1
  {
    match v
    case Scalar(t) => MapOne(LeafPair, Leaf(root, trail, t.GetOr([])));
    case Arr(vs) => ElementsNamed(vs, root, trail);
    case Hash(es) => EntriesNamed(es, root, trail);
  }

  lemma {:induction false} ElementsNamed(vs: seq<Value>, root: Bytes, trail: seq<Step>)
    ensures ElementLeaves(vs, ElementPath(Some(NameText(root, trail)))) == Map(LeafPair, ElementsTree(vs, root, trail))
    decreases vs, 0
  {
    if vs != [] {
      NameExtends(root, trail, Each);
      LeavesNamed(vs[0], root, trail + [Each]);
      ElementsNamed(vs[1..], root, trail);
      MapConcat(LeafPair, TreeLeaves(vs[0], root, trail + [Each]), ElementsTree(vs[1..], root, trail));
    }
  }

  lemma {:induction false} EntriesNamed(es: seq<Entry>, root: Bytes, trail: seq<Step>)
    ensures EntryLeaves(es, Some(NameText(root, trail))) == Map(LeafPair, EntriesTree(es, root, trail))
    decreases es, 0
  {
    if es != [] {
      var s := Key(es[0].key);
      NameExtends(root, trail, s);
      Assoc(NameText(root, trail), [OPEN] + es[0].key, [CLOSE]);
      Assoc(NameText(root, trail), [OPEN], es[0].key);
      LeavesNamed(es[0].value, root, trail + [s]);
      EntriesNamed(es[1..], root, trail);
      MapConcat(LeafPair, TreeLeaves(es[0].value, root, trail + [s]), EntriesTree(es[1..], root, trail));
    }
  }

  lemma TreeNamed(v: Value, root: Bytes)
    ensures Leaves(v, Some(root)) == Map(LeafPair, TreeLeaves(v, root, []))
  {
    assert NameText(root, []) == root;
    LeavesNamed(v, root, []);
  }

  lemma {:induction false} ReadAllExact(leaves: seq<Leaf>)
    ensures AllPlain(leaves) ==> Map(ReadLeaf, Map(LeafPair, leaves)) == leaves
    ensures AllPlain(Map(ReadLeaf, Map(LeafPair, leaves)))
  {
    if leaves != [] {
      assert leaves == [leaves[0]] + leaves[1..];
      assert Map(LeafPair, leaves)[1..] == Map(LeafPair, leaves[1..]);
      LeafReadsExact(leaves[0]);
      ReadPlain(LeafPair(leaves[0]));
      ReadAllExact(leaves[1..]);
    }
  }

  /** Reading a multiset of named leaves back gives the leaves exactly when all are plain. */
  lemma ReadMultisetExact(pairs: seq<Pair>, leaves: seq<Leaf>)
    requires multiset(pairs) == multiset(Map(LeafPair, leaves))
    ensures multiset(Map(ReadLeaf, pairs)) == multiset(leaves) <==> AllPlain(leaves)
  {
    MapMultiset(ReadLeaf, pairs, Map(LeafPair, leaves));
    ReadAllExact(leaves);
    var read := Map(ReadLeaf, Map(LeafPair, leaves));
    if multiset(read) == multiset(leaves) {
      forall l | l in leaves
        ensures Plain(l)
      {
        assert l in multiset(read);
        assert l in read;
      }
    }
  }

  /**
   * Reading the strings of a nested value back gives each leaf with the steps that lead to it,
   * exactly when the brackets of the names are not ambiguous.
   */
  lemma NestedReadsBackExact(v: Value, root: Bytes)
    ensures multiset(Map(ReadLeaf, Map(ParsePair, NestedQuery(v, Some(root))))) ==
            multiset(TreeLeaves(v, root, [])) <==>
            AllPlain(TreeLeaves(v, root, []))
  {
    NestedIsPermutation(v, Some(root));
    ParsedLeaves(NestedQuery(v, Some(root)), Leaves(v, Some(root)));
    TreeNamed(v, root);
    ReadMultisetExact(Map(ParsePair, NestedQuery(v, Some(root))), TreeLeaves(v, root, []));
  }

  /** Two trees with plain names normalize alike exactly when the same steps lead to the same texts. */
  lemma TreesExact(v: Value, w: Value, root: Bytes)
    requires AllPlain(TreeLeaves(v, root, [])) && AllPlain(TreeLeaves(w, root, []))
    ensures NestedQuery(v, Some(root)) == NestedQuery(w, Some(root)) <==>
            multiset(TreeLeaves(v, root, [])) == multiset(TreeLeaves(w, root, []))
  {
    NestedReadsBackExact(v, root);
    NestedReadsBackExact(w, root);
    if multiset(TreeLeaves(v, root, [])) == multiset(TreeLeaves(w, root, [])) {
      TreeNamed(v, root);
      TreeNamed(w, root);
      MapMultiset(LeafPair, TreeLeaves(v, root, []), TreeLeaves(w, root, []));
      NestedDeterminedByLeaves(v, w, Some(root));
    }
  }

  lemma OneTree(key: Bytes, text: Option<Bytes>, root: Bytes)
    ensures TreeLeaves(Hash([Entry(key, Scalar(text))]), root, []) == [Leaf(root, [Key(key)], text.GetOr([]))]
  {
    var es := [Entry(key, Scalar(text))];
    var leaf := [Leaf(root, [Key(key)], text.GetOr([]))];
    assert es[1..] == [] && [] + [Key(key)] == [Key(key)];
    assert TreeLeaves(es[0].value, root, [Key(key)]) == leaf;
    assert EntriesTree(es, root, []) == leaf + EntriesTree(es[1..], root, []);
    assert leaf + [] == leaf;
  }

  lemma OneElement(text: Option<Bytes>, root: Bytes)
    ensures TreeLeaves(Arr([Scalar(text)]), root, []) == [Leaf(root, [Each], text.GetOr([]))]
  {
    var vs := [Scalar(text)];
    var leaf := [Leaf(root, [Each], text.GetOr([]))];
    assert vs[1..] == [] && [] + [Each] == [Each];
    assert TreeLeaves(vs[0], root, [Each]) == leaf;
    assert ElementsTree(vs, root, []) == leaf + ElementsTree(vs[1..], root, []);
    assert leaf + [] == leaf;
  }

  /** Under an empty key a text looks like the element of an array. */
  lemma EmptyKeyIsElement(root: Bytes, text: Option<Bytes>)
    ensures NestedQuery(Hash([Entry([], Scalar(text))]), Some(root)) == NestedQuery(Arr([Scalar(text)]), Some(root))
    ensures TreeLeaves(Hash([Entry([], Scalar(text))]), root, []) != TreeLeaves(Arr([Scalar(text)]), root, [])
  {
    OneTree([], text, root);
    OneElement(text, root);
    TreeNamed(Hash([Entry([], Scalar(text))]), root);
    TreeNamed(Arr([Scalar(text)]), root);
    SameNames(root, text.GetOr([]));
    NestedDeterminedByLeaves(Hash([Entry([], Scalar(text))]), Arr([Scalar(text)]), Some(root));
  }

  lemma SameNames(root: Bytes, text: Bytes)
    ensures Map(LeafPair, [Leaf(root, [Key([])], text)]) == Map(LeafPair, [Leaf(root, [Each], text)])
  {
    FlatMapOne(StepText, Key([]));
    FlatMapOne(StepText, Each);
    assert StepText(Key([])) == StepText(Each);
    assert LeafPair(Leaf(root, [Key([])], text)) == LeafPair(Leaf(root, [Each], text));
  }

  lemma OneGroup(e: Entry, text: Bytes)
    requires EntryStrings(e) == Ok([text])
    ensures NormalizeHash([e]) == Ok(text)
  {
    var none: seq<seq<Bytes>> := [];
    assert [e][1..] == [] && Sort(EntryLeq, [e]) == [e];
    assert AllStrings([]) == Ok(none) && [[text]] + none == [[text]];
    assert AllStrings([e]) == Ok([[text]]);
    assert Map(Ampersands, [[text]]) == [text];
  }

  /** {root => {key => text}} normalizes to root[key]=text, both sides encoded. */
  lemma OneNested(root: Bytes, key: Bytes, text: Bytes)
    ensures NormalizeHash([Entry(root, Hash([Entry(key, Scalar(Some(text)))]))]) ==
            Ok(Escape(root + [OPEN] + key + [CLOSE]) + [EQUALS] + Escape(text))
  {
    var es := [Entry(key, Scalar(Some(text)))];
    var one := [Escape(root + [OPEN] + key + [CLOSE]) + [EQUALS] + Escape(text)];
    assert es[1..] == [];
    assert NestedEntries(es, Some(root)) == one;
    assert one[1..] == [];
    OneGroup(Entry(root, Hash(es)), one[0]);
  }

  // ---------------------------------------------------------------- whole hashes

  function FlatLeaf(root: Bytes): Bytes -> Leaf {
    text => Leaf(root, [], text)
  }

  /** The leaves of one entry: of its tree, or the texts of a flat value, which no step leads to. */
  function EntryTree(e: Entry): seq<Leaf> {
    if Nested(e.value) then TreeLeaves(e.value, e.key, []) else Map(FlatLeaf(e.key), Texts(e.value))
  }

  function HashTree(h: seq<Entry>): seq<Leaf> {
    FlatMap(EntryTree, h)
  }

  lemma EntryNamed(e: Entry)
    ensures LeavesOf(e) == Map(LeafPair, EntryTree(e))
  {
    if Nested(e.value) {
      TreeNamed(e.value, e.key);
    } else {
      assert NameText(e.key, []) == e.key;
    }
  }

  lemma {:induction false} HashNamed(h: seq<Entry>)
    ensures HashLeaves(h) == Map(LeafPair, HashTree(h))
  {
    if h != [] {
      EntryNamed(h[0]);
      HashNamed(h[1..]);
      MapConcat(LeafPair, EntryTree(h[0]), HashTree(h[1..]));
    }
  }

  /**
   * Reading a normalized hash back, names cut at their brackets, gives every leaf it holds with
   * its top-level name, its steps and its text, exactly when the brackets are not ambiguous.
   */
  lemma HashReadsBackExact(h: seq<Entry>)
    requires NormalizeHash(h).Ok? && (|h| <= 1 || AllBearLeaves(h))
    ensures multiset(Map(ReadLeaf, ParseCanonical(NormalizeHash(h).value))) == multiset(HashTree(h)) <==>
            AllPlain(HashTree(h))
  {
    ReadsBackExact(h);
    HashNamed(h);
    ReadMultisetExact(ParseCanonical(NormalizeHash(h).value), HashTree(h));
  }

  // ---------------------------------------------------------------- hashes with the same leaves

  lemma {:induction false} TreeRoots(v: Value, root: Bytes, trail: seq<Step>)
    ensures forall l :: l in TreeLeaves(v, root, trail) ==> l.root == root && trail <= l.steps
    decreases v, 1
  {
    match v
    case Scalar(_) =>
    case Arr(vs) => ElementsRoots(vs, root, trail);
    case Hash(es) => EntriesRoots(es, root, trail);
  }

  lemma {:induction false} ElementsRoots(vs: seq<Value>, root: Bytes, trail: seq<Step>)
    ensures forall l :: l in ElementsTree(vs, root, trail) ==> l.root == root && trail < l.steps
    decreases vs, 0
  {
    if vs != [] {
      TreeRoots(vs[0], root, trail + [Each]);
      ElementsRoots(vs[1..], root, trail);
    }
  }

  lemma {:induction false} EntriesRoots(es: seq<Entry>, root: Bytes, trail: seq<Step>)
    ensures forall l :: l in EntriesTree(es, root, trail) ==> l.root == root && trail < l.steps
    decreases es, 0
  {
    if es != [] {
      TreeRoots(es[0].value, root, trail + [Key(es[0].key)]);
      EntriesRoots(es[1..], root, trail);
    }
  }

  /** The leaves of an entry are under its key; steps lead to them exactly in nested values. */
  lemma EntryRoots(e: Entry)
    ensures forall l :: l in EntryTree(e) ==> l.root == e.key && (l.steps != [] <==> Nested(e.value))
  {
    match e.value
    case Scalar(_) =>
    case Arr(vs) => ElementsRoots(vs, e.key, []);
    case Hash(es) => EntriesRoots(es, e.key, []);
  }

  lemma {:induction false} HashRoots(h: seq<Entry>)
    ensures forall l :: l in HashTree(h) ==> exists i :: 0 <= i < |h| && h[i].key == l.root
  {
    if h != [] {
      EntryRoots(h[0]);
      HashRoots(h[1..]);
      forall l | l in HashTree(h)
        ensures exists i :: 0 <= i < |h| && h[i].key == l.root
      {
        if l in EntryTree(h[0]) {
          assert h[0].key == l.root;
        } else {
          var i :| 0 <= i < |h[1..]| && h[1..][i].key == l.root;
          assert h[i + 1].key == l.root;
        }
      }
    }
  }

  function TextOfLeaf(l: Leaf): Bytes {
    l.text
  }

  /** Two entries of one name with the same leaves contribute the same strings. */
  lemma SameLeavesSameStrings(e: Entry, f: Entry)
    requires e.key == f.key && EntryTree(e) != []
    requires multiset(EntryTree(e)) == multiset(EntryTree(f))
    requires EntryStrings(e).Ok? && EntryStrings(f).Ok?
    ensures EntryStrings(e) == EntryStrings(f)
  {
    var l := EntryTree(e)[0];
    assert l in multiset(EntryTree(f));
    assert l in EntryTree(f);
    EntryRoots(e);
    EntryRoots(f);
    if Nested(e.value) {
      SameNested(e, f);
    } else {
      SameFlat(e, f);
    }
  }

  lemma SameNested(e: Entry, f: Entry)
    requires e.key == f.key && Nested(e.value) && Nested(f.value)
    requires multiset(EntryTree(e)) == multiset(EntryTree(f))
    ensures EntryStrings(e) == EntryStrings(f)
  {
    TreeNamed(e.value, e.key);
    TreeNamed(f.value, f.key);
    MapMultiset(LeafPair, EntryTree(e), EntryTree(f));
    NestedDeterminedByLeaves(e.value, f.value, Some(e.key));
  }

  lemma SameFlat(e: Entry, f: Entry)
    requires e.key == f.key && !Nested(e.value) && !Nested(f.value)
    requires multiset(EntryTree(e)) == multiset(EntryTree(f))
    requires EntryStrings(e).Ok? && EntryStrings(f).Ok?
    ensures EntryStrings(e) == EntryStrings(f)
  {
    FlatOfOk(e);
    FlatOfOk(f);
    MapMultisetExact(FlatLeaf(e.key), TextOfLeaf, Texts(e.value), Texts(f.value));
    LeqIsTotalOrder();
    SortDetermined(Leq, Texts(e.value), Texts(f.value));
    EntryStringsFlat(e);
    EntryStringsFlat(f);
  }

  lemma FlatOfOk(e: Entry)
    requires !Nested(e.value) && EntryStrings(e).Ok?
    ensures FlatValue(e.value) && Comparable(e.value)
  {
    if e.value.Arr? && e.value.elems != [] {
      SortedScalars(e.value.elems);
    }
  }

  /** The leaves under the first key are those of the first entry. */
  lemma FirstLeaves(h: seq<Entry>, l: Leaf)
    requires h != [] && DistinctKeys(h)
    ensures multiset(EntryTree(h[0]))[l] == if l.root == h[0].key then multiset(HashTree(h))[l] else 0
  {
    EntryRoots(h[0]);
    HashRoots(h[1..]);
    assert multiset(HashTree(h)) == multiset(EntryTree(h[0])) + multiset(HashTree(h[1..]));
  }

  predicate AllTreesBear(h: seq<Entry>) {
    forall i :: 0 <= i < |h| ==> EntryTree(h[i]) != []
  }

  /** The first key of one sorted hash does not come after that of another with its leaves. */
  lemma FirstKeyLeq(es: seq<Entry>, fs: seq<Entry>)
    requires es != [] && fs != [] && Sorted(EntryLeq, fs) && EntryTree(es[0]) != []
    requires multiset(HashTree(es)) == multiset(HashTree(fs))
    ensures Leq(fs[0].key, es[0].key)
  {
    var l := EntryTree(es[0])[0];
    EntryRoots(es[0]);
    assert l in HashTree(es);
    assert l in multiset(HashTree(fs));
    HashRoots(fs);
    var j :| 0 <= j < |fs| && fs[j].key == l.root;
    LeqTotal(fs[0].key, fs[0].key);
    if j > 0 {
      assert EntryLeq(fs[0], fs[j]);
    }
  }

  lemma FirstEntriesAgree(es: seq<Entry>, fs: seq<Entry>)
    requires es != [] && fs != [] && DistinctKeys(es) && DistinctKeys(fs)
    requires es[0].key == fs[0].key && multiset(HashTree(es)) == multiset(HashTree(fs))
    ensures multiset(EntryTree(es[0])) == multiset(EntryTree(fs[0]))
    ensures multiset(HashTree(es[1..])) == multiset(HashTree(fs[1..]))
  {
    forall l
      ensures multiset(EntryTree(es[0]))[l] == multiset(EntryTree(fs[0]))[l]
    {
      FirstLeaves(es, l);
      FirstLeaves(fs, l);
    }
    assert multiset(HashTree(es)) == multiset(EntryTree(es[0])) + multiset(HashTree(es[1..]));
    assert multiset(HashTree(fs)) == multiset(EntryTree(fs[0])) + multiset(HashTree(fs[1..]));
    assert multiset(HashTree(es[1..])) == multiset(HashTree(es)) - multiset(EntryTree(es[0]));
    assert multiset(HashTree(fs[1..])) == multiset(HashTree(fs)) - multiset(EntryTree(fs[0]));
  }

  ghost predicate SortedHash(es: seq<Entry>) {
    DistinctKeys(es) && Sorted(EntryLeq, es) && AllTreesBear(es) && AllStrings(es).Ok?
  }

  lemma SortedTail(es: seq<Entry>)
    requires SortedHash(es) && es != []
    ensures SortedHash(es[1..]) && EntryStrings(es[0]).Ok? && EntryTree(es[0]) != []
    ensures AllStrings(es).value == [EntryStrings(es[0]).value] + AllStrings(es[1..]).value
  {
  }

  lemma {:induction false} SortedHashesAgree(es: seq<Entry>, fs: seq<Entry>)
    requires SortedHash(es) && SortedHash(fs)
    requires multiset(HashTree(es)) == multiset(HashTree(fs))
    ensures AllStrings(es) == AllStrings(fs)
  {
    SameLength(HashTree(es), HashTree(fs));
    if es != [] {
      SortedTail(es);
    }
    if fs != [] {
      SortedTail(fs);
    }
    if es != [] && fs != [] {
      FirstKeyLeq(es, fs);
      FirstKeyLeq(fs, es);
      LeqIsTotalOrder();
      FirstEntriesAgree(es, fs);
      SameLeavesSameStrings(es[0], fs[0]);
      SortedHashesAgree(es[1..], fs[1..]);
    }
  }

  lemma SortedForm(h: seq<Entry>)
    requires DistinctKeys(h) && NormalizeHash(h).Ok? && AllBearLeaves(h)
    ensures SortedHash(Sort(EntryLeq, h))
    ensures multiset(HashTree(Sort(EntryLeq, h))) == multiset(HashTree(h))
  {
    var es := Sort(EntryLeq, h);
    SortEntries(h);
    SortedBear(h);
    FlatMapMultiset(EntryTree, es, h);
    forall i | 0 <= i < |es|
      ensures EntryTree(es[i]) != []
    {
      EntryNamed(es[i]);
    }
  }

  /**
   * Two hashes of any shape, each entry with a leaf and the brackets of their names not
   * ambiguous, normalize alike exactly when they hold the same leaves: the same texts under the
   * same names, reached by the same steps.
   */
  lemma HashesExact(h: seq<Entry>, k: seq<Entry>)
    requires DistinctKeys(h) && NormalizeHash(h).Ok? && AllBearLeaves(h) && AllPlain(HashTree(h))
    requires DistinctKeys(k) && NormalizeHash(k).Ok? && AllBearLeaves(k) && AllPlain(HashTree(k))
    ensures NormalizeHash(h) == NormalizeHash(k) <==> multiset(HashTree(h)) == multiset(HashTree(k))
  {
    HashReadsBackExact(h);
    HashReadsBackExact(k);
    if multiset(HashTree(h)) == multiset(HashTree(k)) {
      SortedForm(h);
      SortedForm(k);
      SortedHashesAgree(Sort(EntryLeq, h), Sort(EntryLeq, k));
    }
  }
}
