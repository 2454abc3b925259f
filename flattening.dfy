/** Document flattening: the set of dotted paths `getDocumentKeys` collects
    for a nested document, in both copies of the data source. */
module Flattening {
  import opened Documents
  import opened JavaText

  /** The two copies of `getDocumentKeys`: the current one adds the path of
      an array holding only scalars, the legacy one never adds an array's path. */
  datatype Layout = Current | Legacy

  /** The path of `key` below `parent`: `parent + "." + key`, or `key` at top level. */
  function Child(parent: Option<string>, key: string): string {
    if parent.None? then key else parent.value + "." + key
  }

  /** The segment written for array position `i` (`Integer.toString`). */
  function Index(i: nat): string {
    NatToString(i)
  }

  /** No element is a sub-document or a list (`isScalarValuesOnly` stays true). */
  predicate ScalarsOnly(items: seq<Value>) {
    forall i | 0 <= i < |items| :: !IsContainer(items[i])
  }

  /** Flattening `m` never reaches an array element that is itself a list,
      which `(Document) listItem` would fail to cast. */
  predicate Castable(m: map<string, Value>)
    decreases Doc(m), 1
  {
    forall k | k in m :: EntryCastable(m[k])
  }

  predicate EntryCastable(v: Value)
    decreases v, 2
  {
    match v
    case Doc(sub) => Castable(sub)
    case Arr(items) =>
      forall i | 0 <= i < |items| :: !items[i].Arr? && (items[i].Doc? ==> Castable(items[i].fields))
    case _ => true
  }

  /** The keys `getDocumentKeys(m, parent)` collects when no cast fails. */
  function Keys(m: map<string, Value>, parent: Option<string>, layout: Layout): set<string>
    decreases Doc(m), 1
  {
    set k, p | k in m && p in EntryKeys(k, m[k], parent, layout) :: p
  }

  /** The keys one entry `key: v` contributes. */
  function EntryKeys(key: string, v: Value, parent: Option<string>, layout: Layout): set<string>
    decreases v, 2
  {
    var path := Child(parent, key);
    match v
    case Doc(sub) => Keys(sub, Some(path), layout)
    case Arr(items) =>
      ElementKeys(items, |items|, path, layout)
      + (if layout == Current && ScalarsOnly(items) then {path} else {})
    case _ => {path}
  }

  /** The keys of the document elements among the first `n` elements of an
      array at `path`; element `i` is flattened below `path.i`. */
  function ElementKeys(items: seq<Value>, n: nat, path: string, layout: Layout): set<string>
    requires n <= |items|
    decreases Arr(items), 1
  {
    set i, p | 0 <= i < n && items[i].Doc? && p in Keys(items[i].fields, Some(path + "." + Index(i)), layout) :: p
  }

  /** The keys the entries of `m` named in `done` contribute. */
  ghost function KeysOver(m: map<string, Value>, done: set<string>, parent: Option<string>, layout: Layout): set<string> {
    set k, p | k in done && k in m && p in EntryKeys(k, m[k], parent, layout) :: p
  }

  lemma KeysOverInsert(m: map<string, Value>, done: set<string>, k: string, parent: Option<string>, layout: Layout)
    requires k in m
    ensures KeysOver(m, done + {k}, parent, layout) == KeysOver(m, done, parent, layout) + EntryKeys(k, m[k], parent, layout)
  {
  }

  lemma KeysOverAll(m: map<string, Value>, parent: Option<string>, layout: Layout)
    ensures KeysOver(m, m.Keys, parent, layout) == Keys(m, parent, layout)
  {
  }

  /** What `getDocumentKeys(m, parent)` returns or throws. */
  function DocumentKeys(m: map<string, Value>, parent: Option<string>, layout: Layout): Result<set<string>> {
    if Castable(m) then Ok(Keys(m, parent, layout)) else Err(ClassCast)
  }

  /** What processing one entry `key: v` adds, or the cast failure it raises. */
  function EntryResult(key: string, v: Value, parent: Option<string>, layout: Layout): Result<set<string>> {
    if EntryCastable(v) then Ok(EntryKeys(key, v, parent, layout)) else Err(ClassCast)
  }

  /** `getDocumentKeys`: walks the entries of `doc` in the key set's order,
      recursing into sub-documents and into the document elements of arrays. */
  method CollectKeys(doc: map<string, Value>, parentKey: Option<string>, layout: Layout)
    returns (r: Result<set<string>>)
    ensures r == DocumentKeys(doc, parentKey, layout)
    decreases Doc(doc), 1
  {
    var keys: set<string> := {};
    var pending := doc.Keys;
    while pending != {}
      invariant pending <= doc.Keys
      invariant forall k | k in doc.Keys - pending :: EntryCastable(doc[k])
      invariant keys == KeysOver(doc, doc.Keys - pending, parentKey, layout)
      decreases pending
    {
      var docKey :| docKey in pending;
      var entry := CollectEntryKeys(docKey, doc[docKey], parentKey, layout);
      if entry.Err? {
        return Err(entry.error);
      }
      KeysOverInsert(doc, doc.Keys - pending, docKey, parentKey, layout);
      assert doc.Keys - (pending - {docKey}) == (doc.Keys - pending) + {docKey};
      keys := keys + entry.value;
      pending := pending - {docKey};
    }
    assert doc.Keys - pending == doc.Keys;
    KeysOverAll(doc, parentKey, layout);
    return Ok(keys);
  }

  /** The body of the entry loop of `getDocumentKeys` for one `docKey: docPart`. */
  method CollectEntryKeys(docKey: string, docPart: Value, parentKey: Option<string>, layout: Layout)
    returns (r: Result<set<string>>)
    ensures r == EntryResult(docKey, docPart, parentKey, layout)
    decreases docPart, 2
  {
    var path := Child(parentKey, docKey);
    match docPart
    case Doc(sub) =>
      r := CollectKeys(sub, Some(path), layout);
      assert EntryCastable(docPart) == Castable(sub);
    case Arr(items) =>
      r := CollectListKeys(docKey, items, parentKey, layout);
    case _ =>
      r := Ok({path});
  }

  /** Extending the prefix of an array by one element adds that element's keys. */
  lemma ElementKeysStep(items: seq<Value>, i: nat, path: string, layout: Layout)
    requires i < |items|
    ensures ElementKeys(items, i + 1, path, layout)
      == ElementKeys(items, i, path, layout)
         + (if items[i].Doc? then Keys(items[i].fields, Some(path + "." + Index(i)), layout) else {})
  {
  }

  /** The list branch of the entry loop: the document elements are
      flattened below `key.i`, an element that is a list fails the cast,
      and the list keeps its own path only in the current layout and only
      when it holds scalars alone. */
  method CollectListKeys(docKey: string, items: seq<Value>, parentKey: Option<string>, layout: Layout)
    returns (r: Result<set<string>>)
    ensures r == EntryResult(docKey, Arr(items), parentKey, layout)
    decreases Arr(items), 1
  {
    var path := Child(parentKey, docKey);
    var keys: set<string> := {};
    var i := 0;
    var scalarValuesOnly := true;
    while i < |items|
      invariant 0 <= i <= |items|
      invariant scalarValuesOnly == ScalarsOnly(items[..i])
      invariant forall j | 0 <= j < i :: !items[j].Arr? && (items[j].Doc? ==> Castable(items[j].fields))
      invariant keys == ElementKeys(items, i, path, layout)
    {
      var listItem := items[i];
      ElementKeysStep(items, i, path, layout);
      if IsContainer(listItem) {
        if listItem.Arr? {
          assert !EntryCastable(Arr(items));
          return Err(ClassCast);
        }
        var sub := CollectKeys(listItem.fields, Some(path + "." + Index(i)), layout);
        if sub.Err? {
          assert !EntryCastable(Arr(items));
          return Err(sub.error);
        }
        keys := keys + sub.value;
        scalarValuesOnly := false;
      }
      assert items[..i + 1] == items[..i] + [listItem];
      i := i + 1;
    }
    assert items[..i] == items;
    if layout == Current && scalarValuesOnly {
      keys := keys + {path};
    }
    assert EntryCastable(Arr(items));
    assert keys == EntryKeys(docKey, Arr(items), parentKey, layout);
    r := Ok(keys);
  }

  /** The shape of a value the flattener addresses as one leaf: never a
      sub-document, and an array only in the current layout and only when
      it holds scalars alone. */
  predicate IsLeafValue(v: Value, layout: Layout) {
    !v.Doc? && (v.Arr? ==> layout == Current && ScalarsOnly(v.items))
  }

  /** The leaves of `leaves`, moved below the segments `pre`. */
  ghost function Prefix(leaves: set<(seq<string>, Value)>, pre: seq<string>): set<(seq<string>, Value)> {
    set l | l in leaves :: (pre + l.0, l.1)
  }

  /** Reference definition: every leaf flattening reaches, as the segments of
      its path together with the value found there. */
  ghost function Leaves(m: map<string, Value>, layout: Layout): (r: set<(seq<string>, Value)>)
    ensures forall l | l in r :: |l.0| >= 1
    decreases Doc(m), 1
  {
    set k, l | k in m && l in EntryLeaves(k, m[k], layout) :: l
  }

  ghost function EntryLeaves(key: string, v: Value, layout: Layout): (r: set<(seq<string>, Value)>)
    ensures forall l | l in r :: |l.0| >= 1
    decreases v, 2
  {
    match v
    case Doc(sub) => Prefix(Leaves(sub, layout), [key])
    case Arr(items) =>
      ElementLeaves(key, items, layout)
      + (if layout == Current && ScalarsOnly(items) then {([key], v)} else {})
    case _ => {([key], v)}
  }

  /** The leaves below the document elements of an array at `key`. */
  ghost function ElementLeaves(key: string, items: seq<Value>, layout: Layout): (r: set<(seq<string>, Value)>)
    ensures forall l | l in r :: |l.0| >= 1
    decreases Arr(items), 1
  {
    set i, l | 0 <= i < |items| && items[i].Doc? && l in Prefix(Leaves(items[i].fields, layout), [key, Index(i)]) :: l
  }

  /** The dotted paths of a set of leaves, below `parent`. */
  ghost function LeafPaths(leaves: set<(seq<string>, Value)>, parent: Option<string>): set<string> {
    set l | l in leaves && |l.0| >= 1 :: Child(parent, Join(l.0, '.'))
  }

  lemma ChildOfJoin(parent: Option<string>, pre: seq<string>, tail: seq<string>)
    requires |pre| >= 1 && |tail| >= 1
    ensures Child(parent, Join(pre + tail, '.')) == Child(Some(Child(parent, Join(pre, '.'))), Join(tail, '.'))
  {
    JoinAppend(pre, tail, '.');
    var a, b := Join(pre, '.'), Join(tail, '.');
    if parent.Some? {
      assert parent.value + "." + (a + "." + b) == (parent.value + "." + a) + "." + b;
    }
  }

  /** Moving leaves below `pre` moves their paths below the path of `pre`. */
  lemma LeafPathsOfPrefix(leaves: set<(seq<string>, Value)>, parent: Option<string>, pre: seq<string>)
    requires |pre| >= 1
    requires forall l | l in leaves :: |l.0| >= 1
    ensures LeafPaths(Prefix(leaves, pre), parent) == LeafPaths(leaves, Some(Child(parent, Join(pre, '.'))))
  {
    var inner := Some(Child(parent, Join(pre, '.')));
    forall p | p in LeafPaths(Prefix(leaves, pre), parent)
      ensures p in LeafPaths(leaves, inner)
    {
      var l' :| l' in Prefix(leaves, pre) && |l'.0| >= 1 && p == Child(parent, Join(l'.0, '.'));
      var l :| l in leaves && l' == (pre + l.0, l.1);
      ChildOfJoin(parent, pre, l.0);
    }
    forall p | p in LeafPaths(leaves, inner)
      ensures p in LeafPaths(Prefix(leaves, pre), parent)
    {
      var l :| l in leaves && |l.0| >= 1 && p == Child(inner, Join(l.0, '.'));
      ChildOfJoin(parent, pre, l.0);
      assert (pre + l.0, l.1) in Prefix(leaves, pre);
    }
  }

  /** The keys `getDocumentKeys` collects are exactly the dotted paths of the
      leaves of the reference definition. */
  lemma {:induction false} KeysAreLeafPaths(m: map<string, Value>, parent: Option<string>, layout: Layout)
    ensures Keys(m, parent, layout) == LeafPaths(Leaves(m, layout), parent)
    decreases Doc(m), 1
  {
    KeysWithinLeafPaths(m, parent, layout);
    LeafPathsWithinKeys(m, parent, layout);
  }

  lemma {:induction false} KeysWithinLeafPaths(m: map<string, Value>, parent: Option<string>, layout: Layout)
    ensures Keys(m, parent, layout) <= LeafPaths(Leaves(m, layout), parent)
    decreases Doc(m), 0
  {
    forall p | p in Keys(m, parent, layout)
      ensures p in LeafPaths(Leaves(m, layout), parent)
    {
      var k :| k in m && p in EntryKeys(k, m[k], parent, layout);
      EntryKeysAreLeafPaths(k, m[k], parent, layout);
      var l :| l in EntryLeaves(k, m[k], layout) && |l.0| >= 1 && p == Child(parent, Join(l.0, '.'));
      assert l in Leaves(m, layout);
    }
  }

  lemma {:induction false} LeafPathsWithinKeys(m: map<string, Value>, parent: Option<string>, layout: Layout)
    ensures LeafPaths(Leaves(m, layout), parent) <= Keys(m, parent, layout)
    decreases Doc(m), 0
  {
    forall p | p in LeafPaths(Leaves(m, layout), parent)
      ensures p in Keys(m, parent, layout)
    {
      var l :| l in Leaves(m, layout) && |l.0| >= 1 && p == Child(parent, Join(l.0, '.'));
      var k :| k in m && l in EntryLeaves(k, m[k], layout);
      EntryKeysAreLeafPaths(k, m[k], parent, layout);
      assert p in LeafPaths(EntryLeaves(k, m[k], layout), parent);
    }
  }

  lemma {:induction false} EntryKeysAreLeafPaths(key: string, v: Value, parent: Option<string>, layout: Layout)
    ensures EntryKeys(key, v, parent, layout) == LeafPaths(EntryLeaves(key, v, layout), parent)
    decreases v, 2
  {
    assert Join([key], '.') == key;
    match v
    case Doc(sub) =>
      KeysAreLeafPaths(sub, Some(Child(parent, key)), layout);
      LeafPathsOfPrefix(Leaves(sub, layout), parent, [key]);
    case Arr(items) =>
      ElementKeysAreLeafPaths(key, items, parent, layout);
    case _ =>
  }

  lemma {:induction false} ElementPathsAt(key: string, items: seq<Value>, i: nat, parent: Option<string>, layout: Layout)
    requires i < |items| && items[i].Doc?
    ensures Keys(items[i].fields, Some(Child(parent, key) + "." + Index(i)), layout)
         == LeafPaths(Prefix(Leaves(items[i].fields, layout), [key, Index(i)]), parent)
    decreases Arr(items), -1
  {
    var path := Child(parent, key);
    KeysAreLeafPaths(items[i].fields, Some(path + "." + Index(i)), layout);
    LeafPathsOfPrefix(Leaves(items[i].fields, layout), parent, [key, Index(i)]);
    JoinCons(key, [Index(i)], '.');
    assert Join([Index(i)], '.') == Index(i);
    if parent.Some? {
      assert parent.value + "." + (key + "." + Index(i)) == path + "." + Index(i);
    }
  }

  lemma {:induction false} ElementKeysAreLeafPaths(key: string, items: seq<Value>, parent: Option<string>, layout: Layout)
    ensures ElementKeys(items, |items|, Child(parent, key), layout) == LeafPaths(ElementLeaves(key, items, layout), parent)
    decreases Arr(items), 1
  {
    ElementKeysWithinLeafPaths(key, items, parent, layout);
    LeafPathsWithinElementKeys(key, items, parent, layout);
  }

  lemma {:induction false} ElementKeysWithinLeafPaths(key: string, items: seq<Value>, parent: Option<string>, layout: Layout)
    ensures ElementKeys(items, |items|, Child(parent, key), layout) <= LeafPaths(ElementLeaves(key, items, layout), parent)
    decreases Arr(items), 0
  {
    var path := Child(parent, key);
    forall p | p in ElementKeys(items, |items|, path, layout)
      ensures p in LeafPaths(ElementLeaves(key, items, layout), parent)
    {
      var i :| 0 <= i < |items| && items[i].Doc? && p in Keys(items[i].fields, Some(path + "." + Index(i)), layout);
      ElementPathsAt(key, items, i, parent, layout);
      var l :| l in Prefix(Leaves(items[i].fields, layout), [key, Index(i)]) && |l.0| >= 1 && p == Child(parent, Join(l.0, '.'));
      assert l in ElementLeaves(key, items, layout);
    }
  }

  lemma {:induction false} LeafPathsWithinElementKeys(key: string, items: seq<Value>, parent: Option<string>, layout: Layout)
    ensures LeafPaths(ElementLeaves(key, items, layout), parent) <= ElementKeys(items, |items|, Child(parent, key), layout)
    decreases Arr(items), 0
  {
    var path := Child(parent, key);
    forall p | p in LeafPaths(ElementLeaves(key, items, layout), parent)
      ensures p in ElementKeys(items, |items|, path, layout)
    {
      var l :| l in ElementLeaves(key, items, layout) && |l.0| >= 1 && p == Child(parent, Join(l.0, '.'));
      var i :| 0 <= i < |items| && items[i].Doc? && l in Prefix(Leaves(items[i].fields, layout), [key, Index(i)]);
      ElementPathsAt(key, items, i, parent, layout);
      assert p in LeafPaths(Prefix(Leaves(items[i].fields, layout), [key, Index(i)]), parent);
    }
  }

  /** Every leaf is a leaf value: a sub-document is never a leaf itself, and
      an array is one only in the current layout and only when it holds
      scalars alone. */
  lemma {:induction false} LeavesAreLeafValues(m: map<string, Value>, layout: Layout)
    ensures forall l | l in Leaves(m, layout) :: IsLeafValue(l.1, layout)
    decreases Doc(m), 1
  {
    forall k | k in m {
      EntryLeavesAreLeafValues(k, m[k], layout);
    }
  }

  lemma {:induction false} EntryLeavesAreLeafValues(key: string, v: Value, layout: Layout)
    ensures forall l | l in EntryLeaves(key, v, layout) :: IsLeafValue(l.1, layout)
    decreases v, 2
  {
    match v
    case Doc(sub) =>
      LeavesAreLeafValues(sub, layout);
    case Arr(items) =>
      forall i | 0 <= i < |items| && items[i].Doc? {
        LeavesAreLeafValues(items[i].fields, layout);
      }
    case _ =>
  }

  /** A key the resolver can find again: not empty and free of `.`. */
  predicate WellFormedKey(k: string) {
    k != "" && '.' !in k
  }

  /** Every key flattening meets is well formed, and every array it walks
      fits in an `ArrayList` (at most `Integer.MAX_VALUE` elements). */
  predicate WellFormed(m: map<string, Value>)
    decreases Doc(m), 1
  {
    forall k | k in m :: WellFormedKey(k) && EntryWellFormed(m[k])
  }

  predicate EntryWellFormed(v: Value)
    decreases v, 2
  {
    match v
    case Doc(sub) => WellFormed(sub)
    case Arr(items) =>
      |items| <= IntMax && forall i | 0 <= i < |items| :: items[i].Doc? ==> WellFormed(items[i].fields)
    case _ => true
  }

  lemma IndexIsWellFormedKey(i: nat)
    ensures WellFormedKey(Index(i))
  {
    assert !IsDigit('.');
  }

  /** In a well-formed document every segment of every leaf is a well-formed key. */
  lemma {:induction false} LeafSegmentsWellFormed(m: map<string, Value>, layout: Layout)
    requires WellFormed(m)
    ensures forall l, j | l in Leaves(m, layout) && 0 <= j < |l.0| :: WellFormedKey(l.0[j])
    decreases Doc(m), 1
  {
    forall k | k in m {
      EntrySegmentsWellFormed(k, m[k], layout);
    }
  }

  lemma {:induction false} EntrySegmentsWellFormed(key: string, v: Value, layout: Layout)
    requires WellFormedKey(key) && EntryWellFormed(v)
    ensures forall l, j | l in EntryLeaves(key, v, layout) && 0 <= j < |l.0| :: WellFormedKey(l.0[j])
    decreases v, 2
  {
    match v
    case Doc(sub) =>
      LeafSegmentsWellFormed(sub, layout);
      forall l, j | l in EntryLeaves(key, v, layout) && 0 <= j < |l.0|
        ensures WellFormedKey(l.0[j])
      {
        var l0 :| l0 in Leaves(sub, layout) && l == ([key] + l0.0, l0.1);
        if j > 0 {
          assert l.0[j] == l0.0[j - 1];
        }
      }
    case Arr(items) =>
      forall l, j | l in EntryLeaves(key, v, layout) && 0 <= j < |l.0|
        ensures WellFormedKey(l.0[j])
      {
        if l !in ElementLeaves(key, items, layout) {
          assert l == ([key], v);
        } else {
          var i :| 0 <= i < |items| && items[i].Doc? && l in Prefix(Leaves(items[i].fields, layout), [key, Index(i)]);
          var l0 :| l0 in Leaves(items[i].fields, layout) && l == ([key, Index(i)] + l0.0, l0.1);
          LeafSegmentsWellFormed(items[i].fields, layout);
          IndexIsWellFormedKey(i);
          if j > 1 {
            assert l.0[j] == l0.0[j - 2];
          }
        }
      }
    case _ =>
  }
}
