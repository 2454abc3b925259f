/** What `getDocumentKeys` makes of each kind of entry: which paths a
    scalar, a sub-document, an array of scalars, a mixed array and a nested
    array contribute, in each of the two layouts. */
module KeyShapes {
  import opened Documents
  import opened JavaText
  import opened Flattening

  /** Every key collected below `q` extends `q` by a `.` and a further segment. */
  lemma KeysExtendParent(m: map<string, Value>, q: string, layout: Layout)
    ensures forall p | p in Keys(m, Some(q), layout) :: |p| >= |q| + 1 && p[..|q| + 1] == q + "."
  {
    KeysAreLeafPaths(m, Some(q), layout);
    forall p | p in Keys(m, Some(q), layout)
      ensures |p| >= |q| + 1 && p[..|q| + 1] == q + "."
    {
      var l :| l in Leaves(m, layout) && |l.0| >= 1 && p == Child(Some(q), Join(l.0, '.'));
      assert p == q + "." + Join(l.0, '.');
    }
  }

  /** A sub-document never keeps its own path: every key it contributes
      lies strictly below it. */
  lemma SubDocumentKeysBelow(key: string, sub: map<string, Value>, parent: Option<string>, layout: Layout)
    ensures var path := Child(parent, key);
      forall p | p in EntryKeys(key, Doc(sub), parent, layout) ::
        p != path && |p| > |path| && p[..|path| + 1] == path + "."
  {
    KeysExtendParent(sub, Child(parent, key), layout);
  }

  /** An array holding only scalars (the empty one included) keeps exactly
      its own path in the current layout and contributes nothing in the
      legacy one. */
  lemma ScalarArrayKeys(key: string, items: seq<Value>, parent: Option<string>)
    requires ScalarsOnly(items)
    ensures EntryKeys(key, Arr(items), parent, Current) == {Child(parent, key)}
    ensures EntryKeys(key, Arr(items), parent, Legacy) == {}
  {
    assert forall i | 0 <= i < |items| :: !items[i].Doc?;
  }

  /** An array holding a sub-document loses its own path even in the
      current layout, and its scalar elements get no path either: only the
      keys below its sub-documents remain. */
  lemma MixedArrayKeys(key: string, items: seq<Value>, parent: Option<string>, d: nat)
    requires d < |items| && items[d].Doc?
    ensures Child(parent, key) !in EntryKeys(key, Arr(items), parent, Current)
    ensures forall j | 0 <= j < |items| && !items[j].Doc? ::
      Child(parent, key) + "." + Index(j) !in EntryKeys(key, Arr(items), parent, Current)
  {
    assert IsContainer(items[d]);
    var path := Child(parent, key);
    var keys := EntryKeys(key, Arr(items), parent, Current);
    assert keys == ElementKeys(items, |items|, path, Current);
    forall p | p in keys
      ensures p != path
      ensures forall j | 0 <= j < |items| && !items[j].Doc? :: p != path + "." + Index(j)
    {
      var i :| 0 <= i < |items| && items[i].Doc? && p in Keys(items[i].fields, Some(path + "." + Index(i)), Current);
      var q := path + "." + Index(i);
      KeysExtendParent(items[i].fields, q, Current);
      assert p[..|q| + 1] == q + ".";
      forall j | 0 <= j < |items| && !items[j].Doc?
        ensures p != path + "." + Index(j)
      {
        var t := path + "." + Index(j);
        if |t| > |q| {
          assert t[|q|] == Index(j)[|q| - |path| - 1];
          assert t[|q|] != p[|q|];
        }
      }
    }
  }

  /** A top-level array that holds another array makes the whole
      collection fail with the cast error. */
  lemma NestedArrayFails(m: map<string, Value>, k: string, i: nat, parent: Option<string>, layout: Layout)
    requires k in m && m[k].Arr? && i < |m[k].items| && m[k].items[i].Arr?
    ensures DocumentKeys(m, parent, layout) == Err(ClassCast)
  {
    assert !EntryCastable(m[k]);
  }

  /** The shape of one entry's leaves: each starts with the entry's key, and
      the only one-segment leaf is the entry itself. */
  lemma EntryLeafShape(key: string, v: Value, layout: Layout)
    ensures forall l | l in EntryLeaves(key, v, layout) :: l.0[0] == key && (|l.0| == 1 ==> l == ([key], v))
  {
    match v
    case Doc(sub) =>
      forall l | l in EntryLeaves(key, v, layout)
        ensures l.0[0] == key && |l.0| >= 2
      {
        var l0 :| l0 in Leaves(sub, layout) && l == ([key] + l0.0, l0.1);
      }
    case Arr(items) =>
      forall l | l in ElementLeaves(key, items, layout)
        ensures l.0[0] == key && |l.0| >= 3
      {
        var i :| 0 <= i < |items| && items[i].Doc? && l in Prefix(Leaves(items[i].fields, layout), [key, Index(i)]);
        var l0 :| l0 in Leaves(items[i].fields, layout) && l == ([key, Index(i)] + l0.0, l0.1);
      }
    case _ =>
  }

  /** At the top level of a well-formed document, a plain name is a collected
      key exactly when the document holds it and its value is a leaf value:
      a scalar, or (current layout only) an array of scalars; never a
      sub-document. */
  lemma {:induction false} TopLevelKey(m: map<string, Value>, k: string, layout: Layout)
    requires WellFormed(m) && WellFormedKey(k)
    ensures k in Keys(m, None, layout) <==> k in m && IsLeafValue(m[k], layout)
  {
    KeysAreLeafPaths(m, None, layout);
    assert Join([k], '.') == k;
    if k in Keys(m, None, layout) {
      var l :| l in Leaves(m, layout) && |l.0| >= 1 && k == Child(None, Join(l.0, '.'));
      LeafSegmentsWellFormed(m, layout);
      JoinHasSeparator(l.0, '.');
      var k' :| k' in m && l in EntryLeaves(k', m[k'], layout);
      EntryLeafShape(k', m[k'], layout);
      assert l == ([k'], m[k']);
      LeavesAreLeafValues(m, layout);
    }
    if k in m && IsLeafValue(m[k], layout) {
      assert ([k], m[k]) in EntryLeaves(k, m[k], layout);
      assert ([k], m[k]) in Leaves(m, layout);
    }
  }
}
