/** Reading a value back out of a document by a dot-separated path, the way
    `getDocumentFieldValue` does, and the proof that every flattened key
    reads back the leaf it was made from. */
module Resolution {
  import opened Documents
  import opened JavaText
  import opened Flattening

  /** Follow the segments from `v`: a list takes the segment as an index
      (`Integer.parseInt`, then `ArrayList.get`), a document as a key
      (`Document.get`, so a missing key reads as null), and the walk stops
      early at the first value that is neither. */
  function Walk(v: Value, segs: seq<string>): (r: Result<Value>)
    ensures segs == [] || !IsContainer(v) ==> r == Ok(v)
    ensures v.Arr? && segs != [] && ParseInt(segs[0]).Err? ==> r == Err(NumberFormat)
    ensures v.Arr? && segs != [] && ParseInt(segs[0]).Ok? && !(0 <= ParseInt(segs[0]).value < |v.items|) ==>
      r == Err(IndexOutOfBounds)
    ensures v.Doc? && segs != [] && segs[0] !in v.fields ==> r == Ok(Null)
    decreases |segs|
  {
    if segs == [] || !IsContainer(v) then Ok(v)
    else if v.Arr? then
      var index :- ParseInt(segs[0]);
      if 0 <= index < |v.items| then Walk(v.items[index], segs[1..]) else Err(IndexOutOfBounds)
    else Walk(Get(v.fields, segs[0]), segs[1..])
  }

  /** The value `getDocumentFieldValue(object, fieldName)` returns: split the
      name on `.`, look the first part up in the document and walk the rest.
      A name that splits into nothing (".", "..") fails at `fieldParts[0]`. */
  function Resolve(m: map<string, Value>, path: string): (r: Result<Value>)
    ensures |Split(path, '.')| >= 1 ==> r == Walk(Doc(m), Split(path, '.'))
    ensures |Split(path, '.')| == 0 ==> r == Err(IndexOutOfBounds)
  {
    var parts := Split(path, '.');
    if |parts| == 0 then Err(IndexOutOfBounds) else Walk(Get(m, parts[0]), parts[1..])
  }

  /** `getDocumentFieldValue`: the loop that walks the parts of the name. */
  method GetDocumentFieldValue(doc: map<string, Value>, fieldName: string) returns (r: Result<Value>)
    ensures r == Resolve(doc, fieldName)
  {
    var fieldParts := Split(fieldName, '.');
    if |fieldParts| == 0 {
      return Err(IndexOutOfBounds);
    }
    var i := 1;
    var value := Get(doc, fieldParts[0]);
    while i < |fieldParts| && IsContainer(value)
      invariant 1 <= i <= |fieldParts|
      invariant Walk(value, fieldParts[i..]) == Resolve(doc, fieldName)
      decreases |fieldParts| - i
    {
      if value.Arr? {
        var index := ParseInt(fieldParts[i]);
        if index.Err? {
          return Err(index.error);
        }
        if !(0 <= index.value < |value.items|) {
          return Err(IndexOutOfBounds);
        }
        value := value.items[index.value];
      } else {
        value := Get(value.fields, fieldParts[i]);
      }
      i := i + 1;
    }
    return Ok(value);
  }

  /** Walking a path is walking its first part and then the rest from where
      that led; a walk that stopped early at a scalar stays there. */
  lemma {:induction false} WalkAppend(v: Value, a: seq<string>, b: seq<string>)
    ensures Walk(v, a + b) == (match Walk(v, a) case Ok(w) => Walk(w, b) case Err(e) => Err(e))
    decreases |a|
  {
    if a == [] {
      assert a + b == b;
    } else if IsContainer(v) {
      assert (a + b)[0] == a[0] && (a + b)[1..] == a[1..] + b;
      if v.Arr? {
        var index := ParseInt(a[0]);
        if index.Ok? && 0 <= index.value < |v.items| {
          WalkAppend(v.items[index.value], a[1..], b);
        }
      } else {
        WalkAppend(Get(v.fields, a[0]), a[1..], b);
      }
    }
  }

  /** A path that runs into a scalar part-way yields that scalar, whatever
      the remaining parts say. */
  lemma WalkStopsAtScalar(v: Value, segs: seq<string>, j: nat, w: Value)
    requires j <= |segs| && Walk(v, segs[..j]) == Ok(w) && !IsContainer(w)
    ensures Walk(v, segs) == Ok(w)
  {
    WalkAppend(v, segs[..j], segs[j..]);
    assert segs[..j] + segs[j..] == segs;
  }

  /** In a well-formed document the segments of every leaf walk from the
      document to that leaf's value: the key segments are looked up, and
      each index segment `Integer.toString(i)` parses back to `i`. */
  lemma {:induction false} LeavesResolve(m: map<string, Value>, layout: Layout)
    requires WellFormed(m)
    ensures forall l | l in Leaves(m, layout) :: Walk(Doc(m), l.0) == Ok(l.1)
    decreases Doc(m), 1
  {
    forall l | l in Leaves(m, layout)
      ensures Walk(Doc(m), l.0) == Ok(l.1)
    {
      var k :| k in m && l in EntryLeaves(k, m[k], layout);
      EntryLeavesResolve(k, m[k], layout);
      assert l.0 == [k] + l.0[1..];
    }
  }

  lemma {:induction false} EntryLeavesResolve(key: string, v: Value, layout: Layout)
    requires EntryWellFormed(v)
    ensures forall l | l in EntryLeaves(key, v, layout) ::
      |l.0| >= 1 && l.0[0] == key && Walk(v, l.0[1..]) == Ok(l.1)
    decreases v, 2
  {
    match v
    case Doc(sub) =>
      LeavesResolve(sub, layout);
      forall l | l in EntryLeaves(key, v, layout)
        ensures |l.0| >= 1 && l.0[0] == key && Walk(v, l.0[1..]) == Ok(l.1)
      {
        var l0 :| l0 in Leaves(sub, layout) && l == ([key] + l0.0, l0.1);
        assert l.0[1..] == l0.0;
      }
    case Arr(items) =>
      forall l | l in EntryLeaves(key, v, layout)
        ensures |l.0| >= 1 && l.0[0] == key && Walk(v, l.0[1..]) == Ok(l.1)
      {
        if l !in ElementLeaves(key, items, layout) {
          assert l == ([key], v);
        } else {
          ElementLeafResolves(key, items, layout, l);
        }
      }
    case _ =>
  }

  lemma {:induction false} ElementLeafResolves(key: string, items: seq<Value>, layout: Layout, l: (seq<string>, Value))
    requires EntryWellFormed(Arr(items)) && l in ElementLeaves(key, items, layout)
    ensures |l.0| >= 1 && l.0[0] == key && Walk(Arr(items), l.0[1..]) == Ok(l.1)
    decreases Arr(items), 1
  {
    var i :| 0 <= i < |items| && items[i].Doc? && l in Prefix(Leaves(items[i].fields, layout), [key, Index(i)]);
    var l0 :| l0 in Leaves(items[i].fields, layout) && l == ([key, Index(i)] + l0.0, l0.1);
    LeavesResolve(items[i].fields, layout);
    ParseIntOfNatToString(i);
    assert l.0[1..] == [Index(i)] + l0.0;
    assert l.0[1..][1..] == l0.0;
  }

  /** Flattening and resolving agree (`getARow`): in a well-formed document
      every leaf is reachable under the key made of its joined segments, and
      every flattened key resolves, without failing, to a leaf value.
      `WellFormed` asks more than this needs: it refuses every empty key,
      although only an empty last segment is lost to `split`; a top-level
      `""` key, for one, is collected as "" and reads back its value. */
  lemma FlattenedKeysResolve(m: map<string, Value>, layout: Layout)
    requires WellFormed(m)
    ensures forall l | l in Leaves(m, layout) ::
      Join(l.0, '.') in Keys(m, None, layout) && Resolve(m, Join(l.0, '.')) == Ok(l.1)
    ensures forall p | p in Keys(m, None, layout) ::
      Resolve(m, p).Ok? && IsLeafValue(Resolve(m, p).value, layout)
  {
    KeysAreLeafPaths(m, None, layout);
    LeavesResolve(m, layout);
    LeafSegmentsWellFormed(m, layout);
    LeavesAreLeafValues(m, layout);
    forall l | l in Leaves(m, layout)
      ensures Join(l.0, '.') in Keys(m, None, layout) && Resolve(m, Join(l.0, '.')) == Ok(l.1)
    {
      assert Child(None, Join(l.0, '.')) == Join(l.0, '.');
      assert WellFormedKey(l.0[|l.0| - 1]);
      SplitJoin(l.0, '.');
    }
    forall p | p in Keys(m, None, layout)
      ensures Resolve(m, p).Ok? && IsLeafValue(Resolve(m, p).value, layout)
    {
      var l :| l in Leaves(m, layout) && |l.0| >= 1 && p == Child(None, Join(l.0, '.'));
      assert WellFormedKey(l.0[|l.0| - 1]);
      SplitJoin(l.0, '.');
    }
  }

  /** A key that itself contains `.` is flattened under its own name but read
      back as a path, so its value is lost: `{"a.b": 1}` yields the key
      "a.b", which resolves to null. */
  lemma DottedKeyResolvesToNull()
    ensures "a.b" in Keys(map["a.b" := Num(1)], None, Current)
    ensures Resolve(map["a.b" := Num(1)], "a.b") == Ok(Null)
  {
    var m := map["a.b" := Num(1)];
    assert "a.b" in m && "a.b" in EntryKeys("a.b", m["a.b"], None, Current);
    assert Join(["a", "b"], '.') == "a.b";
    SplitJoin(["a", "b"], '.');
  }

  /** An empty key inside a sub-document gives a path ending in `.`, which
      `split` shortens, so it resolves to the enclosing sub-document rather
      than to the leaf: `{"a": {"": 1}}` yields "a." and reads `{"": 1}`. */
  lemma EmptyKeyResolvesToParent()
    ensures "a." in Keys(map["a" := Doc(map["" := Num(1)])], None, Current)
    ensures Resolve(map["a" := Doc(map["" := Num(1)])], "a.") == Ok(Doc(map["" := Num(1)]))
  {
    var sub := map["" := Num(1)];
    var m := map["a" := Doc(sub)];
    assert Child(Some("a"), "") == "a.";
    assert "" in sub && "a." in EntryKeys("", sub[""], Some("a"), Current);
    assert "a." in Keys(sub, Some("a"), Current);
    assert "a" in m && "a." in EntryKeys("a", m["a"], None, Current);
    assert "a." == "a" + ['.'] + "";
    PiecesOfSeparated("a", '.', "");
    assert Pieces("", '.') == [""];
    PiecesOfPlain("a", '.');
    assert Split("a.", '.') == ["a"];
  }
}
