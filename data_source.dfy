/** `MongoDataSource` in its current form: configuration in `init` (the
    seed list built from the `host` and `port` properties and the
    `mapMongoFields` switch), and the conversion of each document the
    cursor hands out into a flat row (`getARow`, `serializeObject`). */
module DataSource {
  import opened Documents
  import opened JavaText
  import opened Flattening
  import opened Resolution
  import opened ResultCursor

  /** `JSON.parse(document.toJson())`: a sub-document round-tripped through
      the driver's JSON codec, which this model does not open up. */
  type Reparse = map<string, Value> -> Value

  /** `serializeObject`: lists are rebuilt element by element, documents
      go through the JSON codec, and every other value is returned as is. */
  function Serialized(v: Value, reparse: Reparse): (r: Value)
    ensures !IsContainer(v) ==> r == v
    ensures v.Arr? ==> r.Arr? && |r.items| == |v.items|
    decreases v
  {
    match v
    case Arr(items) => Arr(seq(|items|, i requires 0 <= i < |items| => Serialized(items[i], reparse)))
    case Doc(fields) => reparse(fields)
    case _ => v
  }

  method SerializeObject(v: Value, reparse: Reparse) returns (r: Value)
    ensures r == Serialized(v, reparse)
    decreases v
  {
    if v.Arr? {
      var response: seq<Value> := [];
      for i := 0 to |v.items|
        invariant |response| == i
        invariant forall j | 0 <= j < i :: response[j] == Serialized(v.items[j], reparse)
      {
        var item := SerializeObject(v.items[i], reparse);
        response := response + [item];
      }
      r := Arr(response);
    } else if v.Doc? {
      r := reparse(v.fields);
    } else {
      r := v;
    }
  }

  /** Every list element is serialized in its own place, and a list of
      scalars comes out as it went in. */
  lemma SerializedItems(items: seq<Value>, reparse: Reparse)
    ensures forall i | 0 <= i < |items| :: Serialized(Arr(items), reparse).items[i] == Serialized(items[i], reparse)
    ensures ScalarsOnly(items) ==> Serialized(Arr(items), reparse) == Arr(items)
  {
    if ScalarsOnly(items) {
      assert Serialized(Arr(items), reparse).items == items;
    }
  }

  /** When the JSON codec gives a document back unchanged, serialization
      changes nothing at all. */
  lemma {:induction false} SerializedIdentity(v: Value, reparse: Reparse)
    requires forall f :: reparse(f) == Doc(f)
    ensures Serialized(v, reparse) == v
    decreases v
  {
    if v.Arr? {
      forall i | 0 <= i < |v.items|
        ensures Serialized(v.items[i], reparse) == v.items[i]
      {
        SerializedIdentity(v.items[i], reparse);
      }
      assert Serialized(v, reparse).items == v.items;
    }
  }

  /** The keys of the row: the flattened paths, or the document's own keys
      when flattening is switched off. */
  function RowKeys(document: map<string, Value>, flatten: bool): (r: Result<set<string>>)
    ensures !flatten ==> r == Ok(document.Keys)
    ensures flatten ==> r == DocumentKeys(document, None, Current)
  {
    if flatten then DocumentKeys(document, None, Current) else Ok(document.Keys)
  }

  /** What `getARow` may produce for a document: the failure of the key
      collection; otherwise, when every key resolves, the row mapping each
      key to its serialized value; otherwise the failure of some key (which
      one depends on `HashSet` order). */
  ghost predicate RowOutcome(document: map<string, Value>, flatten: bool, reparse: Reparse, r: Result<map<string, Value>>) {
    match RowKeys(document, flatten)
    case Err(e) => r == Err(e)
    case Ok(keys) => FilledRow(document, keys, reparse, r)
  }

  /** What filling the row for `keys` may produce. */
  ghost predicate FilledRow(document: map<string, Value>, keys: set<string>, reparse: Reparse, r: Result<map<string, Value>>) {
    if forall k | k in keys :: Resolve(document, k).Ok? then
      r == Ok(map k | k in keys :: Serialized(Resolve(document, k).value, reparse))
    else
      r.Err? && exists k | k in keys :: Resolve(document, k) == Err(r.error)
  }

  /** The loop of `getARow`: resolve and serialize every key, failing with
      the first key that fails to resolve. */
  method FillRow(document: map<string, Value>, keys: set<string>, reparse: Reparse) returns (r: Result<map<string, Value>>)
    ensures r.Ok? ==> r.value.Keys == keys && forall k | k in keys ::
      Resolve(document, k).Ok? && r.value[k] == Serialized(Resolve(document, k).value, reparse)
    ensures r.Err? ==> exists k | k in keys :: Resolve(document, k) == Err(r.error)
  {
    var result: map<string, Value> := map[];
    var pending := keys;
    while pending != {}
      invariant pending <= keys
      invariant result.Keys == keys - pending
      invariant forall k | k in result ::
        Resolve(document, k).Ok? && result[k] == Serialized(Resolve(document, k).value, reparse)
      decreases |pending|
    {
      var key :| key in pending;
      var innerObject := GetDocumentFieldValue(document, key);
      if innerObject.Err? {
        return Err(innerObject.error);
      }
      var serialized := SerializeObject(innerObject.value, reparse);
      result := result[key := serialized];
      pending := pending - {key};
    }
    r := Ok(result);
  }

  lemma RowOutcomeOfFill(document: map<string, Value>, flatten: bool, reparse: Reparse, keys: set<string>, r: Result<map<string, Value>>)
    requires RowKeys(document, flatten) == Ok(keys)
    requires r.Ok? ==> r.value.Keys == keys && forall k | k in keys ::
      Resolve(document, k).Ok? && r.value[k] == Serialized(Resolve(document, k).value, reparse)
    requires r.Err? ==> exists k | k in keys :: Resolve(document, k) == Err(r.error)
    ensures RowOutcome(document, flatten, reparse, r)
  {
    FilledRowOfFill(document, keys, reparse, r);
  }

  /** The loop's outcome is one that filling the row permits. */
  lemma FilledRowOfFill(document: map<string, Value>, keys: set<string>, reparse: Reparse, r: Result<map<string, Value>>)
    requires r.Ok? ==> r.value.Keys == keys && forall k | k in keys ::
      Resolve(document, k).Ok? && r.value[k] == Serialized(Resolve(document, k).value, reparse)
    requires r.Err? ==> exists k | k in keys :: Resolve(document, k) == Err(r.error)
    ensures FilledRow(document, keys, reparse, r)
  {
    if r.Ok? {
      var expected := map k | k in keys :: Serialized(Resolve(document, k).value, reparse);
      assert r.value == expected by {
        assert r.value.Keys == expected.Keys;
        assert forall k | k in keys :: r.value[k] == expected[k];
      }
    } else {
      var k :| k in keys && Resolve(document, k) == Err(r.error);
      assert !Resolve(document, k).Ok?;
    }
  }

  /** `getARow` for a document the cursor handed out. */
  method GetARow(document: map<string, Value>, flatten: bool, reparse: Reparse) returns (r: Result<map<string, Value>>)
    ensures RowOutcome(document, flatten, reparse, r)
  {
    var keys: set<string>;
    if flatten {
      var collected := CollectKeys(document, None, Current);
      if collected.Err? {
        return Err(collected.error);
      }
      keys := collected.value;
    } else {
      keys := document.Keys;
    }
    r := FillRow(document, keys, reparse);
    RowOutcomeOfFill(document, flatten, reparse, keys, r);
  }

  /** With flattening on, a well-formed document becomes a row whose keys
      are exactly its flattened paths and whose entry for each leaf is that
      leaf's value, untouched by serialization. */
  lemma FlattenedRow(document: map<string, Value>, reparse: Reparse, r: Result<map<string, Value>>)
    requires WellFormed(document) && Castable(document)
    requires RowOutcome(document, true, reparse, r)
    ensures r.Ok? && r.value.Keys == Keys(document, None, Current)
    ensures forall l | l in Leaves(document, Current) :: Join(l.0, '.') in r.value && r.value[Join(l.0, '.')] == l.1
  {
    FlattenedKeysResolve(document, Current);
    LeavesAreLeafValues(document, Current);
    forall l | l in Leaves(document, Current)
      ensures Serialized(l.1, reparse) == l.1
    {
      if l.1.Arr? {
        SerializedItems(l.1.items, reparse);
      }
    }
  }

  /** With flattening off, a document whose keys hold no `.` becomes a row
      with the same keys, each holding its serialized value. */
  lemma UnflattenedRow(document: map<string, Value>, reparse: Reparse, r: Result<map<string, Value>>)
    requires forall k | k in document :: WellFormedKey(k)
    requires RowOutcome(document, false, reparse, r)
    ensures r.Ok? && r.value.Keys == document.Keys
    ensures forall k | k in document :: r.value[k] == Serialized(document[k], reparse)
  {
    forall k | k in document
      ensures Resolve(document, k) == Ok(document[k])
    {
      assert Split(k, '.') == [k];
    }
  }

  /** The port string for host `i`: host `i` gets port `i` when there are as
      many ports as hosts, otherwise every host gets the first port. */
  function SeedPort(hosts: seq<string>, ports: seq<string>, i: nat): (r: Result<string>)
    requires i < |hosts|
    ensures |hosts| == |ports| ==> r == Ok(ports[i])
    ensures |hosts| != |ports| && |ports| > 0 ==> r == Ok(ports[0])
    ensures |ports| == 0 ==> r == Err(IndexOutOfBounds)
  {
    if |hosts| == |ports| then Ok(ports[i])
    else if |ports| == 0 then Err(IndexOutOfBounds)
    else Ok(ports[0])
  }

  /** `new ServerAddress(hosts[i], Integer.parseInt(seed_port))`. */
  function Seed(hosts: seq<string>, ports: seq<string>, i: nat): Result<ServerAddress>
    requires i < |hosts|
  {
    var port :- SeedPort(hosts, ports, i);
    var n :- ParseInt(port);
    Ok(ServerAddress(hosts[i], n))
  }

  /** The outcomes of the seed loop's steps, one per host, gathered into a
      list that stops at the first failure. */
  function Gather<T>(outcomes: seq<Result<T>>): Result<seq<T>>
    decreases |outcomes|
  {
    if outcomes == [] then Ok([])
    else
      var prefix :- Gather(outcomes[..|outcomes| - 1]);
      var last :- outcomes[|outcomes| - 1];
      Ok(prefix + [last])
  }

  /** A gathered list succeeds exactly when every step does, and then holds
      each step's value in order; otherwise it carries the failure of the
      first failing step. */
  lemma {:induction false} GatherPaired<T>(outcomes: seq<Result<T>>)
    ensures Gather(outcomes).Ok? <==> forall i | 0 <= i < |outcomes| :: outcomes[i].Ok?
    ensures Gather(outcomes).Ok? ==>
      |Gather(outcomes).value| == |outcomes|
      && forall i | 0 <= i < |outcomes| :: Ok(Gather(outcomes).value[i]) == outcomes[i]
    ensures Gather(outcomes).Err? ==>
      exists i | 0 <= i < |outcomes| :: outcomes[i] == Err(Gather(outcomes).error)
        && forall j | 0 <= j < i :: outcomes[j].Ok?
    decreases |outcomes|
  {
    if outcomes != [] {
      var n := |outcomes|;
      var prefix := outcomes[..n - 1];
      GatherPaired(prefix);
      assert forall i | 0 <= i < n - 1 :: prefix[i] == outcomes[i];
      if Gather(prefix).Ok? && outcomes[n - 1].Ok? {
        var v := Gather(prefix).value + [outcomes[n - 1].value];
        assert Gather(outcomes) == Ok(v);
        assert forall i | 0 <= i < n :: Ok(v[i]) == outcomes[i] by {
          forall i | 0 <= i < n
            ensures Ok(v[i]) == outcomes[i]
          {
            if i < n - 1 {
              assert v[i] == Gather(prefix).value[i];
            }
          }
        }
      } else if Gather(prefix).Ok? {
        assert Gather(outcomes) == Err(outcomes[n - 1].error);
        assert outcomes[n - 1] == Err(Gather(outcomes).error);
      } else {
        var e := Gather(prefix).error;
        assert Gather(outcomes) == Err(e);
        var k :| 0 <= k < n - 1 && prefix[k] == Err(e) && forall j | 0 <= j < k :: prefix[j].Ok?;
        assert outcomes[k] == Err(e) && forall j | 0 <= j < k :: outcomes[j].Ok?;
      }
    }
  }

  /** One more step extends a successful list by its value, or fails it. */
  lemma GatherStep<T>(outcomes: seq<Result<T>>, last: Result<T>)
    ensures Gather(outcomes).Err? ==> Gather(outcomes + [last]) == Gather(outcomes)
    ensures Gather(outcomes).Ok? && last.Err? ==> Gather(outcomes + [last]) == Err(last.error)
    ensures Gather(outcomes).Ok? && last.Ok? ==> Gather(outcomes + [last]) == Ok(Gather(outcomes).value + [last.value])
  {
    assert (outcomes + [last])[..|outcomes|] == outcomes;
  }

  /** Once a list has failed, later steps do not change the failure. */
  lemma {:induction false} GatherFailurePersists<T>(outcomes: seq<Result<T>>, n: nat)
    requires n <= |outcomes| && Gather(outcomes[..n]).Err?
    ensures Gather(outcomes) == Gather(outcomes[..n])
    decreases |outcomes| - n
  {
    if n == |outcomes| {
      assert outcomes[..n] == outcomes;
    } else {
      var m := |outcomes|;
      assert outcomes[..m - 1][..n] == outcomes[..n];
      GatherFailurePersists(outcomes[..m - 1], n);
      GatherStep(outcomes[..m - 1], outcomes[m - 1]);
      assert outcomes[..m - 1] + [outcomes[m - 1]] == outcomes;
    }
  }

  /** The outcomes of the first `n` hosts' steps. */
  function SeedOutcomes(hosts: seq<string>, ports: seq<string>, n: nat): (r: seq<Result<ServerAddress>>)
    requires n <= |hosts|
    ensures |r| == n && forall i | 0 <= i < n :: r[i] == Seed(hosts, ports, i)
  {
    seq(n, i requires 0 <= i < n => Seed(hosts, ports, i))
  }

  /** The first `n` seeds, stopping at the first that fails. */
  function Seeds(hosts: seq<string>, ports: seq<string>, n: nat): Result<seq<ServerAddress>>
    requires n <= |hosts|
  {
    Gather(SeedOutcomes(hosts, ports, n))
  }

  /** The outcomes of fewer hosts are a prefix of those of more. */
  lemma SeedOutcomesPrefix(hosts: seq<string>, ports: seq<string>, n: nat, m: nat)
    requires n <= m <= |hosts|
    ensures SeedOutcomes(hosts, ports, m)[..n] == SeedOutcomes(hosts, ports, n)
  {
  }

  /** The seed list holds one address per host, in order, each built from
      its paired port; it fails exactly when some host's port fails, with
      the failure of the first such host. */
  lemma SeedsPaired(hosts: seq<string>, ports: seq<string>, n: nat)
    requires n <= |hosts|
    ensures Seeds(hosts, ports, n).Ok? <==> forall i | 0 <= i < n :: Seed(hosts, ports, i).Ok?
    ensures Seeds(hosts, ports, n).Ok? ==>
      |Seeds(hosts, ports, n).value| == n
      && forall i | 0 <= i < n :: Ok(Seeds(hosts, ports, n).value[i]) == Seed(hosts, ports, i)
    ensures Seeds(hosts, ports, n).Err? ==>
      exists i | 0 <= i < n :: Seed(hosts, ports, i) == Err(Seeds(hosts, ports, n).error)
        && forall j | 0 <= j < i :: Seed(hosts, ports, j).Ok?
  {
    var outcomes := SeedOutcomes(hosts, ports, n);
    var seeds := Seeds(hosts, ports, n);
    assert seeds.Ok? <==> forall i | 0 <= i < n :: Seed(hosts, ports, i).Ok? by {
      GatherPaired(outcomes);
    }
    assert seeds.Ok? ==> |seeds.value| == n && forall i | 0 <= i < n :: Ok(seeds.value[i]) == Seed(hosts, ports, i) by {
      GatherPaired(outcomes);
    }
    assert seeds.Err? ==>
      exists i | 0 <= i < n :: Seed(hosts, ports, i) == Err(seeds.error) && forall j | 0 <= j < i :: Seed(hosts, ports, j).Ok?
    by {
      GatherPaired(outcomes);
    }
  }

  /** Once the seed list has failed, later hosts do not change the failure. */
  lemma SeedsFailurePersists(hosts: seq<string>, ports: seq<string>, n: nat, m: nat)
    requires n <= m <= |hosts| && Seeds(hosts, ports, n).Err?
    ensures Seeds(hosts, ports, m) == Seeds(hosts, ports, n)
  {
    SeedOutcomesPrefix(hosts, ports, n, m);
    GatherFailurePersists(SeedOutcomes(hosts, ports, m), n);
  }

  /** One more host: the seed list grows by its seed, or fails with it. */
  lemma SeedsStep(hosts: seq<string>, ports: seq<string>, i: nat)
    requires i < |hosts|
    ensures Seeds(hosts, ports, i).Err? ==> Seeds(hosts, ports, i + 1) == Seeds(hosts, ports, i)
    ensures Seeds(hosts, ports, i).Ok? && Seed(hosts, ports, i).Err? ==>
      Seeds(hosts, ports, i + 1) == Err(Seed(hosts, ports, i).error)
    ensures Seeds(hosts, ports, i).Ok? && Seed(hosts, ports, i).Ok? ==>
      Seeds(hosts, ports, i + 1) == Ok(Seeds(hosts, ports, i).value + [Seed(hosts, ports, i).value])
  {
    assert SeedOutcomes(hosts, ports, i + 1) == SeedOutcomes(hosts, ports, i) + [Seed(hosts, ports, i)];
    GatherStep(SeedOutcomes(hosts, ports, i), Seed(hosts, ports, i));
  }

  /** With its port chosen, one more host grows the list by the parsed
      address, or the whole list fails with the parse failure. */
  lemma SeedsPortStep(hosts: seq<string>, ports: seq<string>, i: nat, seeds: seq<ServerAddress>, seedPort: string)
    requires i < |hosts| && Seeds(hosts, ports, i) == Ok(seeds) && SeedPort(hosts, ports, i) == Ok(seedPort)
    ensures ParseInt(seedPort).Ok? ==>
      Seeds(hosts, ports, i + 1) == Ok(seeds + [ServerAddress(hosts[i], ParseInt(seedPort).value)])
    ensures ParseInt(seedPort).Err? ==> Seeds(hosts, ports, |hosts|) == Err(ParseInt(seedPort).error)
  {
    SeedsStep(hosts, ports, i);
    if ParseInt(seedPort).Err? {
      SeedsFailurePersists(hosts, ports, i + 1, |hosts|);
    }
  }

  /** Without a port the first host that needs one fails the list. */
  lemma NoPortStep(hosts: seq<string>, ports: seq<string>, i: nat, seeds: seq<ServerAddress>)
    requires i < |hosts| && |ports| == 0 && Seeds(hosts, ports, i) == Ok(seeds)
    ensures Seeds(hosts, ports, |hosts|) == Err(IndexOutOfBounds)
  {
    SeedsStep(hosts, ports, i);
    SeedsFailurePersists(hosts, ports, i + 1, |hosts|);
  }

  /** The seed loop of `init`, over the comma-split host and port lists. */
  method PairSeeds(hosts: seq<string>, ports: seq<string>) returns (r: Result<seq<ServerAddress>>)
    ensures r == Seeds(hosts, ports, |hosts|)
  {
    var seeds: seq<ServerAddress> := [];
    for i := 0 to |hosts|
      invariant Seeds(hosts, ports, i) == Ok(seeds)
    {
      var seedPort: string;
      if |hosts| == |ports| {
        seedPort := ports[i];
      } else {
        if |ports| == 0 {
          NoPortStep(hosts, ports, i, seeds);
          return Err(IndexOutOfBounds);
        }
        seedPort := ports[0];
      }
      SeedsPortStep(hosts, ports, i, seeds, seedPort);
      var parsed := ParseInt(seedPort);
      if parsed.Err? {
        return Err(parsed.error);
      }
      seeds := seeds + [ServerAddress(hosts[i], parsed.value)];
    }
    r := Ok(seeds);
  }

  /** `init`'s seed list: the `host` and `port` properties split on commas
      and paired. */
  method BuildSeeds(host: string, port: string) returns (r: Result<seq<ServerAddress>>)
    ensures r == Seeds(Split(host, ','), Split(port, ','), |Split(host, ',')|)
  {
    var hosts := Split(host, ',');
    var ports := Split(port, ',');
    r := PairSeeds(hosts, ports);
  }

  /** `mapMongoFields == "true"` as written: a reference comparison, which
      holds only for the default literal, that is when the property is not
      set at all. */
  function MapsMongoFieldsAsWritten(property: Option<string>): (r: bool)
    ensures property.None? ==> r
    ensures property == Some("true") ==> !r
  {
    property.None?
  }

  /** The evident intent: flatten unless the property says otherwise. */
  function MapsMongoFields(property: Option<string>): (r: bool)
    ensures property.None? ==> r
    ensures property.Some? ==> (r <==> property.value == "true")
  {
    property.GetOr("true") == "true"
  }

  /** The two readings differ exactly when the property is set to "true":
      an explicit `mapMongoFields="true"` switches flattening off. */
  lemma MapsMongoFieldsDiscrepancy(property: Option<string>)
    ensures MapsMongoFields(property) != MapsMongoFieldsAsWritten(property) <==> property == Some("true")
    ensures MapsMongoFieldsAsWritten(Some("true")) == false && MapsMongoFields(Some("true")) == true
  {
  }

  /** A `Properties` lookup with a default. */
  function Property(props: map<string, string>, name: string, default: string): string {
    if name in props then props[name] else default
  }

  /** The data source after `init`. */
  class MongoDataSource {
    /** The `mapMongoFields` property as configured (`None`: not set). */
    var mapMongoFields: Option<string>
    var database: string
    var seeds: seq<ServerAddress>
    var connected: bool

    constructor ()
      ensures !connected && mapMongoFields.None? && seeds == []
    {
      mapMongoFields := None;
      database := "";
      seeds := [];
      connected := false;
    }

    /** `init`: read the switch, build the seeds from `host` (default
        "localhost") and `port` (default "27017"), and only then insist on a
        `database`. The driver connection itself is not modelled. */
    method Init(props: map<string, string>) returns (r: Result<()>)
      modifies this
      ensures mapMongoFields == (if "mapMongoFields" in props then Some(props["mapMongoFields"]) else None)
      ensures var built := Seeds(Split(Property(props, "host", "localhost"), ','),
                                 Split(Property(props, "port", "27017"), ','),
                                 |Split(Property(props, "host", "localhost"), ',')|);
        (built.Err? ==> r == Err(built.error) && !connected && seeds == old(seeds) && database == old(database))
        && (built.Ok? && "database" !in props ==>
              r == Err(Severe("Database must be supplied")) && !connected
              && seeds == old(seeds) && database == old(database))
        && (built.Ok? && "database" in props ==>
              r == Ok(()) && connected && seeds == built.value && database == props["database"])
    {
      mapMongoFields := if "mapMongoFields" in props then Some(props["mapMongoFields"]) else None;
      connected := false;
      var built := BuildSeeds(Property(props, "host", "localhost"), Property(props, "port", "27017"));
      if built.Err? {
        return Err(built.error);
      }
      if "database" !in props {
        return Err(Severe("Database must be supplied"));
      }
      seeds := built.value;
      database := props["database"];
      connected := true;
      r := Ok(());
    }

    /** The iterator's `next`: a document from the cursor, turned into a
        row. Flattening follows the intended reading of the switch
        (`MapsMongoFields`), not the reference comparison as written. */
    method NextRow(cursor: Cursor, reparse: Reparse) returns (r: Result<map<string, Value>>)
      requires cursor.Valid()
      modifies cursor
      ensures cursor.Valid()
      ensures cursor.documents == old(cursor.documents)
      ensures cursor.failAt == old(cursor.failAt) && cursor.failMessage == old(cursor.failMessage)
      ensures old(cursor.open) && !old(cursor.FailsHere()) && old(cursor.Remaining()) != [] ==>
        cursor.Remaining() == old(cursor.Remaining())[1..]
        && cursor.open && cursor.closeCalls == old(cursor.closeCalls)
        && RowOutcome(old(cursor.Remaining())[0], MapsMongoFields(mapMongoFields), reparse, r)
      ensures !(old(cursor.open) && !old(cursor.FailsHere()) && old(cursor.Remaining()) != []) ==>
        !cursor.open && cursor.position == old(cursor.position)
        && cursor.closeCalls == old(cursor.closeCalls) + (if old(cursor.open) then 1 else 0)
      ensures old(cursor.open) && old(cursor.FailsHere()) ==> r == Err(Severe(cursor.failMessage))
      ensures !old(cursor.open) || (!old(cursor.FailsHere()) && old(cursor.Remaining()) == []) ==>
        r == Err(NoSuchElement)
    {
      var document := cursor.Next();
      if document.Err? {
        return Err(document.error);
      }
      r := GetARow(document.value, MapsMongoFields(mapMongoFields), reparse);
    }
  }

  /** With no host or port configured the single seed is localhost:27017. */
  lemma DefaultSeeds()
    ensures Seeds(Split(Property(map[], "host", "localhost"), ','), Split(Property(map[], "port", "27017"), ','), 1)
      == Ok([ServerAddress("localhost", 27017)])
  {
    assert Split("localhost", ',') == ["localhost"];
    assert Split("27017", ',') == ["27017"];
    assert NatToString(2) == "2";
    assert NatToString(27) == "27";
    assert NatToString(270) == "270";
    assert NatToString(2701) == "2701";
    assert NatToString(27017) == "27017";
    ParseIntOfNatToString(27017);
    assert ParseInt("27017") == Ok(27017);
    assert SeedPort(["localhost"], ["27017"], 0) == Ok("27017");
    assert Seed(["localhost"], ["27017"], 0) == Ok(ServerAddress("localhost", 27017));
    SeedsPaired(["localhost"], ["27017"], 1);
    assert Seeds(["localhost"], ["27017"], 1).Ok?;
    var v := Seeds(["localhost"], ["27017"], 1).value;
    assert |v| == 1;
    assert v[0] == ServerAddress("localhost", 27017);
    assert v == [ServerAddress("localhost", 27017)];
    var none: map<string, string> := map[];
    assert Property(none, "host", "localhost") == "localhost";
    assert Property(none, "port", "27017") == "27017";
  }

  /** A port that is not a numeral makes the seed loop fail with a
      `NumberFormatException` as soon as the first host is paired with it,
      whatever hosts follow. */
  lemma NonNumeralPortFails(hosts: seq<string>, ports: seq<string>)
    requires |hosts| >= 1 && |ports| >= 1
    requires forall j | 0 <= j < |ports| :: !IsNumeral(ports[j])
    ensures Seeds(hosts, ports, |hosts|) == Err(NumberFormat)
  {
    ParseIntValue(ports[0]);
    SeedsStep(hosts, ports, 0);
    SeedsFailurePersists(hosts, ports, 1, |hosts|);
  }
}
