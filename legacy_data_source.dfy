/** The older `MongoDataSource`: `init` collects a registry from flattened
    path to date pattern, keys are always flattened (arrays never keep a
    path of their own), and the resolver converts registered date strings
    to the Solr pattern. There is no serialization step. */
module LegacyDataSource {
  import opened Documents
  import opened JavaText
  import opened Flattening
  import opened Resolution
  import opened Dates
  import opened ResultCursor

  /** The registry the fields `[0..n)` produce: each field with both a
      `mongoField` and a `dateFormat` maps the former to the latter, and a
      later field overrides an earlier one for the same `mongoField`. */
  function DateFieldsOf(fields: seq<EntityField>, n: nat): map<string, string>
    requires n <= |fields|
  {
    if n == 0 then map[]
    else
      var f := fields[n - 1];
      var prior := DateFieldsOf(fields, n - 1);
      if f.mongoField.Some? && f.dateFormat.Some? then prior[f.mongoField.value := f.dateFormat.value] else prior
  }

  /** The registry maps exactly the `mongoField`s of fields defining both
      attributes, each to the `dateFormat` of the last such field. */
  lemma {:induction false} DateFieldsContents(fields: seq<EntityField>, n: nat)
    requires n <= |fields|
    ensures forall k :: k in DateFieldsOf(fields, n) <==>
      exists i | 0 <= i < n :: fields[i].mongoField == Some(k) && fields[i].dateFormat.Some?
    ensures forall i | 0 <= i < n && fields[i].mongoField.Some? && fields[i].dateFormat.Some? ::
      (forall j | i < j < n :: !(fields[j].mongoField == fields[i].mongoField && fields[j].dateFormat.Some?))
      ==> DateFieldsOf(fields, n)[fields[i].mongoField.value] == fields[i].dateFormat.value
  {
    if n > 0 {
      DateFieldsContents(fields, n - 1);
    }
  }

  /** The registry loop of `init`. */
  method CollectDateFields(fields: seq<EntityField>) returns (dateFields: map<string, string>)
    ensures dateFields == DateFieldsOf(fields, |fields|)
  {
    dateFields := map[];
    for i := 0 to |fields|
      invariant dateFields == DateFieldsOf(fields, i)
    {
      var dateFormat := fields[i].dateFormat;
      var mongoField := fields[i].mongoField;
      if dateFormat.Some? && mongoField.Some? {
        dateFields := dateFields[mongoField.value := dateFormat.value];
      }
    }
  }

  /** `getDocumentFieldValue` of the older copy: the same walk, then a
      string found under a registered path is converted to the Solr date
      pattern (null when it does not parse); everything else is returned
      unchanged. */
  function FieldValue(dateFields: map<string, string>, parse: Parser, document: map<string, Value>, fieldName: string): (r: Result<Value>)
    ensures Resolve(document, fieldName).Err? ==> r == Resolve(document, fieldName)
    ensures fieldName !in dateFields ==> r == Resolve(document, fieldName)
    ensures Resolve(document, fieldName).Ok? && !Resolve(document, fieldName).value.Str? ==>
      r == Resolve(document, fieldName)
  {
    var value :- Resolve(document, fieldName);
    if dateFields != map[] && fieldName in dateFields && value.Str? then Ok(ConvertDate(parse, dateFields[fieldName], value))
    else Ok(value)
  }

  method GetDocumentFieldValue(dateFields: map<string, string>, parse: Parser, document: map<string, Value>, fieldName: string)
    returns (r: Result<Value>)
    ensures r == FieldValue(dateFields, parse, document, fieldName)
  {
    var walked := Resolution.GetDocumentFieldValue(document, fieldName);
    if walked.Err? {
      return walked;
    }
    var value := walked.value;
    if dateFields != map[] && fieldName in dateFields && value.Str? {
      value := ConvertDate(parse, dateFields[fieldName], value);
    }
    r := Ok(value);
  }

  /** A registered path whose string parses reads as the Solr rendering of
      the parsed date; one whose string does not parse reads as null. */
  lemma RegisteredDateConverted(dateFields: map<string, string>, parse: Parser, document: map<string, Value>, fieldName: string, text: string)
    requires fieldName in dateFields && Resolve(document, fieldName) == Ok(Str(text))
    ensures parse(dateFields[fieldName], text).None? ==> FieldValue(dateFields, parse, document, fieldName) == Ok(Null)
    ensures parse(dateFields[fieldName], text).Some? ==>
      FieldValue(dateFields, parse, document, fieldName) == Ok(Str(FormatSolr(parse(dateFields[fieldName], text).value)))
  {
  }

  /** What `getARow` of the older copy may produce: the failure of the key
      collection, or the row of every flattened key to its (possibly
      converted) value, or the failure of some key. */
  ghost predicate RowOutcome(dateFields: map<string, string>, parse: Parser, document: map<string, Value>, r: Result<map<string, Value>>) {
    match DocumentKeys(document, None, Legacy)
    case Err(e) => r == Err(e)
    case Ok(keys) =>
      if forall k | k in keys :: FieldValue(dateFields, parse, document, k).Ok? then
        r == Ok(map k | k in keys :: FieldValue(dateFields, parse, document, k).value)
      else
        r.Err? && exists k | k in keys :: FieldValue(dateFields, parse, document, k) == Err(r.error)
  }

  method FillRow(dateFields: map<string, string>, parse: Parser, document: map<string, Value>, keys: set<string>)
    returns (r: Result<map<string, Value>>)
    ensures r.Ok? ==> r.value.Keys == keys && forall k | k in keys ::
      FieldValue(dateFields, parse, document, k) == Ok(r.value[k])
    ensures r.Err? ==> exists k | k in keys :: FieldValue(dateFields, parse, document, k) == Err(r.error)
  {
    var result: map<string, Value> := map[];
    var pending := keys;
    while pending != {}
      invariant pending <= keys
      invariant result.Keys == keys - pending
      invariant forall k | k in result :: FieldValue(dateFields, parse, document, k) == Ok(result[k])
      decreases |pending|
    {
      var key :| key in pending;
      var innerObject := GetDocumentFieldValue(dateFields, parse, document, key);
      if innerObject.Err? {
        return Err(innerObject.error);
      }
      result := result[key := innerObject.value];
      pending := pending - {key};
    }
    r := Ok(result);
  }

  lemma RowOutcomeOfFill(dateFields: map<string, string>, parse: Parser, document: map<string, Value>, keys: set<string>, r: Result<map<string, Value>>)
    requires DocumentKeys(document, None, Legacy) == Ok(keys)
    requires r.Ok? ==> r.value.Keys == keys && forall k | k in keys :: FieldValue(dateFields, parse, document, k) == Ok(r.value[k])
    requires r.Err? ==> exists k | k in keys :: FieldValue(dateFields, parse, document, k) == Err(r.error)
    ensures RowOutcome(dateFields, parse, document, r)
  {
    if r.Ok? {
      assert r.value == map k | k in keys :: FieldValue(dateFields, parse, document, k).value;
    }
  }

  /** `getARow` of the older copy: always flattened, no serialization. */
  method GetARow(dateFields: map<string, string>, parse: Parser, document: map<string, Value>) returns (r: Result<map<string, Value>>)
    ensures RowOutcome(dateFields, parse, document, r)
  {
    var collected := CollectKeys(document, None, Legacy);
    if collected.Err? {
      return Err(collected.error);
    }
    r := FillRow(dateFields, parse, document, collected.value);
    RowOutcomeOfFill(dateFields, parse, document, collected.value, r);
  }

  /** Without registered dates a well-formed document becomes the row of
      its flattened paths, each holding the leaf it names, and no array of
      the document holds a key of its own. */
  lemma PlainRow(parse: Parser, document: map<string, Value>, r: Result<map<string, Value>>)
    requires WellFormed(document) && Castable(document)
    requires RowOutcome(map[], parse, document, r)
    ensures r.Ok? && r.value.Keys == Keys(document, None, Legacy)
    ensures forall l | l in Leaves(document, Legacy) :: Join(l.0, '.') in r.value && r.value[Join(l.0, '.')] == l.1
    ensures forall k | k in r.value :: !r.value[k].Arr? && !r.value[k].Doc?
  {
    FlattenedKeysResolve(document, Legacy);
    LeavesAreLeafValues(document, Legacy);
  }

  /** The data source after `init`: the registry is collected first, then
      the database is checked, then the single server address is built. */
  class MongoDataSource {
    var dateFields: map<string, string>
    var database: string
    var seed: ServerAddress
    var connected: bool

    /** The registry is null until `init`; nothing reads it before `init`
        fills it, so the empty map stands for that null. */
    constructor ()
      ensures !connected && dateFields == map[]
    {
      dateFields := map[];
      database := "";
      seed := ServerAddress("localhost", 27017);
      connected := false;
    }

    method Init(fields: seq<EntityField>, props: map<string, string>) returns (r: Result<()>)
      modifies this
      ensures dateFields == DateFieldsOf(fields, |fields|)
      ensures "database" !in props ==>
        r == Err(Severe("Database must be supplied")) && !connected
        && seed == old(seed) && database == old(database)
      ensures "database" in props ==>
        var port := ParseInt(if "port" in props then props["port"] else "27017");
        (port.Err? ==> r == Err(port.error) && !connected && seed == old(seed) && database == old(database))
        && (port.Ok? ==>
              r == Ok(()) && connected && database == props["database"]
              && seed == ServerAddress(if "host" in props then props["host"] else "localhost", port.value))
    {
      dateFields := CollectDateFields(fields);
      connected := false;
      if "database" !in props {
        return Err(Severe("Database must be supplied"));
      }
      var port := ParseInt(if "port" in props then props["port"] else "27017");
      if port.Err? {
        return Err(port.error);
      }
      seed := ServerAddress(if "host" in props then props["host"] else "localhost", port.value);
      database := props["database"];
      connected := true;
      r := Ok(());
    }

    /** The iterator's `next`: a document from the cursor, as a row. */
    method NextRow(cursor: Cursor, parse: Parser) returns (r: Result<map<string, Value>>)
      requires cursor.Valid()
      modifies cursor
      ensures cursor.Valid()
      ensures cursor.documents == old(cursor.documents)
      ensures cursor.failAt == old(cursor.failAt) && cursor.failMessage == old(cursor.failMessage)
      ensures old(cursor.open) && !old(cursor.FailsHere()) && old(cursor.Remaining()) != [] ==>
        cursor.Remaining() == old(cursor.Remaining())[1..]
        && cursor.open && cursor.closeCalls == old(cursor.closeCalls)
        && RowOutcome(dateFields, parse, old(cursor.Remaining())[0], r)
      ensures !(old(cursor.open) && !old(cursor.FailsHere()) && old(cursor.Remaining()) != []) ==>
        !cursor.open && cursor.position == old(cursor.position)
        && cursor.closeCalls == old(cursor.closeCalls) + (if old(cursor.open) then 1 else 0)
      ensures old(cursor.open) && old(cursor.FailsHere()) ==> r == Err(Severe(cursor.failMessage))
      ensures !old(cursor.open) || (!old(cursor.FailsHere()) && old(cursor.Remaining()) == []) ==>
        r == Err(NoSuchElement)
    {
      var document := cursor.Next();
      if document.Err? {
        return Err(document.error);
      }
      r := GetARow(dateFields, parse, document.value);
    }
  }
}
