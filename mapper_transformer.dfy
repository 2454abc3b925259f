/** `MongoMapperTransformer` in its current form: for each configured field
    with a `mongoField`, the row's value under that name is copied, in
    place, to the field's `column`, and a string is first reformatted as a
    Solr date when the field has a `dateFormat`. */
module MapperTransformer {
  import opened Documents
  import opened Dates

  /** The value a field writes: the row's entry under `mongoField` (null
      when absent), converted when a `dateFormat` is configured. */
  function MappedValue(entries: map<string, Value>, field: EntityField, parse: Parser): (r: Value)
    requires field.mongoField.Some?
    ensures field.dateFormat.None? || !Get(entries, field.mongoField.value).Str? ==> r == Get(entries, field.mongoField.value)
    ensures field.dateFormat.Some? && Get(entries, field.mongoField.value).Str? ==>
      r == ConvertDate(parse, field.dateFormat.value, Get(entries, field.mongoField.value))
  {
    var value := Get(entries, field.mongoField.value);
    if field.dateFormat.Some? && value.Str? then ConvertDate(parse, field.dateFormat.value, value) else value
  }

  /** One pass of the loop: a field without `mongoField` changes nothing;
      any other writes its `column` and nothing else. */
  function ApplyField(entries: map<string, Value>, field: EntityField, parse: Parser): (r: map<string, Value>)
    ensures field.mongoField.None? ==> r == entries
    ensures field.mongoField.Some? ==> field.column in r && r[field.column] == MappedValue(entries, field, parse)
    ensures forall k | k != field.column :: (k in r <==> k in entries) && (k in r ==> r[k] == entries[k])
  {
    if field.mongoField.None? then entries
    else entries[field.column := MappedValue(entries, field, parse)]
  }

  /** The row after the fields `fields`, applied in order. */
  function Transformed(entries: map<string, Value>, fields: seq<EntityField>, parse: Parser): map<string, Value>
  {
    if fields == [] then entries
    else ApplyField(Transformed(entries, fields[..|fields| - 1], parse), fields[|fields| - 1], parse)
  }

  /** `transformRow`: the loop over the entity's fields, updating the row
      in place; the same row object is returned. */
  method TransformRow(row: Row, fields: seq<EntityField>, parse: Parser) returns (result: Row)
    modifies row
    ensures result == row
    ensures row.entries == Transformed(old(row.entries), fields, parse)
  {
    for i := 0 to |fields|
      invariant row.entries == Transformed(old(row.entries), fields[..i], parse)
    {
      var field := fields[i];
      assert fields[..i + 1][..i] == fields[..i];
      if field.mongoField.None? {
        continue;
      }
      var columnFieldName := field.column;
      var value := Get(row.entries, field.mongoField.value);
      var columnDateFormat := field.dateFormat;
      if columnDateFormat.Some? && value.Str? {
        value := ConvertDate(parse, columnDateFormat.value, value);
      }
      row.entries := row.entries[columnFieldName := value];
    }
    assert fields[..|fields|] == fields;
    return row;
  }

  /** Applying two lists of fields one after the other is applying their
      concatenation: a later field reads what earlier fields wrote. */
  lemma {:induction false} TransformedAppend(entries: map<string, Value>, a: seq<EntityField>, b: seq<EntityField>, parse: Parser)
    ensures Transformed(entries, a + b, parse) == Transformed(Transformed(entries, a, parse), b, parse)
    decreases |b|
  {
    if b == [] {
      assert a + b == a;
    } else {
      TransformedAppend(entries, a, b[..|b| - 1], parse);
      assert (a + b)[..|a + b| - 1] == a + b[..|b| - 1];
    }
  }

  /** The fields that write something. */
  predicate Applies(field: EntityField) {
    field.mongoField.Some?
  }

  /** The row gains exactly the columns of the fields that apply. */
  lemma {:induction false} TransformedKeys(entries: map<string, Value>, fields: seq<EntityField>, parse: Parser)
    ensures Transformed(entries, fields, parse).Keys
      == entries.Keys + set i | 0 <= i < |fields| && Applies(fields[i]) :: fields[i].column
  {
    if fields != [] {
      var prefix := fields[..|fields| - 1];
      TransformedKeys(entries, prefix, parse);
      var last := fields[|fields| - 1];
      assert forall i | 0 <= i < |prefix| :: prefix[i] == fields[i];
      if Applies(last) {
        assert last.column in set i | 0 <= i < |fields| && Applies(fields[i]) :: fields[i].column;
      }
    }
  }

  /** A key that no applying field names as its column keeps its entry. */
  lemma {:induction false} UntouchedKeysKept(entries: map<string, Value>, fields: seq<EntityField>, parse: Parser, k: string)
    requires forall i | 0 <= i < |fields| && Applies(fields[i]) :: fields[i].column != k
    ensures k in Transformed(entries, fields, parse) <==> k in entries
    ensures k in entries ==> Transformed(entries, fields, parse)[k] == entries[k]
  {
    if fields != [] {
      UntouchedKeysKept(entries, fields[..|fields| - 1], parse, k);
    }
  }

  /** The last applying field for a column decides its value: it writes
      what it read after all earlier fields had been applied. */
  lemma LastWriterWins(entries: map<string, Value>, fields: seq<EntityField>, parse: Parser, i: nat)
    requires i < |fields| && Applies(fields[i])
    requires forall j | i < j < |fields| && Applies(fields[j]) :: fields[j].column != fields[i].column
    ensures fields[i].column in Transformed(entries, fields, parse)
    ensures Transformed(entries, fields, parse)[fields[i].column]
      == MappedValue(Transformed(entries, fields[..i], parse), fields[i], parse)
  {
    var before := Transformed(entries, fields[..i + 1], parse);
    assert fields[..i + 1][..i] == fields[..i];
    TransformedAppend(entries, fields[..i + 1], fields[i + 1..], parse);
    assert fields[..i + 1] + fields[i + 1..] == fields;
    UntouchedKeysKept(before, fields[i + 1..], parse, fields[i].column);
  }
}
