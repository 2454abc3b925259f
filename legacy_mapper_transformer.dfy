/** The older `MongoMapperTransformer`: the same in-place copy from
    `mongoField` to `column`, without any date handling. */
module LegacyMapperTransformer {
  import opened Documents
  import opened Dates
  import MapperTransformer

  /** One pass of the loop: copy the entry under `mongoField` (null when
      absent) to `column`. */
  function CopyField(entries: map<string, Value>, field: EntityField): (r: map<string, Value>)
    ensures field.mongoField.None? ==> r == entries
    ensures field.mongoField.Some? ==> field.column in r && r[field.column] == Get(entries, field.mongoField.value)
    ensures forall k | k != field.column :: (k in r <==> k in entries) && (k in r ==> r[k] == entries[k])
  {
    if field.mongoField.None? then entries
    else entries[field.column := Get(entries, field.mongoField.value)]
  }

  function Copied(entries: map<string, Value>, fields: seq<EntityField>): map<string, Value> {
    if fields == [] then entries
    else CopyField(Copied(entries, fields[..|fields| - 1]), fields[|fields| - 1])
  }

  /** `transformRow`: the loop over the entity's fields, updating the row
      in place; the same row object is returned. */
  method TransformRow(row: Row, fields: seq<EntityField>) returns (result: Row)
    modifies row
    ensures result == row
    ensures row.entries == Copied(old(row.entries), fields)
  {
    for i := 0 to |fields|
      invariant row.entries == Copied(old(row.entries), fields[..i])
    {
      var field := fields[i];
      assert fields[..i + 1][..i] == fields[..i];
      if field.mongoField.None? {
        continue;
      }
      var columnFieldName := field.column;
      row.entries := row.entries[columnFieldName := Get(row.entries, field.mongoField.value)];
    }
    assert fields[..|fields|] == fields;
    return row;
  }

  /** The fields with their `dateFormat` dropped. */
  function WithoutDateFormats(fields: seq<EntityField>): (r: seq<EntityField>)
    ensures |r| == |fields|
    ensures forall i | 0 <= i < |fields| ::
      r[i].column == fields[i].column && r[i].mongoField == fields[i].mongoField && r[i].dateFormat.None?
  {
    seq(|fields|, i requires 0 <= i < |fields| => EntityField(fields[i].column, fields[i].mongoField, None))
  }

  /** The older transformer is the current one on fields without date
      formats: everything proved about the current loop's ordering, key set
      and last writer holds for this one too. */
  lemma {:induction false} CopiedIsTransformedWithoutDates(entries: map<string, Value>, fields: seq<EntityField>, parse: Parser)
    ensures Copied(entries, fields) == MapperTransformer.Transformed(entries, WithoutDateFormats(fields), parse)
  {
    if fields != [] {
      var prefix := fields[..|fields| - 1];
      CopiedIsTransformedWithoutDates(entries, prefix, parse);
      assert WithoutDateFormats(fields)[..|fields| - 1] == WithoutDateFormats(prefix);
    }
  }
}
