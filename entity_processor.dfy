/** `MongoEntityProcessor`: the `collection` check in `init`, the choice of
    query for the running import (`getQuery`), and the one-time query
    initialisation in `nextRow`, which rewrites date-times in the query
    before handing it to the data source. */
module EntityProcessor {
  import opened Documents
  import opened DatePattern

  /** `Context.currentProcess()`. */
  datatype Process = FullDump | DeltaDump | FindDelta | Other

  /** `getDeltaImportQuery`: the query as given. */
  function GetDeltaImportQuery(queryString: Option<string>): (r: Option<string>)
    ensures r == queryString
  {
    queryString
  }

  /** `getQuery`: a delta import (or its delta search) uses the entity's
      `deltaImportQuery` when it has one; every other case, the full import
      included, uses the entity's `query`. */
  function GetQuery(process: Process, query: Option<string>, deltaImportQuery: Option<string>): (r: Option<string>)
    ensures r == (if (process == DeltaDump || process == FindDelta) && deltaImportQuery.Some? then deltaImportQuery else query)
  {
    if process == FullDump then query
    else if (process == DeltaDump || process == FindDelta) && deltaImportQuery.Some? then GetDeltaImportQuery(deltaImportQuery)
    else GetDeltaImportQuery(query)
  }

  /** An attribute of the entity, `null` when it is absent. */
  function Attribute(attributes: map<string, string>, name: string): Option<string> {
    if name in attributes then Some(attributes[name]) else None
  }

  class MongoEntityProcessor {
    var collection: Option<string>
    /** The query last issued (`this.query`). */
    var query: Option<string>
    /** `rowIterator != null`. */
    var rowIterator: bool
    /** Every `dataSource.getData(query, collection)` call, in order. */
    var issued: seq<(string, string)>

    constructor ()
      ensures collection.None? && query.None? && !rowIterator && issued == []
    {
      collection := None;
      query := None;
      rowIterator := false;
      issued := [];
    }

    /** `init`: the entity must name a `collection`. */
    method Init(attributes: map<string, string>) returns (r: Result<()>)
      modifies this
      ensures collection == Attribute(attributes, "collection")
      ensures r == (if "collection" in attributes then Ok(()) else Err(Severe("Collection must be supplied")))
      ensures query == old(query) && rowIterator == old(rowIterator) && issued == old(issued)
    {
      collection := Attribute(attributes, "collection");
      if collection.None? {
        return Err(Severe("Collection must be supplied"));
      }
      r := Ok(());
    }

    /** `initQuery`: rewrite the date-times, issue the rewritten query
        against the collection, and remember it. */
    method InitQuery(q: string)
      requires collection.Some?
      modifies this
      ensures collection == old(collection)
      ensures rowIterator && query == Some(Rewritten(q, 0))
      ensures issued == old(issued) + [(Rewritten(q, 0), collection.value)]
    {
      var rewritten := ReplaceDateTimeToISODateTime(q);
      issued := issued + [(rewritten, collection.value)];
      rowIterator := true;
      query := Some(rewritten);
    }

    /** `nextRow` up to `getNext`: the first call picks the query for the
        running process, resolves its variables and initialises it; later
        calls leave everything as it is. A missing query fails inside the
        rewrite and is reported as SEVERE. */
    method NextRow(process: Process, attributes: map<string, string>, replaceTokens: string -> string)
      returns (r: Result<()>)
      requires collection.Some?
      modifies this
      ensures collection == old(collection)
      ensures old(rowIterator) ==>
        r == Ok(()) && rowIterator && query == old(query) && issued == old(issued)
      ensures !old(rowIterator) ==>
        var q := GetQuery(process, Attribute(attributes, "query"), Attribute(attributes, "deltaImportQuery"));
        (q.None? ==> r == Err(Severe("java.lang.NullPointerException"))
                     && !rowIterator && query == old(query) && issued == old(issued))
        && (q.Some? ==>
              r == Ok(()) && rowIterator && query == Some(Rewritten(replaceTokens(q.value), 0))
              && issued == old(issued) + [(Rewritten(replaceTokens(q.value), 0), collection.value)])
    {
      if !rowIterator {
        var q := GetQuery(process, Attribute(attributes, "query"), Attribute(attributes, "deltaImportQuery"));
        if q.None? {
          return Err(Severe("java.lang.NullPointerException"));
        }
        InitQuery(replaceTokens(q.value));
      }
      r := Ok(());
    }
  }

  /** Within this model two rows in a row issue a single query: the second
      `nextRow` reuses the iterator the first one set up. (The import
      framework's `getNext`, not part of this model, clears the iterator once
      the cursor is exhausted.) */
  method TwoRows(processor: MongoEntityProcessor, process: Process, attributes: map<string, string>, replaceTokens: string -> string)
    returns (first: Result<()>, second: Result<()>)
    requires processor.collection.Some? && !processor.rowIterator && "query" in attributes
    modifies processor
    ensures first == Ok(()) && second == Ok(())
    ensures |processor.issued| == |old(processor.issued)| + 1
  {
    first := processor.NextRow(process, attributes, replaceTokens);
    second := processor.NextRow(process, attributes, replaceTokens);
  }
}
