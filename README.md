# SolrMongoImporter, modelled in Dafny

SolrMongoImporter plugs MongoDB into Solr's DataImportHandler. This project
models its three import stages.

- **The data source (`MongoDataSource`)**:
  - `init` builds the server seed list from the `host` and `port`
    properties and insists on a `database`.
  - For every document the driver cursor hands out, it builds a flat row.
    `getDocumentKeys` collects the document's dotted key paths, and
    `getDocumentFieldValue` reads each path back.
  - The current copy can switch flattening off (`mapMongoFields`), and it
    re-serializes sub-documents and lists (`serializeObject`).
  - The older copy keeps a registry of date fields and converts their
    strings to the Solr date pattern.
- **The entity processor (`MongoEntityProcessor`)**:
  - `init` insists on a `collection`.
  - `getQuery` picks the full-import or delta-import query.
  - The first `nextRow` rewrites `YYYY-MM-DD hh:mm:ss` date-times in the
    query to ISO form and issues the query once.
- **The mapper transformer (`MongoMapperTransformer`)**: copies, in place,
  each configured `mongoField` of a row to its `column`. The current copy
  also reformats dates.

Both copies of the data source and of the transformer are modelled: the
current one (under `src/main/java/...`) and the older one (under
`src/main/...`). Value-level logic is written as functions:

- the flattening specification;
- path resolution;
- seed pairing;
- the date rendering;
- the regular-expression match.

The loops of the source are methods proved against those functions. These
are `getDocumentKeys`, `getDocumentFieldValue`, `getARow`, `serializeObject`,
the seed loop, the date-field registry, the `find`/`appendReplacement` loop
and `transformRow`. The objects whose fields the source updates are
classes:

- the two data sources after `init`;
- the cursor held by the result-set iterator;
- the entity processor;
- the row map the transformers update in place.

A BSON document is a `map<string, Value>`. `Value` has cases for
null, booleans, integers, strings, sub-documents and lists. The
flattening is given an independent reference definition, `Leaves`: every
leaf as its sequence of path segments together with its value. The
central results connect the key collection with that definition and with
the resolver:

- the keys collected are exactly the joined leaf paths;
- in a well-formed document (no key empty or containing `.`) every
  collected key resolves to the leaf it came from.

Two sharp edges of the code are proved as concrete lemmas:

- a dotted key resolves to null;
- an empty key resolves to the enclosing document.

## Model

| member | source | states |
|---|---|---|
| Documents.Get | src/main/java/org/apache/solr/handler/dataimport/MongoDataSource.java:307 | `Document.get`: the stored value for a present key, null for a missing one |
| Documents.Row.constructor | src/main/java/org/apache/solr/handler/dataimport/MongoMapperTransformer.java:31 | a row map holding exactly the given entries |
| JavaText.NatToString | src/main/java/org/apache/solr/handler/dataimport/MongoDataSource.java:253 | `Integer.toString` of a non-negative index: non-empty, all decimal digits, one digit exactly below ten |
| JavaText.ParseInt | src/main/java/org/apache/solr/handler/dataimport/MongoDataSource.java:59 | `Integer.parseInt`: every failure is a NumberFormatException; a result is within the 32-bit range and is the decimal value of an unsigned digit string |
| JavaText.ParseIntValue | src/main/java/org/apache/solr/handler/dataimport/MongoDataSource.java:59 | `Integer.parseInt` on all inputs: anything but an optionally signed digit string fails; a digit string, with `+` or `-` or without, succeeds iff its value fits in 32 bits, and the result is that value with its sign |
| JavaText.DigitsValueOfNatToString | src/main/java/org/apache/solr/handler/dataimport/MongoDataSource.java:253 | the digits written for an index read back as that index |
| JavaText.ParseIntOfNatToString | src/main/java/org/apache/solr/handler/dataimport/MongoDataSource.java:311 | `Integer.parseInt(Integer.toString(i)) == i` for every index a list can have |
| JavaText.NatToStringInjective | src/main/java/org/apache/solr/handler/dataimport/MongoDataSource.java:253 | distinct array positions get distinct path segments |
| JavaText.JoinHasSeparator | src/main/java/org/apache/solr/handler/dataimport/MongoDataSource.java:233 | a joined path holds a `.` exactly when it has more than one segment, when no segment holds one |
| JavaText.Split | src/main/java/org/apache/solr/handler/dataimport/MongoDataSource.java:304 | `String.split` on one character: no separator gives `[s]`, no piece holds the separator, and trailing empty pieces are dropped, so a non-empty last piece |
| JavaText.SplitSeparatorsOnly | src/main/java/org/apache/solr/handler/dataimport/MongoDataSource.java:304-307 | a non-empty text made only of separators, such as ".", splits into no pieces at all, so `fieldParts[0]` is out of bounds |
| JavaText.SplitJoin | src/main/java/org/apache/solr/handler/dataimport/MongoDataSource.java:304 | `split("\\.")` of a joined path gives its segments back when no segment holds `.` and the last is not empty |
| JavaText.JoinAppend | src/main/java/org/apache/solr/handler/dataimport/MongoDataSource.java:233 | joining two runs of segments puts one separator between them |
| Flattening.CollectKeys | src/main/java/org/apache/solr/handler/dataimport/MongoDataSource.java:215-293 | `getDocumentKeys` returns the key specification `Keys`, or the ClassCastException when some list holds a list; the older copy (`src/main/org/.../MongoDataSource.java:204-269`) is the legacy layout |
| Flattening.CollectEntryKeys | src/main/java/org/apache/solr/handler/dataimport/MongoDataSource.java:225-290 | the per-entry body computes the entry's keys or the cast failure: a sub-document recurses under `parent.key`, a scalar keeps its path |
| Flattening.CollectListKeys | src/main/java/org/apache/solr/handler/dataimport/MongoDataSource.java:243-283 | the list loop: document elements are flattened under `key.i`, a list element fails the cast, and the list keeps its own path only when it holds scalars alone (current layout) |
| Flattening.KeysAreLeafPaths | src/main/java/org/apache/solr/handler/dataimport/MongoDataSource.java:215-293 | the collected keys are exactly the dotted paths of the reference leaves, in both layouts and below any parent |
| Flattening.EntryKeysAreLeafPaths | src/main/java/org/apache/solr/handler/dataimport/MongoDataSource.java:225-290 | the same, entry by entry |
| Flattening.ElementKeysAreLeafPaths | src/main/java/org/apache/solr/handler/dataimport/MongoDataSource.java:243-275 | the same for the document elements of a list, each below `key.i` |
| Flattening.LeafPathsOfPrefix | src/main/java/org/apache/solr/handler/dataimport/MongoDataSource.java:228-236 | moving leaves below a segment prefix moves their paths below the prefix's path |
| Flattening.ChildOfJoin | src/main/java/org/apache/solr/handler/dataimport/MongoDataSource.java:252-256 | `parent + "." + key + "." + i` is the path of the joined segments |
| Flattening.LeavesAreLeafValues | src/main/java/org/apache/solr/handler/dataimport/MongoDataSource.java:243-290 | every leaf holds a scalar, or a list of scalars in the current layout only, never a sub-document |
| Flattening.LeafSegmentsWellFormed | src/main/java/org/apache/solr/handler/dataimport/MongoDataSource.java:252-256 | in a well-formed document every path segment, keys and indices alike, is non-empty and free of `.` |
| Flattening.IndexIsWellFormedKey | src/main/java/org/apache/solr/handler/dataimport/MongoDataSource.java:253 | an index segment is non-empty and free of `.` |
| Flattening.KeysOverInsert | src/main/java/org/apache/solr/handler/dataimport/MongoDataSource.java:222-291 | processing one more entry adds exactly that entry's keys |
| Flattening.KeysOverAll | src/main/java/org/apache/solr/handler/dataimport/MongoDataSource.java:222-292 | once every entry is processed the collected keys are the document's keys |
| KeyShapes.KeysExtendParent | src/main/java/org/apache/solr/handler/dataimport/MongoDataSource.java:233 | every key collected below a parent path starts with `parent.` |
| KeyShapes.SubDocumentKeysBelow | src/main/java/org/apache/solr/handler/dataimport/MongoDataSource.java:227-242 | a sub-document never keeps its own path; its keys lie strictly below it |
| KeyShapes.ScalarArrayKeys | src/main/java/org/apache/solr/handler/dataimport/MongoDataSource.java:277-283 | a list of scalars (empty included) keeps exactly its own path in the current copy and contributes nothing in the older copy |
| KeyShapes.MixedArrayKeys | src/main/java/org/apache/solr/handler/dataimport/MongoDataSource.java:260-283 | a list holding a sub-document loses its own path, and its scalar elements get no `key.i` path |
| KeyShapes.NestedArrayFails | src/main/java/org/apache/solr/handler/dataimport/MongoDataSource.java:260-261 | a list holding a list makes the whole collection fail with the cast error |
| KeyShapes.EntryLeafShape | src/main/java/org/apache/solr/handler/dataimport/MongoDataSource.java:227-290 | every leaf of an entry starts with its key, and the only one-segment leaf is the entry itself |
| KeyShapes.TopLevelKey | src/main/java/org/apache/solr/handler/dataimport/MongoDataSource.java:284-289 | in a well-formed document a plain name is collected iff the document holds it with a leaf value |
| Resolution.Walk | src/main/java/org/apache/solr/handler/dataimport/MongoDataSource.java:309-316 | the walk stops at the first value that is neither document nor list, and with no segments left; in a list a segment that is not a number fails with NumberFormat and one outside the list with IndexOutOfBounds; in a document a missing key gives null |
| Resolution.Resolve | src/main/java/org/apache/solr/handler/dataimport/MongoDataSource.java:302-319 | the value is the walk of the split name from the document; a name that splits into nothing fails at `fieldParts[0]` |
| Resolution.GetDocumentFieldValue | src/main/java/org/apache/solr/handler/dataimport/MongoDataSource.java:302-319 | the loop returns `Resolve`, including the NumberFormat and IndexOutOfBounds failures of list indexing |
| Resolution.WalkAppend | src/main/java/org/apache/solr/handler/dataimport/MongoDataSource.java:309-316 | walking a path is walking a prefix and then the rest from where it led |
| Resolution.WalkStopsAtScalar | src/main/java/org/apache/solr/handler/dataimport/MongoDataSource.java:309 | once a scalar is reached the remaining segments are ignored |
| Resolution.LeavesResolve | src/main/java/org/apache/solr/handler/dataimport/MongoDataSource.java:302-319 | in a well-formed document every leaf's segments walk from the document to its value |
| Resolution.EntryLeavesResolve | src/main/java/org/apache/solr/handler/dataimport/MongoDataSource.java:309-316 | the same, entry by entry, with index segments parsed back |
| Resolution.FlattenedKeysResolve | src/main/java/org/apache/solr/handler/dataimport/MongoDataSource.java:166-191 | flattening and resolving agree: each leaf is collected under its joined path and resolves to its value; every collected key resolves without failing to a leaf value |
| Resolution.DottedKeyResolvesToNull | src/main/java/org/apache/solr/handler/dataimport/MongoDataSource.java:304 | `{"a.b": 1}` is collected as "a.b", which reads back as null |
| Resolution.EmptyKeyResolvesToParent | src/main/java/org/apache/solr/handler/dataimport/MongoDataSource.java:304 | `{"a": {"": 1}}` is collected as "a.", which reads back the sub-document |
| ResultCursor.Cursor.constructor | src/main/java/org/apache/solr/handler/dataimport/MongoDataSource.java:127-128 | a fresh open cursor at the first of the query's documents |
| ResultCursor.Cursor.Close | src/main/java/org/apache/solr/handler/dataimport/MongoDataSource.java:348-358 | the driver cursor is closed only if there is one, and is forgotten |
| ResultCursor.Cursor.HasNext | src/main/java/org/apache/solr/handler/dataimport/MongoDataSource.java:326-342 | false without a cursor; true while documents remain; closes and returns false when exhausted; closes and fails SEVERE when the driver throws |
| ResultCursor.Cursor.Next | src/main/java/org/apache/solr/handler/dataimport/MongoDataSource.java:137-142 | the next document and one step on, or NoSuchElement, or the SEVERE failure, with the cursor closed |
| ResultCursor.Drain | src/main/java/org/apache/solr/handler/dataimport/MongoDataSource.java:132-142 | iterating to the end yields exactly the remaining documents in order, ends at the last document and closes the cursor once, or stops with the driver's failure at its position; the cursor's documents and failure point are kept |
| DataSource.Serialized | src/main/java/org/apache/solr/handler/dataimport/MongoDataSource.java:193-206 | scalars unchanged; a list stays a list of the same length |
| DataSource.SerializeObject | src/main/java/org/apache/solr/handler/dataimport/MongoDataSource.java:193-206 | the recursive loop computes `Serialized` |
| DataSource.SerializedItems | src/main/java/org/apache/solr/handler/dataimport/MongoDataSource.java:195-199 | each element is serialized in its own place; a list of scalars comes out unchanged |
| DataSource.SerializedIdentity | src/main/java/org/apache/solr/handler/dataimport/MongoDataSource.java:193-206 | when the JSON round trip is the identity, serialization changes nothing |
| DataSource.RowKeys | src/main/java/org/apache/solr/handler/dataimport/MongoDataSource.java:172-176 | the flattened keys, or the document's own keys with flattening off |
| DataSource.FillRow | src/main/java/org/apache/solr/handler/dataimport/MongoDataSource.java:178-190 | the row maps exactly the keys to their serialized resolved values, or fails with the failure of some key |
| DataSource.RowOutcomeOfFill | src/main/java/org/apache/solr/handler/dataimport/MongoDataSource.java:166-191 | the loop's outcome is a permitted outcome of `getARow` |
| DataSource.FilledRowOfFill | src/main/java/org/apache/solr/handler/dataimport/MongoDataSource.java:178-190 | a filled row holds exactly the keys with their serialized resolved values, and a failed fill is the failure of a key |
| DataSource.GetARow | src/main/java/org/apache/solr/handler/dataimport/MongoDataSource.java:166-191 | `getARow` produces the key failure, the full row, or some key's failure |
| DataSource.FlattenedRow | src/main/java/org/apache/solr/handler/dataimport/MongoDataSource.java:166-191 | a well-formed castable document becomes a row whose keys are its flattened paths and whose entry for each leaf is the leaf's value |
| DataSource.UnflattenedRow | src/main/java/org/apache/solr/handler/dataimport/MongoDataSource.java:174-176 | with flattening off, a document without dotted keys keeps its keys, each with its serialized value |
| DataSource.SeedPort | src/main/java/org/apache/solr/handler/dataimport/MongoDataSource.java:58 | host `i` gets port `i` when the counts agree, otherwise the first port; no port at all is an index failure |
| DataSource.SeedsPaired | src/main/java/org/apache/solr/handler/dataimport/MongoDataSource.java:57-60 | one seed per host in order, each from its paired port; failure iff some host's seed fails, reporting the first |
| DataSource.GatherPaired | src/main/java/org/apache/solr/handler/dataimport/MongoDataSource.java:57-60 | collecting per-host outcomes into a list succeeds iff every outcome succeeds, keeps them in order, and otherwise reports one of the failures |
| DataSource.SeedsStep | src/main/java/org/apache/solr/handler/dataimport/MongoDataSource.java:57-60 | one more iteration of the seed loop: it appends the next host's seed, or stops with its failure, or keeps an earlier failure |
| DataSource.PairSeeds | src/main/java/org/apache/solr/handler/dataimport/MongoDataSource.java:57-60 | the `for` loop over the hosts computes `Seeds` of all of them |
| DataSource.SeedsFailurePersists | src/main/java/org/apache/solr/handler/dataimport/MongoDataSource.java:57-60 | a failed seed aborts the loop: later hosts do not change the failure |
| DataSource.BuildSeeds | src/main/java/org/apache/solr/handler/dataimport/MongoDataSource.java:53-60 | the seed loop computes `Seeds` of the comma-split host and port lists |
| DataSource.MapsMongoFieldsAsWritten | src/main/java/org/apache/solr/handler/dataimport/MongoDataSource.java:172 | the comparison as written: flattening when the property is unset, none when it is set to "true" |
| DataSource.MapsMongoFields | src/main/java/org/apache/solr/handler/dataimport/MongoDataSource.java:50 | the intended switch: flatten when the property is unset or "true", otherwise not |
| DataSource.MapsMongoFieldsDiscrepancy | src/main/java/org/apache/solr/handler/dataimport/MongoDataSource.java:172 | the reference comparison and the intended string comparison differ exactly for an explicit `mapMongoFields="true"` |
| DataSource.MongoDataSource.constructor | src/main/java/org/apache/solr/handler/dataimport/MongoDataSource.java:26-34 | a source that is not yet connected |
| DataSource.MongoDataSource.Init | src/main/java/org/apache/solr/handler/dataimport/MongoDataSource.java:43-64 | the switch is recorded; a seed failure is reported before the missing database, and on either failure the seeds and database are left as they were; otherwise the seeds and database are set |
| DataSource.MongoDataSource.NextRow | src/main/java/org/apache/solr/handler/dataimport/MongoDataSource.java:137-142 | the next document becomes a row, flattened by the intended reading `MapsMongoFields` (not the comparison at line 172 as written, under which an explicit `mapMongoFields="true"` turns flattening off), or the cursor's failure; the cursor keeps its documents and failure point, stays open after a row, and is closed once with its position kept when exhausted or failing |
| DataSource.DefaultSeeds | src/main/java/org/apache/solr/handler/dataimport/MongoDataSource.java:46-47 | with no host or port the seed list is `localhost:27017` |
| DataSource.NonNumeralPortFails | src/main/java/org/apache/solr/handler/dataimport/MongoDataSource.java:53-60 | whatever the hosts, when no port is a numeral the seed loop fails with a NumberFormatException |
| Dates.Digits | src/main/java/org/apache/solr/handler/dataimport/MongoMapperTransformer.java:89 | a zero-padded field of exactly the pattern's width |
| Dates.DigitsValueOfDigits | src/main/java/org/apache/solr/handler/dataimport/MongoMapperTransformer.java:89 | a padded field reads back as its value |
| Dates.YearText | src/main/java/org/apache/solr/handler/dataimport/MongoMapperTransformer.java:89 | `yyyy` is all digits, four of them below year 10000 |
| Dates.ParseSolr | src/main/java/org/apache/solr/handler/dataimport/MongoMapperTransformer.java:89 | a text read in the Solr pattern is twenty characters and names a valid date |
| Dates.FormatSolr | src/main/java/org/apache/solr/handler/dataimport/MongoMapperTransformer.java:56-58 | the `yyyy-MM-dd'T'HH:mm:ss'Z'` rendering: twenty characters below year 10000, with `-`, `-`, `T`, `:`, `:` and `Z` at their places counted from the end |
| Dates.FormatSolrRoundTrip | src/main/java/org/apache/solr/handler/dataimport/MongoMapperTransformer.java:56-58 | the Solr rendering of a valid date is twenty characters and reads back as that date |
| Dates.ConvertDate | src/main/java/org/apache/solr/handler/dataimport/MongoMapperTransformer.java:50-63 | non-strings pass through, an unparsable string becomes null, a parsed one becomes a string |
| Dates.ConvertedDateReadsBack | src/main/java/org/apache/solr/handler/dataimport/MongoMapperTransformer.java:50-63 | a converted string denotes exactly the date the configured pattern read |
| LegacyDataSource.DateFieldsContents | src/main/org/apache/solr/handler/dataimport/MongoDataSource.java:61-71 | the registry maps exactly the `mongoField`s of fields with both attributes, each to its last `dateFormat` |
| LegacyDataSource.CollectDateFields | src/main/org/apache/solr/handler/dataimport/MongoDataSource.java:61-71 | the loop builds that registry |
| LegacyDataSource.FieldValue | src/main/org/apache/solr/handler/dataimport/MongoDataSource.java:278-315 | resolution failures and unregistered names are as in the current resolver, and a resolved value that is not a string comes back unchanged even under a registered name |
| LegacyDataSource.GetDocumentFieldValue | src/main/org/apache/solr/handler/dataimport/MongoDataSource.java:278-315 | the walk, then the conversion of a registered string, computes `FieldValue` |
| LegacyDataSource.RegisteredDateConverted | src/main/org/apache/solr/handler/dataimport/MongoDataSource.java:298-312 | a registered string reads as its Solr rendering, or as null when it does not parse |
| LegacyDataSource.FillRow | src/main/org/apache/solr/handler/dataimport/MongoDataSource.java:184-192 | the row maps exactly the keys to their field values, or fails with some key's failure |
| LegacyDataSource.RowOutcomeOfFill | src/main/org/apache/solr/handler/dataimport/MongoDataSource.java:177-195 | the loop's outcome is a permitted outcome of `getARow` |
| LegacyDataSource.GetARow | src/main/org/apache/solr/handler/dataimport/MongoDataSource.java:177-195 | always-flattened `getARow` without serialization |
| LegacyDataSource.PlainRow | src/main/org/apache/solr/handler/dataimport/MongoDataSource.java:204-269 | without registered dates a well-formed document becomes the row of its flattened leaves, and no row value is a list or a document |
| LegacyDataSource.MongoDataSource.constructor | src/main/org/apache/solr/handler/dataimport/MongoDataSource.java:31-40 | a source that is not yet connected; the registry, null until `init`, is the empty map here (nothing reads it before `init` fills it) |
| LegacyDataSource.MongoDataSource.Init | src/main/org/apache/solr/handler/dataimport/MongoDataSource.java:49-94 | registry first, then the database check, then the port parsed (default "27017", host default "localhost"); a missing database or an unreadable port leaves the seed and database as they were |
| LegacyDataSource.MongoDataSource.NextRow | src/main/org/apache/solr/handler/dataimport/MongoDataSource.java:148-153 | the next document becomes an always-flattened row with dates converted, or the cursor's failure; the cursor keeps its documents and failure point, stays open after a row, and is closed once with its position kept when exhausted or failing |
| DatePattern.CharAt | src/main/java/org/apache/solr/handler/dataimport/MongoEntityProcessor.java:82 | one literal character consumed |
| DatePattern.SeparatorAt | src/main/java/org/apache/solr/handler/dataimport/MongoEntityProcessor.java:82 | one of `-`, `|`, `\`, `/` consumed |
| DatePattern.FourDigitsAt | src/main/java/org/apache/solr/handler/dataimport/MongoEntityProcessor.java:82 | `\d{4}` consumes four characters |
| DatePattern.OneOrTwoDigitsAt | src/main/java/org/apache/solr/handler/dataimport/MongoEntityProcessor.java:82 | greedy `\d{1,2}` consumes one or two characters |
| DatePattern.MatchEnd | src/main/java/org/apache/solr/handler/dataimport/MongoEntityProcessor.java:82 | a match is between 14 and 19 characters long |
| DatePattern.FirstMatch | src/main/java/org/apache/solr/handler/dataimport/MongoEntityProcessor.java:86 | `find` returns the first position at or after the scan point where a match starts, and none when there is none |
| DatePattern.FirstMatchFrom | src/main/java/org/apache/solr/handler/dataimport/MongoEntityProcessor.java:86 | the first position with a match is what `find` returns |
| DatePattern.Unescape | src/main/java/org/apache/solr/handler/dataimport/MongoEntityProcessor.java:89 | `appendReplacement`'s reading of the replacement: the empty replacement appends nothing, a lone trailing backslash fails, and the text appended is never longer than the replacement |
| DatePattern.UnescapePlain | src/main/java/org/apache/solr/handler/dataimport/MongoEntityProcessor.java:89 | a replacement without backslashes is appended as is |
| DatePattern.UnescapeDefined | src/main/java/org/apache/solr/handler/dataimport/MongoEntityProcessor.java:89 | a replacement not ending in a backslash never fails and never grows |
| DatePattern.UnescapePlainPrefix | src/main/java/org/apache/solr/handler/dataimport/MongoEntityProcessor.java:89 | a backslash-free prefix is copied ahead of the rest |
| DatePattern.UnescapeEscaped | src/main/java/org/apache/solr/handler/dataimport/MongoEntityProcessor.java:89 | a backslash is dropped and the following character appended literally |
| DatePattern.Iso | src/main/java/org/apache/solr/handler/dataimport/MongoEntityProcessor.java:88 | the ISO form is one character longer than the match |
| DatePattern.ReplacementLength | src/main/java/org/apache/solr/handler/dataimport/MongoEntityProcessor.java:88-89 | without a backslash in the match the appended text is one character longer |
| DatePattern.ReplaceDateTimeToISODateTime | src/main/java/org/apache/solr/handler/dataimport/MongoEntityProcessor.java:83-93 | the `find`/`appendReplacement`/`appendTail` loop computes `Rewritten` |
| DatePattern.NoMatchUnchanged | src/main/java/org/apache/solr/handler/dataimport/MongoEntityProcessor.java:91 | text without a match is returned unchanged |
| DatePattern.DigitFreeHasNoMatch | src/main/java/org/apache/solr/handler/dataimport/MongoEntityProcessor.java:82 | text without digits holds no match |
| DatePattern.PaddedMatch | src/main/java/org/apache/solr/handler/dataimport/MongoEntityProcessor.java:82 | a zero-padded `YYYY-MM-DD hh:mm:ss` is one whole nineteen-character match |
| DatePattern.PaddedReplacement | src/main/java/org/apache/solr/handler/dataimport/MongoEntityProcessor.java:88 | it becomes `YYYY-MM-DDThh:mm:ssZ`, twenty characters |
| DatePattern.PaddedRewrite | src/main/java/org/apache/solr/handler/dataimport/MongoEntityProcessor.java:83-93 | a padded date-time between digit-free text is rewritten in place and nothing else changes |
| DatePattern.ShortDateKeepsSpace | src/main/java/org/apache/solr/handler/dataimport/MongoEntityProcessor.java:88 | for every match whose space is not at index 10 (a one-digit month or day), the space stays in the first ten characters, the `T` lands at index 10, and the character there, a digit of the hour or the first colon, is dropped |
| DatePattern.SingleDigitMonthLosesHourDigit | src/main/java/org/apache/solr/handler/dataimport/MongoEntityProcessor.java:88 | with a one-digit month the fixed offsets give "2020-1-05 T0:20:30Z" |
| DatePattern.BackslashSeparatorsDropped | src/main/java/org/apache/solr/handler/dataimport/MongoEntityProcessor.java:89 | backslash separators of a match are dropped from the appended text |
| EntityProcessor.GetDeltaImportQuery | src/main/java/org/apache/solr/handler/dataimport/MongoEntityProcessor.java:108-110 | `getDeltaImportQuery` hands back the query it is given, unchanged |
| EntityProcessor.GetQuery | src/main/java/org/apache/solr/handler/dataimport/MongoEntityProcessor.java:95-110 | a delta import or delta search uses `deltaImportQuery` when present; every other case uses `query` |
| EntityProcessor.MongoEntityProcessor.constructor | src/main/java/org/apache/solr/handler/dataimport/MongoEntityProcessor.java:20-30 | no collection, no query, no iterator |
| EntityProcessor.MongoEntityProcessor.Init | src/main/java/org/apache/solr/handler/dataimport/MongoEntityProcessor.java:38-47 | the collection is recorded; without one, SEVERE "Collection must be supplied" |
| EntityProcessor.MongoEntityProcessor.InitQuery | src/main/java/org/apache/solr/handler/dataimport/MongoEntityProcessor.java:54-66 | the rewritten query is issued once against the collection and remembered |
| EntityProcessor.MongoEntityProcessor.NextRow | src/main/java/org/apache/solr/handler/dataimport/MongoEntityProcessor.java:74-80 | the first call issues the chosen, token-replaced, rewritten query; later calls issue nothing within this model (the framework's `getNext`, which can clear the iterator, is left out); a missing query fails |
| EntityProcessor.TwoRows | src/main/java/org/apache/solr/handler/dataimport/MongoEntityProcessor.java:74-80 | within this model, two `nextRow` calls issue exactly one query |
| MapperTransformer.MappedValue | src/main/java/org/apache/solr/handler/dataimport/MongoMapperTransformer.java:42-64 | the row's value under `mongoField` (null when absent), converted only for a string with a `dateFormat` |
| MapperTransformer.ApplyField | src/main/java/org/apache/solr/handler/dataimport/MongoMapperTransformer.java:33-67 | a field without `mongoField` changes nothing; any other writes its column and nothing else |
| MapperTransformer.TransformRow | src/main/java/org/apache/solr/handler/dataimport/MongoMapperTransformer.java:31-71 | the same row object is returned, updated in place field by field in order |
| MapperTransformer.TransformedAppend | src/main/java/org/apache/solr/handler/dataimport/MongoMapperTransformer.java:33 | later fields read what earlier fields wrote |
| MapperTransformer.TransformedKeys | src/main/java/org/apache/solr/handler/dataimport/MongoMapperTransformer.java:66 | the row gains exactly the columns of the fields that have a `mongoField` |
| MapperTransformer.UntouchedKeysKept | src/main/java/org/apache/solr/handler/dataimport/MongoMapperTransformer.java:36-38 | an entry no applying field writes is kept as it was |
| MapperTransformer.LastWriterWins | src/main/java/org/apache/solr/handler/dataimport/MongoMapperTransformer.java:66 | the last field writing a column decides its value |
| LegacyMapperTransformer.CopyField | src/main/org/apache/solr/handler/dataimport/MongoMapperTransformer.java:26-33 | the value under `mongoField` (null when absent) is copied to the column, nothing else changes |
| LegacyMapperTransformer.TransformRow | src/main/org/apache/solr/handler/dataimport/MongoMapperTransformer.java:23-38 | the same row object is returned, updated in place field by field |
| LegacyMapperTransformer.WithoutDateFormats | src/main/org/apache/solr/handler/dataimport/MongoMapperTransformer.java:25-35 | the fields, each without its `dateFormat` |
| LegacyMapperTransformer.CopiedIsTransformedWithoutDates | src/main/org/apache/solr/handler/dataimport/MongoMapperTransformer.java:23-38 | the older transformer is the current one on fields without date formats |

## Left out

- Connecting to MongoDB is left out: the `MongoClient`, credentials,
  read preference, `getData`'s `find` with the query read by `JSON.parse` and
  cast to `BasicDBObject`, and the outer `close`. Their failures ("Unable to
  connect to Mongo", a query that is not JSON, a query that parses to
  something other than a `BasicDBObject`) are not modelled. `Init` records the seeds and the database and sets
  `connected`.
- The driver cursor is abstracted as its documents, a position and the point
  at which its `hasNext` throws. Failures of the driver's `next` and of its
  `close` are not modelled; `close` only logs them.
- `JSON.parse(document.toJson())` is the parameter `Reparse`, because the
  driver's JSON codec is not part of this model.
- `SimpleDateFormat.parse` with a configured pattern is the parameter
  `Parser`. Lenient parsing, time zones and the literal `Z` written for local
  time are not modelled. Years of 10000 and later are printed but not
  round-tripped.
- `getNext`, `EntityProcessorBase` and `Context` are not part of this model.
  `context.replaceTokens` is a parameter (total on strings). A missing query
  fails as the NullPointerException `Matcher` raises on null text. Logging
  and `QUERY_COUNT` are left out.
- The older `MongoEntityProcessor` is not part of this model.
- `HashSet` iteration order is unknown: when several keys fail, `GetARow`
  promises only that the failure is the failure of some key.
- BSON scalars other than strings, booleans and integers (doubles, dates,
  object ids and the like) have no case of their own in `Value`: every code
  path treats all non-string scalars alike, so `Num` and `Bool` stand for
  them.
- Document integers are unbounded and only ASCII digits are digits.
  `ServerAddress` does not check the port range.
- `new ServerAddress` is kept as the raw (host, port) pair: the driver's
  trimming and lower-casing of the host, its default for an empty host, its
  splitting of a `host:port` host and the IllegalArgumentException it throws
  when such a host also gets an explicit non-default port are not modelled.
  `Init` therefore accepts a host such as `a:1` with port `5`, which the
  driver rejects.
- The cursor reference held separately by the data source and by the
  iterator is one `Cursor` object here.
- A field whose `column` is absent (a `null` key in the row) cannot occur,
  because the import framework requires `column` on every field.
- DatePattern.ReplaceDateTimeToISODateTime: the rewrite is modelled as the
  code computes it. A one-digit month or day yields a misplaced `T` and
  drops a character of the time; a one-digit hour, minute or second after a
  padded date gets its `T` in the right place but stays a non-ISO time.
  Backslash separators are dropped. Both are stated as lemmas
  rather than corrected.

## Findings

| source | as written | input that shows it | evidently intended | confidence | as-written member | corrected member |
|---|---|---|---|---|---|---|
| src/main/java/org/apache/solr/handler/dataimport/MongoDataSource.java:172 | `mapMongoFields == "true"` compares references, so only the default literal from line 50 passes | the data source configured with `mapMongoFields="true"`: the property value is a distinct `String`, so flattening is switched off | flatten unless the property is set to something other than "true" (`"true".equals(mapMongoFields)`) | not executed | DataSource.MapsMongoFieldsAsWritten | DataSource.MapsMongoFields |
