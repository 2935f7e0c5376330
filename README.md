# IGinX routing helpers and storage adapters, modelled in Dafny

This project models the part of IGinX that decides where a data statement goes, and two of its
storage adapters:

- **Routing helpers** (`PolicyUtils`). These give the path list of a data statement, the sorted
  wildcard-free prefixes of a list of path patterns, and the key interval a statement touches.
- **The InfluxDB adapter** (`InfluxServer`, `InfluxQueries`, `InfluxPoints`, `InfluxAdapter`):
  - task dispatch;
  - the Flux statements of queries and history queries, with the tag regular expressions;
  - the points an insert writes from a bitmap-compressed batch;
  - the bucket cache kept by inserts and deletes;
  - the requests a ranged delete sends;
  - the boundary of the history data.
- **The Redis adapter** (`RedisServer`, `RedisAdapter`). It stores a path of a storage unit as
  the hash `values:<unit>:<path>` plus the sorted set `keys:<unit>:<path>`, and records its type
  in the hash `data:type`. The model covers insert, whole and ranged delete, path discovery,
  queries, history queries and the storage boundary. Redis itself is an in-memory keyspace whose
  commands are functions (`WRONGTYPE` on a key of the wrong kind, empty aggregates removed).
- **The history column** of the Redis adapter (`RedisColumns`). Its constructors normalise a
  string, list or set into the cells `"0"`, `"1"`, ….
- **The unary expression node** of the SQL layer (`UnaryExpressions`).

How the Java becomes Dafny:

- Objects whose fields the Java updates become classes:
  - the InfluxDB adapter, with its bucket caches;
  - the InfluxDB client's server state;
  - the Redis connection.
- Their methods are proved against specification functions. For example, the Redis adapter's
  methods are proved against `InsertBatch`, `DeleteAll`, `DeleteRanges` and `ProjectColumns`,
  and the InfluxDB methods against `QueryStatement`, `Grouped` and `InsertPoints`. Lemmas then
  state what those functions guarantee.
- Iteration over Java hash sets and maps has no fixed order, so the model picks the next element
  with `:|`.
- Collaborators whose code is not part of this model become function parameters:
  - `InfluxDBSchema` is `schemaOf`; `SchemaTransformer.processPatternForQuery` is
    `processPattern`; `StringUtils.nextString` is `nextString`;
  - the date formatter is `format`; the tag filter of `TagKVUtils.match` is `tagFilter`;
  - the record times reported by the InfluxDB `first()`/`last()` queries are `firstTimes` and
    `lastTimes`.

## Model

| member | source | states |
|---|---|---|
| PolicyUtils.PathListFromStatement | core/src/main/java/cn/edu/tsinghua/iginx/policy/Utils.java:15-28 | a select gives exactly the members of its path set, once each; a delete or insert gives its paths unchanged; any other statement gives the empty list |
| PolicyUtils.NonWildCardPaths | core/src/main/java/cn/edu/tsinghua/iginx/policy/Utils.java:30-54 | the result is strictly ascending; x is in it iff some input path contributes x (`CutPath`); every path without the placeholder is in it unchanged |
| PolicyUtils.LevelsBefore | core/src/main/java/cn/edu/tsinghua/iginx/policy/Utils.java:42-45 | the count of levels before the first level equal to the placeholder: none of those levels is the placeholder, and the next one is |
| PolicyUtils.CutPathIsLevelPrefix | core/src/main/java/cn/edu/tsinghua/iginx/policy/Utils.java:37-51 | a wildcard pattern whose first level is neither empty nor the placeholder contributes the separator-join of the levels before its first placeholder level (at least one); that join is a prefix of the pattern; a level such as `b*c` does not stop the cut |
| PolicyUtils.LevelPrefixFromNonEmpty | core/src/main/java/cn/edu/tsinghua/iginx/policy/Utils.java:41-50 | once the builder is non-empty, the builder loop yields the separator-join of the builder and the levels before the first placeholder level |
| PolicyUtils.TimeIntervalFromDataStatement | core/src/main/java/cn/edu/tsinghua/iginx/policy/Utils.java:56-85 | an insert gives [first key, last key] with no +1, and fails on an empty key list; a select passes its times through; a delete gives the least begin key and the greatest end key, with 0 and Long.MAX_VALUE when no range moves a sentinel (so [0, Long.MAX_VALUE) with no ranges); anything else gives [0, Long.MAX_VALUE) |
| Strings.JoinSplitAll | core/src/main/java/cn/edu/tsinghua/iginx/policy/Utils.java:37 | joining the pieces of a split on c with c gives the string back |
| Strings.SortedInsert | core/src/main/java/cn/edu/tsinghua/iginx/policy/Utils.java:31-34 | adding to the tree set keeps it strictly sorted, adds exactly x, and changes nothing when x is already present |
| Strings.SortedList | dataSources/influxdb/src/main/java/cn/edu/tsinghua/iginx/influxdb/InfluxDBStorage.java:148-149 | a key set listed and sorted with `String::compareTo` is strictly ascending in UTF-16 code-unit order and has exactly the keys |
| Strings.StrLessTotal | dataSources/redis/src/main/java/cn/edu/tsinghua/iginx/redis/RedisStorage.java:347 | Java's code-unit lexicographic order is total on distinct strings (with `StrLessIrreflexive` and `StrLessTransitive`, a strict order) |
| Strings.SupplementaryBeforePrivateUse | dataSources/influxdb/src/main/java/cn/edu/tsinghua/iginx/influxdb/InfluxDBStorage.java:149 | a character above U+FFFF sorts before U+FFFF and after U+D7FF, as its high surrogate does in `String::compareTo` |
| Strings.JavaSplit | dataSources/redis/src/main/java/cn/edu/tsinghua/iginx/redis/RedisStorage.java:272 | `split` on one character: no piece holds the separator; a string without it is one piece; with it, the trailing empty pieces are dropped |
| Strings.NatToStringInjective | dataSources/redis/src/main/java/cn/edu/tsinghua/iginx/redis/entity/Column.java:25 | distinct indices give distinct `String.valueOf` keys |
| UnaryExpressions.NewUnaryFacts | core/src/main/java/cn/edu/tsinghua/iginx/sql/expression/UnaryExpression.java:9-40 | the two-argument constructor gives a node without an alias; the alias changes neither the column name nor the type |
| UnaryExpressions.ColumnNameEndsWithInnermost | core/src/main/java/cn/edu/tsinghua/iginx/sql/expression/UnaryExpression.java:28-30 | stacked unary nodes only prepend text: the innermost expression's column name is a suffix of the whole column name, which is longer by at least one character per operator |
| UnaryExpressions.ColumnNameDeterminesInner | core/src/main/java/cn/edu/tsinghua/iginx/sql/expression/UnaryExpression.java:28-30 | two nodes with the same operator and the same column name have inner expressions with the same column name: the name reads back |
| RedisColumns.PathColumn | dataSources/redis/src/main/java/cn/edu/tsinghua/iginx/redis/entity/Column.java:38-42 | the path-only column has no cells and type BINARY |
| RedisColumns.ValueColumn | dataSources/redis/src/main/java/cn/edu/tsinghua/iginx/redis/entity/Column.java:17-20 | the single-value column is exactly {"0" ↦ value}, type BINARY |
| RedisColumns.ListColumn | dataSources/redis/src/main/java/cn/edu/tsinghua/iginx/redis/entity/Column.java:22-27 | the list column's keys are exactly "0".."n-1", and cell `String.valueOf(i)` holds `values[i]` |
| RedisColumns.SetColumn | dataSources/redis/src/main/java/cn/edu/tsinghua/iginx/redis/entity/Column.java:29-36 | the set column has exactly \|values\| cells keyed "0".."n-1", and its cell values are exactly the set's members |
| RedisServer.StarMatchesAll | dataSources/redis/src/main/java/cn/edu/tsinghua/iginx/redis/RedisStorage.java:346 | the pattern `*` matches every key |
| RedisServer.GlobPrefixMatches | dataSources/redis/src/main/java/cn/edu/tsinghua/iginx/redis/RedisStorage.java:267-269 | the pattern p followed by `*` matches p followed by anything |
| RedisServer.HSetKeepsFields | dataSources/redis/src/main/java/cn/edu/tsinghua/iginx/redis/RedisStorage.java:310-311 | a successful HSET never removes a field or a key: the hash then holds every given field at its given value, every other old field unchanged, and nothing else |
| RedisServer.ZAddKeepsMembers | dataSources/redis/src/main/java/cn/edu/tsinghua/iginx/redis/RedisStorage.java:313-314 | a successful ZADD never removes a member or a key: the sorted set then holds every given member at its given score, every other old member unchanged, and nothing else |
| RedisAdapter.KeysDistinct | dataSources/redis/src/main/java/cn/edu/tsinghua/iginx/redis/RedisStorage.java:44-48 | the values key, the sorted-set key and "data:type" never collide, and each path of a unit has its own keys |
| RedisAdapter.ParseTypeName | dataSources/redis/src/main/java/cn/edu/tsinghua/iginx/redis/RedisStorage.java:111-113 | a recognised type name reads back as the type it names; anything else reads as no type |
| RedisAdapter.TypeNameRoundTrip | dataSources/redis/src/main/java/cn/edu/tsinghua/iginx/redis/RedisStorage.java:302 | a type written to "data:type" reads back as the same type |
| RedisAdapter.InsertPathEffect | dataSources/redis/src/main/java/cn/edu/tsinghua/iginx/redis/RedisStorage.java:309-316 | inserting one path succeeds iff each of its three keys holds the right kind and there is something to write; it merges the cells into the values hash and the keys into the sorted set, sets the path's type, and changes no other key |
| RedisAdapter.InsertBatchStops | dataSources/redis/src/main/java/cn/edu/tsinghua/iginx/redis/RedisStorage.java:317-320 | once a path fails, the rest of the batch writes nothing |
| RedisAdapter.InsertBatch | dataSources/redis/src/main/java/cn/edu/tsinghua/iginx/redis/RedisStorage.java:300-321 | an insert batch, path after path, never removes a key, whether it succeeds or stops at a failing path |
| RedisAdapter.InsertBatchStoresLast | dataSources/redis/src/main/java/cn/edu/tsinghua/iginx/redis/RedisStorage.java:300-321 | after a successful insert, every path's last write is stored: its cells in `values:<unit>:<path>`, its keys in `keys:<unit>:<path>`, and its type in "data:type" |
| RedisAdapter.InsertBatchKeepsPaired | dataSources/redis/src/main/java/cn/edu/tsinghua/iginx/redis/RedisStorage.java:300-321 | a successful insert of well-formed paths keeps every path's hash fields equal to its sorted-set members |
| RedisAdapter.InsertBatchOkHasKeys | dataSources/redis/src/main/java/cn/edu/tsinghua/iginx/redis/RedisStorage.java:309-320 | every path of a successful insert had keys to write |
| RedisAdapter.KeyRoundTrip | dataSources/redis/src/main/java/cn/edu/tsinghua/iginx/redis/RedisStorage.java:272-275 | a path free of ':' is read back from its sorted-set key |
| RedisAdapter.PathOfKey | dataSources/redis/src/main/java/cn/edu/tsinghua/iginx/redis/RedisStorage.java:272-275 | a path read back from a key is non-empty and free of ':' |
| RedisAdapter.StoredIsDiscovered | dataSources/redis/src/main/java/cn/edu/tsinghua/iginx/redis/RedisStorage.java:266-276 | a stored path free of ':' is found by a pattern equal to it |
| RedisAdapter.InsertedPathsAreDiscovered | dataSources/redis/src/main/java/cn/edu/tsinghua/iginx/redis/RedisStorage.java:260-321 | after a successful insert, path discovery finds every inserted path free of ':' |
| RedisAdapter.DeleteAllEffect | dataSources/redis/src/main/java/cn/edu/tsinghua/iginx/redis/RedisStorage.java:212-224 | a whole-path delete removes both keys of every path; when "data:type" is a hash (the only failure otherwise) it also removes exactly those paths' types; no other key changes |
| RedisAdapter.DeleteAll | dataSources/redis/src/main/java/cn/edu/tsinghua/iginx/redis/RedisStorage.java:212-224 | a whole-path delete never adds a key |
| RedisAdapter.DeleteAllKeepsPaired | dataSources/redis/src/main/java/cn/edu/tsinghua/iginx/redis/RedisStorage.java:212-224 | a whole-path delete keeps every path's hash fields equal to its sorted-set members |
| RedisAdapter.ClearRangeEffect | dataSources/redis/src/main/java/cn/edu/tsinghua/iginx/redis/RedisStorage.java:235-248 | one range step succeeds iff the sorted set may be read and, if it has members in range, the hash may take HDEL; it then removes exactly the members with score in [actualBegin, actualEnd] from the sorted set, and the same fields from the hash |
| RedisAdapter.ClearRange | dataSources/redis/src/main/java/cn/edu/tsinghua/iginx/redis/RedisStorage.java:235-248 | one range step never adds a key |
| RedisAdapter.ClearRangeFrame | dataSources/redis/src/main/java/cn/edu/tsinghua/iginx/redis/RedisStorage.java:235-248 | a range step changes only the two keys of its path |
| RedisAdapter.ClearRangeShrinks | dataSources/redis/src/main/java/cn/edu/tsinghua/iginx/redis/RedisStorage.java:244-247 | a range step only removes sorted-set members, anywhere |
| RedisAdapter.DeleteRangesStops | dataSources/redis/src/main/java/cn/edu/tsinghua/iginx/redis/RedisStorage.java:251-254 | once a step fails, the remaining steps change nothing |
| RedisAdapter.DeleteRanges | dataSources/redis/src/main/java/cn/edu/tsinghua/iginx/redis/RedisStorage.java:232-256 | a ranged delete, step after step, never adds a key |
| RedisAdapter.DeleteRangesClears | dataSources/redis/src/main/java/cn/edu/tsinghua/iginx/redis/RedisStorage.java:232-250 | after a successful ranged delete, no path keeps a key inside any deleted range |
| RedisAdapter.DeleteRangesKeepsPaired | dataSources/redis/src/main/java/cn/edu/tsinghua/iginx/redis/RedisStorage.java:232-250 | a successful ranged delete keeps every path's hash fields equal to its sorted-set members |
| RedisAdapter.DeleteRangesAppend | dataSources/redis/src/main/java/cn/edu/tsinghua/iginx/redis/RedisStorage.java:233-234 | running steps a then b is running b from where a left off |
| RedisAdapter.StepsPrefix | dataSources/redis/src/main/java/cn/edu/tsinghua/iginx/redis/RedisStorage.java:233-234 | the steps of the first paths come first |
| RedisAdapter.ProjectColumns | dataSources/redis/src/main/java/cn/edu/tsinghua/iginx/redis/RedisStorage.java:108-121 | a query succeeds iff every path reads without error; each column is a queried path with its recorded type and its whole values hash; every path with a recorded type has a column; there are at most as many columns as paths |
| RedisAdapter.MaxLength | dataSources/redis/src/main/java/cn/edu/tsinghua/iginx/redis/RedisStorage.java:361-384 | the greatest length among existing keys, reached by one of them; Long.MIN_VALUE iff no key exists |
| RedisAdapter.KeyBoundary | dataSources/redis/src/main/java/cn/edu/tsinghua/iginx/redis/RedisStorage.java:388-391 | the key interval starts at 0 and ends at the greatest length + 1, or at Long.MAX_VALUE when no length was found |
| RedisAdapter.BoundaryOfLengths | dataSources/redis/src/main/java/cn/edu/tsinghua/iginx/redis/RedisStorage.java:361-391 | over existing keys within Redis' limits, every key's length is below the end of the key interval, and with keys the end is one past some key's length |
| RedisAdapter.AsWrittenAgreesWithoutSets | dataSources/redis/src/main/java/cn/edu/tsinghua/iginx/redis/RedisStorage.java:363-387 | without plain sets, the length scan as written measures every key, as `MaxLength` does |
| RedisAdapter.MaxLengthAsWritten | dataSources/redis/src/main/java/cn/edu/tsinghua/iginx/redis/RedisStorage.java:363-387 | the scan as written is aborted iff some key is a plain set; then it reports `MaxLength` of the keys before the first set; otherwise `MaxLength` of all keys |
| RedisAdapter.AsWrittenMissesSets | dataSources/redis/src/main/java/cn/edu/tsinghua/iginx/redis/RedisStorage.java:372-374 | with a two-member set, the scan as written reports [0, Long.MAX_VALUE) where [0, 3) is due |
| RedisAdapter.Enumerate | dataSources/redis/src/main/java/cn/edu/tsinghua/iginx/redis/RedisStorage.java:174 | a set's elements listed once each, in some order |
| RedisAdapter.ListCellsOfSet | dataSources/redis/src/main/java/cn/edu/tsinghua/iginx/redis/RedisStorage.java:164-168 | a list column over the distinct elements of a set holds exactly that set |
| RedisAdapter.RedisStorage.InsertOne | dataSources/redis/src/main/java/cn/edu/tsinghua/iginx/redis/RedisStorage.java:309-316 | runs the three writes of one path, equal to `InsertPath` |
| RedisAdapter.RedisStorage.ExecuteInsert | dataSources/redis/src/main/java/cn/edu/tsinghua/iginx/redis/RedisStorage.java:296-323 | the keyspace becomes `InsertBatch` of the old one; it reports "execute insert in redis error" iff a path fails; without a connection nothing changes and a non-empty batch fails |
| RedisAdapter.RedisStorage.GetKeysByPattern | dataSources/redis/src/main/java/cn/edu/tsinghua/iginx/redis/RedisStorage.java:395-404 | the keys matching the pattern; none without a connection |
| RedisAdapter.RedisStorage.DeterminePathList | dataSources/redis/src/main/java/cn/edu/tsinghua/iginx/redis/RedisStorage.java:260-294 | x is listed iff the third piece of some key matching `keys:<unit>:<pattern>*` that splits into exactly three pieces is x, and the tag filter (if any) admits x; empty without a connection |
| RedisAdapter.RedisStorage.DeletedKeys | dataSources/redis/src/main/java/cn/edu/tsinghua/iginx/redis/RedisStorage.java:215-222 | the array handed to DEL names exactly the values and sorted-set keys of the paths |
| RedisAdapter.RedisStorage.DeletePaths | dataSources/redis/src/main/java/cn/edu/tsinghua/iginx/redis/RedisStorage.java:214-224 | DEL then HDEL, equal to `DeleteAll` |
| RedisAdapter.RedisStorage.DeleteOne | dataSources/redis/src/main/java/cn/edu/tsinghua/iginx/redis/RedisStorage.java:235-248 | one path and range, equal to `DeleteRange` |
| RedisAdapter.RedisStorage.DeletePathRanges | dataSources/redis/src/main/java/cn/edu/tsinghua/iginx/redis/RedisStorage.java:234-249 | every range of one path, equal to `DeleteRanges` over its steps |
| RedisAdapter.RedisStorage.DeleteRangesOf | dataSources/redis/src/main/java/cn/edu/tsinghua/iginx/redis/RedisStorage.java:233-250 | every range of every path, equal to `DeleteRanges` over all steps |
| RedisAdapter.RedisStorage.ExecuteDelete | dataSources/redis/src/main/java/cn/edu/tsinghua/iginx/redis/RedisStorage.java:195-258 | the paths are those discovery determines; no path means success and no change; no key ranges means `DeleteAll` (error "execute delete path in redis failure" on failure); key ranges mean `DeleteRanges` (error "execute delete data in redis failure") |
| RedisAdapter.RedisStorage.ExecuteProject | dataSources/redis/src/main/java/cn/edu/tsinghua/iginx/redis/RedisStorage.java:95-128 | the determined paths read as `ProjectColumns`; any read error, or no connection, gives "execute query path task in redis failure" |
| RedisAdapter.RedisStorage.ColumnsOfKey | dataSources/redis/src/main/java/cn/edu/tsinghua/iginx/redis/RedisStorage.java:144-184 | by TYPE: a string gives one cell; a list its items in order; a set or sorted set its members; a hash a `.key` column of its fields and a `.value` column whose cell i is the value of the field in cell i of `.key`; a missing key gives nothing |
| RedisAdapter.RedisStorage.ExecuteProjectDummy | dataSources/redis/src/main/java/cn/edu/tsinghua/iginx/redis/RedisStorage.java:131-192 | each key a pattern names (a pattern with `*` names the existing keys it matches, any other names itself) is read once, by `KeyColumns`, and the columns are concatenated; no connection gives "execute query history task in redis failure" |
| RedisAdapter.RedisStorage.KeyLength | dataSources/redis/src/main/java/cn/edu/tsinghua/iginx/redis/RedisStorage.java:364-383 | TYPE then the length command of one key (SCARD for a set) gives the key's element count, 1 for a string, and leaves Long.MIN_VALUE for a missing key |
| RedisAdapter.RedisStorage.LongestKey | dataSources/redis/src/main/java/cn/edu/tsinghua/iginx/redis/RedisStorage.java:363-384 | the loop over TYPE and the length commands (SCARD for a set) computes `MaxLength` |
| RedisAdapter.RedisStorage.GetBoundaryOfStorage | dataSources/redis/src/main/java/cn/edu/tsinghua/iginx/redis/RedisStorage.java:344-393 | the keys are listed sorted; the path interval is [prefix, nextString(prefix)) with a prefix, else [least key, nextString(greatest)), else (null, null); the key interval comes from the corrected length scan (SCARD for a set; see Findings): it starts at 0, its end exceeds every key's length and is one past some key's length, or is Long.MAX_VALUE with no key; without a connection no key is listed |
| InfluxServer.InfluxClient.FindBucket | dataSources/influxdb/src/main/java/cn/edu/tsinghua/iginx/influxdb/InfluxDBStorage.java:269 | the organisation has a bucket called `name` iff one is found, and the bucket found is the one called `name` |
| InfluxServer.InfluxClient.CreateBucket | dataSources/influxdb/src/main/java/cn/edu/tsinghua/iginx/influxdb/InfluxDBStorage.java:374 | a new bucket called `name` is added to the server, which keeps every bucket under its own name; nothing else changes |
| InfluxServer.InfluxClient.WritePoints | dataSources/influxdb/src/main/java/cn/edu/tsinghua/iginx/influxdb/InfluxDBStorage.java:425 | the points are recorded as written to the bucket iff the server accepts writes |
| InfluxServer.InfluxClient.DeleteBucket | dataSources/influxdb/src/main/java/cn/edu/tsinghua/iginx/influxdb/InfluxDBStorage.java:508 | the bucket leaves the server, which keeps every other bucket under its own name |
| InfluxServer.InfluxClient.Delete | dataSources/influxdb/src/main/java/cn/edu/tsinghua/iginx/influxdb/InfluxDBStorage.java:537-543 | the delete request is recorded |
| InfluxQueries.ClampEnd | dataSources/influxdb/src/main/java/cn/edu/tsinghua/iginx/influxdb/InfluxDBStorage.java:281-284 | Long.MAX_VALUE becomes Integer.MAX_VALUE*1000; every other end time is unchanged; the result never exceeds the input |
| InfluxQueries.EscapeTagPlain | dataSources/influxdb/src/main/java/cn/edu/tsinghua/iginx/influxdb/InfluxDBStorage.java:313-321 | a value without `.` or `*` is its own regular expression |
| InfluxQueries.UnescapeEscapeTag | dataSources/influxdb/src/main/java/cn/edu/tsinghua/iginx/influxdb/InfluxDBStorage.java:312-323 | the escaped tag regular expression can be read back to the value (`\.` for `.`, `.*` for `*`) |
| InfluxQueries.EscapeTagInjective | dataSources/influxdb/src/main/java/cn/edu/tsinghua/iginx/influxdb/InfluxDBStorage.java:312-323 | distinct tag values give distinct regular expressions |
| InfluxQueries.EscapeTagValue | dataSources/influxdb/src/main/java/cn/edu/tsinghua/iginx/influxdb/InfluxDBStorage.java:312-323 | the character loop computes `EscapeTag` |
| InfluxQueries.AppendClause | dataSources/influxdb/src/main/java/cn/edu/tsinghua/iginx/influxdb/InfluxDBStorage.java:299-334 | appends the parenthesised clause of one path: `=~ /.*/` for a `*` measurement or field, else equality; a tag value with `*` as an escaped regular expression, else equality; no tag test without a tag |
| InfluxQueries.AppendTagTest | dataSources/influxdb/src/main/java/cn/edu/tsinghua/iginx/influxdb/InfluxDBStorage.java:305-331 | appends nothing without a tag; for a tag value with `*` a match against its escaped regular expression, else an equality test |
| InfluxQueries.FilterStep | dataSources/influxdb/src/main/java/cn/edu/tsinghua/iginx/influxdb/InfluxDBStorage.java:296-299 | one more clause extends the " or "-joined filter by " or " (except the first) and the clause |
| InfluxQueries.BuildFilter | dataSources/influxdb/src/main/java/cn/edu/tsinghua/iginx/influxdb/InfluxDBStorage.java:292-335 | the filter builder loop yields the filter opening followed by the clauses of the paths joined by " or " |
| InfluxQueries.GenerateQueryStatement | dataSources/influxdb/src/main/java/cn/edu/tsinghua/iginx/influxdb/InfluxDBStorage.java:280-342 | the statement is `QueryStatement`: the clamped range, then no filter for exactly `["*"]`, else a single filter of the clauses joined by " or " in order |
| InfluxQueries.QueryStatement | dataSources/influxdb/src/main/java/cn/edu/tsinghua/iginx/influxdb/InfluxDBStorage.java:280-342 | the statement starts with the bucket's clamped range, and it is that range alone iff the paths are exactly `["*"]` |
| InfluxQueries.QueryStatementHasClause | dataSources/influxdb/src/main/java/cn/edu/tsinghua/iginx/influxdb/InfluxDBStorage.java:292-335 | unless the paths are exactly `["*"]`, the statement contains the clause of every path |
| InfluxQueries.GroupedJoinsQueries | dataSources/influxdb/src/main/java/cn/edu/tsinghua/iginx/influxdb/InfluxDBStorage.java:217-229 | a bucket has an entry iff some pattern names it, and its entry is its queries joined by " or " in pattern order |
| InfluxQueries.Grouped | dataSources/influxdb/src/main/java/cn/edu/tsinghua/iginx/influxdb/InfluxDBStorage.java:216-229 | the buckets with an entry are exactly the buckets of the processed patterns |
| InfluxQueries.QueriesOfNamed | dataSources/influxdb/src/main/java/cn/edu/tsinghua/iginx/influxdb/InfluxDBStorage.java:218-221 | a bucket's queries are exactly those of the patterns that name it |
| InfluxQueries.GroupPatterns | dataSources/influxdb/src/main/java/cn/edu/tsinghua/iginx/influxdb/InfluxDBStorage.java:216-229 | the grouping loop computes `Grouped` of the processed patterns |
| InfluxQueries.HistoryStatements | dataSources/influxdb/src/main/java/cn/edu/tsinghua/iginx/influxdb/InfluxDBStorage.java:231-250 | one statement per grouped bucket, over the clamped range, with no filter for the query `()` |
| InfluxPoints.Rank | dataSources/influxdb/src/main/java/cn/edu/tsinghua/iginx/influxdb/InfluxDBStorage.java:394-419 | the running `index` at position k never exceeds k |
| InfluxPoints.RankCounts | dataSources/influxdb/src/main/java/cn/edu/tsinghua/iginx/influxdb/InfluxDBStorage.java:394-419 | the running `index` at position k counts the set bits among the first k, and equals k iff all of them are set |
| InfluxPoints.RankMonotone | dataSources/influxdb/src/main/java/cn/edu/tsinghua/iginx/influxdb/InfluxDBStorage.java:394-419 | the running index never decreases |
| InfluxPoints.LinePoints | dataSources/influxdb/src/main/java/cn/edu/tsinghua/iginx/influxdb/InfluxDBStorage.java:395-420 | one point per set bit of a row or column |
| InfluxPoints.LinePointAt | dataSources/influxdb/src/main/java/cn/edu/tsinghua/iginx/influxdb/InfluxDBStorage.java:395-420 | the present cell at position j is point number Rank(j) of its line and reads value index Rank(j) |
| InfluxPoints.BatchPointsCount | dataSources/influxdb/src/main/java/cn/edu/tsinghua/iginx/influxdb/InfluxDBStorage.java:391-422 | an insert writes exactly one point per set bitmap bit |
| InfluxPoints.BatchPointsPrefix | dataSources/influxdb/src/main/java/cn/edu/tsinghua/iginx/influxdb/InfluxDBStorage.java:391-422 | the points of earlier rows (columns) precede those of later ones |
| InfluxPoints.BatchPointAt | dataSources/influxdb/src/main/java/cn/edu/tsinghua/iginx/influxdb/InfluxDBStorage.java:391-422 | the present cell j of line i is the point just after the earlier lines' points plus Rank(j) |
| InfluxPoints.RowCellPoint | dataSources/influxdb/src/main/java/cn/edu/tsinghua/iginx/influxdb/InfluxDBStorage.java:391-422 | row-oriented: the present cell (i, j) is a point of path j's schema, tags and type at timestamp i, reading value Rank(bitmap i, j) of row i |
| InfluxPoints.ColumnCellPoint | dataSources/influxdb/src/main/java/cn/edu/tsinghua/iginx/influxdb/InfluxDBStorage.java:457-487 | column-oriented: the present cell (i, j) is a point of path i's schema, tags and type at timestamp j, reading value Rank(bitmap i, j) of column i |
| InfluxPoints.AppendLine | dataSources/influxdb/src/main/java/cn/edu/tsinghua/iginx/influxdb/InfluxDBStorage.java:393-421 | the loop over one row or column with its running `index` appends `LinePoints` |
| InfluxPoints.RowPoints | dataSources/influxdb/src/main/java/cn/edu/tsinghua/iginx/influxdb/InfluxDBStorage.java:386-422 | the row-oriented loops compute `InsertPoints` |
| InfluxPoints.ColumnPoints | dataSources/influxdb/src/main/java/cn/edu/tsinghua/iginx/influxdb/InfluxDBStorage.java:457-487 | the column-oriented loops compute `InsertPoints` |
| InfluxAdapter.DeleteRequests | dataSources/influxdb/src/main/java/cn/edu/tsinghua/iginx/influxdb/InfluxDBStorage.java:534-546 | one request per pattern and time range |
| InfluxAdapter.DeleteRequestAt | dataSources/influxdb/src/main/java/cn/edu/tsinghua/iginx/influxdb/InfluxDBStorage.java:534-546 | request number i·\|ranges\|+k deletes range k of pattern i, with its measurement, field and tag in the condition |
| InfluxAdapter.UntaggedDeleteMatchesNull | dataSources/influxdb/src/main/java/cn/edu/tsinghua/iginx/influxdb/InfluxDBStorage.java:537-543 | a path without a tag deletes the points whose tag is the text "null", as `String.format` renders the missing tag |
| InfluxAdapter.FoldTimes | dataSources/influxdb/src/main/java/cn/edu/tsinghua/iginx/influxdb/InfluxDBStorage.java:165-172 | `Math.min`/`Math.max` over one query's record times keep minTime the least time seen (Long.MAX_VALUE if none) and maxTime the greatest, or 0 |
| InfluxAdapter.RecordTimesStep | dataSources/influxdb/src/main/java/cn/edu/tsinghua/iginx/influxdb/InfluxDBStorage.java:155-183 | the times of one more bucket are its first() and last() times |
| InfluxAdapter.InfluxDBStorage.GetOrCreateBucket | dataSources/influxdb/src/main/java/cn/edu/tsinghua/iginx/influxdb/InfluxDBStorage.java:364-381 | a cached bucket is returned and nothing changes; otherwise the server's bucket of that name, created if missing, is returned and cached; the bucket returned is the one called after the unit, the server's buckets become `Created` (unchanged on a cache hit, otherwise holding the unit's bucket), and every bucket stays filed under its own name |
| InfluxAdapter.InfluxDBStorage.InsertRowRecords | dataSources/influxdb/src/main/java/cn/edu/tsinghua/iginx/influxdb/InfluxDBStorage.java:363-432 | the unit's bucket is cached, the server's buckets become `Created` (the unit's bucket is created on the server only when neither the cache nor the organisation has it), and the batch's `InsertPoints` are written to it if the server accepts them; a failed write is swallowed; the delete requests and every other cache entry are unchanged |
| InfluxAdapter.InfluxDBStorage.InsertColumnRecords | dataSources/influxdb/src/main/java/cn/edu/tsinghua/iginx/influxdb/InfluxDBStorage.java:434-499 | as for rows, over a column-oriented batch: the unit's bucket is cached, the server's buckets become `Created`, and the batch's `InsertPoints` are written if the server accepts them |
| InfluxAdapter.InfluxDBStorage.ExecuteInsertTask | dataSources/influxdb/src/main/java/cn/edu/tsinghua/iginx/influxdb/InfluxDBStorage.java:344-361 | an insert always succeeds, caches the unit's bucket, leaves the server's buckets as `Created` (a bucket is added only for a unit neither cached nor on the server), and writes the batch's points to the unit's bucket when the server accepts them; no delete is sent |
| InfluxAdapter.InfluxDBStorage.ExecuteDeleteTask | dataSources/influxdb/src/main/java/cn/edu/tsinghua/iginx/influxdb/InfluxDBStorage.java:501-548 | it always succeeds; without time ranges the unit leaves the cache, and the unit's bucket leaves the server if it was cached; with time ranges the unit's bucket is cached, the server's buckets become `Created`, and `DeleteRequests` to the unit's bucket are sent; nothing is written; every bucket stays filed under its own name |
| InfluxAdapter.InfluxDBStorage.SendDeletes | dataSources/influxdb/src/main/java/cn/edu/tsinghua/iginx/influxdb/InfluxDBStorage.java:534-546 | sends exactly `DeleteRequests`, in order |
| InfluxAdapter.InfluxDBStorage.SendRangeDeletes | dataSources/influxdb/src/main/java/cn/edu/tsinghua/iginx/influxdb/InfluxDBStorage.java:536-545 | sends exactly `RangeRequests` of one pattern, in order |
| InfluxAdapter.InfluxDBStorage.ExecuteProjectTask | dataSources/influxdb/src/main/java/cn/edu/tsinghua/iginx/influxdb/InfluxDBStorage.java:267-278 | a unit without a bucket on the server gives an empty stream; otherwise the unit's `QueryStatement` |
| InfluxAdapter.InfluxDBStorage.ExecuteHistoryProjectTask | dataSources/influxdb/src/main/java/cn/edu/tsinghua/iginx/influxdb/InfluxDBStorage.java:216-254 | one statement per bucket some pattern names, each with the " or "-grouped queries of that bucket and the clamped end time |
| InfluxAdapter.InfluxDBStorage.Execute | dataSources/influxdb/src/main/java/cn/edu/tsinghua/iginx/influxdb/InfluxDBStorage.java:194-214 | other than exactly one Project, Insert or Delete operator gives "unsupported physical task" and changes nothing; a project changes nothing and streams the history buckets' `HistoryStatement`s for a dummy unit, and otherwise the unit's `QueryStatement` when the server has its bucket or an empty stream when not; an insert and a delete succeed with exactly the cache, server-bucket, write and delete effects of `ExecuteInsertTask` and `ExecuteDeleteTask` |
| InfluxAdapter.InfluxDBStorage.GetBoundaryOfStorage | dataSources/influxdb/src/main/java/cn/edu/tsinghua/iginx/influxdb/InfluxDBStorage.java:147-192 | no history bucket fails with "no data!"; otherwise the path interval is [least bucket name, nextString(greatest)); the time interval starts at the least record time (0 with none) and ends one past the greatest non-zero time (Long.MAX_VALUE when every time is 0 or there is none) |

## Left out

- I/O is left out: the network, connection pools, logging, `release()`, the InfluxDB
  constructor's connectivity check and `reloadHistoryData`. The names of the history buckets are
  a constructor argument of `InfluxDBStorage`; the filter that skips system buckets and buckets
  named `unit…` is not modelled.
- Concurrency is left out. The `synchronized` double-checked bucket creation is modelled as a
  sequential get-or-insert on the cache.
- Date formatting is the parameter `format`. Values are the opaque `Datum`, so the float, double
  and byte-array casts made while building points are not modelled.
- InfluxDB query results and row streams are not modelled. A query is represented by the Flux
  statements it sends (`Streamed`). The history query's results are the parameters `firstTimes`
  and `lastTimes`.
- `InfluxAdapter.InfluxDBStorage.GetBoundaryOfStorage` assumes every record time lies in
  [0, Integer.MAX_VALUE*1000), the range the boundary query asks for.
  - A greatest time of 0 leaves `maxTime` at its sentinel, so the interval then ends at
    Long.MAX_VALUE, as the code does.
- `InfluxAdapter.InfluxDBStorage.InsertRowRecords` and `InsertColumnRecords`: the "create bucket
  failure!" and "execute insert task in influxdb failure" paths are not modelled. A bucket is
  always found or created, so they cannot be reached.
- The InfluxDB path parser, `SchemaTransformer`, `TagKVUtils`, `DataViewWrapper` and
  `StringUtils.nextString` are not part of this model; they are parameters.
  - `Schema` holds at most the one tag the adapter reads (`InfluxDBSchema.TAG`), as the assertion
    in the query builder demands.
  - A Redis insert batch arrives already split into per-path cells and scores (`PathData`).
- `Strings.StrLess` compares strings of Unicode scalar values. A Java string holding an unpaired
  surrogate has no counterpart in the model.
- `RedisServer.GlobMatch` treats only `*` as special. Redis' `?`, `[...]` and `\` escapes are not
  modelled.
- Redis sorted-set scores are integers, not doubles.
- `RedisAdapter.RedisStorage.ColumnsOfKey` reads a sorted set's members in an unspecified order,
  not in score order as ZRANGE returns them. It states which members fill the cells, not in which order.
- `RedisAdapter.RedisStorage.ExecuteProjectDummy` inherits this through `KeyColumns`: the cells
  of a sorted-set column are its members in an unspecified order, not in score order.
- `RedisAdapter.RedisStorage.DeterminePathList` states which paths are listed, not how many times.
  A path matched by several patterns is listed once per match, as in the code.
- `RedisAdapter.RedisStorage.GetBoundaryOfStorage` requires every collection to be within Redis'
  limit of 2^32-1 elements. Only then does the greatest length + 1 fit in a long.
- `RedisStorage.getColumns` is not modelled: it is not among the operations covered here. The
  type names stored in "data:type" follow the `DataType` enum names. `DataTransformer` is not
  part of this model.
- `UnaryExpression.getOperator`, `getExpression` and `getAlias` are the fields of the
  `UnaryExpression` datatype.
- `Column.java`: the full constructor and the getters are the `Column` datatype's constructor and
  fields.
- `Operator.operatorToString` is not part of this model; it is the parameter `opText`.

## Findings

| source | as written | input that shows it | evidently intended | confidence | as-written member | corrected member |
|---|---|---|---|---|---|---|
| dataSources/redis/src/main/java/cn/edu/tsinghua/iginx/redis/RedisStorage.java:372-374 | a key of type "set" is measured with ZCARD, which Redis rejects with WRONGTYPE; the exception leaves the length loop, and the catch at line 385 keeps whatever maximum was found so far | a keyspace holding only the set `tags` = {"a", "b"}: the scan reports the key interval [0, Long.MAX_VALUE) | measure a set with SCARD, giving [0, 3) | not executed | RedisAdapter.AsWrittenMissesSets | RedisAdapter.RedisStorage.LongestKey |
