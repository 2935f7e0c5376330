/**
 * The InfluxDB storage adapter: it routes a physical task to a query, an insert or a delete
 * against the server, keeps a cache of the buckets of its storage units, and reports the
 * boundary of the data found in history buckets.
 */
module InfluxAdapter {

  import opened Wrappers
  import opened Shared
  import opened Strings
  import opened InfluxServer
  import opened InfluxQueries
  import opened InfluxPoints

  datatype TaskError = NonExecutable(message: string) | ExecuteFailure(message: string)

  /** What a task gives back: nothing, the Flux statements whose results it streams, or an error. */
  datatype TaskResult = Done | Streamed(statements: map<string, string>) | Failed(error: TaskError)

  const UNSUPPORTED := NonExecutable("unsupported physical task")
  const NO_DATA := "no data!"

  /** The inclusive bounds of a delete's time range, as the range class computes them. */
  datatype TimeRange = TimeRange(actualBeginTime: Long, actualEndTime: Long)

  datatype Operator =
    | ProjectOp(patterns: seq<string>)
    | InsertOp(data: DataView)
    | DeleteOp(patterns: seq<string>, timeRanges: Option<seq<TimeRange>>)
    | OtherOp

  /** A physical task on one storage unit; `dummy` marks a unit that stands for history data. */
  datatype Task = Task(operators: seq<Operator>, unit: string, dummy: bool, timeInterval: KeyInterval)

  /**
   * The collaborators the adapter calls but that are not part of this model: the path parser,
   * the name of the tag key, the date formatter and the history pattern transformer.
   */
  datatype Environment = Environment(schemaOf: string -> Schema, tagKey: string, format: int -> string,
                                     processPattern: string -> (string, string))

  /** Whether a task has the single supported operator `execute` looks for. */
  predicate Supported(task: Task)
  {
    |task.operators| == 1 && !task.operators[0].OtherOp?
  }

  // ---------------------------------------------------------------------------------------
  // Deletes

  /** The condition of a ranged delete; a path without a tag gives the text "null", as Java formats it. */
  function DeleteCondition(schema: Schema): string
  {
    "_measurement=\"" + schema.measurement + "\" AND _field=\"" + schema.field + "\" AND t=\""
    + (if schema.tag.Some? then schema.tag.value else "null") + "\""
  }

  /**
   * A path without a tag deletes only the points whose tag holds the text "null": its
   * condition is that of the same measurement and field with the tag value "null".
   */
  lemma UntaggedDeleteMatchesNull(schema: Schema)
    requires schema.tag.None?
    ensures DeleteCondition(schema) == DeleteCondition(Schema(schema.measurement, schema.field, Some("null")))
  {
  }

  /** One request per schema and time range, schema by schema. */
  function DeleteRequests(schemas: seq<Schema>, ranges: seq<TimeRange>, bucket: Bucket): (r: seq<DeleteRequest>)
    ensures |r| == |schemas| * |ranges|
    decreases |schemas|
  {
    if schemas == [] then []
    else
      var n := |schemas| - 1;
      DeleteRequests(schemas[..n], ranges, bucket) + RangeRequests(schemas[n], ranges, bucket)
  }

  function RangeRequests(schema: Schema, ranges: seq<TimeRange>, bucket: Bucket): (r: seq<DeleteRequest>)
    ensures |r| == |ranges|
  {
    seq(|ranges|, k requires 0 <= k < |ranges| =>
      DeleteRequest(ranges[k].actualBeginTime, ranges[k].actualEndTime, DeleteCondition(schema), bucket))
  }

  /** The request for schema i and range k is the (i * |ranges| + k)-th. */
  lemma {:induction false} DeleteRequestAt(schemas: seq<Schema>, ranges: seq<TimeRange>, bucket: Bucket, i: nat, k: nat)
    requires i < |schemas| && k < |ranges|
    ensures i * |ranges| + k < |schemas| * |ranges|
    ensures DeleteRequests(schemas, ranges, bucket)[i * |ranges| + k]
            == DeleteRequest(ranges[k].actualBeginTime, ranges[k].actualEndTime, DeleteCondition(schemas[i]), bucket)
    decreases |schemas|
  {
    var n := |schemas| - 1;
    var m := |ranges|;
    assert (i + 1) * m <= |schemas| * m by {
      MulMonotone(i + 1, |schemas|, m);
    }
    assert i * m + k < (i + 1) * m;
    if i < n {
      assert schemas[..n][i] == schemas[i];
      DeleteRequestAt(schemas[..n], ranges, bucket, i, k);
    } else {
      assert n * m + k == |DeleteRequests(schemas[..n], ranges, bucket)| + k;
    }
  }

  lemma MulMonotone(a: nat, b: nat, m: nat)
    requires a <= b
    ensures a * m <= b * m
  {
  }

  // ---------------------------------------------------------------------------------------
  // Boundary

  /** Every time the first() and last() queries report for the buckets. */
  ghost function RecordTimes(buckets: set<Bucket>, firstTimes: string -> seq<Long>, lastTimes: string -> seq<Long>): set<int>
  {
    set b, t | b in buckets && t in firstTimes(b.name) + lastTimes(b.name) :: t
  }

  /**
   * `minTime` and `maxTime` as the boundary loop leaves them after seeing `seen`: the least
   * time (Long.MAX_VALUE if none), and the greatest time or 0, whichever is larger.
   */
  ghost predicate Tracks(seen: set<int>, minTime: Long, maxTime: Long)
  {
    && (seen == {} ==> minTime == LONG_MAX)
    && (seen != {} ==> minTime in seen && forall t :: t in seen ==> minTime <= t)
    && 0 <= maxTime && (maxTime == 0 || maxTime in seen) && (forall t :: t in seen ==> t <= maxTime)
    && (forall t :: t in seen ==> 0 <= t < CLAMPED_END)
  }

  ghost function Elements(s: seq<Long>): set<int>
  {
    set t | t in s
  }

  /** `Math.min` and `Math.max` over the record times of one query. */
  method FoldTimes(times: seq<Long>, ghost seen: set<int>, minTime: Long, maxTime: Long)
    returns (newMin: Long, newMax: Long)
    requires Tracks(seen, minTime, maxTime)
    requires forall t :: t in times ==> 0 <= t < CLAMPED_END
    ensures Tracks(seen + Elements(times), newMin, newMax)
  {
    newMin, newMax := minTime, maxTime;
    for i := 0 to |times|
      invariant Tracks(seen + Elements(times[..i]), newMin, newMax)
    {
      var time := times[i];
      assert time in times;
      assert times[..i + 1] == times[..i] + [time];
      assert Elements(times[..i + 1]) == Elements(times[..i]) + {time};
      newMin := if time <= newMin then time else newMin;
      newMax := if time >= newMax then time else newMax;
    }
    assert times[..|times|] == times;
  }

  lemma RecordTimesStep(done: set<Bucket>, b: Bucket, firstTimes: string -> seq<Long>, lastTimes: string -> seq<Long>)
    ensures RecordTimes(done + {b}, firstTimes, lastTimes)
            == RecordTimes(done, firstTimes, lastTimes) + Elements(firstTimes(b.name)) + Elements(lastTimes(b.name))
  {
    var all := RecordTimes(done + {b}, firstTimes, lastTimes);
    var parts := RecordTimes(done, firstTimes, lastTimes) + Elements(firstTimes(b.name)) + Elements(lastTimes(b.name));
    forall t | t in all ensures t in parts {
      var c :| c in done + {b} && t in firstTimes(c.name) + lastTimes(c.name);
    }
    forall t | t in parts ensures t in all {
      if t in Elements(firstTimes(b.name)) || t in Elements(lastTimes(b.name)) {
        assert t in firstTimes(b.name) + lastTimes(b.name);
      } else {
        var c :| c in done && t in firstTimes(c.name) + lastTimes(c.name);
      }
    }
  }

  /** The buckets the adapter works on. */
  class InfluxDBStorage {
    const client: InfluxClient
    /** The buckets of storage units, cached by unit name. */
    var bucketMap: map<string, Bucket>
    /** The buckets holding history data, by name. */
    var historyBucketMap: map<string, Bucket>

    /**
     * Every cached bucket is filed under its unit's name and every history bucket under its
     * own name, as the buckets are found and created by name, on a server that does the same.
     */
    predicate Valid()
      reads this, client
    {
      && client.Valid()
      && (forall u :: u in bucketMap ==> bucketMap[u].name == u)
      && (forall n :: n in historyBucketMap ==> historyBucketMap[n].name == n)
    }

    /** An adapter with an empty cache and one history bucket per name in `historyNames`. */
    constructor (client: InfluxClient, historyNames: set<string>)
      requires client.Valid()
      ensures Valid()
      ensures this.client == client && historyBucketMap.Keys == historyNames
      ensures bucketMap == map[]
    {
      this.client := client;
      historyBucketMap := map n | n in historyNames :: Bucket(n);
      bucketMap := map[];
    }

    /**
     * The cached bucket of a unit; on a miss, the organisation's bucket of that name, created
     * if there is none, which the cache then keeps.
     */
    method GetOrCreateBucket(unit: string) returns (bucket: Bucket)
      requires Valid()
      modifies this`bucketMap, client
      ensures Valid() && bucket.name == unit
      ensures unit in old(bucketMap) ==>
                bucket == old(bucketMap)[unit] && bucketMap == old(bucketMap) && client.buckets == old(client.buckets)
      ensures unit !in old(bucketMap) ==> bucketMap == old(bucketMap)[unit := bucket]
      ensures unit !in old(bucketMap) && unit in old(client.buckets) ==>
                bucket == old(client.buckets)[unit] && client.buckets == old(client.buckets)
      ensures unit !in old(bucketMap) && unit !in old(client.buckets) ==>
                bucket == Bucket(unit) && client.buckets == old(client.buckets)[unit := bucket]
      ensures bucket == Bucket(unit) && bucketMap == old(bucketMap)[unit := Bucket(unit)]
      ensures client.buckets == Created(old(bucketMap), old(client.buckets), unit)
      ensures client.written == old(client.written) && client.deletes == old(client.deletes)
      ensures client.writable == old(client.writable)
    {
      if unit in bucketMap {
        bucket := bucketMap[unit];
        assert bucketMap == bucketMap[unit := Bucket(unit)];
        return;
      }
      var found := client.FindBucket(unit);
      if found.None? {
        bucket := client.CreateBucket(unit);
      } else {
        bucket := found.value;
        assert client.buckets == client.buckets[unit := Bucket(unit)];
      }
      bucketMap := bucketMap[unit := bucket];
    }

    /**
     * The organisation's buckets once the unit's bucket has been looked up: unchanged on a
     * cache hit, and otherwise holding the unit's bucket, found or newly created.
     */
    static function Created(cache: map<string, Bucket>, buckets: map<string, Bucket>, unit: string): map<string, Bucket>
    {
      if unit in cache then buckets else buckets[unit := Bucket(unit)]
    }

    /** Writes the points of a row-oriented batch; a failed write is not reported. */
    method InsertRowRecords(unit: string, data: DataView, env: Environment) returns (bucket: Bucket)
      requires Shaped(data) && IsRowView(data)
      requires Valid()
      modifies this`bucketMap, client
      ensures Valid()
      ensures unit in bucketMap && bucket == bucketMap[unit] && bucket == Bucket(unit)
      ensures bucketMap == old(bucketMap)[unit := bucket]
      ensures unit in old(bucketMap) ==> bucket == old(bucketMap)[unit]
      ensures client.buckets == Created(old(bucketMap), old(client.buckets), unit)
      ensures client.written == old(client.written)
                + if client.writable then [Write(bucket.name, InsertPoints(data, env.schemaOf, env.tagKey))] else []
      ensures client.deletes == old(client.deletes) && client.writable == old(client.writable)
    {
      bucket := GetOrCreateBucket(unit);
      var points := RowPoints(data, env.schemaOf, env.tagKey);
      var ok := client.WritePoints(bucket, points);
    }

    /** Writes the points of a column-oriented batch; a failed write is not reported. */
    method InsertColumnRecords(unit: string, data: DataView, env: Environment) returns (bucket: Bucket)
      requires Shaped(data) && !IsRowView(data)
      requires Valid()
      modifies this`bucketMap, client
      ensures Valid()
      ensures unit in bucketMap && bucket == bucketMap[unit] && bucket == Bucket(unit)
      ensures bucketMap == old(bucketMap)[unit := bucket]
      ensures unit in old(bucketMap) ==> bucket == old(bucketMap)[unit]
      ensures client.buckets == Created(old(bucketMap), old(client.buckets), unit)
      ensures client.written == old(client.written)
                + if client.writable then [Write(bucket.name, InsertPoints(data, env.schemaOf, env.tagKey))] else []
      ensures client.deletes == old(client.deletes) && client.writable == old(client.writable)
    {
      bucket := GetOrCreateBucket(unit);
      var points := ColumnPoints(data, env.schemaOf, env.tagKey);
      var ok := client.WritePoints(bucket, points);
    }

    /** An insert always succeeds: the unit's bucket is cached and the batch's points are written if the server accepts them. */
    method ExecuteInsertTask(unit: string, data: DataView, env: Environment) returns (r: TaskResult)
      requires Shaped(data)
      requires Valid()
      modifies this`bucketMap, client
      ensures Valid()
      ensures r == Done
      ensures bucketMap == old(bucketMap)[unit := Bucket(unit)]
      ensures client.buckets == Created(old(bucketMap), old(client.buckets), unit)
      ensures client.written == old(client.written)
                + if client.writable then [Write(unit, InsertPoints(data, env.schemaOf, env.tagKey))] else []
      ensures client.deletes == old(client.deletes) && client.writable == old(client.writable)
    {
      var bucket;
      if IsRowView(data) {
        bucket := InsertRowRecords(unit, data, env);
      } else {
        bucket := InsertColumnRecords(unit, data, env);
      }
      r := Done;
    }

    /**
     * A delete without time ranges drops the unit's cached bucket, deleting it on the server
     * when it was cached; with time ranges it sends one delete per pattern and range to the
     * unit's bucket. Either way it succeeds.
     */
    method ExecuteDeleteTask(unit: string, patterns: seq<string>, timeRanges: Option<seq<TimeRange>>, env: Environment)
      returns (r: TaskResult)
      requires Valid()
      modifies this`bucketMap, client
      ensures Valid()
      ensures r == Done
      ensures timeRanges.None? || timeRanges.value == [] ==>
                && bucketMap == old(bucketMap) - {unit}
                && client.buckets == (if unit in old(bucketMap) then old(client.buckets) - {unit} else old(client.buckets))
                && client.deletes == old(client.deletes)
      ensures timeRanges.Some? && timeRanges.value != [] ==>
                && bucketMap == old(bucketMap)[unit := Bucket(unit)]
                && client.buckets == Created(old(bucketMap), old(client.buckets), unit)
                && client.deletes == old(client.deletes)
                     + DeleteRequests(Schemas(patterns, env.schemaOf), timeRanges.value, Bucket(unit))
      ensures client.written == old(client.written) && client.writable == old(client.writable)
    {
      if timeRanges.None? || |timeRanges.value| == 0 {
        if unit !in bucketMap {
          return Done;
        }
        var bucket := bucketMap[unit];
        bucketMap := bucketMap - {unit};
        client.DeleteBucket(bucket);
        return Done;
      }
      var bucket := GetOrCreateBucket(unit);
      var schemas := Schemas(patterns, env.schemaOf);
      SendDeletes(schemas, timeRanges.value, bucket);
      r := Done;
    }

    /** One delete request per schema and range, to the server. */
    method SendDeletes(schemas: seq<Schema>, ranges: seq<TimeRange>, bucket: Bucket)
      modifies client
      ensures client.deletes == old(client.deletes) + DeleteRequests(schemas, ranges, bucket)
      ensures client.buckets == old(client.buckets) && client.written == old(client.written)
      ensures client.writable == old(client.writable)
    {
      for i := 0 to |schemas|
        invariant client.deletes == old(client.deletes) + DeleteRequests(schemas[..i], ranges, bucket)
        invariant client.buckets == old(client.buckets) && client.written == old(client.written)
        invariant client.writable == old(client.writable)
      {
        assert schemas[..i + 1][..i] == schemas[..i] && schemas[..i + 1][i] == schemas[i];
        SendRangeDeletes(schemas[i], ranges, bucket);
      }
      assert schemas[..|schemas|] == schemas;
    }

    method SendRangeDeletes(schema: Schema, ranges: seq<TimeRange>, bucket: Bucket)
      modifies client
      ensures client.deletes == old(client.deletes) + RangeRequests(schema, ranges, bucket)
      ensures client.buckets == old(client.buckets) && client.written == old(client.written)
      ensures client.writable == old(client.writable)
    {
      for k := 0 to |ranges|
        invariant client.deletes == old(client.deletes) + RangeRequests(schema, ranges[..k], bucket)
        invariant client.buckets == old(client.buckets) && client.written == old(client.written)
        invariant client.writable == old(client.writable)
      {
        var range := ranges[k];
        var request := DeleteRequest(range.actualBeginTime, range.actualEndTime, DeleteCondition(schema), bucket);
        client.Delete(request);
        assert RangeRequests(schema, ranges[..k + 1], bucket) == RangeRequests(schema, ranges[..k], bucket) + [request];
      }
      assert ranges[..|ranges|] == ranges;
    }

    /** A query of the unit's bucket; a unit with no bucket on the server gives an empty stream. */
    method ExecuteProjectTask(unit: string, interval: KeyInterval, patterns: seq<string>, env: Environment)
      returns (r: TaskResult)
      requires client.Valid()
      ensures unit !in client.buckets ==> r == Streamed(map[])
      ensures unit in client.buckets ==>
                r == Streamed(map[unit := QueryStatement(unit, patterns, interval.startKey, interval.endKey,
                                                          env.format, env.schemaOf, env.tagKey)])
    {
      if client.FindBucket(unit).None? {
        return Streamed(map[]);
      }
      var statement := GenerateQueryStatement(unit, patterns, interval.startKey, interval.endKey,
                                              env.format, env.schemaOf, env.tagKey);
      r := Streamed(map[unit := statement]);
    }

    /**
     * A query of history buckets: one statement per bucket the patterns name, whose filter
     * joins the queries of that bucket's patterns.
     */
    method ExecuteHistoryProjectTask(interval: KeyInterval, patterns: seq<string>, env: Environment)
      returns (r: TaskResult)
      ensures r.Streamed?
      ensures r.statements.Keys == Grouped(Processed(patterns, env.processPattern)).Keys
      ensures forall b :: b in r.statements ==>
                r.statements[b] == HistoryStatement(b, Grouped(Processed(patterns, env.processPattern))[b],
                                                    env.format(interval.startKey), env.format(ClampEnd(interval.endKey)))
    {
      var bucketQueries := GroupPatterns(patterns, env.processPattern);
      var statements := HistoryStatements(bucketQueries, interval.startKey, interval.endKey, env.format);
      r := Streamed(statements);
    }

    /** Routes a task with exactly one supported operator; anything else is not executable. */
    method Execute(task: Task, env: Environment) returns (r: TaskResult)
      requires Valid()
      requires Supported(task) && task.operators[0].InsertOp? ==> Shaped(task.operators[0].data)
      modifies this`bucketMap, client
      ensures Valid()
      ensures client.writable == old(client.writable)
      ensures !Supported(task) ==>
                r == Failed(UNSUPPORTED) && bucketMap == old(bucketMap) && client.buckets == old(client.buckets)
                && client.written == old(client.written) && client.deletes == old(client.deletes)
      ensures Supported(task) && task.operators[0].ProjectOp? ==>
                r.Streamed? && bucketMap == old(bucketMap) && client.buckets == old(client.buckets)
                && client.written == old(client.written) && client.deletes == old(client.deletes)
      ensures Supported(task) && task.operators[0].ProjectOp? && task.dummy ==>
                var groups := Grouped(Processed(task.operators[0].patterns, env.processPattern));
                && r.statements.Keys == groups.Keys
                && forall b :: b in r.statements ==>
                     r.statements[b] == HistoryStatement(b, groups[b], env.format(task.timeInterval.startKey),
                                                         env.format(ClampEnd(task.timeInterval.endKey)))
      ensures Supported(task) && task.operators[0].ProjectOp? && !task.dummy ==>
                r == if task.unit in client.buckets
                     then Streamed(map[task.unit := QueryStatement(task.unit, task.operators[0].patterns,
                                                                   task.timeInterval.startKey, task.timeInterval.endKey,
                                                                   env.format, env.schemaOf, env.tagKey)])
                     else Streamed(map[])
      ensures Supported(task) && !task.operators[0].ProjectOp? ==> r == Done
      ensures Supported(task) && task.operators[0].InsertOp? ==>
                && bucketMap == old(bucketMap)[task.unit := Bucket(task.unit)]
                && client.buckets == InfluxDBStorage.Created(old(bucketMap), old(client.buckets), task.unit)
                && client.written == old(client.written)
                     + (if client.writable
                        then [Write(task.unit, InsertPoints(task.operators[0].data, env.schemaOf, env.tagKey))]
                        else [])
                && client.deletes == old(client.deletes)
      ensures Supported(task) && task.operators[0].DeleteOp? ==>
                var ranges := task.operators[0].timeRanges;
                && client.written == old(client.written)
                && (ranges.None? || ranges.value == [] ==>
                      && bucketMap == old(bucketMap) - {task.unit}
                      && client.buckets == (if task.unit in old(bucketMap) then old(client.buckets) - {task.unit}
                                            else old(client.buckets))
                      && client.deletes == old(client.deletes))
                && (ranges.Some? && ranges.value != [] ==>
                      && bucketMap == old(bucketMap)[task.unit := Bucket(task.unit)]
                      && client.buckets == InfluxDBStorage.Created(old(bucketMap), old(client.buckets), task.unit)
                      && client.deletes == old(client.deletes)
                           + DeleteRequests(Schemas(task.operators[0].patterns, env.schemaOf), ranges.value,
                                            Bucket(task.unit)))
    {
      if |task.operators| != 1 {
        return Failed(UNSUPPORTED);
      }
      match task.operators[0]
      case ProjectOp(patterns) =>
        if task.dummy {
          r := ExecuteHistoryProjectTask(task.timeInterval, patterns, env);
        } else {
          r := ExecuteProjectTask(task.unit, task.timeInterval, patterns, env);
        }
      case InsertOp(data) =>
        r := ExecuteInsertTask(task.unit, data, env);
      case DeleteOp(patterns, timeRanges) =>
        r := ExecuteDeleteTask(task.unit, patterns, timeRanges, env);
      case OtherOp =>
        r := Failed(UNSUPPORTED);
    }

    /**
     * The boundary of the history data: path names from the least bucket name to the successor
     * of the greatest; times from the least record time to one past the greatest. No history
     * bucket is an error; no record time gives [0, Long.MAX_VALUE).
     */
    method GetBoundaryOfStorage(nextString: string -> string, firstTimes: string -> seq<Long>, lastTimes: string -> seq<Long>)
      returns (r: Result<(ColumnsInterval, KeyInterval)>, ghost names: seq<string>)
      requires forall b :: b in historyBucketMap.Values ==> forall t :: t in firstTimes(b.name) ==> 0 <= t < CLAMPED_END
      requires forall b :: b in historyBucketMap.Values ==> forall t :: t in lastTimes(b.name) ==> 0 <= t < CLAMPED_END
      ensures StrictlySorted(names) && forall x :: x in names <==> x in historyBucketMap
      ensures r.Failure? <==> historyBucketMap == map[]
      ensures r.Failure? ==> r.error == NO_DATA
      ensures r.Success? ==> r.value.0 == ColumnsInterval(Some(names[0]), Some(nextString(names[|names| - 1])))
      ensures r.Success? ==>
                var times := RecordTimes(historyBucketMap.Values, firstTimes, lastTimes);
                var keys := r.value.1;
                && (times == {} ==> keys.startKey == 0)
                && (times != {} ==> keys.startKey in times && forall t :: t in times ==> keys.startKey <= t)
                && ((exists t :: t in times && t != 0) ==> keys.endKey - 1 in times && forall t :: t in times ==> t < keys.endKey)
                && ((forall t :: t in times ==> t == 0) ==> keys.endKey == LONG_MAX)
    {
      var sorted := SortedList(historyBucketMap.Keys);
      names := sorted;
      if |sorted| == 0 {
        assert forall x :: x !in historyBucketMap;
        return Failure(NO_DATA), names;
      }
      assert sorted[0] in historyBucketMap;
      var columns := ColumnsInterval(Some(sorted[0]), Some(nextString(sorted[|sorted| - 1])));
      var minTime: Long, maxTime: Long := LONG_MAX, 0;
      var buckets := historyBucketMap.Values;
      var rest := buckets;
      ghost var seen: set<int> := {};
      while rest != {}
        invariant rest <= buckets
        invariant seen == RecordTimes(buckets - rest, firstTimes, lastTimes)
        invariant Tracks(seen, minTime, maxTime)
        decreases rest
      {
        var bucket :| bucket in rest;
        RecordTimesStep(buckets - rest, bucket, firstTimes, lastTimes);
        assert buckets - (rest - {bucket}) == (buckets - rest) + {bucket};
        minTime, maxTime := FoldTimes(firstTimes(bucket.name), seen, minTime, maxTime);
        seen := seen + Elements(firstTimes(bucket.name));
        minTime, maxTime := FoldTimes(lastTimes(bucket.name), seen, minTime, maxTime);
        seen := seen + Elements(lastTimes(bucket.name));
        rest := rest - {bucket};
      }
      assert buckets - rest == buckets;
      if minTime == LONG_MAX {
        minTime := 0;
      }
      if maxTime == 0 {
        maxTime := LONG_MAX - 1;
      }
      r := Success((columns, KeyInterval(minTime, maxTime + 1)));
    }
  }
}
