/**
 * The part of an InfluxDB 2 server that the InfluxDB adapter talks to: the buckets of its
 * organisation, the batches of points written and the delete requests received.
 */
module InfluxServer {

  import opened Wrappers
  import opened Shared

  /** A bucket, known by its name. */
  datatype Bucket = Bucket(name: string)

  /** A cell value in its textual form; the adapter's cast by data type is kept in the point. */
  datatype Datum = Datum(text: string)

  /** One point of line protocol at millisecond precision. */
  datatype Point = Point(measurement: string, tags: map<string, string>, field: string,
                         dataType: DataType, value: Datum, time: int)

  /** A batch of points written to the bucket named `bucket`. */
  datatype Write = Write(bucket: string, points: seq<Point>)

  /** A delete of the points between `start` and `stop` matching `condition`. */
  datatype DeleteRequest = DeleteRequest(start: int, stop: int, condition: string, bucket: Bucket)

  class InfluxClient {
    /** The organisation's buckets by name. */
    var buckets: map<string, Bucket>
    /** The batches written, oldest first. */
    var written: seq<Write>
    /** The delete requests received, oldest first. */
    var deletes: seq<DeleteRequest>
    /** Whether a write reaches the server; a failed write raises an error in the client. */
    var writable: bool

    /** Every bucket is filed under its own name. */
    predicate Valid()
      reads this
    {
      forall n :: n in buckets ==> buckets[n].name == n
    }

    /** A server whose organisation has one bucket per name in `names`. */
    constructor (names: set<string>, writable: bool)
      ensures Valid()
      ensures buckets.Keys == names && this.writable == writable
      ensures written == [] && deletes == []
    {
      buckets := map n | n in names :: Bucket(n);
      this.writable := writable;
      written := [];
      deletes := [];
    }

    /** `findBucketByName`: the bucket called `name`, when the organisation has one. */
    function FindBucket(name: string): (r: Option<Bucket>)
      requires Valid()
      reads this
      ensures r.Some? <==> name in buckets
      ensures r.Some? ==> r.value == Bucket(name)
    {
      if name in buckets then Some(buckets[name]) else None
    }

    /** `createBucket`: a new bucket called `name`, which the organisation then has. */
    method CreateBucket(name: string) returns (bucket: Bucket)
      requires Valid()
      modifies this
      ensures Valid()
      ensures bucket == Bucket(name)
      ensures buckets == old(buckets)[name := bucket]
      ensures written == old(written) && deletes == old(deletes) && writable == old(writable)
    {
      bucket := Bucket(name);
      buckets := buckets[name := bucket];
    }

    method WritePoints(bucket: Bucket, points: seq<Point>) returns (ok: bool)
      modifies this
      ensures ok == writable
      ensures written == if ok then old(written) + [Write(bucket.name, points)] else old(written)
      ensures buckets == old(buckets) && deletes == old(deletes) && writable == old(writable)
    {
      ok := writable;
      if ok {
        written := written + [Write(bucket.name, points)];
      }
    }

    method DeleteBucket(bucket: Bucket)
      requires Valid()
      modifies this
      ensures Valid() && bucket.name !in buckets
      ensures buckets == old(buckets) - {bucket.name}
      ensures written == old(written) && deletes == old(deletes) && writable == old(writable)
    {
      buckets := buckets - {bucket.name};
    }

    method Delete(request: DeleteRequest)
      modifies this
      ensures deletes == old(deletes) + [request]
      ensures buckets == old(buckets) && written == old(written) && writable == old(writable)
    {
      deletes := deletes + [request];
    }
  }
}
